/**
  The sending side of the host link: packets between SOP and EOP, escaped bytes, channel
  headers, and their way through a bounded buffer to a driver that takes what it likes.
 */
module Framing {
  import opened Bytes
  import Pow2

  const SOP: byte := 0x7a
  const EOP_PREFIX: byte := 0x7b
  const CHANNEL_PREFIX: byte := 0x7c
  const ESCAPE_PREFIX: byte := 0x7d
  const ESCAPE_XOR: bv8 := 0x20

  const WRITE_BUFFER_LEN := 128

  predicate NeedsEscape(b: byte) {
    SOP <= b <= ESCAPE_PREFIX
  }

  /** b ^ 0x20, on numbers. */
  function Flip(b: byte): byte {
    if b / 32 % 2 == 1 then b - 32 else b + 32
  }

  lemma BitFive(x: bv8)
    ensures x & 0x20 == 0 ==> x ^ 0x20 == x + 0x20 && x <= 0xdf
    ensures x & 0x20 != 0 ==> x ^ 0x20 == x - 0x20 && x >= 0x20
    ensures x & 0x20 != 0 <==> (x >> 5) & 1 == 1
  {
  }

  lemma BitFiveValue(x: bv8)
    ensures (x >> 5) & 1 == 1 <==> x as int / 32 % 2 == 1
  {
    var y := x >> 5;
    assert y as int == x as int / 32;
    assert y <= 7;
    assert y & 1 == 1 <==> y as int % 2 == 1;
  }

  lemma BitFiveChanged(x: bv8)
    ensures x <= 0xdf ==> (x + 0x20) as int == x as int + 32
    ensures x >= 0x20 ==> (x - 0x20) as int == x as int - 32
  {
  }

  lemma FlipOfBits(x: bv8)
    ensures (x ^ ESCAPE_XOR) as int == Flip(x as int)
  {
    BitFive(x);
    BitFiveValue(x);
    BitFiveChanged(x);
  }

  lemma FlipIsXor(b: byte)
    ensures ((b as bv8) ^ ESCAPE_XOR) as int == Flip(b)
  {
    hide Flip;
    Pow2.ByteValue(b);
    FlipOfBits(b as bv8);
  }

  function Escaped(b: byte): seq<byte> {
    if NeedsEscape(b) then [ESCAPE_PREFIX, Flip(b)] else [b]
  }

  function EscapeAll(d: seq<byte>): seq<byte> {
    if d == [] then [] else Escaped(d[0]) + EscapeAll(d[1..])
  }

  /** What is still to be sent of a message; the last byte of a packet is announced. */
  function Rest(d: seq<byte>, packetize: bool): seq<byte> {
    if d == [] then []
    else (if packetize && |d| == 1 then [EOP_PREFIX] else []) + Escaped(d[0]) + Rest(d[1..], packetize)
  }

  /** One packet on the wire. Nothing at all is sent for an empty message. */
  function Packet(d: seq<byte>): seq<byte> {
    if d == [] then []
    else [SOP] + EscapeAll(d[..|d| - 1]) + [EOP_PREFIX] + Escaped(d[|d| - 1])
  }

  lemma {:induction false} RestOfPacket(d: seq<byte>)
    requires d != []
    ensures Rest(d, true) == EscapeAll(d[..|d| - 1]) + [EOP_PREFIX] + Escaped(d[|d| - 1])
  {
    hide Escaped;
    if |d| > 1 {
      var t := d[1..];
      RestOfPacket(t);
      assert d[..|d| - 1] == [d[0]] + t[..|t| - 1];
      assert d[..|d| - 1][1..] == t[..|t| - 1];
      assert Escaped(d[0]) + (EscapeAll(t[..|t| - 1]) + [EOP_PREFIX] + Escaped(t[|t| - 1]))
          == Escaped(d[0]) + EscapeAll(t[..|t| - 1]) + [EOP_PREFIX] + Escaped(t[|t| - 1]);
    } else {
      assert d[1..] == [] && d[..0] == [];
      assert Rest(d, true) == [EOP_PREFIX] + Escaped(d[0]) + [];
    }
  }

  lemma {:induction false} RestUnpacketized(d: seq<byte>)
    ensures Rest(d, false) == EscapeAll(d)
  {
    if d != [] {
      RestUnpacketized(d[1..]);
    }
  }

  lemma NoRest(packetize: bool)
    ensures Rest([], packetize) == []
  {
  }

  lemma WholeMessage(d: seq<byte>, packetized: bool)
    ensures (if packetized && d != [] then [SOP] else []) + Rest(d, packetized)
            == if packetized then Packet(d) else EscapeAll(d)
  {
    hide EscapeAll, Escaped, Rest;
    RestUnpacketized(d);
    if d == [] {
      NoRest(packetized);
    } else {
      RestOfPacket(d);
    }
  }

  function Header(number: byte): seq<byte> {
    [CHANNEL_PREFIX] + Escaped(number)
  }

  class HostLink {
    /** All bytes the driver took so far. */
    var out: seq<byte>
    /** Channel whose header was sent last, or -1. */
    var sourceChannel: int
    /** How often the driver may still take nothing: it makes progress eventually. */
    var refusals: nat

    constructor (refusals: nat)
      ensures out == [] && sourceChannel == -1 && this.refusals == refusals
    {
      out := [];
      sourceChannel := -1;
      this.refusals := refusals;
    }

    /** The driver's write: takes any non-empty prefix, or nothing. */
    method DriverWrite(data: seq<byte>) returns (written: int)
      requires data != []
      modifies this
      ensures sourceChannel == old(sourceChannel)
      ensures written <= 0 ==> out == old(out) && refusals < old(refusals)
      ensures written > 0 ==> written <= |data| && out == old(out) + data[..written] && refusals == old(refusals)
    {
      var refuse: bool := *;
      if refuse && refusals > 0 {
        refusals := refusals - 1;
        return 0;
      }
      written :| 0 < written <= |data|;
      out := out + data[..written];
    }

    method WriteToHost(data: seq<byte>)
      modifies this
      ensures out == old(out) + data && sourceChannel == old(sourceChannel)
    {
      var ptr := 0;
      while ptr < |data|
        invariant 0 <= ptr <= |data|
        invariant out == old(out) + data[..ptr] && sourceChannel == old(sourceChannel)
        decreases |data| - ptr, refusals
      {
        var written := DriverWrite(data[ptr..]);
        if written > 0 {
          assert data[..ptr] + data[ptr..][..written] == data[..ptr + written];
          ptr := ptr + written;
        }
      }
      assert data[..ptr] == data;
    }

    /** peridot_sw_hostbridge_gen2_source. The chunk boundaries leave no trace in the stream. */
    method Source(number: byte, packetizedChannel: bool, d: seq<byte>, packetized: bool, reset: bool)
      modifies this
      ensures sourceChannel == number
      ensures out == old(out) + (if number != old(sourceChannel) || reset then Header(number) else [])
                     + (if packetized then Packet(d) else if packetizedChannel then d else EscapeAll(d))
    {
      hide Flip, EscapeAll, Packet;
      if number != sourceChannel || reset {
        var header := new byte[3];
        header[0] := CHANNEL_PREFIX;
        var writeLen;
        if NeedsEscape(number) {
          header[1] := ESCAPE_PREFIX;
          header[2] := Flip(number);
          writeLen := 3;
        } else {
          header[1] := number;
          writeLen := 2;
        }
        assert header[..writeLen] == Header(number);
        WriteToHost(header[..writeLen]);
        sourceChannel := number;
      }
      if packetizedChannel && !packetized {
        WriteToHost(d);
      } else {
        SendEscaped(d, packetized);
      }
    }

    /** The chunked branch of Source. */
    method SendEscaped(d: seq<byte>, packetized: bool)
      modifies this
      ensures sourceChannel == old(sourceChannel)
      ensures out == old(out) + if packetized then Packet(d) else EscapeAll(d)
    {
      hide EscapeAll, Escaped, Packet, Rest;
      var packetize := if packetized then 1 else 0;
      var buffer := new byte[WRITE_BUFFER_LEN + 2];
      var src := 0;
      ghost var all := (if packetized && d != [] then [SOP] else []) + Rest(d, packetized);
      WholeMessage(d, packetized);
      while src < |d|
        invariant 0 <= src <= |d|
        invariant packetize == (if !packetized then 0 else if src == 0 then 1 else -1)
        invariant sourceChannel == old(sourceChannel) && fresh(buffer)
        invariant out + (if packetize > 0 && d != [] then [SOP] else []) + Rest(d[src..], packetized) == old(out) + all
      {
        var writeLen := 0;
        if packetize > 0 {
          buffer[0] := SOP;
          writeLen := 1;
          packetize := -1;
        }
        ghost var sent := out;
        assert packetized && src == 0 ==> buffer[..1] == [SOP];
        assert sent + buffer[..writeLen] + Rest(d[src..], packetized) == old(out) + all;
        while writeLen < WRITE_BUFFER_LEN && src < |d|
          invariant 0 <= writeLen <= WRITE_BUFFER_LEN + 2 && 0 <= src <= |d|
          invariant writeLen == 0 ==> src < |d|
          invariant out == sent && sourceChannel == old(sourceChannel)
          invariant sent + buffer[..writeLen] + Rest(d[src..], packetized) == old(out) + all
          decreases |d| - src
        {
          writeLen := PutByte(buffer, writeLen, d, src, packetized, sent);
          src := src + 1;
        }
        assert 0 < src;
        ghost var rest := Rest(d[src..], packetized);
        WriteToHost(buffer[..writeLen]);
        assert out + [] + rest == sent + buffer[..writeLen] + rest;
      }
      assert d[src..] == [];
      NoRest(packetized);
      assert out + [] + [] == out;
    }
  }

  /** One pass of the byte loop: into the buffer go an EOP prefix if due and the escaped byte. */
  method PutByte(buffer: array<byte>, at: nat, d: seq<byte>, src: nat, packetized: bool, ghost sent: seq<byte>)
    returns (writeLen: nat)
    requires buffer.Length == WRITE_BUFFER_LEN + 2 && at < WRITE_BUFFER_LEN && src < |d|
    modifies buffer
    ensures at < writeLen <= at + 3
    ensures sent + buffer[..writeLen] + Rest(d[src + 1..], packetized) ==
              sent + old(buffer[..at]) + Rest(d[src..], packetized)
  {
    hide Flip;
    writeLen := at;
    ghost var was := buffer[..at];
    var b := d[src];
    ghost var eop := if packetized && |d| - src == 1 then [EOP_PREFIX] else [];
    if packetized && |d| - src == 1 {
      buffer[writeLen] := EOP_PREFIX;
      writeLen := writeLen + 1;
    }
    assert buffer[..writeLen] == was + eop;
    if NeedsEscape(b) {
      buffer[writeLen] := ESCAPE_PREFIX;
      writeLen := writeLen + 1;
      buffer[writeLen] := Flip(b);
      writeLen := writeLen + 1;
    } else {
      buffer[writeLen] := b;
      writeLen := writeLen + 1;
    }
    assert buffer[..writeLen] == was + eop + Escaped(b);
    var t := d[src..];
    assert t[1..] == d[src + 1..];
    assert Rest(t, packetized) == eop + Escaped(b) + Rest(t[1..], packetized);
    Regroup(sent, was, eop, Escaped(b), Rest(t[1..], packetized));
  }

  lemma Regroup(sent: seq<byte>, held: seq<byte>, prefix: seq<byte>, coded: seq<byte>, rest: seq<byte>)
    ensures sent + (held + prefix + coded) + rest == sent + held + (prefix + coded + rest)
  {
    assert (held + prefix + coded) + rest == held + (prefix + coded + rest);
    assert sent + (held + prefix + coded) + rest == sent + ((held + prefix + coded) + rest);
  }
}
