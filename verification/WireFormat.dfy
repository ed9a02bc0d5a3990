/**
  What the host sees on the wire. The four control bytes are written out here: 7a starts a
  packet, 7b announces its last byte, 7c comes before a channel number, and 7d marks the next
  byte as sent with bit 5 changed.
 */
module WireFormat {
  import opened Bytes
  import opened Framing

  /** The bytes behind the escapes, for a reader that knows only the byte 7d. */
  function Unescaped(s: seq<byte>): seq<byte> {
    if s == [] then []
    else if s[0] == 0x7d && |s| > 1 then [((s[1] as bv8) ^ 0x20) as byte] + Unescaped(s[2..])
    else [s[0]] + Unescaped(s[1..])
  }

  /** How many bytes of a message have to be escaped. */
  function ControlBytes(d: seq<byte>): nat {
    if d == [] then 0 else (if 0x7a <= d[0] <= 0x7d then 1 else 0) + ControlBytes(d[1..])
  }

  lemma EscapedByte(b: byte)
    ensures Escaped(b) == if 0x7a <= b <= 0x7d then [0x7d, ((b as bv8) ^ 0x20) as int] else [b]
    ensures 0x7a <= b <= 0x7d ==> 0x5a <= Escaped(b)[1] <= 0x5d
    ensures 0x7a <= b <= 0x7d ==> ((Escaped(b)[1] as bv8) ^ 0x20) as int == b
  {
    FlipIsXor(b);
    FlipIsXor(Flip(b));
  }

  /** An escaped byte in front of anything is read back as the byte. */
  lemma ReadEscaped(b: byte, s: seq<byte>)
    ensures Unescaped(Escaped(b) + s) == [b] + Unescaped(s)
  {
    hide Escaped;
    EscapedByte(b);
    if 0x7a <= b <= 0x7d {
      assert (Escaped(b) + s)[2..] == s;
    } else {
      assert (Escaped(b) + s)[1..] == s;
    }
  }

  lemma {:induction false} NoControlBytes(d: seq<byte>)
    ensures forall b :: b in EscapeAll(d) ==> b != 0x7a && b != 0x7b && b != 0x7c
  {
    hide Escaped;
    if d != [] {
      EscapedByte(d[0]);
      NoControlBytes(d[1..]);
    }
  }

  lemma {:induction false} EscapedIsRead(d: seq<byte>)
    ensures Unescaped(EscapeAll(d)) == d
    ensures |EscapeAll(d)| == |d| + ControlBytes(d)
  {
    hide Escaped;
    if d != [] {
      EscapedByte(d[0]);
      ReadEscaped(d[0], EscapeAll(d[1..]));
      EscapedIsRead(d[1..]);
    }
  }

  /** The escaped form holds no control byte but 7d, says what it says, and is no longer than it has to be. */
  lemma EscapedForm(d: seq<byte>)
    ensures forall b :: b in EscapeAll(d) ==> b != 0x7a && b != 0x7b && b != 0x7c
    ensures Unescaped(EscapeAll(d)) == d
    ensures |EscapeAll(d)| == |d| + ControlBytes(d)
  {
    NoControlBytes(d);
    EscapedIsRead(d);
  }

  lemma EscapeOne(b: byte)
    ensures EscapeAll([b]) == Escaped(b)
  {
    hide Escaped;
    assert [b][1..] == [];
  }

  /**
    A packet starts at the only 7a, and the only 7b is in front of its last byte. What is
    between them and what is behind says the message.
   */
  lemma PacketForm(d: seq<byte>) returns (k: nat)
    requires d != []
    ensures 0 < k < |Packet(d)| && |Packet(d)| == |d| + ControlBytes(d) + 2
    ensures forall i :: 0 <= i < |Packet(d)| ==> (Packet(d)[i] == 0x7a <==> i == 0)
    ensures forall i :: 0 <= i < |Packet(d)| ==> (Packet(d)[i] == 0x7b <==> i == k)
    ensures 0x7c !in Packet(d)
    ensures Unescaped(Packet(d)[1..k]) == d[..|d| - 1] && Unescaped(Packet(d)[k + 1..]) == d[|d| - 1..]
  {
    hide EscapeAll, Escaped, Unescaped, ControlBytes, Packet;
    var first, last := d[..|d| - 1], d[|d| - 1..];
    EscapedForm(first);
    EscapedForm(last);
    ControlBytesSplit(first, last);
    assert first + last == d;
    PacketParts(d);
    k := 1 + |EscapeAll(first)|;
    MarkersStandOut(EscapeAll(first), EscapeAll(last));
  }

  lemma PacketParts(d: seq<byte>)
    requires d != []
    ensures Packet(d) == [0x7a] + EscapeAll(d[..|d| - 1]) + [0x7b] + EscapeAll(d[|d| - 1..])
  {
    hide EscapeAll, Escaped;
    EscapeOne(d[|d| - 1]);
    assert d[|d| - 1..] == [d[|d| - 1]];
  }

  /** Two markers in front of bytes that are no markers. */
  lemma MarkersStandOut(a: seq<byte>, z: seq<byte>)
    requires forall b :: b in a ==> b != 0x7a && b != 0x7b && b != 0x7c
    requires forall b :: b in z ==> b != 0x7a && b != 0x7b && b != 0x7c
    ensures var p, k := [0x7a] + a + [0x7b] + z, 1 + |a|;
            && (forall i :: 0 <= i < |p| ==> (p[i] == 0x7a <==> i == 0))
            && (forall i :: 0 <= i < |p| ==> (p[i] == 0x7b <==> i == k))
            && 0x7c !in p && p[1..k] == a && p[k + 1..] == z
  {
    var p, k := [0x7a] + a + [0x7b] + z, 1 + |a|;
    forall i | 0 <= i < |p|
      ensures (p[i] == 0x7a <==> i == 0) && (p[i] == 0x7b <==> i == k) && p[i] != 0x7c
    {
      if 0 < i < k {
        assert p[i] == a[i - 1] && a[i - 1] in a;
      } else if k < i {
        assert p[i] == z[i - k - 1] && z[i - k - 1] in z;
      }
    }
  }

  lemma {:induction false} ControlBytesSplit(a: seq<byte>, b: seq<byte>)
    ensures ControlBytes(a + b) == ControlBytes(a) + ControlBytes(b)
  {
    if a == [] {
      assert a + b == b;
    } else {
      assert (a + b)[1..] == a[1..] + b;
      ControlBytesSplit(a[1..], b);
    }
  }

  /** A channel header is 7c and the number, escaped if it is a control byte itself. */
  lemma HeaderForm(number: byte)
    ensures Header(number)[0] == 0x7c && |Header(number)| == if 0x7a <= number <= 0x7d then 3 else 2
    ensures forall b :: b in Header(number)[1..] ==> b != 0x7a && b != 0x7b && b != 0x7c
    ensures Unescaped(Header(number)[1..]) == [number]
  {
    hide EscapeAll, Escaped, Unescaped;
    EscapedForm([number]);
    EscapeOne(number);
    EscapedByte(number);
    assert Header(number)[1..] == Escaped(number);
  }
}
