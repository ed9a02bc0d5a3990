/**
  The I2C master: one transfer as the sequence of access register writes it issues, and what
  this means on the bus.
 */
module I2cMaster {
  import opened Bytes
  import opened Errno

  const ADDRESS_10BIT := 0x8000

  /**
    One write to the access register: an optional start condition, a byte sent or received,
    the acknowledge given to a received byte, an optional stop condition.
   */
  datatype Op = Op(start: bool, stop: bool, receive: bool, nack: bool, data: byte)

  function StartOp(address: byte): Op { Op(true, false, false, false, address) }

  function SendOp(data: byte, stop: bool): Op { Op(false, stop, false, false, data) }

  function ReceiveOp(last: bool): Op { Op(false, last, true, last, 0) }

  const DUMMY_WRITE := Op(false, true, false, false, 0xff)
  const DUMMY_READ := Op(false, true, true, true, 0)

  /** The slaves: whether operation number n is not acknowledged, and the byte received in it. */
  datatype Bus = Bus(nack: nat -> bool, rx: nat -> byte)

  function SlaveAddress(address: nat): byte {
    address * 2 % 256
  }

  /** Sending w from byte i on, as operation n and following; stopping after the last byte if nothing follows. */
  function Sending(bus: Bus, n: nat, w: seq<byte>, i: nat, thenRead: bool): (r: (seq<Op>, int))
    requires i <= |w|
    decreases |w| - i
  {
    if i == |w| then ([], 0) else
    var last := i == |w| - 1 && !thenRead;
    if bus.nack(n) then ([SendOp(w[i], last)] + (if last then [] else [DUMMY_WRITE]), -ECANCELED)
    else
      var (ops, ret) := Sending(bus, n + 1, w, i + 1, thenRead);
      ([SendOp(w[i], last)] + ops, ret)
  }

  /** Receiving k more bytes. */
  function Receiving(k: nat): seq<Op> {
    if k == 0 then [] else [ReceiveOp(k == 1)] + Receiving(k - 1)
  }

  function WritePhase(bus: Bus, n: nat, saddr: byte, w: seq<byte>, thenRead: bool): (seq<Op>, int) {
    if w == [] then ([], 0)
    else if bus.nack(n) then ([StartOp(saddr), DUMMY_WRITE], -ENOENT)
    else var (ops, ret) := Sending(bus, n + 1, w, 0, thenRead); ([StartOp(saddr)] + ops, ret)
  }

  function ReadPhase(bus: Bus, n: nat, saddr: byte, k: nat): (seq<Op>, int) {
    if k == 0 then ([], 0)
    else if bus.nack(n) then ([StartOp((saddr + 1) % 256), DUMMY_READ], -ENOENT)
    else ([StartOp((saddr + 1) % 256)] + Receiving(k), 0)
  }

  /** The operations of a whole 7-bit transfer, and its result. */
  function Transfer(bus: Bus, n: nat, saddr: byte, w: seq<byte>, k: nat): (seq<Op>, int) {
    var (ops, ret) := WritePhase(bus, n, saddr, w, k > 0);
    if ret != 0 then (ops, ret)
    else var (more, ret') := ReadPhase(bus, n + |ops|, saddr, k); (ops + more, ret')
  }

  /** The bytes received in the operations from number at on. */
  predicate Received(bus: Bus, got: seq<byte>, at: nat) {
    forall j :: 0 <= j < |got| ==> got[j] == bus.rx(at + j)
  }

  class Master {
    const bus: Bus
    var trace: seq<Op>

    constructor (bus: Bus)
      ensures this.bus == bus && trace == []
    {
      this.bus := bus;
      trace := [];
    }

    /** Access register write, and the response waited for. */
    method Access(op: Op) returns (nack: bool, rx: byte)
      modifies this
      ensures trace == old(trace) + [op]
      ensures nack == bus.nack(|old(trace)|) && rx == bus.rx(|old(trace)|)
    {
      nack, rx := bus.nack(|trace|), bus.rx(|trace|);
      trace := trace + [op];
    }

    /** transfer. */
    method Run(address: nat, w: seq<byte>, readLength: nat) returns (ret: int, got: seq<byte>)
      modifies this
      ensures address / 0x8000 % 2 == 1 ==> ret == -ENOTSUP && trace == old(trace)
      ensures address / 0x8000 % 2 == 0 ==>
                var (ops, result) := Transfer(bus, |old(trace)|, SlaveAddress(address), w, readLength);
                && trace == old(trace) + ops && ret == result
                && (ret == 0 ==> |got| == readLength <= |trace| && Received(bus, got, |trace| - readLength))
    {
      got := [];
      if address / ADDRESS_10BIT % 2 == 1 {
        return -ENOTSUP, [];
      }
      var saddr := SlaveAddress(address);
      ret := RunWrite(saddr, w, readLength > 0);
      if ret != 0 {
        return;
      }
      ret, got := RunRead(saddr, readLength);
    }

    method RunWrite(saddr: byte, w: seq<byte>, thenRead: bool) returns (ret: int)
      modifies this
      ensures var (ops, result) := WritePhase(bus, |old(trace)|, saddr, w, thenRead);
              trace == old(trace) + ops && ret == result
    {
      hide Sending;
      ret := 0;
      if |w| > 0 {
        var nack, rx := Access(StartOp(saddr));
        if nack {
          nack, rx := Access(DUMMY_WRITE);
          return -ENOENT;
        }
        ret := SendAll(w, thenRead);
      }
    }

    method SendAll(w: seq<byte>, thenRead: bool) returns (ret: int)
      modifies this
      ensures var (ops, result) := Sending(bus, |old(trace)|, w, 0, thenRead);
              trace == old(trace) + ops && ret == result
    {
      ghost var (ops, result) := Sending(bus, |trace|, w, 0, thenRead);
      var i := 0;
      while i < |w|
        invariant 0 <= i <= |w|
        invariant trace + Sending(bus, |trace|, w, i, thenRead).0 == old(trace) + ops
        invariant Sending(bus, |trace|, w, i, thenRead).1 == result
      {
        var last := |w| - i == 1 && !thenRead;
        ghost var before, more := trace, Sending(bus, |trace| + 1, w, i + 1, thenRead).0;
        var nack, rx := Access(SendOp(w[i], last));
        if nack {
          if |w| - i > 1 || thenRead {
            nack, rx := Access(DUMMY_WRITE);
          }
          return -ECANCELED;
        }
        i := i + 1;
        assert trace + more == before + ([SendOp(w[i - 1], last)] + more);
      }
      return 0;
    }

    method RunRead(saddr: byte, readLength: nat) returns (ret: int, got: seq<byte>)
      modifies this
      ensures var (ops, result) := ReadPhase(bus, |old(trace)|, saddr, readLength);
              trace == old(trace) + ops && ret == result
      ensures ret == 0 ==> |got| == readLength <= |trace| && Received(bus, got, |trace| - readLength)
    {
      ret, got := 0, [];
      if readLength > 0 {
        var nack, rx := Access(StartOp((saddr + 1) % 256));
        if nack {
          nack, rx := Access(DUMMY_READ);
          return -ENOENT, [];
        }
        got := ReceiveAll(readLength);
        assert trace == old(trace) + ([StartOp((saddr + 1) % 256)] + Receiving(readLength));
      }
    }

    method ReceiveAll(readLength: nat) returns (got: seq<byte>)
      modifies this
      ensures trace == old(trace) + Receiving(readLength)
      ensures |got| == readLength <= |trace| && Received(bus, got, |trace| - readLength)
    {
      got := [];
      var k := readLength;
      while k > 0
        invariant 0 <= k <= readLength && |got| == readLength - k
        invariant trace + Receiving(k) == old(trace) + Receiving(readLength)
        invariant |trace| >= |got| && Received(bus, got, |trace| - |got|)
      {
        ghost var before := trace;
        var nack, rx := Access(ReceiveOp(k == 1));
        got := got + [rx];
        k := k - 1;
        assert trace + Receiving(k) == before + Receiving(k + 1);
      }
    }
  }

  // ---- what it means on the bus --------------------------------------------------------

  /** Operations with a stop condition only at the very end, if asked for, and none elsewhere. */
  predicate StopsOnlyLast(ops: seq<Op>, stops: bool) {
    if ops == [] then !stops
    else (forall i :: 0 <= i < |ops| - 1 ==> !ops[i].stop) && ops[|ops| - 1].stop == stops
  }

  lemma {:induction false} SendingStops(bus: Bus, n: nat, w: seq<byte>, i: nat, thenRead: bool)
    requires i <= |w|
    ensures var (ops, ret) := Sending(bus, n, w, i, thenRead);
            && StopsOnlyLast(ops, if ret == 0 then i < |w| && !thenRead else true)
            && (forall j :: 0 <= j < |ops| ==> !ops[j].start && !ops[j].receive)
            && (ret == 0 ==> |ops| == |w| - i)
    decreases |w| - i
  {
    if i < |w| && !bus.nack(n) {
      SendingStops(bus, n + 1, w, i + 1, thenRead);
    }
  }

  lemma {:induction false} ReceivingStops(k: nat)
    ensures StopsOnlyLast(Receiving(k), k > 0) && |Receiving(k)| == k
    ensures forall j :: 0 <= j < k ==> Receiving(k)[j] == Op(false, j == k - 1, true, j == k - 1, 0)
  {
    if k > 0 {
      ReceivingStops(k - 1);
    }
  }

  /**
    Bus release. Whatever the slaves acknowledge, a transfer ends with exactly one stop
    condition if it issued any start condition, and issues nothing at all if there is nothing
    to transfer.
   */
  lemma BusIsReleased(bus: Bus, n: nat, saddr: byte, w: seq<byte>, k: nat)
    ensures var (ops, ret) := Transfer(bus, n, saddr, w, k);
            && (ops == [] <==> w == [] && k == 0)
            && (ops != [] ==> ops[0].start && StopsOnlyLast(ops, true))
  {
    if w != [] {
      SendingStops(bus, n + 1, w, 0, k > 0);
    }
    ReceivingStops(k);
  }

  /** No operation from number n to the one before m is refused. */
  predicate Silent(bus: Bus, n: nat, m: int) {
    forall t :: n <= t < m ==> !bus.nack(t)
  }

  /** How many bytes of w, from i on, go out: up to and including the first one not acknowledged. */
  function Acked(bus: Bus, n: nat, w: seq<byte>, i: nat): (m: nat)
    requires i <= |w|
    ensures m <= |w| - i
    decreases |w| - i
  {
    if i == |w| then 0 else if bus.nack(n) then 1 else 1 + Acked(bus, n + 1, w, i + 1)
  }

  /** The data on the bus are the caller's, in order, up to the first byte that is not acknowledged. */
  lemma {:induction false} SendsInOrder(bus: Bus, n: nat, w: seq<byte>, i: nat, thenRead: bool)
    requires i <= |w|
    ensures var (ops, ret) := Sending(bus, n, w, i, thenRead);
            var m := Acked(bus, n, w, i);
            && m <= |ops| <= m + 1
            && (forall j :: 0 <= j < m ==> ops[j] == Op(false, i + j == |w| - 1 && !thenRead, false, false, w[i + j]))
            && (|ops| > m ==> ops[m] == Op(false, true, false, false, 0xff))
            && ret == (if Silent(bus, n, n + |w| - i) then 0 else -ECANCELED)
    decreases |w| - i
  {
    if i < |w| && !bus.nack(n) {
      SendsInOrder(bus, n + 1, w, i + 1, thenRead);
    }
  }

  /** Of the bytes received, the master refuses exactly the last, with the stop condition. */
  lemma OnlyLastRefused(bus: Bus, n: nat, saddr: byte, k: nat, j: nat)
    requires k > 0 && j < |ReadPhase(bus, n, saddr, k).0|
    ensures var ops := ReadPhase(bus, n, saddr, k).0;
            ops[j].receive ==> (ops[j].nack <==> j == |ops| - 1) && (ops[j].stop <==> j == |ops| - 1)
  {
    ReceivingStops(k);
  }

  /**
    What the result says: the device does not answer exactly if one of the addresses issued is
    refused, and the transfer is cancelled exactly if a data byte is.
   */
  lemma ResultTellsWhy(bus: Bus, n: nat, saddr: byte, w: seq<byte>, k: nat)
    ensures var ret := Transfer(bus, n, saddr, w, k).1;
            var read := if w == [] then n else n + 1 + |w|;
            var addressed := w == [] || !bus.nack(n);
            var sent := w == [] || Silent(bus, n + 1, n + 1 + |w|);
            ret == if !addressed then -ENOENT else if !sent then -ECANCELED
                   else if k > 0 && bus.nack(read) then -ENOENT else 0
  {
    if w != [] {
      SendsInOrder(bus, n + 1, w, 0, k > 0);
      SendingStops(bus, n + 1, w, 0, k > 0);
    }
  }

  lemma WriteStarts(bus: Bus, n: nat, saddr: byte, w: seq<byte>, thenRead: bool)
    requires w != []
    ensures var (ops, ret) := WritePhase(bus, n, saddr, w, thenRead);
            && |ops| > 0 && ops[0] == Op(true, false, false, false, saddr)
            && (forall j :: 0 < j < |ops| ==> !ops[j].start)
            && (ret == 0 <==> Silent(bus, n, n + 1 + |w|)) && (ret == 0 ==> |ops| == 1 + |w|)
  {
    hide Sending, Acked;
    SendingStops(bus, n + 1, w, 0, thenRead);
    SendsInOrder(bus, n + 1, w, 0, thenRead);
    assert Silent(bus, n, n + 1 + |w|) <==> !bus.nack(n) && Silent(bus, n + 1, n + 1 + |w|);
  }

  lemma ReadStarts(bus: Bus, n: nat, saddr: byte, k: nat)
    requires k > 0
    ensures var ops := ReadPhase(bus, n, saddr, k).0;
            && |ops| > 0 && ops[0] == Op(true, false, false, false, (saddr + 1) % 256)
            && (forall j :: 0 < j < |ops| ==> !ops[j].start)
  {
    hide Receiving;
    ReceivingStops(k);
  }

  /**
    The start conditions, at most two: the first operation addresses the device for writing, with
    twice its address, if there is anything to write; the operation behind the data addresses it
    for reading, with one more, if there is anything to read and nothing was refused.
   */
  lemma StartsAddressTheDevice(bus: Bus, n: nat, address: nat, w: seq<byte>, k: nat)
    ensures var ops := Transfer(bus, n, SlaveAddress(address), w, k).0;
            var read := if w == [] then 0 else 1 + |w|;
            && (w != [] ==> |ops| > 0 && ops[0] == Op(true, false, false, false, 2 * address % 256))
            && (k > 0 && (w == [] || Silent(bus, n, n + read)) ==>
                  |ops| > read && ops[read] == Op(true, false, false, false, (2 * address + 1) % 256))
            && forall j :: 0 <= j < |ops| ==>
                 (ops[j].start <==> (j == 0 && w != []) || (j == read && k > 0 && Silent(bus, n, n + read)))
  {
    hide WritePhase, ReadPhase, Silent;
    var saddr := SlaveAddress(address);
    assert (saddr + 1) % 256 == (2 * address + 1) % 256;
    if w != [] {
      WriteStarts(bus, n, saddr, w, k > 0);
      if k > 0 {
        ReadStarts(bus, n + 1 + |w|, saddr, k);
      } else {
        NothingToRead(bus, n + 1 + |w|, saddr);
      }
    } else {
      NothingToWrite(bus, n, saddr, k > 0);
      if k > 0 {
        ReadStarts(bus, n, saddr, k);
      } else {
        NothingToRead(bus, n, saddr);
      }
    }
  }

  lemma NothingToWrite(bus: Bus, n: nat, saddr: byte, thenRead: bool)
    ensures WritePhase(bus, n, saddr, [], thenRead) == ([], 0) && Silent(bus, n, n)
  {
  }

  lemma NothingToRead(bus: Bus, n: nat, saddr: byte)
    ensures ReadPhase(bus, n, saddr, 0) == ([], 0)
  {
  }

  /** A refused address is followed by nothing but a stop condition, on a dummy byte in the same direction. */
  lemma RefusedAddressStops(bus: Bus, n: nat, saddr: byte, w: seq<byte>, k: nat)
    ensures w != [] && bus.nack(n) ==>
              var ops := Transfer(bus, n, saddr, w, k).0;
              |ops| == 2 && ops[1] == Op(false, true, false, false, 0xff)
    ensures var read := if w == [] then 0 else 1 + |w|;
            k > 0 && Silent(bus, n, n + read) && bus.nack(n + read) ==>
              var ops := Transfer(bus, n, saddr, w, k).0;
              |ops| == read + 2 && ops[read + 1] == Op(false, true, true, true, 0)
  {
    if w != [] {
      SendingStops(bus, n + 1, w, 0, k > 0);
      SendsInOrder(bus, n + 1, w, 0, k > 0);
    }
  }
}
