/**
  The pipe between the host bridge and a file descriptor: a ring whose size is a power of
  two, one slot of which stays empty. Producer and consumer each look at the offsets once,
  copy, and then publish their own offset, with no lock held while they copy.
 */
module Pipe {
  import opened Bytes
  import opened Pow2

  /** How a call splits its bytes: up to the end of the ring, then from its start. */
  datatype Plan = Plan(first: nat, second: nat) {
    function Total(): nat { first + second }
  }

  function SinkPlan(cap: nat, r: nat, w: nat, len: nat): Plan
    requires r < cap && w < cap
  {
    var free1 := if r <= w then (if r - 1 < 0 then cap - w - 1 else cap - w) else r - w - 1;
    var free2 := if r <= w && r - 1 >= 0 then r - 1 else 0;
    if free1 == 0 then Plan(0, 0)
    else if len < free1 then Plan(len, 0)
    else if len - free1 < free2 then Plan(free1, len - free1)
    else Plan(free1, free2)
  }

  function ReadPlan(cap: nat, r: nat, w: nat, len: nat): Plan
    requires r < cap && w < cap
  {
    var avail1 := if r <= w then w - r else cap - r;
    var avail2 := if r <= w then 0 else w;
    if len < avail1 then Plan(len, 0)
    else if len - avail1 < avail2 then Plan(avail1, len - avail1)
    else Plan(avail1, avail2)
  }

  /** The offset a call publishes. */
  function NextOffset(cap: nat, at: nat, plan: Plan): nat
    requires cap > 0
  {
    if plan.second > 0 then plan.second else And(at + plan.first, cap - 1)
  }

  /** Where byte j of a call goes or comes from. */
  function Place(at: nat, plan: Plan, j: nat): nat {
    if j < plan.first then at + j else j - plan.first
  }

  /** The place of byte number n of an endless stream in a ring of the given capacity. */
  function Slot(n: nat, cap: nat): (r: nat)
    requires cap > 0
    ensures r < cap
  {
    n % cap
  }

  /** Bytes in the ring, from its offsets. */
  function Used(cap: nat, r: nat, w: nat): nat
    requires r < cap && w < cap
  {
    if r <= w then w - r else cap - r + w
  }

  /** A plan that starts at an offset, and wraps only at the end of the ring. */
  predicate Fits(cap: nat, at: nat, plan: Plan) {
    at < cap && plan.first <= cap - at && plan.second <= at && (plan.second > 0 ==> plan.first == cap - at)
  }

  lemma SinkPlanFits(cap: nat, r: nat, w: nat, len: nat)
    requires r < cap && w < cap
    ensures var plan := SinkPlan(cap, r, w, len);
            var free := cap - 1 - Used(cap, r, w);
            && Fits(cap, w, plan) && (plan.first == 0 ==> plan.second == 0)
            && plan.first + plan.second == if len < free then len else free
  {
    var free1 := if r <= w then (if r == 0 then cap - w - 1 else cap - w) else r - w - 1;
    var free2 := if r <= w && r > 0 then r - 1 else 0;
    assert free1 + free2 == cap - 1 - Used(cap, r, w);
    if free1 == 0 {
      assert free2 == 0;
    } else if len < free1 {
    } else if len - free1 < free2 {
    } else {
    }
  }

  lemma ReadPlanFits(cap: nat, r: nat, w: nat, len: nat)
    requires r < cap && w < cap
    ensures var plan := ReadPlan(cap, r, w, len);
            && Fits(cap, r, plan)
            && plan.Total() == (if len < Used(cap, r, w) then len else Used(cap, r, w))
  {
  }

  /** Ring positions are those of an endless stream, modulo the capacity. */
  lemma PlaceIsModulo(cap: nat, n: nat, plan: Plan, j: nat)
    requires cap > 0 && Fits(cap, Slot(n, cap), plan) && j < plan.Total()
    ensures Place(Slot(n, cap), plan, j) == Slot(n + j, cap)
  {
    var at, q := n % cap, n / cap;
    assert n + j == cap * q + (at + j);
    if at + j < cap {
      RemainderIs(n + j, cap, q, at + j);
    } else {
      assert cap * (q + 1) == cap * q + cap;
      RemainderIs(n + j, cap, q + 1, at + j - cap);
    }
  }

  lemma NextOffsetIsModulo(cap: nat, n: nat, plan: Plan)
    requires IsPower(cap) && Fits(cap, Slot(n, cap), plan)
    ensures NextOffset(cap, Slot(n, cap), plan) == Slot(n + plan.Total(), cap)
  {
    assert cap > 0;
    hide Fits, NextOffset, IsPower;
    NextOffsetWraps(cap, Slot(n, cap), plan);
    AddRemainder(n, plan.Total(), cap);
  }

  lemma NextOffsetWraps(cap: nat, at: nat, plan: Plan)
    requires IsPower(cap) && Fits(cap, at, plan)
    ensures NextOffset(cap, at, plan) == Slot(at + plan.Total(), cap)
  {
    var k: nat :| cap == Power(k);
    hide And, Power;
    if plan.second > 0 {
      RemainderIs(at + plan.Total(), cap, 1, plan.second);
    } else {
      MaskIsRemainder(at + plan.Total(), k);
    }
  }

  lemma AddRemainder(n: nat, d: nat, cap: nat)
    requires cap > 0
    ensures Slot(n + d, cap) == Slot(Slot(n, cap) + d, cap)
  {
    var q, r := n / cap, Slot(n, cap);
    assert n == cap * q + r;
    Distribute(cap, q, (r + d) / cap);
    RemainderIs(n + d, cap, q + (r + d) / cap, (r + d) % cap);
  }

  lemma Distribute(m: int, a: int, b: int)
    ensures m * (a + b) == m * a + m * b
  {
  }

  lemma SlotOfOffset(r: nat, cap: nat)
    requires r < cap
    ensures Slot(r, cap) == r
  {
  }

  /** Stream positions less than a capacity apart share no slot. */
  lemma SlotsDiffer(cap: nat, i: nat, j: nat)
    requires cap > 0 && i < j < i + cap
    ensures Slot(i, cap) != Slot(j, cap)
  {
    if i % cap == j % cap {
      var a, b := i / cap, j / cap;
      assert j - i == cap * b - cap * a;
      if a < b {
        MultipleGrows(cap, a, b);
      } else if b < a {
        MultipleGrows(cap, b, a);
      }
    }
  }

  lemma UsedIsDistance(cap: nat, r: nat, w: nat)
    requires cap > 0 && r <= w < r + cap
    ensures Used(cap, Slot(r, cap), Slot(w, cap)) == w - r
  {
    var a, q, d := r % cap, r / cap, w - r;
    if a + d < cap {
      RemainderIs(w, cap, q, a + d);
    } else {
      assert cap * (q + 1) == cap * q + cap;
      RemainderIs(w, cap, q + 1, a + d - cap);
    }
  }

  // ---- producer and consumer, step by step ---------------------------------------------

  datatype Producer = Resting | Filling(data: seq<byte>, w: nat, plan: Plan, done: nat)

  datatype Consumer = Waiting | Draining(r: nat, plan: Plan, got: seq<byte>)

  /** The ring, what each side is doing, and the history of both. */
  datatype State = State(
    buffer: seq<byte>, readOffset: nat, writeOffset: nat,
    producer: Producer, consumer: Consumer,
    accepted: seq<byte>, returned: seq<byte>)

  /** The steps of hostbridge_pipe_sink and hostbridge_pipe_read: look, copy one byte, publish. */
  datatype Step = SinkBegin(data: seq<byte>) | SinkByte | SinkEnd | ReadBegin(len: nat) | ReadByte | ReadEnd

  predicate Shape(s: State) {
    s.readOffset < |s.buffer| && s.writeOffset < |s.buffer|
  }

  predicate Enabled(s: State, e: Step)
    requires Shape(s)
  {
    match e
    case SinkBegin(_) => s.producer.Resting?
    case SinkByte => s.producer.Filling? && s.producer.done < s.producer.plan.Total() <= |s.producer.data|
                     && Place(s.producer.w, s.producer.plan, s.producer.done) < |s.buffer|
    case SinkEnd => s.producer.Filling? && s.producer.done == s.producer.plan.Total() <= |s.producer.data|
    case ReadBegin(_) => s.consumer.Waiting? && s.readOffset != s.writeOffset
    case ReadByte => s.consumer.Draining? && |s.consumer.got| < s.consumer.plan.Total()
                     && Place(s.consumer.r, s.consumer.plan, |s.consumer.got|) < |s.buffer|
    case ReadEnd => s.consumer.Draining? && |s.consumer.got| == s.consumer.plan.Total()
  }

  function After(s: State, e: Step): State
    requires Shape(s) && Enabled(s, e)
  {
    var cap := |s.buffer|;
    match e
    case SinkBegin(data) =>
      s.(producer := Filling(data, s.writeOffset, SinkPlan(cap, s.readOffset, s.writeOffset, |data|), 0))
    case SinkByte =>
      var p := s.producer;
      s.(buffer := s.buffer[Place(p.w, p.plan, p.done) := p.data[p.done]], producer := p.(done := p.done + 1))
    case SinkEnd =>
      var p := s.producer;
      s.(writeOffset := NextOffset(cap, p.w, p.plan), producer := Resting,
        accepted := s.accepted + p.data[..p.plan.Total()])
    case ReadBegin(len) =>
      s.(consumer := Draining(s.readOffset, ReadPlan(cap, s.readOffset, s.writeOffset, len), []))
    case ReadByte =>
      var c := s.consumer;
      s.(consumer := c.(got := c.got + [s.buffer[Place(c.r, c.plan, |c.got|)]]))
    case ReadEnd =>
      var c := s.consumer;
      s.(readOffset := NextOffset(cap, c.r, c.plan), consumer := Waiting, returned := s.returned + c.got)
  }

  /** The bytes accepted and not returned are in their slots. */
  predicate Stored(buffer: seq<byte>, accepted: seq<byte>, R: nat)
    requires |buffer| > 0
  {
    forall i :: R <= i < |accepted| ==> buffer[Slot(i, |buffer|)] == accepted[i]
  }

  /** The first done bytes of data are in the slots behind them. */
  predicate Copied(buffer: seq<byte>, W: nat, data: seq<byte>, done: nat)
    requires |buffer| > 0 && done <= |data|
  {
    forall j :: 0 <= j < done ==> buffer[Slot(W + j, |buffer|)] == data[j]
  }

  /** The queue in the ring: stored bytes in their slots, work in progress beside them. */
  ghost predicate Inv(s: State) {
    var cap, R, W := |s.buffer|, |s.returned|, |s.accepted|;
    && IsPower(cap)
    && R <= W <= R + cap - 1
    && s.readOffset == Slot(R, cap) && s.writeOffset == Slot(W, cap)
    && s.returned == s.accepted[..R]
    && Stored(s.buffer, s.accepted, R)
    && (s.producer.Filling? ==> FillingInv(s))
    && (s.consumer.Draining? ==> DrainingInv(s))
  }

  predicate FillingInv(s: State)
    requires s.producer.Filling? && |s.buffer| > 0
  {
    var p, cap, W := s.producer, |s.buffer|, |s.accepted|;
    && p.w == Slot(W, cap) && Fits(cap, p.w, p.plan)
    && p.done <= p.plan.Total() <= |p.data|
    && W + p.plan.Total() <= |s.returned| + cap - 1
    && Copied(s.buffer, W, p.data, p.done)
  }

  predicate DrainingInv(s: State)
    requires s.consumer.Draining? && |s.buffer| > 0
  {
    var c, cap, R := s.consumer, |s.buffer|, |s.returned|;
    && c.r == Slot(R, cap) && Fits(cap, c.r, c.plan)
    && |c.got| <= c.plan.Total() && R + c.plan.Total() <= |s.accepted|
    && c.got == s.accepted[R..R + |c.got|]
  }

  /** A producer in the middle of a copy writes to no slot that holds an unread byte. */
  lemma WritesAreFree(s: State, i: nat)
    requires Inv(s) && s.producer.Filling? && s.producer.done < s.producer.plan.Total()
    requires |s.returned| <= i < |s.accepted| + s.producer.done
    ensures var at := Place(s.producer.w, s.producer.plan, s.producer.done);
            at == Slot(|s.accepted| + s.producer.done, |s.buffer|) && at != Slot(i, |s.buffer|)
  {
    hide Slot;
    PlaceIsModulo(|s.buffer|, |s.accepted|, s.producer.plan, s.producer.done);
    SlotsDiffer(|s.buffer|, i, |s.accepted| + s.producer.done);
  }

  lemma SinkByteKeepsInv(s: State)
    requires Inv(s) && Enabled(s, SinkByte)
    ensures Inv(After(s, SinkByte))
  {
    hide Slot, IsPower, Power, And, NextOffset, ReadPlan, SinkPlan, Place, Fits, Stored, Copied;
    var W, p := |s.accepted|, s.producer;
    PlaceIsModulo(|s.buffer|, W, p.plan, p.done);
    var t := s.(buffer := s.buffer[Slot(W + p.done, |s.buffer|) := p.data[p.done]], producer := p.(done := p.done + 1));
    assert After(s, SinkByte) == t;
    hide After, Enabled;
    CopyByte(s.buffer, s.accepted, |s.returned|, p.data, p.done);
  }

  /** One more byte copied disturbs neither the stored bytes nor those copied before. */
  lemma CopyByte(buffer: seq<byte>, accepted: seq<byte>, R: nat, data: seq<byte>, done: nat)
    requires |buffer| > 0 && R <= |accepted| && done < |data| && |accepted| + done < R + |buffer|
    requires Stored(buffer, accepted, R) && Copied(buffer, |accepted|, data, done)
    ensures var next := buffer[Slot(|accepted| + done, |buffer|) := data[done]];
            Stored(next, accepted, R) && Copied(next, |accepted|, data, done + 1)
  {
    hide Slot;
    var cap, W := |buffer|, |accepted|;
    var next := buffer[Slot(W + done, cap) := data[done]];
    forall i | R <= i < W ensures next[Slot(i, cap)] == accepted[i] {
      SlotsDiffer(cap, i, W + done);
    }
    forall j | 0 <= j <= done ensures next[Slot(W + j, cap)] == data[j] {
      if j < done {
        SlotsDiffer(cap, W + j, W + done);
      }
    }
  }

  /** Publishing makes the copied bytes stored ones. */
  lemma CopiedIsStored(buffer: seq<byte>, accepted: seq<byte>, R: nat, data: seq<byte>, n: nat)
    requires |buffer| > 0 && R <= |accepted| && n <= |data|
    requires Stored(buffer, accepted, R) && Copied(buffer, |accepted|, data, n)
    ensures Stored(buffer, accepted + data[..n], R)
  {
    hide Slot;
    var more := accepted + data[..n];
    forall i | R <= i < |more| ensures buffer[Slot(i, |buffer|)] == more[i] {
      if i >= |accepted| {
        assert buffer[Slot(|accepted| + (i - |accepted|), |buffer|)] == data[i - |accepted|];
      }
    }
  }

  lemma SinkEndKeepsInv(s: State)
    requires Inv(s) && Enabled(s, SinkEnd)
    ensures Inv(After(s, SinkEnd))
  {
    hide Slot, IsPower, Power, And, NextOffset, ReadPlan, SinkPlan, Place, Fits, Stored, Copied;
    var R, W, p := |s.returned|, |s.accepted|, s.producer;
    NextOffsetIsModulo(|s.buffer|, W, p.plan);
    CopiedIsStored(s.buffer, s.accepted, R, p.data, p.done);
    var more := s.accepted + p.data[..p.done];
    assert more[..R] == s.accepted[..R];
    if s.consumer.Draining? {
      var n := |s.consumer.got|;
      assert more[R..R + n] == s.accepted[R..R + n];
    }
  }

  lemma ReadByteKeepsInv(s: State)
    requires Inv(s) && Enabled(s, ReadByte)
    ensures Inv(After(s, ReadByte))
  {
    hide Slot, IsPower, Power, And, NextOffset, ReadPlan, SinkPlan, Place, Stored, Copied, Fits;
    var R, c := |s.returned|, s.consumer;
    PlaceIsModulo(|s.buffer|, R, c.plan, |c.got|);
    StoredAt(s.buffer, s.accepted, R, R + |c.got|);
    assert s.accepted[R..R + |c.got| + 1] == s.accepted[R..R + |c.got|] + [s.accepted[R + |c.got|]];
  }

  lemma StoredAt(buffer: seq<byte>, accepted: seq<byte>, R: nat, i: nat)
    requires |buffer| > 0 && Stored(buffer, accepted, R) && R <= i < |accepted|
    ensures buffer[Slot(i, |buffer|)] == accepted[i]
  {
  }

  lemma ReadEndKeepsInv(s: State)
    requires Inv(s) && Enabled(s, ReadEnd)
    ensures Inv(After(s, ReadEnd))
  {
    hide Slot, IsPower, Power, And, NextOffset, ReadPlan, SinkPlan, Place, Copied;
    var R, c := |s.returned|, s.consumer;
    NextOffsetIsModulo(|s.buffer|, R, c.plan);
    assert s.accepted[..R + |c.got|] == s.accepted[..R] + s.accepted[R..R + |c.got|];
  }

  lemma StepKeepsInv(s: State, e: Step)
    requires Inv(s) && Enabled(s, e)
    ensures Inv(After(s, e))
  {
    var cap, R, W := |s.buffer|, |s.returned|, |s.accepted|;
    match e {
      case SinkBegin(data) =>
        UsedIsDistance(cap, R, W);
        SinkPlanFits(cap, s.readOffset, s.writeOffset, |data|);
      case SinkByte => SinkByteKeepsInv(s);
      case SinkEnd => SinkEndKeepsInv(s);
      case ReadBegin(len) =>
        UsedIsDistance(cap, R, W);
        ReadPlanFits(cap, s.readOffset, s.writeOffset, len);
      case ReadByte => ReadByteKeepsInv(s);
      case ReadEnd => ReadEndKeepsInv(s);
    }
  }

  /** All interleavings: runs of steps each possible when it is taken. */
  ghost predicate Reachable(s: State, es: seq<Step>, t: State)
    decreases |es|
  {
    if es == [] then s == t
    else Shape(s) && Enabled(s, es[0]) && Reachable(After(s, es[0]), es[1..], t)
  }

  function Empty(cap: nat): State {
    State(seq(cap, _ => 0), 0, 0, Resting, Waiting, [], [])
  }

  lemma {:induction false} RunKeepsInv(s: State, es: seq<Step>, t: State)
    requires Inv(s) && Reachable(s, es, t)
    ensures Inv(t)
    decreases |es|
  {
    if es != [] {
      StepKeepsInv(s, es[0]);
      RunKeepsInv(After(s, es[0]), es[1..], t);
    }
  }

  /**
    The pipe is a queue. However the steps of one producer and one consumer interleave, the
    bytes returned by reads are a prefix of the bytes accepted by sinks, the difference fits
    the ring with one slot to spare, and lies in the ring in order.
   */
  lemma PipeIsFifo(cap: nat, es: seq<Step>, t: State)
    requires IsPower(cap) && Reachable(Empty(cap), es, t)
    ensures t.returned <= t.accepted
    ensures |t.accepted| - |t.returned| <= cap - 1 == |t.buffer| - 1
    ensures forall i :: |t.returned| <= i < |t.accepted| ==> t.buffer[Slot(i, cap)] == t.accepted[i]
  {
    RemainderIs(0, cap, 0, 0);
    RunKeepsInv(Empty(cap), es, t);
    BufferKept(Empty(cap), es, t);
  }

  lemma {:induction false} BufferKept(s: State, es: seq<Step>, t: State)
    requires Reachable(s, es, t)
    ensures |t.buffer| == |s.buffer|
    decreases |es|
  {
    if es != [] {
      BufferKept(After(s, es[0]), es[1..], t);
    }
  }

  /** A sink accepts as much as the free space it saw allows, a read returns as much as it saw stored. */
  lemma CallAmounts(s: State, data: seq<byte>, len: nat)
    requires Inv(s)
    ensures var stored := |s.accepted| - |s.returned|;
            && SinkPlan(|s.buffer|, s.readOffset, s.writeOffset, |data|).Total()
               == (if |data| < |s.buffer| - 1 - stored then |data| else |s.buffer| - 1 - stored)
            && ReadPlan(|s.buffer|, s.readOffset, s.writeOffset, len).Total() == (if len < stored then len else stored)
            && (s.readOffset == s.writeOffset <==> stored == 0)
  {
    UsedIsDistance(|s.buffer|, |s.returned|, |s.accepted|);
    SinkPlanFits(|s.buffer|, s.readOffset, s.writeOffset, |data|);
    ReadPlanFits(|s.buffer|, s.readOffset, s.writeOffset, len);
  }

  // ---- the calls, without interference -------------------------------------------------

  /** n bytes of a ring from offset r on. */
  function Ring(buf: seq<byte>, r: nat, n: nat): (c: seq<byte>)
    requires |buf| > 0
    ensures |c| == n
  {
    seq<byte>(n, i requires 0 <= i => buf[Slot(r + i, |buf|)])
  }

  /** What the two memcpy calls of a sink leave in the ring. */
  predicate Filled(buf: seq<byte>, buf': seq<byte>, w: nat, plan: Plan, ptr: seq<byte>)
    requires plan.Total() <= |ptr| && Fits(|buf|, w, plan)
  {
    && |buf'| == |buf|
    && (forall j :: 0 <= j < plan.Total() ==> buf'[Place(w, plan, j)] == ptr[j])
    && (forall at :: 0 <= at < |buf| && !(w <= at < w + plan.first) && !(0 <= at < plan.second) ==> buf'[at] == buf[at])
  }

  lemma OffsetOfEnd(cap: nat, r: nat, w: nat)
    requires r < cap && w < cap
    ensures Slot(r + Used(cap, r, w), cap) == w
  {
    if r <= w {
      RemainderIs(w, cap, 0, w);
    } else {
      RemainderIs(cap + w, cap, 1, w);
    }
  }

  lemma SinkAppends(buf: seq<byte>, buf': seq<byte>, r: nat, w: nat, plan: Plan, ptr: seq<byte>)
    requires IsPower(|buf|) && r < |buf| && w < |buf|
    requires plan.Total() <= |ptr| && Fits(|buf|, w, plan) && Filled(buf, buf', w, plan, ptr)
    requires Used(|buf|, r, w) + plan.Total() < |buf|
    ensures var w' := NextOffset(|buf|, w, plan);
            && w' < |buf|
            && Used(|buf|, r, w') == Used(|buf|, r, w) + plan.Total()
            && Ring(buf', r, Used(|buf|, r, w')) == Ring(buf, r, Used(|buf|, r, w)) + ptr[..plan.Total()]
  {
    hide Slot, NextOffset, IsPower, Used;
    var cap, used, n := |buf|, Used(|buf|, r, w), plan.Total();
    OffsetOfEnd(cap, r, w);
    NextOffsetIsModulo(cap, r + used, plan);
    SlotOfOffset(r, cap);
    UsedIsDistance(cap, r, r + used + n);
    var before, after := Ring(buf, r, used), Ring(buf', r, used + n);
    forall i | 0 <= i < used ensures after[i] == before[i] {
      SinkSpares(buf, buf', r, used, plan, ptr, i);
    }
    forall i | used <= i < used + n ensures after[i] == ptr[i - used] {
      PlaceIsModulo(cap, r + used, plan, i - used);
    }
    assert after == before + ptr[..n];
  }

  /** Stored byte i is not among those a sink overwrites. */
  lemma SinkSpares(buf: seq<byte>, buf': seq<byte>, r: nat, used: nat, plan: Plan, ptr: seq<byte>, i: nat)
    requires |buf| > 0 && i < used && used + plan.Total() < |buf|
    requires plan.Total() <= |ptr| && Fits(|buf|, Slot(r + used, |buf|), plan)
    requires Filled(buf, buf', Slot(r + used, |buf|), plan, ptr)
    ensures buf'[Slot(r + i, |buf|)] == buf[Slot(r + i, |buf|)]
  {
    hide Slot;
    var cap := |buf|;
    var w, at := Slot(r + used, cap), Slot(r + i, cap);
    if w <= at < w + plan.first {
      PlaceIsModulo(cap, r + used, plan, at - w);
      SlotsDiffer(cap, r + i, r + used + (at - w));
    } else if at < plan.second {
      PlaceIsModulo(cap, r + used, plan, plan.first + at);
      SlotsDiffer(cap, r + i, r + used + (plan.first + at));
    }
  }

  /** What the two memcpy calls of a read copy out, and what is left. */
  lemma ReadTakes(buf: seq<byte>, r: nat, w: nat, plan: Plan, got: seq<byte>)
    requires IsPower(|buf|) && r < |buf| && w < |buf| && Fits(|buf|, r, plan)
    requires plan.Total() <= Used(|buf|, r, w)
    requires got == buf[r..r + plan.first] + buf[..plan.second]
    ensures var r' := NextOffset(|buf|, r, plan);
            && r' < |buf|
            && Used(|buf|, r', w) == Used(|buf|, r, w) - plan.Total()
            && Ring(buf, r, Used(|buf|, r, w)) == got + Ring(buf, r', Used(|buf|, r', w))
  {
    hide Slot, And, NextOffset, IsPower;
    var cap, used, n := |buf|, Used(|buf|, r, w), plan.Total();
    SlotOfOffset(r, cap);
    NextOffsetIsModulo(cap, r, plan);
    OffsetOfEnd(cap, r, w);
    UsedIsDistance(cap, r + n, r + used);
    var r' := NextOffset(cap, r, plan);
    var all, left := Ring(buf, r, used), Ring(buf, r', used - n);
    forall i | 0 <= i < n ensures all[i] == got[i] {
      PlaceIsModulo(cap, r, plan, i);
    }
    forall i | n <= i < used ensures all[i] == left[i - n] {
      AddRemainder(r + n, i - n, cap);
    }
    assert all == got + left;
  }

  /** How a sink splits what it may write. */
  method SplitFree(capacity: nat, r: nat, w: nat, length: nat) returns (free1: nat, free2: nat)
    requires r < capacity && w < capacity
    ensures Plan(free1, free2) == SinkPlan(capacity, r, w, length)
    ensures Fits(capacity, w, Plan(free1, free2)) && (free1 == 0 ==> free2 == 0)
    ensures var free := capacity - 1 - Used(capacity, r, w);
            free1 + free2 == if length < free then length else free
  {
    SinkPlanFits(capacity, r, w, length);
    var len := length;
    var f1, f2: int;
    if r <= w {
      f1 := capacity - w;
      f2 := r - 1;
      if f2 < 0 {
        f1 := f1 - 1;
        f2 := 0;
      }
    } else {
      f1 := r - w - 1;
      f2 := 0;
    }
    if f1 == 0 {
      return 0, 0;
    }
    if len < f1 {
      f1 := len;
      f2 := 0;
    } else {
      len := len - f1;
      if len < f2 {
        f2 := len;
      }
    }
    return f1, f2;
  }

  class HostPipe {
    var readOffset: nat
    var writeOffset: nat
    const capacity: nat
    const buffer: array<byte>

    ghost predicate Valid()
      reads this
    {
      IsPower(capacity) && buffer.Length == capacity && readOffset < capacity && writeOffset < capacity
    }

    /** The bytes in the ring, oldest first. */
    function Contents(): (c: seq<byte>)
      requires Valid()
      reads this, buffer
    {
      Ring(buffer[..], readOffset, Used(capacity, readOffset, writeOffset))
    }

    /** The requested size is rounded up; zero and sizes above 2^31 round to no ring at all. */
    constructor (requested: bv32)
      requires 1 <= requested <= 0x8000_0000
      ensures Valid() && fresh(buffer) && Contents() == [] && capacity == RoundUp(requested) as nat
    {
      RoundUpIsLeast(requested);
      OneBitIsPower(RoundUp(requested));
      var size := RoundupPow2(requested);
      capacity := size as nat;
      buffer := new byte[size as nat];
      readOffset, writeOffset := 0, 0;
    }

    /** The two memcpy calls of a sink. */
    method Fill(w: nat, free1: nat, free2: nat, ptr: seq<byte>)
      requires buffer.Length > 0 && free1 + free2 <= |ptr| && Fits(buffer.Length, w, Plan(free1, free2))
      modifies buffer
      ensures Filled(old(buffer[..]), buffer[..], w, Plan(free1, free2), ptr)
    {
      forall j | 0 <= j < free1 {
        buffer[w + j] := ptr[j];
      }
      if free2 > 0 {
        forall j | 0 <= j < free2 {
          buffer[j] := ptr[free1 + j];
        }
      }
    }

    /** hostbridge_pipe_sink. */
    method Sink(ptr: seq<byte>) returns (n: nat)
      requires Valid()
      modifies this`writeOffset, buffer
      ensures Valid()
      ensures n == if |ptr| < capacity - 1 - |old(Contents())| then |ptr| else capacity - 1 - |old(Contents())|
      ensures Contents() == old(Contents()) + ptr[..n]
    {
      hide SinkPlan, Ring, NextOffset, Used, Filled, IsPower, Fits;
      var w := writeOffset;
      var free1, free2 := SplitFree(capacity, readOffset, w, |ptr|);
      SinkPlanFits(capacity, readOffset, w, |ptr|);
      n := free1 + free2;
      if free1 == 0 {
        return;
      }
      Fill(w, free1, free2, ptr);
      SinkAppends(old(buffer[..]), buffer[..], readOffset, w, Plan(free1, free2), ptr);
      writeOffset := NextOffset(capacity, w, Plan(free1, free2));
    }

    /** hostbridge_pipe_read, once it is not blocked on an empty ring. */
    method Read(len: nat) returns (got: seq<byte>)
      requires Valid() && Contents() != []
      modifies this`readOffset
      ensures Valid() && old(Contents()) == got + Contents()
      ensures |got| == if len < |old(Contents())| then len else |old(Contents())|
    {
      var r, w := readOffset, writeOffset;
      var rest := len;
      var avail1, avail2;
      if r <= w {
        avail1 := w - r;
        avail2 := 0;
      } else {
        avail1 := capacity - r;
        avail2 := w;
      }
      if rest < avail1 {
        avail1 := rest;
        avail2 := 0;
      } else {
        rest := rest - avail1;
        if rest < avail2 {
          avail2 := rest;
        }
      }
      ghost var plan := Plan(avail1, avail2);
      assert plan == ReadPlan(capacity, r, w, len);
      ReadPlanFits(capacity, r, w, len);
      got := buffer[r..r + avail1];
      if avail2 > 0 {
        got := got + buffer[..avail2];
      }
      assert got == buffer[..][r..r + avail1] + buffer[..][..avail2];
      ReadTakes(buffer[..], r, w, plan, got);
      readOffset := NextOffset(capacity, r, Plan(avail1, avail2));
    }
  }
}
