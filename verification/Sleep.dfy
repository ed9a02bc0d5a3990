/**
  The sleep queue of TinyThreads: wake-up times on a wrapping 32-bit microsecond clock that
  advances by a fixed step per tick.
 */
module Sleep {
  import opened Bytes
  import opened Threads
  import opened Pow2

  const MAX_SLEEP := 1000000

  datatype State = State(time: nat, sleeping: seq<Thread>, ready: seq<Thread>)

  /** timeout - now in C's unsigned arithmetic. */
  function Remaining(t: Thread, time: nat): (r: nat)
    ensures r < WORD
  {
    (t.timeout - time) % WORD
  }

  /** The same difference as a signed integer. */
  function SignedRemaining(t: Thread, time: nat): int {
    if Remaining(t, time) < WORD / 2 then Remaining(t, time) else Remaining(t, time) - WORD
  }

  /** In front of the first sleeper that has at least as long to go. */
  function InsertSleeper(queue: seq<Thread>, time: nat, us: nat, t: Thread): seq<Thread> {
    if queue == [] || Remaining(queue[0], time) >= us then [t] + queue
    else [queue[0]] + InsertSleeper(queue[1..], time, us, t)
  }

  /** The running thread, the head of the ready queue, goes to sleep. */
  function Slept(s: State, us: nat): State
    requires s.ready != []
  {
    var t := s.ready[0].(timeout := (s.time + us) % WORD);
    State(s.time, InsertSleeper(s.sleeping, s.time, us, t), s.ready[1..])
  }

  function Yielded(s: State): State
    requires s.ready != []
  {
    s.(ready := Insert(s.ready[1..], s.ready[0]))
  }

  function WakeExpired(s: State): State
    decreases |s.sleeping|
  {
    if s.sleeping == [] || SignedRemaining(s.sleeping[0], s.time) > 0 then s
    else WakeExpired(State(s.time, s.sleeping[1..], Insert(s.ready, s.sleeping[0])))
  }

  function Ticked(s: State, step: nat): State {
    WakeExpired(s.(time := (s.time + step) % WORD))
  }

  class Sleeper {
    var time: nat
    var sleeping: seq<Thread>
    var ready: seq<Thread>
    /** 1000000 / ticks per second. */
    const step: nat

    function Abstract(): State
      reads this
    {
      State(time, sleeping, ready)
    }

    constructor (ticksPerSec: nat, ready: seq<Thread>)
      requires ticksPerSec > 0
      ensures Abstract() == State(0, [], ready) && step == 1000000 / ticksPerSec
    {
      time, sleeping, this.ready := 0, [], ready;
      step := MAX_SLEEP / ticksPerSec;
    }

    method Usleep(us: nat) returns (result: int)
      requires ready != []
      modifies this
      ensures result == if us > 1000000 then -1 else 0
      ensures Abstract() == if us == 0 then Yielded(old(Abstract()))
                            else if us > 1000000 then old(Abstract())
                            else Slept(old(Abstract()), us)
    {
      if us == 0 {
        var none;
        none, ready := Move(ready[..1], ready[1..]);
        return 0;
      }
      if us > MAX_SLEEP {
        return -1;
      }
      var running := ready[0].(timeout := (time + us) % WORD);
      ready := ready[1..];
      var to := 0;
      while to < |sleeping|
        invariant 0 <= to <= |sleeping|
        invariant forall i :: 0 <= i < to ==> Remaining(sleeping[i], time) < us
      {
        if Remaining(sleeping[to], time) >= us {
          break;
        }
        to := to + 1;
      }
      InsertSleeperAt(sleeping, time, us, running, to);
      sleeping := sleeping[..to] + [running] + sleeping[to..];
      return 0;
    }

    method SleepTick()
      modifies this
      ensures Abstract() == Ticked(old(Abstract()), step)
    {
      time := (time + step) % WORD;
      ghost var goal := WakeExpired(Abstract());
      while sleeping != []
        invariant WakeExpired(Abstract()) == goal
        decreases |sleeping|
      {
        if SignedRemaining(sleeping[0], time) > 0 {
          break;
        }
        sleeping, ready := Move(sleeping, ready);
      }
    }
  }

  lemma {:induction false} InsertSleeperAt(queue: seq<Thread>, time: nat, us: nat, t: Thread, k: nat)
    requires k <= |queue| && forall i :: 0 <= i < k ==> Remaining(queue[i], time) < us
    requires k < |queue| ==> Remaining(queue[k], time) >= us
    ensures InsertSleeper(queue, time, us, t) == queue[..k] + [t] + queue[k..]
  {
    if k > 0 {
      InsertSleeperAt(queue[1..], time, us, t, k - 1);
      assert queue[..k] + [t] + queue[k..] == [queue[0]] + (queue[1..][..k - 1] + [t] + queue[1..][k - 1..]);
    }
  }

  // ---- what every step keeps -----------------------------------------------------------

  /** Between ticks: sleepers in order of wake-up, all of them due within the next second. */
  predicate Inv(s: State) {
    && s.time < WORD
    && (forall i :: 0 <= i < |s.sleeping| ==> 0 < Remaining(s.sleeping[i], s.time) <= MAX_SLEEP)
    && (forall i, j :: 0 <= i < j < |s.sleeping| ==>
      Remaining(s.sleeping[i], s.time) <= Remaining(s.sleeping[j], s.time))
    && Distinct(s.sleeping + s.ready)
  }

  predicate Distinct(q: seq<Thread>) {
    forall i, j :: 0 <= i < j < |q| ==> q[i].id != q[j].id
  }

  /** Other kernel activity: any change of the ready queue, whoever comes, goes or ends. */
  datatype Event = Tick | Usleep(us: nat) | Schedule(ready: seq<Thread>)

  predicate Possible(s: State, e: Event) {
    match e
    case Tick => true
    case Usleep(us) => s.ready != [] && 0 < us <= MAX_SLEEP
    case Schedule(ready) => Distinct(s.sleeping + ready)
  }

  function After(s: State, e: Event, step: nat): State
    requires Possible(s, e)
  {
    match e
    case Tick => Ticked(s, step)
    case Usleep(us) => Slept(s, us)
    case Schedule(ready) => s.(ready := ready)
  }

  /** The two parts of a sleep queue when the clock moves on by step. */
  function Expired(q: seq<Thread>, time: nat, step: nat): (k: nat)
    ensures k <= |q|
    ensures forall i :: 0 <= i < k ==> Remaining(q[i], time) <= step
    ensures k < |q| ==> Remaining(q[k], time) > step
  {
    if q == [] || Remaining(q[0], time) > step then 0 else 1 + Expired(q[1..], time, step)
  }

  lemma RemainingLater(t: Thread, time: nat, step: nat)
    requires time < WORD && 0 < Remaining(t, time) <= MAX_SLEEP && 0 < step <= MAX_SLEEP
    ensures SignedRemaining(t, (time + step) % WORD) == Remaining(t, time) - step
    ensures Remaining(t, time) >= step ==> Remaining(t, (time + step) % WORD) == Remaining(t, time) - step
  {
  }

  /** A tick wakes exactly the sleepers with at most one step to go, in order. */
  lemma {:induction false} WakeSplits(s: State, time0: nat, step: nat)
    requires time0 < WORD && s.time == (time0 + step) % WORD && 0 < step <= MAX_SLEEP
    requires forall i :: 0 <= i < |s.sleeping| ==> 0 < Remaining(s.sleeping[i], time0) <= MAX_SLEEP
    ensures var k := Expired(s.sleeping, time0, step);
            var r := WakeExpired(s);
            && r.time == s.time && r.sleeping == s.sleeping[k..]
            && multiset(r.ready) == multiset(s.ready) + multiset(s.sleeping[..k])
    decreases |s.sleeping|
  {
    hide Insert, Remaining, SignedRemaining;
    if s.sleeping != [] {
      RemainingLater(s.sleeping[0], time0, step);
      if Remaining(s.sleeping[0], time0) <= step {
        var s' := State(s.time, s.sleeping[1..], Insert(s.ready, s.sleeping[0]));
        WakeSplits(s', time0, step);
        InsertKeepsThreads(s.ready, s.sleeping[0]);
        var k := Expired(s.sleeping, time0, step);
        FirstOfMany(s.sleeping, k);
      } else {
        assert s.sleeping[..0] == [];
      }
    } else {
      assert s.sleeping[..0] == [];
    }
  }

  lemma FirstOfMany(q: seq<Thread>, k: nat)
    requires 0 < k <= |q|
    ensures multiset(q[..k]) == multiset{q[0]} + multiset(q[1..][..k - 1])
  {
    assert q[..k] == [q[0]] + q[1..][..k - 1];
  }

  /** Threads moved from the front of one queue to anywhere in another are still there. */
  lemma MovedAcross(a: seq<Thread>, b: seq<Thread>, k: nat, b': seq<Thread>)
    requires k <= |a| && multiset(b') == multiset(b) + multiset(a[..k])
    ensures multiset(a[k..] + b') == multiset(a + b)
  {
    assert a == a[..k] + a[k..];
  }

  lemma CountOnce(q: seq<Thread>, t: Thread)
    requires Distinct(q)
    ensures multiset(q)[t] <= 1
  {
    if t in q {
      var a :| 0 <= a < |q| && q[a] == t;
      assert q == q[..a] + [q[a]] + q[a + 1..];
      assert t !in q[..a] && t !in q[a + 1..];
    }
  }

  lemma CountTwice(q: seq<Thread>, i: nat, j: nat)
    requires i < j < |q| && q[i] == q[j]
    ensures multiset(q)[q[i]] >= 2
  {
    assert q == q[..i] + [q[i]] + q[i + 1..];
    assert q[j] == q[i + 1..][j - i - 1];
  }

  /** Having distinct identities does not depend on the order. */
  lemma DistinctByCount(q: seq<Thread>, q': seq<Thread>)
    requires Distinct(q) && multiset(q') <= multiset(q)
    ensures Distinct(q')
  {
    forall i, j | 0 <= i < j < |q'| ensures q'[i].id != q'[j].id {
      if q'[i] == q'[j] {
        CountTwice(q', i, j);
        CountOnce(q, q'[i]);
        assert false;
      } else {
        assert q'[i] in multiset(q') && q'[j] in multiset(q');
        assert q'[i] in multiset(q) && q'[j] in multiset(q);
        var a :| 0 <= a < |q| && q[a] == q'[i];
        var b :| 0 <= b < |q| && q[b] == q'[j];
      }
    }
  }

  /** What a tick does to the two queues. */
  lemma TickQueues(s: State, step: nat)
    requires Inv(s) && 0 < step <= MAX_SLEEP
    ensures var k := Expired(s.sleeping, s.time, step);
            var r := Ticked(s, step);
            && r.time == (s.time + step) % WORD && r.sleeping == s.sleeping[k..]
            && multiset(r.ready) == multiset(s.ready) + multiset(s.sleeping[..k])
            && (forall i :: k <= i < |s.sleeping| ==>
                  0 < Remaining(s.sleeping[i], r.time) == Remaining(s.sleeping[i], s.time) - step)
  {
    hide WakeExpired, Insert, Remaining, SignedRemaining;
    WakeSplits(s.(time := (s.time + step) % WORD), s.time, step);
    var k := Expired(s.sleeping, s.time, step);
    forall i | k <= i < |s.sleeping|
      ensures 0 < Remaining(s.sleeping[i], (s.time + step) % WORD) == Remaining(s.sleeping[i], s.time) - step
    {
      assert Remaining(s.sleeping[i], s.time) >= Remaining(s.sleeping[k], s.time);
      RemainingLater(s.sleeping[i], s.time, step);
    }
  }

  lemma InEither(t: Thread, q: seq<Thread>, a: seq<Thread>, b: seq<Thread>)
    requires multiset(q) == multiset(a) + multiset(b)
    ensures t in q <==> t in a || t in b
  {
    assert t in q <==> t in multiset(q);
    assert t in a <==> t in multiset(a);
    assert t in b <==> t in multiset(b);
  }

  lemma TickKeepsInv(s: State, step: nat)
    requires Inv(s) && 0 < step <= MAX_SLEEP
    ensures Inv(Ticked(s, step))
  {
    hide WakeExpired, Remaining, Insert, Ticked, Distinct, Expired;
    TickQueues(s, step);
    var k := Expired(s.sleeping, s.time, step);
    var r := Ticked(s, step);
    forall i | 0 <= i < |r.sleeping|
      ensures r.sleeping[i] == s.sleeping[k + i]
      ensures 0 < Remaining(r.sleeping[i], r.time) == Remaining(s.sleeping[k + i], s.time) - step <= MAX_SLEEP
    {
    }
    MovedAcross(s.sleeping, s.ready, k, r.ready);
    DistinctByCount(s.sleeping + s.ready, r.sleeping + r.ready);
  }

  lemma SameTimeout(t: Thread, time: nat, us: nat)
    requires t.timeout == (time + us) % WORD && us < WORD
    ensures Remaining(t, time) == us
  {
  }

  /** Where a thread going to sleep ends up in the queue. */
  lemma SleepPlaces(s: State, us: nat) returns (k: nat)
    requires Inv(s) && s.ready != [] && 0 < us <= MAX_SLEEP
    ensures k <= |s.sleeping|
    ensures forall i :: 0 <= i < k ==> Remaining(s.sleeping[i], s.time) < us
    ensures forall i :: k <= i < |s.sleeping| ==> Remaining(s.sleeping[i], s.time) >= us
    ensures var t := s.ready[0].(timeout := (s.time + us) % WORD);
            && Remaining(t, s.time) == us
            && Slept(s, us) == State(s.time, s.sleeping[..k] + [t] + s.sleeping[k..], s.ready[1..])
  {
    var t := s.ready[0].(timeout := (s.time + us) % WORD);
    SameTimeout(t, s.time, us);
    hide Remaining, InsertSleeper;
    k := 0;
    while k < |s.sleeping| && Remaining(s.sleeping[k], s.time) < us
      invariant k <= |s.sleeping|
      invariant forall i :: 0 <= i < k ==> Remaining(s.sleeping[i], s.time) < us
    {
      k := k + 1;
    }
    forall i | k <= i < |s.sleeping| ensures Remaining(s.sleeping[i], s.time) >= us {
      assert Remaining(s.sleeping[i], s.time) >= Remaining(s.sleeping[k], s.time);
    }
    InsertSleeperAt(s.sleeping, s.time, us, t, k);
  }

  lemma SleepKeepsInv(s: State, us: nat)
    requires Inv(s) && s.ready != [] && 0 < us <= MAX_SLEEP
    ensures Inv(Slept(s, us))
  {
    hide Remaining, InsertSleeper, Slept, Distinct;
    var k := SleepPlaces(s, us);
    var t := s.ready[0].(timeout := (s.time + us) % WORD);
    DistinctAfterSleep(s.sleeping, s.ready, t, k);
  }

  lemma DistinctAfterSleep(sleeping: seq<Thread>, ready: seq<Thread>, t: Thread, k: nat)
    requires Distinct(sleeping + ready) && ready != [] && t.id == ready[0].id && k <= |sleeping|
    ensures Distinct(sleeping[..k] + [t] + sleeping[k..] + ready[1..])
  {
    var before, after := sleeping + ready, sleeping[..k] + [t] + sleeping[k..] + ready[1..];
    assert forall i | 0 <= i < |after| :: after[i].id == before[From(i, k, |sleeping|)].id;
  }

  /** Where the thread at position i came from when the one at position n went to position k. */
  function From(i: nat, k: nat, n: nat): nat {
    if i < k then i else if i == k then n else if i <= n then i - 1 else i
  }

  lemma StepKeepsInv(s: State, e: Event, step: nat)
    requires Inv(s) && Possible(s, e) && 0 < step <= MAX_SLEEP
    ensures Inv(After(s, e, step))
  {
    match e {
      case Tick => TickKeepsInv(s, step);
      case Usleep(us) => SleepKeepsInv(s, us);
      case Schedule(_) =>
    }
  }

  // ---- runs ----------------------------------------------------------------------------

  /** A run of the kernel in which every event is possible when it happens. */
  predicate Runs(s: State, es: seq<Event>, step: nat)
    decreases |es|
  {
    es == [] || (Possible(s, es[0]) && Runs(After(s, es[0], step), es[1..], step))
  }

  function Run(s: State, es: seq<Event>, step: nat): State
    requires Runs(s, es, step)
    decreases |es|
  {
    if es == [] then s else Run(After(s, es[0], step), es[1..], step)
  }

  function Ticks(es: seq<Event>): nat {
    if es == [] then 0 else (if es[0].Tick? then 1 else 0) + Ticks(es[1..])
  }

  /** How one event treats a sleeper that has more than this event's time to go. */
  lemma SleeperStays(s: State, e: Event, step: nat, t: Thread)
    requires Inv(s) && Possible(s, e) && 0 < step <= MAX_SLEEP && t in s.sleeping
    requires e.Tick? ==> Remaining(t, s.time) > step
    ensures t in After(s, e, step).sleeping
    ensures Remaining(t, After(s, e, step).time) == Remaining(t, s.time) - (if e.Tick? then step else 0)
  {
    hide Remaining, Slept, Ticked, Expired, Distinct;
    var i :| 0 <= i < |s.sleeping| && s.sleeping[i] == t;
    match e {
      case Tick =>
        TickQueues(s, step);
        var k := Expired(s.sleeping, s.time, step);
        assert t == s.sleeping[k..][i - k];
      case Usleep(us) =>
        var k := SleepPlaces(s, us);
        assert if i < k then After(s, e, step).sleeping[i] == t else After(s, e, step).sleeping[i + 1] == t;
      case Schedule(_) =>
    }
  }

  /** Until its time is up a sleeper stays in the queue, whatever else happens. */
  lemma {:induction false} StaysAsleep(s: State, es: seq<Event>, step: nat, t: Thread)
    requires Inv(s) && Runs(s, es, step) && 0 < step <= MAX_SLEEP && t in s.sleeping
    requires Ticks(es) * step < Remaining(t, s.time)
    ensures Inv(Run(s, es, step)) && t in Run(s, es, step).sleeping
    ensures Remaining(t, Run(s, es, step).time) == Remaining(t, s.time) - Ticks(es) * step
    decreases |es|
  {
    if es != [] {
      var n := Ticks(es[1..]);
      assert es[0].Tick? ==> Ticks(es) * step == n * step + step;
      assert n * step >= 0;
      SleeperStays(s, es[0], step, t);
      StepKeepsInv(s, es[0], step);
      StaysAsleep(After(s, es[0], step), es[1..], step, t);
    }
  }

  /** The tick that uses up the rest of its time wakes a sleeper. */
  lemma TickWakes(s: State, step: nat, t: Thread)
    requires Inv(s) && 0 < step <= MAX_SLEEP && t in s.sleeping && Remaining(t, s.time) <= step
    ensures t in Ticked(s, step).ready && t !in Ticked(s, step).sleeping
  {
    TickQueues(s, step);
    var i :| 0 <= i < |s.sleeping| && s.sleeping[i] == t;
    var k := Expired(s.sleeping, s.time, step);
    assert i < k && t in s.sleeping[..k];
    InEither(t, Ticked(s, step).ready, s.ready, s.sleeping[..k]);
    forall j | k <= j < |s.sleeping| ensures s.sleeping[j] != t {
      assert (s.sleeping + s.ready)[i].id != (s.sleeping + s.ready)[j].id;
    }
  }

  function CeilDiv(a: nat, b: nat): nat
    requires b > 0
  {
    (a + b - 1) / b
  }

  lemma CeilDivBounds(a: nat, b: nat, n: nat)
    requires b > 0
    ensures n < CeilDiv(a, b) <==> n * b < a
  {
    var q := CeilDiv(a, b);
    assert a + b - 1 == b * q + (a + b - 1) % b;
    if n < q {
      MultipleGrows(b, n, q);
    } else if q < n {
      MultipleGrows(b, q, n);
    }
  }

  /**
    Exact wake-up. A thread that calls usleep(us) is in the sleep queue through every run of
    ticks, other sleepers and scheduling with fewer than ceil(us / step) ticks, and the tick
    that completes this number wakes it, wherever the 32-bit clock wraps.
   */
  lemma ExactWakeUp(s: State, us: nat, es: seq<Event>, step: nat)
    requires Inv(s) && s.ready != [] && 0 < us <= 1000000 && 0 < step <= 1000000
    requires Runs(Slept(s, us), es, step) && Ticks(es) < CeilDiv(us, step)
    ensures var t := s.ready[0].(timeout := (s.time + us) % WORD);
            var r := Run(Slept(s, us), es, step);
            && t in r.sleeping && t !in r.ready
            && (Ticks(es) + 1 == CeilDiv(us, step) ==> t in Ticked(r, step).ready && t !in Ticked(r, step).sleeping)
            && (Ticks(es) + 1 < CeilDiv(us, step) ==> t in Ticked(r, step).sleeping && t !in Ticked(r, step).ready)
  {
    var t := s.ready[0].(timeout := (s.time + us) % WORD);
    var k := SleepPlaces(s, us);
    SleepKeepsInv(s, us);
    var s1 := Slept(s, us);
    assert s1.sleeping[k] == t;
    CeilDivBounds(us, step, Ticks(es));
    StaysAsleep(s1, es, step, t);
    var r := Run(s1, es, step);
    NotBoth(r, t);
    CeilDivBounds(us, step, Ticks(es) + 1);
    assert (Ticks(es) + 1) * step == Ticks(es) * step + step;
    if Remaining(t, r.time) <= step {
      TickWakes(r, step, t);
    } else {
      SleeperStays(r, Tick, step, t);
      TickKeepsInv(r, step);
      NotBoth(Ticked(r, step), t);
    }
  }

  lemma NotBoth(s: State, t: Thread)
    requires Inv(s) && t in s.sleeping
    ensures t !in s.ready
  {
    var i :| 0 <= i < |s.sleeping| && s.sleeping[i] == t;
    forall j | 0 <= j < |s.ready| ensures s.ready[j] != t {
      assert (s.sleeping + s.ready)[i].id != (s.sleeping + s.ready)[|s.sleeping| + j].id;
    }
  }

  // ---- the order of the ready queue ----------------------------------------------------

  /** Waking threads keeps the ready queue in order of priority. */
  lemma {:induction false} WakingKeepsPriority(s: State)
    requires ByPriority(s.ready)
    ensures ByPriority(WakeExpired(s).ready)
    decreases |s.sleeping|
  {
    hide Insert, SignedRemaining;
    if s.sleeping != [] && SignedRemaining(s.sleeping[0], s.time) <= 0 {
      var k := InsertPlaces(s.ready, s.sleeping[0]);
      WakingKeepsPriority(State(s.time, s.sleeping[1..], Insert(s.ready, s.sleeping[0])));
    }
  }

  lemma TickKeepsPriority(s: State, step: nat)
    requires ByPriority(s.ready)
    ensures ByPriority(Ticked(s, step).ready)
  {
    WakingKeepsPriority(s.(time := (s.time + step) % WORD));
  }

  /** usleep(0) lets the other threads of the same priority run first: the caller goes behind them. */
  lemma YieldPlaces(s: State) returns (k: nat)
    requires s.ready != [] && ByPriority(s.ready)
    ensures k < |s.ready|
    ensures Yielded(s) == State(s.time, s.sleeping, s.ready[1..k + 1] + [s.ready[0]] + s.ready[k + 1..])
    ensures forall i :: k < i < |s.ready| ==> s.ready[i].priority < s.ready[0].priority
    ensures forall i :: 0 < i <= k ==> s.ready[i].priority == s.ready[0].priority
    ensures ByPriority(Yielded(s).ready)
  {
    hide Insert;
    var rest := s.ready[1..];
    k := InsertPlaces(rest, s.ready[0]);
    assert rest[..k] == s.ready[1..k + 1] && rest[k..] == s.ready[k + 1..];
    forall i | 0 < i < |s.ready| ensures s.ready[i] == rest[i - 1] {
    }
  }

  // ---- clocks that tick too fast -------------------------------------------------------

  /** The step of a tick can be counted in microseconds exactly up to a million ticks per second. */
  lemma StepIsPositive(ticksPerSec: nat)
    requires ticksPerSec > 0
    ensures 0 < 1000000 / ticksPerSec <= 1000000 <==> ticksPerSec <= 1000000
  {
    if ticksPerSec > 1000000 {
      assert 1000000 / ticksPerSec == 0;
    }
  }

  /** With more ticks than that the clock stands still, and nobody wakes up. */
  lemma StandingClock(s: State)
    requires Inv(s)
    ensures Ticked(s, 0) == s
  {
    if s.sleeping != [] {
      assert 0 < Remaining(s.sleeping[0], s.time) <= MAX_SLEEP;
    }
  }
}
