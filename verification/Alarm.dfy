/**
  HAL alarms: deadlines on a tick counter that wraps at 2^32, told apart by a rollover flag,
  against the same alarms on a clock that never wraps.
 */
module Alarm {
  import opened Bytes
  import opened Errno

  type word = x: int | 0 <= x < WORD

  datatype Alarm = Alarm(id: nat, time: word, rollover: bool)

  /** What the callbacks return when called during a tick: ticks to the next call, 0 for never. */
  type Answers = nat -> word

  /** Whether an alarm runs its callback at tick counter value n. */
  predicate Due(a: Alarm, n: word) {
    a.time <= n && !(a.rollover && n != 0)
  }

  /** An alarm after the tick; None if it left the list. */
  function Serve(a: Alarm, n: word, answers: Answers): seq<Alarm> {
    var a1 := if a.rollover && n == 0 then a.(rollover := false) else a;
    if a1.time <= n && !a1.rollover then
      var p := answers(a.id);
      if p == 0 then [] else
      var time: word := (a1.time + p) % WORD;
      [Alarm(a.id, time, time < n)]
    else [a1]
  }

  function ServeAll(alarms: seq<Alarm>, n: word, answers: Answers): seq<Alarm> {
    if alarms == [] then [] else Serve(alarms[0], n, answers) + ServeAll(alarms[1..], n, answers)
  }

  function DueIds(alarms: seq<Alarm>, n: word): seq<nat> {
    if alarms == [] then [] else (if Due(alarms[0], n) then [alarms[0].id] else []) + DueIds(alarms[1..], n)
  }

  function Started(id: nat, nticks: word, now: word): Alarm {
    var time: word := (nticks + now + 1) % WORD;
    Alarm(id, time, time < now)
  }

  class AlarmList {
    /** Ticks per second; 0 while there is no system clock. */
    var tickRate: nat
    var nticks: word
    var alarms: seq<Alarm>

    constructor (tickRate: nat)
      ensures this.tickRate == tickRate && nticks == 0 && alarms == []
    {
      this.tickRate, nticks, alarms := tickRate, 0, [];
    }

    /** alt_alarm_start; the caller names the alarm structure by id, or passes no alarm. */
    method Start(hasAlarm: bool, id: nat, ticks: word) returns (result: int)
      modifies this`alarms
      ensures result == if tickRate == 0 then -ENOTSUP else if !hasAlarm then -EINVAL else 0
      ensures alarms == if result == 0 then [Started(id, ticks, nticks)] + old(alarms) else old(alarms)
    {
      if tickRate != 0 {
        if hasAlarm {
          var current := nticks;
          var time: word := (ticks + current + 1) % WORD;
          var rollover;
          if time < current {
            rollover := true;
          } else {
            rollover := false;
          }
          alarms := [Alarm(id, time, rollover)] + alarms;
          return 0;
        } else {
          return -EINVAL;
        }
      } else {
        return -ENOTSUP;
      }
    }

    /** alt_alarm_stop: unlinks an alarm, or does nothing if it is not linked. */
    method Stop(id: nat)
      modifies this`alarms
      ensures alarms == Without(old(alarms), id)
    {
      var kept := [];
      var i := 0;
      ghost var goal := Without(alarms, id);
      while i < |alarms|
        invariant 0 <= i <= |alarms| && alarms == old(alarms)
        invariant kept + Without(alarms[i..], id) == goal
      {
        ghost var rest := Without(alarms[i + 1..], id);
        assert alarms[i..][1..] == alarms[i + 1..];
        ghost var next := if alarms[i].id == id then [] else [alarms[i]];
        assert Without(alarms[i..], id) == next + rest;
        Regroup(kept, next, rest);
        if alarms[i].id != id {
          kept := kept + [alarms[i]];
        } else {
          assert kept + next == kept;
        }
        i := i + 1;
      }
      alarms := kept;
    }

    /** One pass of the loop in alt_tick. */
    static method ServeAlarm(a: Alarm, n: word, answers: Answers) returns (kept: seq<Alarm>, ran: bool)
      ensures kept == Serve(a, n, answers) && ran == Due(a, n)
      ensures forall d: Ideal, N: nat :: Represents(a, d, N) && n == (N + 1) % WORD ==>
                && (ran <==> d.deadline == N + 1)
                && RepresentAll(kept, ServeIdeal(d, N + 1, answers), N + 1)
    {
      forall d: Ideal, N: nat | Represents(a, d, N) && n == (N + 1) % WORD
        ensures Due(a, n) <==> d.deadline == N + 1
        ensures RepresentAll(Serve(a, n, answers), ServeIdeal(d, N + 1, answers), N + 1)
      {
        ServeRefines(a, d, N, answers);
      }
      hide Represents, RepresentAll, ServeIdeal;
      var alarm := a;
      ran := false;
      kept := [];
      if alarm.rollover && n == 0 {
        alarm := alarm.(rollover := false);
      }
      if alarm.time <= n && !alarm.rollover {
        var next := answers(alarm.id);
        ran := true;
        if next != 0 {
          alarm := alarm.(time := (alarm.time + next) % WORD);
          if alarm.time < n {
            alarm := alarm.(rollover := true);
          }
          kept := [alarm];
        }
      } else {
        kept := [alarm];
      }
    }

    /** alt_tick; fired lists the alarms whose callbacks ran. */
    method Tick(answers: Answers) returns (fired: seq<nat>)
      modifies this`nticks, this`alarms
      ensures nticks == (old(nticks) + 1) % WORD
      ensures alarms == ServeAll(old(alarms), nticks, answers)
      ensures fired == DueIds(old(alarms), nticks)
    {
      hide ServeAll, DueIds, Serve, Due;
      nticks := (nticks + 1) % WORD;
      fired := [];
      var done: seq<Alarm> := [];
      var i := 0;
      ghost var (kept, ids) := (ServeAll(alarms, nticks, answers), DueIds(alarms, nticks));
      assert alarms[0..] == alarms;
      while i < |alarms|
        invariant 0 <= i <= |alarms| && alarms == old(alarms) && nticks == (old(nticks) + 1) % WORD
        invariant done + ServeAll(alarms[i..], nticks, answers) == kept
        invariant fired + DueIds(alarms[i..], nticks) == ids
      {
        ServeAllStep(alarms, i, nticks, answers);
        var stays, ran := ServeAlarm(alarms[i], nticks, answers);
        Regroup(done, stays, ServeAll(alarms[i + 1..], nticks, answers));
        Regroup(fired, if ran then [alarms[i].id] else [], DueIds(alarms[i + 1..], nticks));
        if ran {
          fired := fired + [alarms[i].id];
        } else {
          assert fired + [] == fired;
        }
        done := done + stays;
        i := i + 1;
      }
      ServeNone(alarms[i..], nticks, answers);
      assert done + [] == done && fired + [] == fired;
      alarms := done;
    }
  }

  lemma ServeAllStep(alarms: seq<Alarm>, i: nat, n: word, answers: Answers)
    requires i < |alarms|
    ensures ServeAll(alarms[i..], n, answers) == Serve(alarms[i], n, answers) + ServeAll(alarms[i + 1..], n, answers)
    ensures DueIds(alarms[i..], n) == (if Due(alarms[i], n) then [alarms[i].id] else []) + DueIds(alarms[i + 1..], n)
  {
    assert alarms[i..][1..] == alarms[i + 1..];
  }

  lemma ServeNone(alarms: seq<Alarm>, n: word, answers: Answers)
    requires alarms == []
    ensures ServeAll(alarms, n, answers) == [] && DueIds(alarms, n) == []
  {
  }

  lemma Regroup<T>(done: seq<T>, next: seq<T>, rest: seq<T>)
    ensures done + next + rest == done + (next + rest)
  {
  }

  function Without(alarms: seq<Alarm>, id: nat): seq<Alarm> {
    if alarms == [] then []
    else (if alarms[0].id == id then [] else [alarms[0]]) + Without(alarms[1..], id)
  }

  // ---- the ideal alarms ----------------------------------------------------------------

  /** An alarm on a clock that counts for ever, and the tick at which it is due. */
  datatype Ideal = Ideal(id: nat, deadline: nat)

  /** a, at tick counter n, stands for the ideal alarm d at tick N. */
  predicate Represents(a: Alarm, d: Ideal, N: nat) {
    && a.id == d.id
    && N < d.deadline < N + WORD
    && a.time == d.deadline % WORD
    && (a.rollover <==> d.deadline / WORD == N / WORD + 1)
    && (!a.rollover <==> d.deadline / WORD == N / WORD)
  }

  predicate RepresentAll(alarms: seq<Alarm>, ds: seq<Ideal>, N: nat) {
    |alarms| == |ds| && forall i :: 0 <= i < |ds| ==> Represents(alarms[i], ds[i], N)
  }

  /** At its deadline an ideal alarm runs its callback and is due again that much later, or never. */
  function ServeIdeal(d: Ideal, N: nat, answers: Answers): seq<Ideal> {
    if d.deadline != N then [d]
    else if answers(d.id) == 0 then []
    else [Ideal(d.id, N + answers(d.id))]
  }

  function ServeIdeals(ds: seq<Ideal>, N: nat, answers: Answers): seq<Ideal> {
    if ds == [] then [] else ServeIdeal(ds[0], N, answers) + ServeIdeals(ds[1..], N, answers)
  }

  function DueIdeals(ds: seq<Ideal>, N: nat): seq<nat> {
    if ds == [] then [] else (if ds[0].deadline == N then [ds[0].id] else []) + DueIdeals(ds[1..], N)
  }

  lemma DivMod(x: nat)
    ensures x == WORD * (x / WORD) + x % WORD
  {
  }

  /** The counter and the epoch of the next tick. */
  lemma NextTick(N: nat)
    ensures (N + 1) % WORD == if N % WORD == WORD - 1 then 0 else N % WORD + 1
    ensures (N + 1) / WORD == if N % WORD == WORD - 1 then N / WORD + 1 else N / WORD
  {
  }

  /** Epoch and residue of a time less than one epoch ahead. */
  lemma Ahead(N: nat, p: nat)
    requires p < WORD
    ensures (N + p) / WORD == if N % WORD + p < WORD then N / WORD else N / WORD + 1
    ensures (N + p) % WORD == if N % WORD + p < WORD then N % WORD + p else N % WORD + p - WORD
  {
  }

  /** The wrapping counter and the flag decide as the unbounded clock does. */
  lemma ServeRefines(a: Alarm, d: Ideal, N: nat, answers: Answers)
    requires Represents(a, d, N)
    ensures var n: word := (N + 1) % WORD;
            && (Due(a, n) <==> d.deadline == N + 1)
            && RepresentAll(Serve(a, n, answers), ServeIdeal(d, N + 1, answers), N + 1)
  {
    NextTick(N);
    DivMod(N);
    DivMod(d.deadline);
    var p := answers(a.id);
    if d.deadline == N + 1 {
      Ahead(N + 1, p);
    }
  }

  lemma {:induction false} RepresentConcat(a1: seq<Alarm>, d1: seq<Ideal>, a2: seq<Alarm>, d2: seq<Ideal>, N: nat)
    requires RepresentAll(a1, d1, N) && RepresentAll(a2, d2, N)
    ensures RepresentAll(a1 + a2, d1 + d2, N)
  {
  }

  /** One tick of the whole list. */
  lemma {:induction false} TickRefines(alarms: seq<Alarm>, ds: seq<Ideal>, N: nat, answers: Answers)
    requires RepresentAll(alarms, ds, N)
    ensures var n: word := (N + 1) % WORD;
            && DueIds(alarms, n) == DueIdeals(ds, N + 1)
            && RepresentAll(ServeAll(alarms, n, answers), ServeIdeals(ds, N + 1, answers), N + 1)
    decreases |alarms|
  {
    if alarms != [] {
      ServeRefines(alarms[0], ds[0], N, answers);
      TickRefines(alarms[1..], ds[1..], N, answers);
      var n: word := (N + 1) % WORD;
      RepresentConcat(Serve(alarms[0], n, answers), ServeIdeal(ds[0], N + 1, answers),
                      ServeAll(alarms[1..], n, answers), ServeIdeals(ds[1..], N + 1, answers), N + 1);
    }
  }

  /**
    A started alarm stands for the deadline nticks + 1 ahead for every argument but 2^32 - 1;
    that one puts it at the current tick, with the flag clear.
   */
  lemma StartRepresents(id: nat, nticks: word, N: nat)
    ensures Represents(Started(id, nticks, N % WORD), Ideal(id, N + nticks + 1), N) <==> nticks != WORD - 1
  {
    DivMod(N);
    if nticks != WORD - 1 {
      Ahead(N, nticks + 1);
    }
  }

  /** The longest interval is not kept: its alarm runs at the very next tick that does not wrap. */
  lemma LongestIntervalRunsAtOnce(id: nat, N: nat)
    ensures var n: word := (N + 1) % WORD;
            Due(Started(id, WORD - 1, N % WORD), n) <==> n != 0
  {
    NextTick(N);
    assert (WORD - 1 + N % WORD + 1) % WORD == N % WORD;
  }

  // ---- runs ----------------------------------------------------------------------------

  datatype Event = Tick(answers: Answers) | Start(id: nat, nticks: word) | Stop(id: nat)

  datatype State = State(nticks: word, alarms: seq<Alarm>)

  datatype Clock = Clock(now: nat, ds: seq<Ideal>)

  function After(s: State, e: Event): State {
    match e
    case Tick(answers) =>
      var n: word := (s.nticks + 1) % WORD;
      State(n, ServeAll(s.alarms, n, answers))
    case Start(id, nticks) => State(s.nticks, [Started(id, nticks, s.nticks)] + s.alarms)
    case Stop(id) => State(s.nticks, Without(s.alarms, id))
  }

  function Fired(s: State, e: Event): seq<nat> {
    if e.Tick? then DueIds(s.alarms, (s.nticks + 1) % WORD) else []
  }

  function WithoutIdeal(ds: seq<Ideal>, id: nat): seq<Ideal> {
    if ds == [] then [] else (if ds[0].id == id then [] else [ds[0]]) + WithoutIdeal(ds[1..], id)
  }

  function IdealAfter(c: Clock, e: Event): Clock {
    match e
    case Tick(answers) => Clock(c.now + 1, ServeIdeals(c.ds, c.now + 1, answers))
    case Start(id, nticks) => Clock(c.now, [Ideal(id, c.now + nticks + 1)] + c.ds)
    case Stop(id) => Clock(c.now, WithoutIdeal(c.ds, id))
  }

  function IdealFired(c: Clock, e: Event): seq<nat> {
    if e.Tick? then DueIdeals(c.ds, c.now + 1) else []
  }

  predicate Related(s: State, c: Clock) {
    s.nticks == c.now % WORD && RepresentAll(s.alarms, c.ds, c.now)
  }

  lemma {:induction false} WithoutRefines(alarms: seq<Alarm>, ds: seq<Ideal>, id: nat, N: nat)
    requires RepresentAll(alarms, ds, N)
    ensures RepresentAll(Without(alarms, id), WithoutIdeal(ds, id), N)
    decreases |alarms|
  {
    if alarms != [] {
      assert Represents(alarms[0], ds[0], N);
      WithoutRefines(alarms[1..], ds[1..], id, N);
    }
  }

  lemma StepRefines(s: State, c: Clock, e: Event)
    requires Related(s, c) && (e.Start? ==> e.nticks != WORD - 1)
    ensures Related(After(s, e), IdealAfter(c, e)) && Fired(s, e) == IdealFired(c, e)
  {
    hide ServeAll, DueIds, ServeIdeals, DueIdeals, Represents, Without, WithoutIdeal, Started;
    match e {
      case Tick(answers) =>
        NextTick(c.now);
        TickRefines(s.alarms, c.ds, c.now, answers);
      case Start(id, nticks) =>
        StartRepresents(id, nticks, c.now);
      case Stop(id) =>
        WithoutRefines(s.alarms, c.ds, id, c.now);
    }
  }

  /** The callbacks run during each event of a run. */
  function Trace(s: State, es: seq<Event>): seq<seq<nat>>
    decreases |es|
  {
    if es == [] then [] else [Fired(s, es[0])] + Trace(After(s, es[0]), es[1..])
  }

  function IdealTrace(c: Clock, es: seq<Event>): seq<seq<nat>>
    decreases |es|
  {
    if es == [] then [] else [IdealFired(c, es[0])] + IdealTrace(IdealAfter(c, es[0]), es[1..])
  }

  ghost predicate Ordinary(es: seq<Event>) {
    forall e :: e in es && e.Start? ==> e.nticks != WORD - 1
  }

  /**
    The alarm list refines the ideal one: over every run of starts, stops and ticks, through
    any number of counter wraps, the same callbacks run at the same ticks.
   */
  lemma {:induction false} AlarmsRefine(s: State, c: Clock, es: seq<Event>)
    requires Related(s, c) && Ordinary(es)
    ensures Trace(s, es) == IdealTrace(c, es)
    decreases |es|
  {
    if es != [] {
      assert es[0] in es;
      StepRefines(s, c, es[0]);
      AlarmsRefine(After(s, es[0]), IdealAfter(c, es[0]), es[1..]);
    }
  }

  // ---- what the ideal alarms promise ---------------------------------------------------

  function Ticks(es: seq<Event>): nat {
    if es == [] then 0 else (if es[0].Tick? then 1 else 0) + Ticks(es[1..])
  }

  function RunIdeal(c: Clock, es: seq<Event>): Clock
    decreases |es|
  {
    if es == [] then c else RunIdeal(IdealAfter(c, es[0]), es[1..])
  }

  lemma {:induction false} ServeIdealsKeeps(ds: seq<Ideal>, N: nat, answers: Answers, d: Ideal)
    requires d in ds
    ensures d.deadline != N ==> d in ServeIdeals(ds, N, answers)
    ensures d.deadline == N ==> d.id in DueIdeals(ds, N)
    ensures d.deadline == N && answers(d.id) != 0 ==> Ideal(d.id, N + answers(d.id)) in ServeIdeals(ds, N, answers)
  {
    if ds[0] != d {
      ServeIdealsKeeps(ds[1..], N, answers, d);
    }
  }

  lemma {:induction false} WithoutIdealKeeps(ds: seq<Ideal>, id: nat, d: Ideal)
    requires d in ds && d.id != id
    ensures d in WithoutIdeal(ds, id)
  {
    if ds[0] != d {
      WithoutIdealKeeps(ds[1..], id, d);
    }
  }

  /** Only its deadline or being stopped removes an ideal alarm. */
  lemma {:induction false} IdealWaits(c: Clock, es: seq<Event>, d: Ideal)
    requires d in c.ds && c.now + Ticks(es) < d.deadline
    requires forall e :: e in es && e.Stop? ==> e.id != d.id
    ensures d in RunIdeal(c, es).ds && RunIdeal(c, es).now == c.now + Ticks(es)
    decreases |es|
  {
    if es != [] {
      assert es[0] in es;
      match es[0] {
        case Tick(answers) => ServeIdealsKeeps(c.ds, c.now + 1, answers, d);
        case Start(_, _) =>
        case Stop(id) => WithoutIdealKeeps(c.ds, id, d);
      }
      IdealWaits(IdealAfter(c, es[0]), es[1..], d);
    }
  }

  function RunState(s: State, es: seq<Event>): State
    decreases |es|
  {
    if es == [] then s else RunState(After(s, es[0]), es[1..])
  }

  lemma {:induction false} RunRefines(s: State, c: Clock, es: seq<Event>)
    requires Related(s, c) && Ordinary(es)
    ensures Related(RunState(s, es), RunIdeal(c, es))
    decreases |es|
  {
    if es != [] {
      assert es[0] in es;
      StepRefines(s, c, es[0]);
      RunRefines(After(s, es[0]), IdealAfter(c, es[0]), es[1..]);
    }
  }

  /** The only ideal alarm of its name in the list. */
  predicate OnlyOne(ds: seq<Ideal>, d: Ideal) {
    forall x :: x in ds && x.id == d.id ==> x == d
  }

  lemma {:induction false} ServeIdealsQuiet(ds: seq<Ideal>, N: nat, answers: Answers, d: Ideal)
    requires OnlyOne(ds, d) && d.deadline != N
    ensures d.id !in DueIdeals(ds, N) && OnlyOne(ServeIdeals(ds, N, answers), d)
  {
    if ds != [] {
      assert ds[0] in ds;
      assert forall x :: x in ds[1..] ==> x in ds;
      ServeIdealsQuiet(ds[1..], N, answers, d);
      var first := ServeIdeal(ds[0], N, answers);
      assert forall x :: x in first && x.id == d.id ==> x == d;
      assert forall x :: x in ServeIdeals(ds, N, answers) ==> x in first || x in ServeIdeals(ds[1..], N, answers);
    }
  }

  lemma {:induction false} WithoutIdealQuiet(ds: seq<Ideal>, id: nat, d: Ideal)
    requires OnlyOne(ds, d)
    ensures OnlyOne(WithoutIdeal(ds, id), d)
  {
    if ds != [] {
      assert forall x :: x in ds[1..] ==> x in ds;
      WithoutIdealQuiet(ds[1..], id, d);
      assert forall x :: x in WithoutIdeal(ds, id) ==> x == ds[0] || x in WithoutIdeal(ds[1..], id);
    }
  }

  /** Before its deadline an ideal alarm is silent. */
  lemma {:induction false} IdealIsQuiet(c: Clock, es: seq<Event>, d: Ideal)
    requires OnlyOne(c.ds, d) && c.now + Ticks(es) < d.deadline
    requires forall e :: e in es && e.Start? ==> e.id != d.id
    ensures forall ids :: ids in IdealTrace(c, es) ==> d.id !in ids
    decreases |es|
  {
    if es != [] {
      assert es[0] in es;
      match es[0] {
        case Tick(answers) => ServeIdealsQuiet(c.ds, c.now + 1, answers, d);
        case Start(_, _) =>
        case Stop(id) => WithoutIdealQuiet(c.ds, id, d);
      }
      IdealIsQuiet(IdealAfter(c, es[0]), es[1..], d);
    }
  }

  /** Names of alarms and of the ideal ones they stand for are the same. */
  lemma NamesAgree(alarms: seq<Alarm>, ds: seq<Ideal>, N: nat, id: nat)
    requires RepresentAll(alarms, ds, N) && forall a :: a in alarms ==> a.id != id
    ensures forall x :: x in ds ==> x.id != id
  {
    forall x | x in ds ensures x.id != id {
      var i :| 0 <= i < |ds| && ds[i] == x;
      assert alarms[i] in alarms;
    }
  }

  /**
    No call before the first one is due: while its name is used once, the callback of an alarm
    started with nticks runs in none of the first nticks ticks, whatever else happens.
   */
  lemma NoEarlierCall(s: State, c: Clock, id: nat, nticks: word, es: seq<Event>)
    requires Related(s, c) && nticks != WORD - 1 && Ordinary(es) && Ticks(es) <= nticks
    requires (forall a :: a in s.alarms ==> a.id != id) && forall e :: e in es && e.Start? ==> e.id != id
    ensures forall ids :: ids in Trace(After(s, Start(id, nticks)), es) ==> id !in ids
  {
    hide Trace, IdealTrace, Ticks, Ordinary;
    var d := Ideal(id, c.now + nticks + 1);
    var s0, c0 := After(s, Start(id, nticks)), IdealAfter(c, Start(id, nticks));
    NamesAgree(s.alarms, c.ds, c.now, id);
    StepRefines(s, c, Start(id, nticks));
    IdealIsQuiet(c0, es, d);
    AlarmsRefine(s0, c0, es);
  }

  /**
    First call and period, on the wrapping counter: an alarm started with nticks and not
    stopped has its callback run by the tick that is number nticks + 1 from then, and if the
    callback returns p, it is due again exactly p ticks later.
   */
  lemma FirstCallAndPeriod(s: State, c: Clock, id: nat, nticks: word, es: seq<Event>, answers: Answers)
    requires Related(s, c) && nticks != WORD - 1 && Ordinary(es)
    requires Ticks(es) == nticks && forall e :: e in es && e.Stop? ==> e.id != id
    ensures var s1 := RunState(After(s, Start(id, nticks)), es);
            id in Fired(s1, Tick(answers))
    ensures var c1 := RunIdeal(IdealAfter(c, Start(id, nticks)), es);
            && Related(RunState(After(s, Start(id, nticks)), es), c1)
            && c1.now == c.now + nticks
            && (answers(id) != 0 ==> Ideal(id, c1.now + 1 + answers(id)) in IdealAfter(c1, Tick(answers)).ds)
  {
    hide ServeAll, DueIds, ServeIdeals, DueIdeals, Related, Started, RunState, RunIdeal, Ticks, Ordinary;
    StepRefines(s, c, Start(id, nticks));
    var s0, c0 := After(s, Start(id, nticks)), IdealAfter(c, Start(id, nticks));
    var d := Ideal(id, c.now + nticks + 1);
    assert d in c0.ds;
    IdealWaits(c0, es, d);
    RunRefines(s0, c0, es);
    var s1, c1 := RunState(s0, es), RunIdeal(c0, es);
    ServeIdealsKeeps(c1.ds, c1.now + 1, answers, d);
    StepRefines(s1, c1, Tick(answers));
  }

  // ---- alarms that are gone ------------------------------------------------------------

  /** No alarm of this name is in the list. */
  predicate Gone(alarms: seq<Alarm>, id: nat) {
    forall a :: a in alarms ==> a.id != id
  }

  /** Stopping takes out the alarms of one name, and no other. */
  lemma {:induction false} WithoutIsExact(alarms: seq<Alarm>, id: nat)
    ensures forall a :: a in Without(alarms, id) <==> a in alarms && a.id != id
    decreases |alarms|
  {
    if alarms != [] {
      WithoutIsExact(alarms[1..], id);
      assert alarms == [alarms[0]] + alarms[1..];
    }
  }

  /** A tick neither calls an alarm that is not in the list nor brings it back. */
  lemma {:induction false} GoneStaysGone(alarms: seq<Alarm>, n: word, answers: Answers, id: nat)
    requires Gone(alarms, id)
    ensures id !in DueIds(alarms, n) && Gone(ServeAll(alarms, n, answers), id)
    decreases |alarms|
  {
    if alarms != [] {
      assert alarms[0] in alarms;
      assert forall a :: a in alarms[1..] ==> a in alarms;
      GoneStaysGone(alarms[1..], n, answers, id);
      GoneFromBoth(Serve(alarms[0], n, answers), ServeAll(alarms[1..], n, answers), id);
    }
  }

  lemma GoneFromBoth(a: seq<Alarm>, b: seq<Alarm>, id: nat)
    requires Gone(a, id) && Gone(b, id)
    ensures Gone(a + b, id)
  {
  }

  lemma {:induction false} GoneIsSilent(s: State, id: nat, es: seq<Event>)
    requires Gone(s.alarms, id) && forall e :: e in es && e.Start? ==> e.id != id
    ensures forall ids :: ids in Trace(s, es) ==> id !in ids
    decreases |es|
  {
    hide ServeAll, DueIds, Without;
    if es != [] {
      assert es[0] in es;
      match es[0] {
        case Tick(answers) => GoneStaysGone(s.alarms, (s.nticks + 1) % WORD, answers, id);
        case Start(_, _) =>
        case Stop(other) => WithoutIsExact(s.alarms, other);
      }
      GoneIsSilent(After(s, es[0]), id, es[1..]);
    }
  }

  /** A stopped alarm that is not started again is never called again, whatever the clock does. */
  lemma StoppedIsSilent(s: State, id: nat, es: seq<Event>)
    requires forall e :: e in es && e.Start? ==> e.id != id
    ensures forall ids :: ids in Trace(After(s, Stop(id)), es) ==> id !in ids
  {
    WithoutIsExact(s.alarms, id);
    GoneIsSilent(After(s, Stop(id)), id, es);
  }

  lemma {:induction false} AnsweredZeroIsGone(alarms: seq<Alarm>, n: word, answers: Answers, id: nat)
    requires answers(id) == 0 && forall a :: a in alarms && a.id == id ==> Due(a, n)
    ensures Gone(ServeAll(alarms, n, answers), id)
    decreases |alarms|
  {
    if alarms != [] {
      assert alarms[0] in alarms;
      assert forall a :: a in alarms[1..] ==> a in alarms;
      AnsweredZeroIsGone(alarms[1..], n, answers, id);
      GoneFromBoth(Serve(alarms[0], n, answers), ServeAll(alarms[1..], n, answers), id);
    }
  }

  /** So is an alarm that was due and whose callback returned 0. */
  lemma FinishedIsSilent(s: State, id: nat, answers: Answers, es: seq<Event>)
    requires answers(id) == 0 && forall a :: a in s.alarms && a.id == id ==> Due(a, (s.nticks + 1) % WORD)
    requires forall e :: e in es && e.Start? ==> e.id != id
    ensures forall ids :: ids in Trace(After(s, Tick(answers)), es) ==> id !in ids
  {
    AnsweredZeroIsGone(s.alarms, (s.nticks + 1) % WORD, answers, id);
    GoneIsSilent(After(s, Tick(answers)), id, es);
  }
}
