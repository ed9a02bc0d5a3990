/**
  The mailbox between the parser and the worker threads of the RPC server: one slot, filled
  by the parser, which then posts a semaphore, and emptied by whichever worker got it.
 */
module Handover {
  import opened Bytes

  /** A worker thread inside peridot_rpc_server_service. */
  datatype Worker =
    | Waiting
    | Woken
    | HasRead(slot: Option<seq<byte>>)
    | Serving(job: seq<byte>)

  datatype State = State(
    pending: Option<seq<byte>>,
    /** The parser filled the slot but has not posted yet. */
    posting: bool,
    sem: nat,
    workers: map<nat, Worker>,
    /** Requests completed by the parser, and requests taken, with the worker that took each. */
    completed: seq<seq<byte>>,
    taken: seq<(nat, seq<byte>)>)

  datatype Step =
    | Complete(job: seq<byte>)
    | Post
    /** What a packet of fewer than five bytes can make the parser do: post with nothing in the slot. */
    | PostNothing
    | Acquire(w: nat)
    | ReadSlot(w: nat)
    | ClearSlot(w: nat)
    | Finish(w: nat)

  predicate Enabled(s: State, e: Step) {
    match e
    case Complete(_) => s.pending.None? && !s.posting
    case Post => s.posting
    case PostNothing => s.pending.None? && !s.posting
    case Acquire(w) => w in s.workers && s.workers[w].Waiting? && s.sem > 0
    case ReadSlot(w) => w in s.workers && s.workers[w].Woken?
    case ClearSlot(w) => w in s.workers && s.workers[w].HasRead?
    case Finish(w) => w in s.workers && s.workers[w].Serving?
  }

  function After(s: State, e: Step): State
    requires Enabled(s, e)
  {
    match e
    case Complete(job) => s.(pending := Some(job), posting := true, completed := s.completed + [job])
    case Post => s.(posting := false, sem := s.sem + 1)
    case PostNothing => s.(sem := s.sem + 1)
    case Acquire(w) => s.(sem := s.sem - 1, workers := s.workers[w := Woken])
    case ReadSlot(w) => s.(workers := s.workers[w := HasRead(s.pending)])
    case ClearSlot(w) =>
      (match s.workers[w].slot
       case None => s.(pending := None, workers := s.workers[w := Waiting])
       case Some(job) =>
         s.(pending := None, workers := s.workers[w := Serving(job)], taken := s.taken + [(w, job)]))
    case Finish(w) => s.(workers := s.workers[w := Waiting])
  }

  function Jobs(taken: seq<(nat, seq<byte>)>): (r: seq<seq<byte>>)
    ensures |r| == |taken|
  {
    seq(|taken|, i requires 0 <= i < |taken| => taken[i].1)
  }

  /** Between waking up and clearing the slot. */
  predicate Holding(s: State, w: nat) {
    w in s.workers && (s.workers[w].Woken? || s.workers[w].HasRead?)
  }

  ghost predicate NobodyHolds(s: State) {
    forall w :: !Holding(s, w)
  }

  /**
    The right to empty the slot is with the parser, in the semaphore, or with one worker,
    exactly while the slot is full.
   */
  ghost predicate Inv(s: State) {
    && (s.pending.None? ==> !s.posting && s.sem == 0 && NobodyHolds(s))
    && (s.posting ==> s.sem == 0 && NobodyHolds(s))
    && (s.sem > 0 ==> s.sem == 1 && NobodyHolds(s))
    && (s.pending.Some? && !s.posting && s.sem == 0 ==> exists w :: Holding(s, w))
    && (forall v, w :: Holding(s, v) && Holding(s, w) ==> v == w)
    && (forall w :: w in s.workers && s.workers[w].HasRead? ==> s.workers[w].slot == s.pending)
    && s.completed == Jobs(s.taken) + (if s.pending.Some? then [s.pending.value] else [])
  }

  lemma StepKeepsInv(s: State, e: Step)
    requires Inv(s) && Enabled(s, e) && !e.PostNothing?
    ensures Inv(After(s, e))
  {
    var t := After(s, e);
    match e {
      case Complete(job) =>
        assert forall w :: w in s.workers && s.workers[w].HasRead? ==> Holding(s, w);
        assert forall w :: Holding(t, w) <==> Holding(s, w);
      case Post =>
        assert forall w :: Holding(t, w) <==> Holding(s, w);
      case Acquire(w) =>
        assert Holding(t, w);
        assert forall v :: v != w ==> (Holding(t, v) <==> Holding(s, v));
      case ReadSlot(w) =>
        assert Holding(s, w);
        assert forall v :: Holding(t, v) <==> Holding(s, v);
      case ClearSlot(w) =>
        assert Holding(s, w);
        assert forall v :: v != w ==> (Holding(t, v) <==> Holding(s, v));
        assert !Holding(t, w);
        assert forall v :: v in t.workers && t.workers[v].HasRead? ==> Holding(t, v);
        assert s.workers[w].slot == s.pending;
        assert Jobs(t.taken) == Jobs(s.taken) + [s.pending.value];
      case Finish(w) =>
        assert forall v :: Holding(t, v) <==> Holding(s, v);
    }
  }

  function Initial(ids: set<nat>): State {
    State(None, false, 0, map w | w in ids :: Waiting, [], [])
  }

  ghost predicate Reachable(s: State, es: seq<Step>, t: State)
    decreases |es|
  {
    if es == [] then s == t else Enabled(s, es[0]) && Reachable(After(s, es[0]), es[1..], t)
  }

  lemma {:induction false} RunKeepsInv(s: State, es: seq<Step>, t: State)
    requires Inv(s) && Reachable(s, es, t) && PostNothing !in es
    ensures Inv(t)
    decreases |es|
  {
    if es != [] {
      assert es[0] in es;
      StepKeepsInv(s, es[0]);
      RunKeepsInv(After(s, es[0]), es[1..], t);
    }
  }

  /**
    Exactly-once hand-over, as long as every post is for a request. However the parser and any
    number of workers interleave, the requests taken are the completed ones in order of arrival,
    each once; at most the last one is not taken yet, and it is the one in the slot. No worker
    wakes up to an empty slot, and the slot is never filled twice.
   */
  lemma ExactlyOnce(ids: set<nat>, es: seq<Step>, s: State)
    requires Reachable(Initial(ids), es, s) && PostNothing !in es
    ensures s.completed == Jobs(s.taken) + (if s.pending.Some? then [s.pending.value] else [])
    ensures forall w :: w in s.workers && s.workers[w].HasRead? ==> s.workers[w].slot.Some?
    ensures forall v, w :: Holding(s, v) && Holding(s, w) ==> v == w
    ensures s.sem <= 1
  {
    assert Jobs([]) == [];
    RunKeepsInv(Initial(ids), es, s);
    forall w | w in s.workers && s.workers[w].HasRead? ensures s.workers[w].slot.Some? {
      assert Holding(s, w);
    }
  }

  /** While a request waits in the slot, someone can move: the mailbox cannot get stuck. */
  lemma NeverStuck(ids: set<nat>, es: seq<Step>, s: State) returns (e: Step)
    requires Reachable(Initial(ids), es, s) && PostNothing !in es && s.pending.Some? && ids != {}
    ensures Enabled(s, e) && !e.Complete?
  {
    RunKeepsInv(Initial(ids), es, s);
    WorkersStay(Initial(ids), es, s);
    var i :| i in ids;
    if s.posting {
      e := Post;
    } else if s.sem > 0 {
      assert !Holding(s, i);
      e := if s.workers[i].Waiting? then Acquire(i) else Finish(i);
    } else {
      var w :| Holding(s, w);
      e := if s.workers[w].Woken? then ReadSlot(w) else ClearSlot(w);
    }
  }

  lemma {:induction false} WorkersStay(s: State, es: seq<Step>, t: State)
    requires Reachable(s, es, t)
    ensures t.workers.Keys == s.workers.Keys
    decreases |es|
  {
    if es != [] {
      WorkersStay(After(s, es[0]), es[1..], t);
    }
  }

  /**
    One post without a request is enough for two workers to take the same request: the worker it
    wakes is still there when the request arrives and wakes another.
   */
  lemma OnePostTooManyTakesTwice(job: seq<byte>) returns (s: State)
    ensures Reachable(Initial({0, 1}), [PostNothing, Acquire(0), Complete(job), Post, Acquire(1),
                                        ReadSlot(0), ReadSlot(1), ClearSlot(0), ClearSlot(1)], s)
    ensures s.completed == [job] && s.taken == [(0, job), (1, job)]
  {
    hide Reachable, After, Enabled;
    s := State(None, false, 0, map[0 := Serving(job), 1 := Serving(job)], [job], [(0, job), (1, job)]);
    var last := [ReadSlot(0), ReadSlot(1), ClearSlot(0), ClearSlot(1)];
    BothReadAndClear(job, s);
    BothWake(job, last, s);
    assert [PostNothing, Acquire(0), Complete(job), Post, Acquire(1)] + last ==
      [PostNothing, Acquire(0), Complete(job), Post, Acquire(1), ReadSlot(0), ReadSlot(1), ClearSlot(0), ClearSlot(1)];
  }

  lemma BothWake(job: seq<byte>, es: seq<Step>, t: State)
    requires Reachable(State(Some(job), false, 0, map[0 := Woken, 1 := Woken], [job], []), es, t)
    ensures Reachable(Initial({0, 1}), [PostNothing, Acquire(0), Complete(job), Post, Acquire(1)] + es, t)
  {
    hide Reachable;
    var workers := map[0 := Woken, 1 := Waiting];
    assert workers[1 := Woken] == map[0 := Woken, 1 := Woken];
    TwoSteps(State(Some(job), true, 0, workers, [job], []), Post, Acquire(1), es, t);
    assert [] + [job] == [job];
    OneStep(State(None, false, 0, workers, [], []), Complete(job), [Post, Acquire(1)] + es, t);
    var s := Initial({0, 1});
    assert s.workers[0 := Woken] == workers;
    TwoSteps(s, PostNothing, Acquire(0), [Complete(job)] + ([Post, Acquire(1)] + es), t);
    assert [PostNothing, Acquire(0)] + ([Complete(job)] + ([Post, Acquire(1)] + es)) ==
      [PostNothing, Acquire(0), Complete(job), Post, Acquire(1)] + es;
  }

  lemma BothReadAndClear(job: seq<byte>, t: State)
    requires t == State(None, false, 0, map[0 := Serving(job), 1 := Serving(job)], [job], [(0, job), (1, job)])
    ensures Reachable(State(Some(job), false, 0, map[0 := Woken, 1 := Woken], [job], []),
              [ReadSlot(0), ReadSlot(1), ClearSlot(0), ClearSlot(1)], t)
  {
    hide Reachable;
    var read := map[0 := HasRead(Some(job)), 1 := HasRead(Some(job))];
    var s := State(Some(job), false, 0, read, [job], []);
    assert read[0 := Serving(job)][1 := Serving(job)] == t.workers;
    assert [] + [(0, job)] + [(1, job)] == t.taken;
    Reached(t);
    TwoSteps(s, ClearSlot(0), ClearSlot(1), [], t);
    assert [ClearSlot(0), ClearSlot(1)] + [] == [ClearSlot(0), ClearSlot(1)];
    var woken := map[0 := Woken, 1 := Woken];
    assert woken[0 := HasRead(Some(job))][1 := HasRead(Some(job))] == read;
    TwoSteps(State(Some(job), false, 0, woken, [job], []), ReadSlot(0), ReadSlot(1), [ClearSlot(0), ClearSlot(1)], t);
    assert [ReadSlot(0), ReadSlot(1)] + [ClearSlot(0), ClearSlot(1)] ==
      [ReadSlot(0), ReadSlot(1), ClearSlot(0), ClearSlot(1)];
  }

  lemma Reached(t: State)
    ensures Reachable(t, [], t)
  {
  }

  lemma OneStep(s: State, e: Step, es: seq<Step>, t: State)
    requires Enabled(s, e) && Reachable(After(s, e), es, t)
    ensures Reachable(s, [e] + es, t)
  {
    assert ([e] + es)[1..] == es;
  }

  lemma TwoSteps(s: State, e: Step, f: Step, es: seq<Step>, t: State)
    requires Enabled(s, e) && Enabled(After(s, e), f) && Reachable(After(After(s, e), f), es, t)
    ensures Reachable(s, [e, f] + es, t)
  {
    OneStep(After(s, e), f, es, t);
    OneStep(s, e, [f] + es, t);
    assert [e] + ([f] + es) == [e, f] + es;
  }
}
