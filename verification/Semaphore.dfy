/**
  Counting semaphores with direct hand-over: a post with threads waiting wakes one of them
  and never shows in the count.
 */
module Semaphore {
  import opened Errno
  import opened Threads

  const SEM_VALUE_MAX := 32767

  datatype State = State(value: int, waiter: seq<Thread>, ready: seq<Thread>)

  /** The thread inside a critical section is the head of the ready queue. */
  class Sem {
    var value: int
    var waiter: seq<Thread>
    var ready: seq<Thread>

    function Abstract(): (s: State)
      reads this
    {
      State(value, waiter, ready)
    }

    constructor (value: nat, ready: seq<Thread>)
      requires value <= SEM_VALUE_MAX
      ensures Abstract() == State(value, [], ready)
    {
      this.value, waiter, this.ready := value, [], ready;
    }

    method Post() returns (result: int)
      modifies this
      ensures Abstract() == Posted(old(Abstract()))
      ensures result == if old(waiter) == [] && old(value) == SEM_VALUE_MAX then -1 else 0
    {
      result := 0;
      if waiter != [] {
        waiter, ready := Move(waiter, ready);
      } else if value == SEM_VALUE_MAX {
        result := -1;
      } else {
        value := value + 1;
      }
    }

    method Wait()
      modifies this
      ensures Abstract() == Waited(old(Abstract()))
    {
      if value > 0 {
        value := value - 1;
      } else {
        ready, waiter := Move(ready, waiter);
      }
    }

    method TryWait() returns (result: int)
      modifies this
      ensures Abstract() == TryWaited(old(Abstract()))
      ensures result == if old(value) > 0 then 0 else EAGAIN
    {
      if value > 0 {
        value := value - 1;
        result := 0;
      } else {
        result := EAGAIN;
      }
    }
  }

  function Posted(s: State): State {
    if s.waiter != [] then State(s.value, s.waiter[1..], Insert(s.ready, s.waiter[0]))
    else if s.value == SEM_VALUE_MAX then s
    else s.(value := s.value + 1)
  }

  function Waited(s: State): State {
    if s.value > 0 then s.(value := s.value - 1)
    else if s.ready == [] then s
    else State(s.value, Insert(s.waiter, s.ready[0]), s.ready[1..])
  }

  function TryWaited(s: State): State {
    if s.value > 0 then s.(value := s.value - 1) else s
  }

  /** Calls on the semaphore, and whatever else the scheduler does to the ready queue meanwhile. */
  datatype Event = Post | Wait | TryWait | Schedule(ready: seq<Thread>)

  function After(s: State, e: Event): State {
    match e
    case Post => Posted(s)
    case Wait => Waited(s)
    case TryWait => TryWaited(s)
    case Schedule(ready) => s.(ready := ready)
  }

  /** Whether an event is a post that did not overflow. */
  function Posts(s: State, e: Event): nat {
    if e.Post? && !(s.waiter == [] && s.value == SEM_VALUE_MAX) then 1 else 0
  }

  /** Whether a thread gets the semaphore in an event: at once, or handed over by a post. */
  function Acquires(s: State, e: Event): nat {
    if (e.Wait? || e.TryWait?) && s.value > 0 then 1
    else if e.Post? && s.waiter != [] then 1
    else 0
  }

  function Run(s: State, es: seq<Event>): State
    decreases |es|
  {
    if es == [] then s else Run(After(s, es[0]), es[1..])
  }

  function TotalPosts(s: State, es: seq<Event>): nat
    decreases |es|
  {
    if es == [] then 0 else Posts(s, es[0]) + TotalPosts(After(s, es[0]), es[1..])
  }

  function TotalAcquires(s: State, es: seq<Event>): nat
    decreases |es|
  {
    if es == [] then 0 else Acquires(s, es[0]) + TotalAcquires(After(s, es[0]), es[1..])
  }

  predicate Inv(s: State) {
    && 0 <= s.value <= SEM_VALUE_MAX
    && (s.waiter != [] ==> s.value == 0)
    && ByPriority(s.waiter)
  }

  lemma InvStep(s: State, e: Event)
    requires Inv(s)
    ensures Inv(After(s, e))
  {
    if e.Wait? && s.value == 0 && s.ready != [] {
      var k := InsertPlaces(s.waiter, s.ready[0]);
    }
  }

  /** Over every run, posts and the initial count are what was acquired and what is left. */
  lemma {:induction false} Conservation(s: State, es: seq<Event>)
    requires Inv(s)
    ensures Inv(Run(s, es))
    ensures 0 <= Run(s, es).value <= 32767 && (Run(s, es).waiter != [] ==> Run(s, es).value == 0)
    ensures s.value + TotalPosts(s, es) == TotalAcquires(s, es) + Run(s, es).value
    decreases |es|
  {
    if es != [] {
      InvStep(s, es[0]);
      Conservation(After(s, es[0]), es[1..]);
    }
  }

  /** No call loses or duplicates a thread. */
  lemma ThreadsKept(s: State, e: Event)
    requires !e.Schedule?
    ensures multiset(After(s, e).waiter) + multiset(After(s, e).ready) == multiset(s.waiter) + multiset(s.ready)
  {
    hide Insert;
    if e.Post? && s.waiter != [] {
      MoveKeepsThreads(s.waiter, s.ready);
    } else if e.Wait? && s.value <= 0 && s.ready != [] {
      MoveKeepsThreads(s.ready, s.waiter);
      assert multiset(After(s, e).waiter) + multiset(After(s, e).ready) ==
        multiset(After(s, e).ready) + multiset(After(s, e).waiter);
      assert multiset(s.waiter) + multiset(s.ready) == multiset(s.ready) + multiset(s.waiter);
    }
  }

  /** A post wakes the waiter of highest priority, and none of them if the count can take it. */
  lemma PostWakesFirst(s: State)
    requires Inv(s)
    ensures s.waiter != [] ==>
              && Posted(s).waiter == s.waiter[1..] && s.waiter[0] in Posted(s).ready
              && forall t :: t in s.waiter ==> s.waiter[0].priority >= t.priority
    ensures s.waiter == [] ==>
              && Posted(s).ready == s.ready && Posted(s).waiter == []
              && Posted(s).value == if s.value == 32767 then 32767 else s.value + 1
  {
    if s.waiter != [] {
      InsertKeepsThreads(s.ready, s.waiter[0]);
      assert s.waiter[0] in multiset(Posted(s).ready);
    }
  }

  /**
    A wait at zero takes the running thread, and no other, out of the ready queue, and puts it
    behind all waiting threads of at least its priority.
   */
  lemma WaitAtZeroQueues(s: State) returns (k: nat)
    requires Inv(s) && s.value == 0 && s.ready != []
    ensures Waited(s).value == 0 && s.ready == [s.ready[0]] + Waited(s).ready
    ensures k <= |s.waiter| && Waited(s).waiter == s.waiter[..k] + [s.ready[0]] + s.waiter[k..]
    ensures forall i :: 0 <= i < k ==> s.waiter[i].priority >= s.ready[0].priority
    ensures forall i :: k <= i < |s.waiter| ==> s.waiter[i].priority < s.ready[0].priority
  {
    k := InsertPlaces(s.waiter, s.ready[0]);
  }

  /** Whether somebody asks for the semaphore in an event and does not go away without it. */
  function Requests(s: State, e: Event): nat {
    if e.Wait? && (s.value > 0 || s.ready != []) then 1
    else if e.TryWait? && s.value > 0 then 1
    else 0
  }

  function TotalRequests(s: State, es: seq<Event>): nat
    decreases |es|
  {
    if es == [] then 0 else Requests(s, es[0]) + TotalRequests(After(s, es[0]), es[1..])
  }

  /** Over every run, each request is either granted, at once or by a post, or still waiting at the end. */
  lemma {:induction false} RequestsAreGrantedOrWait(s: State, es: seq<Event>)
    requires Inv(s)
    ensures |s.waiter| + TotalRequests(s, es) == TotalAcquires(s, es) + |Run(s, es).waiter|
    decreases |es|
  {
    if es != [] {
      InvStep(s, es[0]);
      RequestsAreGrantedOrWait(After(s, es[0]), es[1..]);
    }
  }
}
