/**
  TinyThreads queues: singly linked lists of threads, ordered by priority, between which
  threads are moved inside critical sections.
 */
module Threads {
  datatype Thread = Thread(id: nat, priority: nat, timeout: nat)

  /** Behind all threads of the same or a higher priority, as far as the queue is in order. */
  function Insert(queue: seq<Thread>, t: Thread): (r: seq<Thread>)
    ensures |r| == |queue| + 1
  {
    if queue == [] || queue[0].priority < t.priority then [t] + queue
    else [queue[0]] + Insert(queue[1..], t)
  }

  predicate ByPriority(queue: seq<Thread>) {
    forall i, j :: 0 <= i < j < |queue| ==> queue[i].priority >= queue[j].priority
  }

  /** tth_cs_move: the head of one queue goes into another. */
  method Move(from: seq<Thread>, to: seq<Thread>) returns (from': seq<Thread>, to': seq<Thread>)
    ensures from == [] ==> from' == from && to' == to
    ensures from != [] ==> from' == from[1..] && to' == Insert(to, from[0])
  {
    if from == [] {
      return from, to;
    }
    var target := from[0];
    var at := 0;
    while at < |to| && to[at].priority >= target.priority
      invariant 0 <= at <= |to|
      invariant forall i :: 0 <= i < at ==> to[i].priority >= target.priority
    {
      at := at + 1;
    }
    InsertAt(to, target, at);
    return from[1..], to[..at] + [target] + to[at..];
  }

  lemma {:induction false} InsertAt(queue: seq<Thread>, t: Thread, k: nat)
    requires k <= |queue| && forall i :: 0 <= i < k ==> queue[i].priority >= t.priority
    requires k < |queue| ==> queue[k].priority < t.priority
    ensures Insert(queue, t) == queue[..k] + [t] + queue[k..]
  {
    if k > 0 {
      InsertAt(queue[1..], t, k - 1);
      assert queue[..k] + [t] + queue[k..] == [queue[0]] + (queue[1..][..k - 1] + [t] + queue[1..][k - 1..]);
    }
  }

  /**
    In an ordered queue a thread goes between those of at least its priority and those of
    less: equals are served first come, first served, and the order is kept.
   */
  lemma InsertPlaces(queue: seq<Thread>, t: Thread) returns (k: nat)
    requires ByPriority(queue)
    ensures k <= |queue| && Insert(queue, t) == queue[..k] + [t] + queue[k..]
    ensures forall i :: 0 <= i < k ==> queue[i].priority >= t.priority
    ensures forall i :: k <= i < |queue| ==> queue[i].priority < t.priority
    ensures ByPriority(Insert(queue, t))
  {
    k := 0;
    while k < |queue| && queue[k].priority >= t.priority
      invariant k <= |queue|
      invariant forall i :: 0 <= i < k ==> queue[i].priority >= t.priority
    {
      k := k + 1;
    }
    hide Insert;
    InsertAt(queue, t, k);
    OrderKept(queue, t, k);
  }

  lemma OrderKept(queue: seq<Thread>, t: Thread, k: nat)
    requires ByPriority(queue) && k <= |queue|
    requires forall i :: 0 <= i < k ==> queue[i].priority >= t.priority
    requires k < |queue| ==> queue[k].priority < t.priority
    ensures forall i :: k <= i < |queue| ==> queue[i].priority < t.priority
    ensures ByPriority(queue[..k] + [t] + queue[k..])
  {
    var r := queue[..k] + [t] + queue[k..];
    assert forall i | 0 <= i < |r| :: r[i] == if i < k then queue[i] else if i == k then t else queue[i - 1];
  }

  lemma {:induction false} InsertKeepsThreads(queue: seq<Thread>, t: Thread)
    ensures multiset(Insert(queue, t)) == multiset(queue) + multiset{t}
  {
    if queue != [] {
      assert queue == [queue[0]] + queue[1..];
      if queue[0].priority >= t.priority {
        InsertKeepsThreads(queue[1..], t);
      }
    }
  }

  /** Moving the head of one queue into another loses no thread and duplicates none. */
  lemma MoveKeepsThreads(from: seq<Thread>, to: seq<Thread>)
    requires from != []
    ensures multiset(from[1..]) + multiset(Insert(to, from[0])) == multiset(from) + multiset(to)
  {
    hide Insert;
    InsertKeepsThreads(to, from[0]);
    assert from == [from[0]] + from[1..];
  }
}
