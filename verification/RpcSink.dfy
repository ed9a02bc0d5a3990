/**
  The receiving side of the RPC channel: a resumable byte parser with a one-job mailbox.
 */
module RpcSink {
  import opened Bytes
  import opened Framing

  const MAX_REQUEST_LENGTH := 65536

  /** Parser and mailbox; how many buffers were asked for, and how often a worker was signalled. */
  datatype Sink = Sink(
    escape: bool, eop: bool, inside: bool,
    offset: nat, length: seq<byte>,
    incoming: Option<seq<byte>>, pending: Option<seq<byte>>, mallocs: nat, posts: nat)

  /** Whether malloc grants the n-th buffer. */
  type Heap = nat -> bool

  ghost predicate Ok(s: Sink) {
    |s.length| == 4
  }

  /** The length word read as C's signed and unsigned 32-bit integer. */
  function Signed(length: seq<byte>): int
    requires |length| == 4
  {
    FromLE32(length[0], length[1], length[2], length[3])
  }

  function Unsigned(length: seq<byte>): nat
    requires |length| == 4
  {
    Signed(length) % WORD
  }

  lemma SignsAgree(length: seq<byte>, n: nat)
    requires |length| == 4 && n <= INT_MAX
    ensures Unsigned(length) == n <==> Signed(length) == n
  {
  }

  /** A fresh job buffer with its length word filled in; what malloc leaves in the rest is overwritten. */
  function NewJob(length: seq<byte>): (r: seq<byte>)
    requires |length| == 4
  {
    length + seq(if Signed(length) > 4 then Signed(length) - 4 else 0, _ => 0)
  }

  function EndPacket(s: Sink): Sink {
    s.(incoming := None, offset := 0, eop := false, inside := false)
  }

  /** After a data byte: at the end of a packet it is handed over if complete, else dropped. */
  function AfterByte(s: Sink): Sink
    requires Ok(s)
  {
    if !s.eop then s
    else if s.offset != Unsigned(s.length) then EndPacket(s)
    else EndPacket(s.(pending := s.incoming, posts := s.posts + 1))
  }

  /** The data byte branches of the parser. */
  function DataByte(s: Sink, b: byte, heap: Heap): (r: Sink)
    requires Ok(s)
    ensures Ok(r)
  {
    if !s.inside then s
    else if s.offset < 4 then
      var t := s.(length := s.length[s.offset := b], offset := s.offset + 1);
      if t.offset == 4 && Signed(t.length) <= MAX_REQUEST_LENGTH then
        AfterByte(t.(incoming := if heap(s.mallocs) then Some(NewJob(t.length)) else None, mallocs := s.mallocs + 1))
      else AfterByte(t)
    else if s.offset >= Unsigned(s.length) then EndPacket(s)
    else match s.incoming
      case Some(job) =>
        AfterByte(s.(incoming := Some(if s.offset < |job| then job[s.offset := b] else job), offset := s.offset + 1))
      case None => AfterByte(s)
  }

  /** One byte from the wire. */
  function Feed(s: Sink, b: byte, heap: Heap): (r: Sink)
    requires Ok(s)
    ensures Ok(r)
  {
    if b == SOP then s.(offset := 0, inside := true, eop := false)
    else if b == EOP_PREFIX then s.(eop := true)
    else if b == ESCAPE_PREFIX then s.(escape := true)
    else DataByte(s.(escape := false), if s.escape then Flip(b) else b, heap)
  }

  /** How many bytes one call takes, and the state it leaves: it stops at a full mailbox. */
  function Consume(s: Sink, src: seq<byte>, heap: Heap): (r: (nat, Sink))
    requires Ok(s)
    ensures Ok(r.1) && r.0 <= |src|
    decreases |src|
  {
    if src == [] || s.pending.Some? then (0, s)
    else
      var (n, t) := Consume(Feed(s, src[0], heap), src[1..], heap);
      (n + 1, t)
  }

  /** Feeding a whole stream, with a worker emptying the mailbox: the jobs, and the state at the end. */
  function Deliver(s: Sink, src: seq<byte>, heap: Heap): (r: (seq<seq<byte>>, Sink))
    requires Ok(s)
    ensures Ok(r.1) && r.1.pending.None?
    decreases |src|, s.pending.Some?
  {
    if s.pending.Some? then
      var (jobs, t) := Deliver(s.(pending := None), src, heap);
      ([s.pending.value] + jobs, t)
    else if src == [] then ([], s)
    else Deliver(Feed(s, src[0], heap), src[1..], heap)
  }

  // ---- chunks and back-pressure --------------------------------------------------------

  /** A byte string may be split anywhere; the second part only matters if the first was all taken. */
  lemma {:induction false} ConsumeSplit(s: Sink, a: seq<byte>, b: seq<byte>, heap: Heap)
    requires Ok(s)
    ensures var (n, t) := Consume(s, a, heap);
            Consume(s, a + b, heap) == if n < |a| then (n, t) else (|a| + Consume(t, b, heap).0, Consume(t, b, heap).1)
    decreases |a|
  {
    if a == [] {
      assert a + b == b;
    } else if s.pending.None? {
      assert (a + b)[0] == a[0] && (a + b)[1..] == a[1..] + b;
      ConsumeSplit(Feed(s, a[0], heap), a[1..], b, heap);
    }
  }

  /** A call falls short exactly when a job is waiting, and then the last byte taken completed it. */
  lemma {:induction false} ConsumeStops(s: Sink, src: seq<byte>, heap: Heap)
    requires Ok(s)
    ensures var (n, t) := Consume(s, src, heap);
            && (n < |src| ==> t.pending.Some?) && (n == 0 ==> t == s)
            && Consume(s, src[..n], heap) == (n, t)
            && (forall m :: 0 <= m < n ==>
              Consume(s, src[..m], heap).0 == m && Consume(s, src[..m], heap).1.pending.None?)
    decreases |src|
  {
    if src != [] && s.pending.None? {
      var s' := Feed(s, src[0], heap);
      ConsumeStops(s', src[1..], heap);
      var n := Consume(s, src, heap).0;
      assert src[..n][1..] == src[1..][..n - 1];
      forall m | 0 <= m < n ensures Consume(s, src[..m], heap).0 == m && Consume(s, src[..m], heap).1.pending.None? {
        if m > 0 {
          assert src[..m][1..] == src[1..][..m - 1];
        }
      }
    } else {
      assert src[..0] == [];
    }
  }

  /** Delivering a stream resumes after what one call took. */
  lemma {:induction false} DeliverResumes(s: Sink, src: seq<byte>, heap: Heap)
    requires Ok(s)
    ensures var (n, t) := Consume(s, src, heap);
            Deliver(s, src, heap) == Deliver(t, src[n..], heap)
    decreases |src|
  {
    if src != [] && s.pending.None? {
      DeliverResumes(Feed(s, src[0], heap), src[1..], heap);
      var n := Consume(s, src, heap).0;
      assert src[1..][n - 1..] == src[n..];
    } else {
      assert src[0..] == src;
    }
  }

  lemma {:induction false} DeliverSplit(s: Sink, a: seq<byte>, b: seq<byte>, heap: Heap)
    requires Ok(s)
    ensures var (jobs, t) := Deliver(s, a, heap);
            Deliver(s, a + b, heap) == (jobs + Deliver(t, b, heap).0, Deliver(t, b, heap).1)
    decreases |a|, s.pending.Some?
  {
    if s.pending.Some? {
      DeliverSplit(s.(pending := None), a, b, heap);
      var jobs := Deliver(s.(pending := None), a, heap).0;
      var more := Deliver(Deliver(s, a, heap).1, b, heap).0;
      assert [s.pending.value] + (jobs + more) == ([s.pending.value] + jobs) + more;
    } else if a == [] {
      assert a + b == b && [] + Deliver(s, b, heap).0 == Deliver(s, b, heap).0;
    } else {
      assert (a + b)[0] == a[0] && (a + b)[1..] == a[1..] + b;
      DeliverSplit(Feed(s, a[0], heap), a[1..], b, heap);
    }
  }

  class RpcServer {
    var escapePrefix: bool
    var eopPrefix: bool
    var insidePacket: bool
    var offset: nat
    var length: seq<byte>
    var incomingJob: Option<seq<byte>>
    var pendingJob: Option<seq<byte>>
    var mallocs: nat
    /** Calls of sem_post. */
    var posts: nat
    /** Jobs the worker took from the mailbox. */
    var taken: seq<seq<byte>>
    /** How often the worker may still be passed over when the feeder yields. */
    var delays: nat
    const heap: Heap

    ghost predicate Valid()
      reads this
    {
      |length| == 4
    }

    function State(): (s: Sink)
      reads this
    {
      Sink(escapePrefix, eopPrefix, insidePacket, offset, length, incomingJob, pendingJob, mallocs, posts)
    }

    constructor (heap: Heap, delays: nat)
      ensures Valid() && State() == Sink(false, false, false, 0, [0, 0, 0, 0], None, None, 0, 0)
      ensures this.heap == heap && taken == []
    {
      escapePrefix, eopPrefix, insidePacket := false, false, false;
      offset, length, mallocs, posts := 0, [0, 0, 0, 0], 0, 0;
      incomingJob, pendingJob := None, None;
      taken := [];
      this.heap, this.delays := heap, delays;
    }

    /** peridot_rpc_server_sink. */
    method Receive(src: seq<byte>) returns (readLen: nat)
      requires Valid()
      modifies this
      ensures Valid() && (readLen, State()) == Consume(old(State()), src, heap)
      ensures taken == old(taken) && delays == old(delays)
    {
      readLen := 0;
      while readLen < |src| && pendingJob.None?
        invariant readLen <= |src| && Valid() && taken == old(taken) && delays == old(delays)
        invariant var (n, t) := Consume(State(), src[readLen..], heap);
                  (readLen + n, t) == Consume(old(State()), src, heap)
        decreases |src| - readLen
      {
        var b := src[readLen];
        assert src[readLen..][1..] == src[readLen + 1..];
        readLen := readLen + 1;
        ReceiveByte(b);
      }
    }

    /** One pass of the parser loop. */
    method ReceiveByte(byte: byte)
      requires Valid()
      modifies this
      ensures Valid() && State() == Feed(old(State()), byte, heap)
      ensures taken == old(taken) && delays == old(delays)
    {
      var b := byte;
      if b == SOP {
        offset := 0;
        insidePacket := true;
        eopPrefix := false;
        return;
      } else if b == EOP_PREFIX {
        eopPrefix := true;
        return;
      } else if b == ESCAPE_PREFIX {
        escapePrefix := true;
        return;
      }
      if escapePrefix {
        b := Flip(b);
        escapePrefix := false;
      }
      if !insidePacket {
        return;
      }
      Data(b);
    }

    /** The part of the parser loop behind the check for being inside a packet. */
    method Data(b: byte)
      requires Valid() && insidePacket
      modifies this
      ensures Valid() && State() == DataByte(old(State()), b, heap)
      ensures taken == old(taken) && delays == old(delays)
    {
      hide Signed, Unsigned, NewJob, AfterByte;
      if offset < 4 {
        length := length[offset := b];
        offset := offset + 1;
        if offset == 4 && Signed(length) <= MAX_REQUEST_LENGTH {
          incomingJob := if heap(mallocs) then Some(NewJob(length)) else None;
          mallocs := mallocs + 1;
        }
      } else if offset >= Unsigned(length) {
        NextPacket();
        return;
      } else if incomingJob.Some? {
        if offset < |incomingJob.value| {
          incomingJob := Some(incomingJob.value[offset := b]);
        }
        offset := offset + 1;
      }
      EndOfByte();
    }

    /** The check for the end of a packet. */
    method EndOfByte()
      requires Valid()
      modifies this
      ensures Valid() && State() == AfterByte(old(State()))
      ensures taken == old(taken) && delays == old(delays)
    {
      hide Unsigned;
      if !eopPrefix {
        return;
      }
      if offset != Unsigned(length) {
        NextPacket();
        return;
      }
      pendingJob := incomingJob;
      incomingJob := None;
      posts := posts + 1;
      NextPacket();
    }

    method NextPacket()
      modifies this
      ensures State() == EndPacket(old(State())) && taken == old(taken) && delays == old(delays)
    {
      incomingJob := None;
      offset := 0;
      eopPrefix := false;
      insidePacket := false;
    }

    /** What happens while the feeder yields: the worker empties the mailbox, sooner or later. */
    method Yield()
      requires Valid() && pendingJob.Some?
      modifies this
      ensures Valid()
      ensures
        || (State() == old(State()) && taken == old(taken) && delays < old(delays))
        || (State() == old(State()).(pending := None) && taken == old(taken) + [old(pendingJob).value]
          && delays == old(delays))
    {
      var late: bool := *;
      if late && delays > 0 {
        delays := delays - 1;
      } else {
        taken := taken + [pendingJob.value];
        pendingJob := None;
      }
    }
  }

  /** Jobs handed over so far, taken or still in the mailbox. */
  function HandedOver(taken: seq<seq<byte>>, s: Sink): seq<seq<byte>> {
    taken + if s.pending.Some? then [s.pending.value] else []
  }

  /**
    write_to_channel: retrying until everything is taken, it loses and repeats no byte. The
    jobs handed over are those of the whole chunk, whenever the worker gets to run.
   */
  method WriteToChannel(server: RpcServer, buffer: seq<byte>, from: nat, to: int)
    requires server.Valid() && from <= |buffer| && to <= |buffer|
    modifies server
    ensures server.Valid()
    ensures var chunk := if from <= to then buffer[from..to] else [];
            var (jobs, t) := Deliver(old(server.State()), chunk, server.heap);
            && HandedOver(server.taken, server.State()) == old(server.taken) + jobs
            && server.State().(pending := None) == t
  {
    hide Consume, Deliver;
    var ptr := from;
    var len := to - from;
    ghost var chunk := if from <= to then buffer[from..to] else [];
    ghost var goal := Deliver(server.State(), chunk, server.heap);
    assert len > 0 ==> chunk == buffer[ptr..ptr + len];
    while len > 0
      invariant server.Valid()
      invariant len > 0 ==> 0 <= ptr && ptr + len == to
      invariant var rest := if len > 0 then buffer[ptr..ptr + len] else [];
                var (jobs, t) := Deliver(server.State(), rest, server.heap);
                server.taken + jobs == old(server.taken) + goal.0 && t == goal.1
      decreases len, server.delays, server.pendingJob.Some?
    {
      ghost var rest := buffer[ptr..ptr + len];
      DeliverResumes(server.State(), rest, server.heap);
      ConsumeStops(server.State(), rest, server.heap);
      var written := server.Receive(buffer[ptr..ptr + len]);
      assert rest[written..] == buffer[ptr + written..ptr + len];
      if written > 0 {
        ptr := ptr + written;
        len := len - written;
      } else {
        assert rest[0..] == rest;
        DeliverTakes(server.State(), rest, server.heap);
        server.Yield();
      }
    }
    DeliverNothing(server.State(), server.heap);
  }

  lemma DeliverTakes(s: Sink, src: seq<byte>, heap: Heap)
    requires Ok(s) && s.pending.Some?
    ensures var (jobs, t) := Deliver(s.(pending := None), src, heap);
            Deliver(s, src, heap) == ([s.pending.value] + jobs, t)
  {
  }

  lemma DeliverNothing(s: Sink, heap: Heap)
    requires Ok(s)
    ensures Deliver(s, [], heap) == (if s.pending.Some? then [s.pending.value] else [], s.(pending := None))
  {
    var t := s.(pending := None);
    assert Deliver(t, [], heap) == ([], t);
    assert s.pending.Some? ==> [s.pending.value] + [] == [s.pending.value];
  }

  // ---- the round trip ------------------------------------------------------------------

  /** A message that carries its own length in its first four bytes. */
  predicate SelfSized(d: seq<byte>) {
    4 <= |d| <= INT_MAX && Signed(d[..4]) == |d|
  }

  /** Whether the parser asks for a buffer for a packet. */
  function Asked(d: seq<byte>, m: nat): nat {
    if |d| >= 4 && Signed(d[..4]) <= 65536 then m + 1 else m
  }

  /** Whether a packet is handed over if m buffers were asked for before. */
  predicate Granted(d: seq<byte>, m: nat, heap: Heap) {
    SelfSized(d) && |d| <= 65536 && heap(m)
  }

  /**
    How often a packet makes the parser post: once if it is handed over, and, if it has no more
    than four bytes, once if its size is what these and the rest of the last length word say.
   */
  function Signals(d: seq<byte>, length: seq<byte>, m: nat, heap: Heap): (r: nat)
    requires |length| == 4
  {
    if d == [] then 0
    else if |d| >= 5 then (if Granted(d, m, heap) then 1 else 0)
    else if Unsigned(d + length[|d|..]) == |d| then 1 else 0
  }

  /** The packets handed over, in order: those that give their own length, if short enough and granted a buffer. */
  function Accepted(ds: seq<seq<byte>>, m: nat, heap: Heap): seq<seq<byte>> {
    if ds == [] then []
    else (if Granted(ds[0], m, heap) then [ds[0]] else []) + Accepted(ds[1..], Asked(ds[0], m), heap)
  }

  function AskedAll(ds: seq<seq<byte>>, m: nat): nat {
    if ds == [] then m else AskedAll(ds[1..], Asked(ds[0], m))
  }

  function Stream(ds: seq<seq<byte>>): seq<byte> {
    if ds == [] then [] else Packet(ds[0]) + Stream(ds[1..])
  }

  /** Between packets. */
  predicate Idle(s: Sink, m: nat) {
    |s.length| == 4 && !s.escape && !s.inside && s.incoming.None? && s.pending.None? && s.mallocs == m
  }

  /** Whether there is a buffer for packet d once its length word is in. */
  predicate Buffered(d: seq<byte>, m: nat, heap: Heap)
    requires |d| >= 4
  {
    Signed(d[..4]) <= MAX_REQUEST_LENGTH && heap(m)
  }

  /** A buffer left from a packet that was broken off is in nobody's way if this packet asks for another. */
  predicate Startable(s: Sink, d: seq<byte>) {
    s.incoming.None? || (|d| >= 4 && Signed(d[..4]) <= MAX_REQUEST_LENGTH)
  }

  /** i bytes into packet d, which need not be as long as it says; it may have been dropped already. */
  predicate Within(s: Sink, d: seq<byte>, i: nat, m: nat, heap: Heap)
    requires i <= |d|
  {
    && |s.length| == 4 && !s.escape && s.pending.None?
    && if i < 4 then s.inside && s.length[..i] == d[..i] && s.offset == i && Startable(s, d) && s.mallocs == m
       else
         && s.mallocs == Asked(d, m)
         && if s.inside then
              && s.length == d[..4]
              && if Buffered(d, m, heap)
                 then s.offset == i && (i == 4 || i <= Unsigned(d[..4])) && Holding(s.incoming, d, i)
                 else s.offset == 4 && s.incoming.None?
            else s.incoming.None? && !SelfSized(d)
  }

  /** A buffer as long as the packet says, with the first i bytes filled in. */
  predicate Holding(incoming: Option<seq<byte>>, d: seq<byte>, i: nat)
    requires i <= |d|
  {
    incoming.Some? && (SelfSized(d) ==> |incoming.value| == |d| && incoming.value[..i] == d[..i])
  }

  /** An escaped byte reaches the parser as the byte itself. */
  lemma FeedEscaped(s: Sink, b: byte, rest: seq<byte>, heap: Heap)
    requires Ok(s) && !s.escape && s.pending.None?
    ensures Deliver(s, Escaped(b) + rest, heap) == Deliver(DataByte(s, b, heap), rest, heap)
  {
    if NeedsEscape(b) {
      var wire := Escaped(b) + rest;
      var t := Feed(s, ESCAPE_PREFIX, heap);
      assert wire[0] == ESCAPE_PREFIX && wire[1..] == [Flip(b)] + rest;
      assert Deliver(s, wire, heap) == Deliver(t, [Flip(b)] + rest, heap);
      assert ([Flip(b)] + rest)[1..] == rest;
      assert Flip(Flip(b)) == b;
      assert t.(escape := false) == s;
      assert Feed(t, Flip(b), heap) == DataByte(s, b, heap);
    } else {
      assert ([b] + rest)[1..] == rest;
      assert s.(escape := false) == s;
    }
  }

  lemma WithinStep(s: Sink, d: seq<byte>, i: nat, m: nat, heap: Heap)
    requires |d| <= INT_MAX && i + 1 < |d| && Within(s, d, i, m, heap) && !s.eop
    ensures var t := DataByte(s, d[i], heap);
            && Within(t, d, i + 1, m, heap) && !t.eop && t.posts == s.posts
            && (|d| <= 4 ==> t.length[|d|..] == s.length[|d|..])
  {
    var t := DataByte(s, d[i], heap);
    if i < 4 {
      assert t.length[..i + 1] == d[..i + 1];
      if i == 3 {
        assert t.length == d[..4];
      }
    } else if s.inside && s.offset < Unsigned(s.length) && Buffered(d, m, heap) && SelfSized(d) {
      assert t.incoming.value[..i + 1] == d[..i + 1];
    }
  }

  /** The fourth byte, if it is the last: the buffer is asked for and complete at once. */
  lemma FourthIsLast(s: Sink, d: seq<byte>, m: nat, heap: Heap)
    requires |d| == 4 && Within(s, d, 3, m, heap)
    ensures var t := DataByte(s.(eop := true), d[3], heap);
            && t.pending == (if Granted(d, m, heap) then Some(d) else None) && Idle(t.(pending := None), Asked(d, m))
            && t.posts == s.posts + Signals(d, s.length, m, heap)
  {
    hide Signed, Unsigned, NewJob, AfterByte;
    LengthIsWhole(s.length, d);
    var t := s.(eop := true, length := d, offset := 4);
    if Signed(d) <= MAX_REQUEST_LENGTH {
      t := t.(incoming := if heap(m) then Some(NewJob(d)) else None, mallocs := m + 1);
    }
    assert DataByte(s.(eop := true), d[3], heap) == AfterByte(t);
    EndsAtFour(t, d);
  }

  lemma LengthIsWhole(length: seq<byte>, d: seq<byte>)
    requires |length| == |d| == 4 && length[..3] == d[..3]
    ensures length[3 := d[3]] == d && d[..4] == d && d + length[4..] == d
  {
    assert length[..3][0] == d[..3][0] && length[..3][1] == d[..3][1] && length[..3][2] == d[..3][2];
  }

  /** The end of a packet of four bytes. */
  lemma EndsAtFour(t: Sink, d: seq<byte>)
    requires |d| == 4 && t.length == d && t.eop && t.offset == 4 && !t.escape && t.pending.None?
    requires t.incoming.Some? ==> t.incoming.value == NewJob(d)
    ensures var r := AfterByte(t);
            && r.pending == (if t.incoming.Some? && Signed(d) == 4 then Some(d) else None)
            && Idle(r.(pending := None), t.mallocs)
            && r.posts == t.posts + if Unsigned(d) == 4 then 1 else 0
  {
    hide Signed, Unsigned;
    SignsAgree(d, 4);
    assert Signed(d) == 4 ==> NewJob(d) == d;
  }

  /** A later byte completes the buffer, if there is one, exactly if the packet is as long as it says. */
  lemma LaterIsLast(s: Sink, d: seq<byte>, m: nat, heap: Heap)
    requires 5 <= |d| <= INT_MAX && Within(s, d, |d| - 1, m, heap)
    ensures var t := DataByte(s.(eop := true), d[|d| - 1], heap);
            && t.pending == (if Granted(d, m, heap) then Some(d) else None) && Idle(t.(pending := None), Asked(d, m))
            && t.posts == s.posts + Signals(d, s.length, m, heap)
  {
    hide Signed, Unsigned;
    var i := |d| - 1;
    SignsAgree(d[..4], |d|);
    if s.inside && Buffered(d, m, heap) && SelfSized(d) {
      assert s.incoming.value[i := d[i]] == d;
    }
  }

  /** The announced last byte hands over the packet exactly if it is as long as it says and has a buffer. */
  lemma WithinLast(s: Sink, d: seq<byte>, m: nat, heap: Heap)
    requires 0 < |d| <= INT_MAX && Within(s, d, |d| - 1, m, heap)
    ensures var t := DataByte(s.(eop := true), d[|d| - 1], heap);
            && t.pending == (if Granted(d, m, heap) then Some(d) else None) && Idle(t.(pending := None), Asked(d, m))
            && t.posts == s.posts + Signals(d, s.length, m, heap)
  {
    if |d| >= 5 {
      hide *;
      LaterIsLast(s, d, m, heap);
    } else if |d| == 4 {
      hide *;
      FourthIsLast(s, d, m, heap);
    } else {
      hide *;
      EarlierIsLast(s, d, m, heap);
    }
  }

  /** A packet without a whole length word is dropped, but compared with what is left in the word. */
  lemma EarlierIsLast(s: Sink, d: seq<byte>, m: nat, heap: Heap)
    requires 0 < |d| < 4 && Within(s, d, |d| - 1, m, heap)
    ensures var t := DataByte(s.(eop := true), d[|d| - 1], heap);
            && t.pending == (if Granted(d, m, heap) then Some(d) else None) && Idle(t.(pending := None), Asked(d, m))
            && t.posts == s.posts + Signals(d, s.length, m, heap)
  {
    hide Signed, Unsigned;
    assert s.length[|d| - 1 := d[|d| - 1]] == d + s.length[|d|..];
  }

  lemma SameSignals(d: seq<byte>, a: seq<byte>, b: seq<byte>, m: nat, heap: Heap)
    requires |a| == |b| == 4 && (|d| <= 4 ==> a[|d|..] == b[|d|..])
    ensures Signals(d, a, m, heap) == Signals(d, b, m, heap)
  {
  }

  /** From i bytes into a packet to its end. */
  lemma {:induction false} DeliverRest(s: Sink, d: seq<byte>, i: nat, m: nat, rest: seq<byte>, heap: Heap)
    returns (t: Sink)
    requires |d| <= INT_MAX && i < |d| && Within(s, d, i, m, heap) && !s.eop
    ensures Idle(t, Asked(d, m))
    ensures t.posts == s.posts + Signals(d, s.length, m, heap)
    ensures Deliver(s, Rest(d[i..], true) + rest, heap) ==
            ((if Granted(d, m, heap) then [d] else []) + Deliver(t, rest, heap).0, Deliver(t, rest, heap).1)
    decreases |d| - i
  {
    hide DataByte, Granted, Asked, Escaped, Signed, Idle, Signals;
    var tail := d[i..];
    assert tail[0] == d[i] && tail[1..] == d[i + 1..];
    if i + 1 < |d| {
      var after := Rest(d[i + 1..], true) + rest;
      assert Rest(tail, true) + rest == Escaped(d[i]) + after;
      FeedEscaped(s, d[i], after, heap);
      WithinStep(s, d, i, m, heap);
      t := DeliverRest(DataByte(s, d[i], heap), d, i + 1, m, rest, heap);
      SameSignals(d, s.length, DataByte(s, d[i], heap).length, m, heap);
    } else {
      var wire := [EOP_PREFIX] + (Escaped(d[i]) + rest);
      assert Rest(tail, true) + rest == wire;
      var s' := s.(eop := true);
      assert Deliver(s, wire, heap) == Deliver(s', Escaped(d[i]) + rest, heap) by {
        assert wire[1..] == Escaped(d[i]) + rest;
      }
      FeedEscaped(s', d[i], rest, heap);
      WithinLast(s, d, m, heap);
      var last := DataByte(s', d[i], heap);
      t := last.(pending := None);
      assert last.pending.None? ==> t == last && [] + Deliver(t, rest, heap).0 == Deliver(t, rest, heap).0;
    }
  }

  lemma PacketIs(d: seq<byte>)
    requires d != []
    ensures Packet(d) == [SOP] + Rest(d, true)
  {
    hide Escaped, EscapeAll, Rest;
    RestOfPacket(d);
  }

  /**
    A packet gets through from any state, whatever packet was broken off before, as long as no
    escape is pending and a buffer left over is replaced.
   */
  lemma StartByteResynchronises(s: Sink, d: seq<byte>, m: nat, rest: seq<byte>, heap: Heap) returns (t: Sink)
    requires 0 < |d| <= INT_MAX && Ok(s) && s.pending.None? && s.mallocs == m
    requires !s.escape && Startable(s, d)
    ensures Idle(t, Asked(d, m))
    ensures t.posts == s.posts + Signals(d, s.length, m, heap)
    ensures Deliver(s, Packet(d) + rest, heap) ==
            ((if Granted(d, m, heap) then [d] else []) + Deliver(t, rest, heap).0, Deliver(t, rest, heap).1)
  {
    hide DataByte, Escaped, EscapeAll, Rest, Packet, Granted, Asked, Signed, Signals;
    PacketIs(d);
    var s' := Feed(s, SOP, heap);
    var wire := [SOP] + (Rest(d, true) + rest);
    assert Packet(d) + rest == wire;
    assert wire[1..] == Rest(d, true) + rest;
    assert d[0..] == d;
    t := DeliverRest(s', d, 0, m, rest, heap);
  }

  /** Between packets nothing but a start byte makes a difference. */
  lemma {:induction false} NoiseIsIgnored(s: Sink, noise: seq<byte>, heap: Heap)
    requires Ok(s) && !s.inside && s.pending.None? && 0x7a !in noise
    ensures var (jobs, t) := Deliver(s, noise, heap);
            jobs == [] && t == s.(escape := t.escape, eop := t.eop)
    decreases |noise|
  {
    if noise != [] {
      assert noise[0] in noise;
      NoiseIsIgnored(Feed(s, noise[0], heap), noise[1..], heap);
    }
  }

  /**
    One packet of any content: it is handed over if it gives its own length, is short enough and
    gets a buffer, and dropped otherwise; either way the parser is ready for the next one.
   */
  lemma DeliverPacket(s: Sink, d: seq<byte>, m: nat, rest: seq<byte>, heap: Heap) returns (t: Sink)
    requires |d| <= INT_MAX && Idle(s, m)
    ensures Idle(t, Asked(d, m))
    ensures t.posts == s.posts + Signals(d, s.length, m, heap)
    ensures Deliver(s, Packet(d) + rest, heap) ==
            ((if Granted(d, m, heap) then [d] else []) + Deliver(t, rest, heap).0, Deliver(t, rest, heap).1)
  {
    if d == [] {
      t := s;
      assert Packet(d) + rest == rest && [] + Deliver(t, rest, heap).0 == Deliver(t, rest, heap).0;
    } else {
      t := StartByteResynchronises(s, d, m, rest, heap);
    }
  }

  /**
    The framing round trip. A stream of packets of any content delivers exactly those that start
    with their own length, are short enough and get a buffer, unchanged and in order, and leaves
    the parser ready for the next packet.
   */
  lemma {:induction false} FramingRoundTrip(s: Sink, ds: seq<seq<byte>>, m: nat, heap: Heap)
    requires Idle(s, m) && forall d :: d in ds ==> |d| <= INT_MAX
    ensures Deliver(s, Stream(ds), heap).0 == Accepted(ds, m, heap)
    ensures Idle(Deliver(s, Stream(ds), heap).1, AskedAll(ds, m))
    decreases |ds|
  {
    if ds != [] {
      assert ds[0] in ds;
      var t := DeliverPacket(s, ds[0], m, Stream(ds[1..]), heap);
      FramingRoundTrip(t, ds[1..], Asked(ds[0], m), heap);
    }
  }

  // ---- signals -------------------------------------------------------------------------

  /** With no packet of one to four bytes, workers are signalled exactly as often as there are jobs for them. */
  lemma {:induction false} OneSignalPerJob(s: Sink, ds: seq<seq<byte>>, m: nat, heap: Heap)
    requires Idle(s, m) && forall d :: d in ds ==> d == [] || 5 <= |d| <= INT_MAX
    ensures Deliver(s, Stream(ds), heap).1.posts == s.posts + |Deliver(s, Stream(ds), heap).0|
    decreases |ds|
  {
    if ds != [] {
      assert ds[0] in ds;
      var t := DeliverPacket(s, ds[0], m, Stream(ds[1..]), heap);
      OneSignalPerJob(t, ds[1..], Asked(ds[0], m), heap);
    }
  }

  lemma DeliverByte(s: Sink, wire: seq<byte>, heap: Heap)
    requires Ok(s) && s.pending.None? && wire != []
    ensures Deliver(s, wire, heap) == Deliver(Feed(s, wire[0], heap), wire[1..], heap)
  {
  }

  lemma ShortPacket()
    ensures Packet([3, 0, 0]) == [0x7a, 3, 0, 0x7b, 0]
  {
    assert [3, 0, 0][..2] == [3, 0];
    assert [3, 0][1..] == [0];
    assert EscapeAll([0]) == [0] + EscapeAll([]);
    assert EscapeAll([3, 0]) == [3] + [0];
  }

  /** A packet of three bytes, compared with what is left in the length word, signals a worker without a job. */
  lemma ShortPacketSignalsInVain(heap: Heap)
    ensures var s := Sink(false, false, false, 0, [0, 0, 0, 0], None, None, 0, 0);
            var (jobs, t) := Deliver(s, Packet([3, 0, 0]), heap);
            Idle(s, 0) && jobs == [] && t.posts == 1
  {
    hide DataByte, Deliver, EscapeAll, Packet;
    ShortPacket();
    var wire := [0x7a, 3, 0, 0x7b, 0];
    var s := Sink(false, false, false, 0, [0, 0, 0, 0], None, None, 0, 0);
    DeliverByte(s, wire, heap);
    DeliverByte(Sink(false, false, true, 0, [0, 0, 0, 0], None, None, 0, 0), wire[1..], heap);
    FirstThree(heap);
    DeliverByte(Sink(false, false, true, 1, [3, 0, 0, 0], None, None, 0, 0), wire[2..], heap);
    DeliverByte(Sink(false, false, true, 2, [3, 0, 0, 0], None, None, 0, 0), wire[3..], heap);
    DeliverByte(Sink(false, true, true, 2, [3, 0, 0, 0], None, None, 0, 0), wire[4..], heap);
    DeliverNothing(Sink(false, false, false, 0, [3, 0, 0, 0], None, None, 0, 1), heap);
    assert wire[5..] == [];
  }

  lemma FirstThree(heap: Heap)
    ensures DataByte(Sink(false, false, true, 0, [0, 0, 0, 0], None, None, 0, 0), 3, heap) ==
            Sink(false, false, true, 1, [3, 0, 0, 0], None, None, 0, 0)
    ensures DataByte(Sink(false, false, true, 1, [3, 0, 0, 0], None, None, 0, 0), 0, heap) ==
            Sink(false, false, true, 2, [3, 0, 0, 0], None, None, 0, 0)
    ensures DataByte(Sink(false, true, true, 2, [3, 0, 0, 0], None, None, 0, 0), 0, heap) ==
            Sink(false, false, false, 0, [3, 0, 0, 0], None, None, 0, 1)
  {
  }
}
