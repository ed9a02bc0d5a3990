/**
  BSON documents over the framed link.
 */
module RpcLink {
  import opened Bytes
  import opened BsonFormat
  import opened Framing
  import opened RpcSink

  function EncodeAll(docs: seq<seq<Element>>): (r: seq<seq<byte>>)
    ensures |r| == |docs|
  {
    seq(|docs|, i requires 0 <= i < |docs| => Encode(docs[i]))
  }

  lemma EncodedIsSelfSized(es: seq<Element>)
    requires Size(es) <= INT_MAX
    ensures SelfSized(Encode(es))
  {
    var d := Encode(es);
    assert d[..4] == LE32(Size(es));
    assert d[0..4] == LE32(Size(es));
    ReadIntLE32(d, 0, Size(es));
  }

  lemma {:induction false} AllAccepted(ds: seq<seq<byte>>, m: nat, heap: Heap)
    requires forall n :: heap(n)
    requires forall d :: d in ds ==> SelfSized(d) && |d| <= 65536
    ensures Accepted(ds, m, heap) == ds
    decreases |ds|
  {
    if ds != [] {
      assert ds[0] in ds;
      AllAccepted(ds[1..], m + 1, heap);
    }
  }

  /** Documents of at most 65536 bytes, sent as packets, arrive as they were, in order. */
  lemma DocumentsArrive(s: Sink, docs: seq<seq<Element>>, heap: Heap)
    requires Idle(s, s.mallocs) && forall n :: heap(n)
    requires forall es :: es in docs ==> Size(es) <= 65536
    ensures Deliver(s, Stream(EncodeAll(docs)), heap).0 == EncodeAll(docs)
    ensures forall i :: 0 <= i < |docs| ==> Holds(EncodeAll(docs)[i], docs[i])
  {
    var ds := EncodeAll(docs);
    forall i | 0 <= i < |docs| ensures SelfSized(ds[i]) && |ds[i]| <= 65536 && Holds(ds[i], docs[i]) {
      assert docs[i] in docs;
      EncodedIsSelfSized(docs[i]);
      assert ds[i][0..|ds[i]|] == ds[i];
    }
    FramingRoundTrip(s, ds, s.mallocs, heap);
    AllAccepted(ds, s.mallocs, heap);
  }

  /** A document is never so short that it could signal a worker in vain. */
  lemma DocumentsSignal(s: Sink, docs: seq<seq<Element>>, heap: Heap)
    requires Idle(s, s.mallocs)
    requires forall es :: es in docs ==> Size(es) <= 65536
    ensures var (jobs, t) := Deliver(s, Stream(EncodeAll(docs)), heap);
            t.posts == s.posts + |jobs|
  {
    hide Idle, Deliver, Stream;
    var ds := EncodeAll(docs);
    forall i | 0 <= i < |docs| ensures 5 <= |ds[i]| <= INT_MAX {
      assert docs[i] in docs;
    }
    OneSignalPerJob(s, ds, s.mallocs, heap);
  }

  lemma {:induction false} StreamMore(ds: seq<seq<byte>>, d: seq<byte>)
    ensures Stream(ds + [d]) == Stream(ds) + Packet(d)
  {
    hide Packet;
    if ds == [] {
      assert [] + [d] == [d] && Stream([d]) == Packet(d) + [];
    } else {
      assert (ds + [d])[0] == ds[0] && (ds + [d])[1..] == ds[1..] + [d];
      StreamMore(ds[1..], d);
      assert Packet(ds[0]) + (Stream(ds[1..]) + Packet(d)) == Packet(ds[0]) + Stream(ds[1..]) + Packet(d);
    }
  }

  /** The header that goes before the first message of a channel that was not the last one to send. */
  function Lead(number: byte, sourceChannel: int, docs: seq<seq<Element>>): seq<byte> {
    if docs != [] && number != sourceChannel then Header(number) else []
  }

  /** Documents sent one by one from a channel: one header at most, and then just their packets. */
  method SendDocuments(link: HostLink, number: byte, packetizedChannel: bool, docs: seq<seq<Element>>)
    modifies link
    ensures link.out == old(link.out) + Lead(number, old(link.sourceChannel), docs) + Stream(EncodeAll(docs))
    ensures link.sourceChannel == if docs == [] then old(link.sourceChannel) else number
  {
    hide Stream, Packet, Encode;
    var i := 0;
    ghost var before := link.out;
    StreamOfNone();
    assert EncodeAll(docs[..0]) == [];
    while i < |docs|
      invariant 0 <= i <= |docs|
      invariant link.out == before + Lead(number, old(link.sourceChannel), docs[..i]) + Stream(EncodeAll(docs[..i]))
      invariant link.sourceChannel == if i == 0 then old(link.sourceChannel) else number
    {
      var d := Encode(docs[i]);
      assert EncodeAll(docs[..i + 1]) == EncodeAll(docs[..i]) + [d];
      StreamMore(EncodeAll(docs[..i]), d);
      link.Source(number, packetizedChannel, d, true, false);
      i := i + 1;
    }
    assert docs[..i] == docs;
  }

  lemma StreamOfNone()
    ensures Stream([]) == []
  {
  }

  /**
    From sender to receiver: documents sent through the chunked sender, fed to the parser by the
    retry loop without the channel header, arrive as they were, in order, each handed over once.
   */
  method Transport(link: HostLink, number: byte, server: RpcServer, docs: seq<seq<Element>>)
    requires server.Valid() && Idle(server.State(), server.mallocs) && forall n :: server.heap(n)
    requires forall es :: es in docs ==> Size(es) <= 65536
    modifies link, server
    ensures server.Valid()
    ensures HandedOver(server.taken, server.State()) == old(server.taken) + EncodeAll(docs)
    ensures server.posts == old(server.posts) + |docs|
  {
    hide Stream, Idle, Deliver;
    var sent := |link.out|;
    ghost var lead := Lead(number, link.sourceChannel, docs);
    var skip := if docs != [] && number != link.sourceChannel then |Header(number)| else 0;
    SendDocuments(link, number, true, docs);
    assert link.out[sent + skip..] == Stream(EncodeAll(docs));
    DocumentsArrive(server.State(), docs, server.heap);
    DocumentsSignal(server.State(), docs, server.heap);
    var stream := link.out[sent + skip..];
    assert stream[0..|stream|] == stream;
    WriteToChannel(server, stream, 0, |stream|);
  }
}
