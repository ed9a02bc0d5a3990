/**
  The reply of the RPC server: measured first, allocated once, then built in place.
 */
module RpcReply {
  import opened Bytes
  import opened BsonFormat
  import opened BsonReader
  import opened BsonWriter

  const KEY_JSONRPC: CString := [0x6a, 0x73, 0x6f, 0x6e, 0x72, 0x70, 0x63]
  const KEY_ID: CString := [0x69, 0x64]
  const KEY_RESULT: CString := [0x72, 0x65, 0x73, 0x75, 0x6c, 0x74]
  const KEY_ERROR: CString := [0x65, 0x72, 0x72, 0x6f, 0x72]
  const KEY_CODE: CString := [0x63, 0x6f, 0x64, 0x65]
  const VERSION: CString := [0x32, 0x2e, 0x30]
  const INTERNAL_ERROR := -32603

  /** The last element of a reply: the result, or the error with its code. */
  function Outcome(result: Option<seq<Element>>, errno: int): Element {
    if errno != 0 then DocumentElement(KEY_ERROR, [Int32Element(KEY_CODE, errno)])
    else match result
    case Some(es) => DocumentElement(KEY_RESULT, es)
    case None => NullElement(KEY_RESULT)
  }

  /** A JSON-RPC reply document: version, the request's id if it has one, and the outcome. */
  function Reply(input: seq<byte>, offId: int, result: Option<seq<Element>>, errno: int): seq<Element> {
    [StringElement(KEY_JSONRPC, VERSION)] + CopiedElement(KEY_ID, Some(input), offId) + [Outcome(result, errno)]
  }

  lemma ReplySize(input: seq<byte>, offId: int, result: Option<seq<Element>>, errno: int)
    ensures var head := [StringElement(KEY_JSONRPC, VERSION)];
            var id := CopiedElement(KEY_ID, Some(input), offId);
            && Size([]) == 5
            && Size([] + head) == 5 + |ElementBytes(head[0])|
            && Size(head + id) == Size([] + head) + (if id == [] then 0 else |ElementBytes(id[0])|)
            && Size(Reply(input, offId, result, errno)) == Size(head + id) + |ElementBytes(Outcome(result, errno))|
  {
    hide FindElement, ElementBytes;
    var head := [StringElement(KEY_JSONRPC, VERSION)];
    var id := CopiedElement(KEY_ID, Some(input), offId);
    AppendElement([], head[0]);
    if id != [] {
      assert id == [id[0]];
      AppendElement(head, id[0]);
    } else {
      assert head + id == head;
    }
    AppendElement(head + id, Outcome(result, errno));
  }

  /**
    send_reply. alloc says which sizes malloc grants in the first pass and in the second; result
    is the callee's document, whose elements are res. What is sent fills the measured buffer
    exactly; if the first allocation fails the reply is downgraded to an internal error, and only
    if that fails too nothing is sent.
   */
  method SendReply(input: seq<byte>, offId: int, result: Option<seq<byte>>, errno: int, alloc: (nat, int) -> bool,
                   ghost res: Option<seq<Element>>)
    returns (sent: Option<seq<byte>>)
    requires result.Some? <==> res.Some?
    requires result.Some? ==> Holds(result.value, res.value)
    requires forall pass, n :: alloc(pass, n) ==> n <= INT_MAX
    ensures var full := Reply(input, offId, res, errno);
            var fallback := Reply(input, offId, None, -32603);
            sent == if alloc(0, Size(full)) then Some(Encode(full))
                    else if errno == 0 && alloc(1, Size(fallback)) then Some(Encode(fallback))
                    else None
  {
    hide Reply, Encode, Size;
    var granted;
    granted, sent := TryReply(input, offId, result, errno, n => alloc(0, n), res);
    if !granted && errno == 0 {
      granted, sent := TryReply(input, offId, None, INTERNAL_ERROR, n => alloc(1, n), None);
    }
  }

  /** One pass of send_reply through its label: measure, allocate, build. */
  method TryReply(input: seq<byte>, offId: int, result: Option<seq<byte>>, errno: int, alloc: int -> bool,
                  ghost res: Option<seq<Element>>)
    returns (granted: bool, sent: Option<seq<byte>>)
    requires result.Some? <==> res.Some?
    requires result.Some? ==> Holds(result.value, res.value)
    requires forall n :: alloc(n) ==> n <= INT_MAX
    ensures granted == alloc(Size(Reply(input, offId, res, errno)))
    ensures sent == if granted then Some(Encode(Reply(input, offId, res, errno))) else None
  {
    hide Reply, Encode, Size, Holds;
    var errorDoc := new byte[16];
    var replyLen := MeasureReply(input, offId, result, errno, errorDoc, res);
    if !alloc(replyLen) {
      return false, None;
    }
    var output := new byte[replyLen];
    BuildReply(output, input, offId, result, errno, errorDoc, res);
    return true, Some(output[..]);
  }

  /** The first half: adding up the measures, and making the error document if there is an error. */
  method MeasureReply(input: seq<byte>, offId: int, result: Option<seq<byte>>, errno: int, errorDoc: array<byte>,
                      ghost res: Option<seq<Element>>)
    returns (replyLen: nat)
    requires errorDoc.Length == 16 && (result.Some? <==> res.Some?)
    requires result.Some? ==> Holds(result.value, res.value)
    modifies errorDoc
    ensures replyLen == Size(Reply(input, offId, res, errno))
    ensures errno != 0 ==> Holds(errorDoc[..], [Int32Element(KEY_CODE, errno)])
  {
    hide FindElement, ElementBytes, Encode, ListBytes, HoldsAt, ReadInt, Slice;
    ReplySize(input, offId, res, errno);
    var n := SetString(null, KEY_JSONRPC, VERSION, []);
    replyLen := 5 + n;
    n := SetElement(null, KEY_ID, Some(input), offId, []);
    replyLen := replyLen + n;
    if errno == 0 {
      if result.Some? {
        SubdocumentBytes(result.value, res.value);
        n := SetSubdocument(null, KEY_RESULT, DOCUMENT, result.value, []);
      } else {
        n := SetNull(null, KEY_RESULT, []);
      }
    } else {
      CreateEmptyDocument(errorDoc);
      ErrorDocumentSize(errno);
      n := SetInt32(errorDoc, KEY_CODE, errno, []);
      assert [] + [Int32Element(KEY_CODE, errno)] == [Int32Element(KEY_CODE, errno)];
      SubdocumentBytes(errorDoc[..], [Int32Element(KEY_CODE, errno)]);
      n := SetSubdocument(null, KEY_ERROR, DOCUMENT, errorDoc[..], []);
    }
    replyLen := replyLen + n;
  }

  /** The second half: the setters fill the buffer to its last byte. */
  method BuildReply(output: array<byte>, input: seq<byte>, offId: int, result: Option<seq<byte>>, errno: int,
                    errorDoc: array<byte>, ghost res: Option<seq<Element>>)
    requires output != errorDoc && output.Length == Size(Reply(input, offId, res, errno)) <= INT_MAX
    requires result.Some? <==> res.Some?
    requires result.Some? ==> Holds(result.value, res.value)
    requires errno != 0 ==> Holds(errorDoc[..], [Int32Element(KEY_CODE, errno)])
    modifies output
    ensures output[..] == Encode(Reply(input, offId, res, errno))
  {
    hide FindElement, ElementBytes, Encode, ListBytes, HoldsAt, ReadInt, Slice;
    ghost var head := [StringElement(KEY_JSONRPC, VERSION)];
    ghost var id := CopiedElement(KEY_ID, Some(input), offId);
    ReplySize(input, offId, res, errno);
    CreateEmptyDocument(output);
    var n := SetString(output, KEY_JSONRPC, VERSION, []);
    assert head == [] + head;
    n := SetElement(output, KEY_ID, Some(input), offId, head);
    assert id == [] ==> head + id == head;
    assert id != [] ==> id == [id[0]];
    assert Holds(output[..], head + id);
    if errno == 0 {
      if result.Some? {
        SubdocumentBytes(result.value, res.value);
        n := SetSubdocument(output, KEY_RESULT, DOCUMENT, result.value, head + id);
      } else {
        n := SetNull(output, KEY_RESULT, head + id);
      }
    } else {
      SubdocumentBytes(errorDoc[..], [Int32Element(KEY_CODE, errno)]);
      n := SetSubdocument(output, KEY_ERROR, DOCUMENT, errorDoc[..], head + id);
    }
    ExactFit(output[..], Reply(input, offId, res, errno));
  }

  lemma ExactFit(mem: seq<byte>, es: seq<Element>)
    requires Holds(mem, es) && |mem| == Size(es)
    ensures mem == Encode(es)
  {
    assert mem[0..|mem|] == mem;
  }

  lemma ErrorDocumentSize(errno: int)
    ensures Size([] + [Int32Element(KEY_CODE, errno)]) == 15
  {
    AppendElement([], Int32Element(KEY_CODE, errno));
  }
}
