/**
  What a client reads in a reply, with bson_get_props and the getters. Names and values are
  written out here as their bytes.
 */
module RpcReplyRead {
  import opened Bytes
  import opened BsonFormat
  import opened BsonReader
  import opened BsonWriter
  import opened RpcReply

  /** A copied element is stepped over, whatever its type; JavaScript code with scope grew on the way. */
  lemma CopyIsPassed(mem: seq<byte>, es: seq<Element>, i: nat, key: CString)
    requires Holds(mem, es) && Valid(es) && i < |es|
    ensures var copied := CopiedElement(key, Some(mem), Pos(es, i));
            |copied| == 1 && copied[0].key == key && copied[0].kind == es[i].kind && Passed(copied[0])
  {
    hide MeasureValue, FindElement, HoldsAt, Encode, ListBytes, Pos, ReadInt, IsBody;
    var body := es[i].body;
    assert IsBody(es[i].kind, body) by { assert es[i] in es; }
    if es[i].kind != CODE_WITH_SCOPE {
      CopyIsFaithful(mem, es, i, key);
    } else {
      var value := Pos(es, i) + 2 + |es[i].key|;
      FindElementAt(mem, es, i);
      ElementAt(mem, es, i);
      MeasureExact(es[i].kind, mem, value, body, Size(es));
      GrownBody(mem, value, body);
    }
  }

  /** Four bytes more than the value, and so a length word that is four less than the size. */
  lemma GrownBody(mem: seq<byte>, at: nat, body: seq<byte>)
    requires HoldsAt(mem, at, body) && IsBody(CODE_WITH_SCOPE, body)
    ensures |body| >= 14 && ReadInt(Slice(mem, at, |body| + 4), 0) == |body|
  {
    hide Slice;
    var grown := Slice(mem, at, |body| + 4);
    forall j | 0 <= j < 4 ensures Peek(grown, j) == Peek(body, j) {
      assert mem[at..at + |body|][j] == body[j];
      SliceAt(mem, at, |body| + 4, j);
    }
    assert Peek(grown, 0) == Peek(body, 0);
  }

  lemma SliceAt(mem: seq<byte>, at: nat, n: nat, j: nat)
    requires j < n
    ensures |Slice(mem, at, n)| == n && Slice(mem, at, n)[j] == Peek(mem, at + j)
  {
  }

  /** The request a reply answers, and which of its elements is the id, if any. */
  ghost predicate Answers(input: seq<byte>, req: seq<Element>, offId: int, i: nat) {
    Holds(input, req) && Valid(req) && (offId == -1 || (i < |req| && offId == Pos(req, i)))
  }

  /** The outcome as a value for the setters. */
  function OutcomeValue(result: Option<seq<Element>>, errno: int): Value {
    if errno != 0 then DocumentValue([Int32Element(KEY_CODE, errno)])
    else match result
    case Some(es) => DocumentValue(es)
    case None => NullValue
  }

  lemma NoCopy(input: seq<byte>, key: CString)
    ensures CopiedElement(key, Some(input), -1) == []
  {
  }

  /** The scan gets through a reply, which has two or three elements. */
  lemma ReplyShape(input: seq<byte>, req: seq<Element>, i: nat, offId: int, res: Option<seq<Element>>, errno: int)
    requires Answers(input, req, offId, i)
    requires Size(Reply(input, offId, res, errno)) <= INT_MAX
    ensures var es := Reply(input, offId, res, errno);
            && |es| == (if offId == -1 then 2 else 3) && Passable(es)
            && es[0] == ToElement(KEY_JSONRPC, StringValue(VERSION))
            && (offId != -1 ==> es[1].key == KEY_ID && es[1] == CopiedElement(KEY_ID, Some(input), offId)[0])
            && es[|es| - 1] == ToElement(if errno != 0 then KEY_ERROR else KEY_RESULT, OutcomeValue(res, errno))
  {
    hide FindElement, Encode, ListBytes, IsBody, Pos, CopiedElement, Size;
    var es := Reply(input, offId, res, errno);
    if offId == -1 {
      NoCopy(input, KEY_ID);
    } else {
      CopyIsPassed(input, req, i, KEY_ID);
    }
    BodyFits(es, 0);
    BodyFits(es, |es| - 1);
    ValueBodyIsBody(KEY_JSONRPC, StringValue(VERSION));
    ValueBodyIsBody(es[|es| - 1].key, OutcomeValue(res, errno));
  }

  lemma BodyFits(es: seq<Element>, i: nat)
    requires i < |es| && Size(es) <= INT_MAX
    ensures |es[i].body| <= INT_MAX
  {
    ListBytesAt(es, i);
  }

  /** Which element has which of four names, the second being optional and one of the last two absent. */
  lemma PlacesOfNames(es: seq<Element>, a: CString, b: CString, c: CString, d: CString, last: CString)
    requires a != b && a != c && a != d && b != c && b != d && c != d
    requires 2 <= |es| <= 3 && es[0].key == a && (|es| == 3 ==> es[1].key == b)
    requires es[|es| - 1].key == last && (last == c || last == d)
    ensures First(es, a) == 0 && First(es, b) == if |es| == 3 then 1 else |es|
    ensures First(es, c) == if last == c then |es| - 1 else |es|
    ensures First(es, d) == if last == d then |es| - 1 else |es|
  {
    hide First;
    FirstIs(es, a, 0);
    FirstIs(es, b, if |es| == 3 then 1 else |es|);
    FirstIs(es, c, if last == c then |es| - 1 else |es|);
    FirstIs(es, d, if last == d then |es| - 1 else |es|);
  }

  lemma NamesDiffer()
    ensures KEY_JSONRPC != KEY_ID && KEY_JSONRPC != KEY_RESULT && KEY_JSONRPC != KEY_ERROR
    ensures KEY_ID != KEY_RESULT && KEY_ID != KEY_ERROR && KEY_RESULT != KEY_ERROR
  {
    assert KEY_JSONRPC[0] == 0x6a && KEY_ID[0] == 0x69 && KEY_RESULT[0] == 0x72 && KEY_ERROR[0] == 0x65;
  }

  lemma FirstIs(es: seq<Element>, key: CString, n: nat)
    requires n <= |es| && (n < |es| ==> es[n].key == key)
    requires forall j :: 0 <= j < n ==> es[j].key != key
    ensures First(es, key) == n
  {
  }

  lemma EncodedIsHeld(es: seq<Element>)
    requires Size(es) <= INT_MAX
    ensures Holds(Encode(es), es)
  {
    var d := Encode(es);
    assert d[0..|d|] == d;
  }

  /** The offsets bson_get_props stores for "jsonrpc", "id", "result" and "error". */
  function ReplyOffsets(sent: seq<byte>): (r: seq<int>)
    ensures |r| == 4
  {
    FindProps(sent, [[0x6a, 0x73, 0x6f, 0x6e, 0x72, 0x70, 0x63], [0x69, 0x64],
                     [0x72, 0x65, 0x73, 0x75, 0x6c, 0x74], [0x65, 0x72, 0x72, 0x6f, 0x72]]).offs
  }

  /** The offset bson_get_props stores for "code". */
  function CodeOffset(sub: seq<byte>): int {
    FindProps(sub, [[0x63, 0x6f, 0x64, 0x65]]).offs[0]
  }

  lemma OffsetsOfReply(sent: seq<byte>, input: seq<byte>, req: seq<Element>, i: nat, offId: int,
                       res: Option<seq<Element>>, errno: int)
    requires sent == Encode(Reply(input, offId, res, errno)) && |sent| <= INT_MAX
    requires Answers(input, req, offId, i)
    ensures var es := Reply(input, offId, res, errno);
            var offs := ReplyOffsets(sent);
            && Holds(sent, es) && HeaderOk(sent)
            && |es| == (if offId == -1 then 2 else 3)
            && offs[0] == Pos(es, 0)
            && offs[1] == (if offId == -1 then -1 else Pos(es, 1))
            && offs[2] == (if errno == 0 then Pos(es, |es| - 1) else -1)
            && offs[3] == (if errno == 0 then -1 else Pos(es, |es| - 1))
  {
    hide FindElement, Encode, ListBytes, IsBody, Pos, CopiedElement, Size, Holds, FindProps,
      HeaderOk, Passable, First, Reply, Answers;
    var es := Reply(input, offId, res, errno);
    ReplyShape(input, req, i, offId, res, errno);
    NamesDiffer();
    PlacesOfNames(es, KEY_JSONRPC, KEY_ID, KEY_RESULT, KEY_ERROR, if errno != 0 then KEY_ERROR else KEY_RESULT);
    var keys := [KEY_JSONRPC, KEY_ID, KEY_RESULT, KEY_ERROR];
    assert Distinct(keys);
    EncodedIsHeld(es);
    GetPropsPasses(sent, es, keys);
  }

  /** The reply gives its version as "2.0", and the id of the request, of whatever type, as it was. */
  lemma VersionAndIdAreRead(sent: seq<byte>, input: seq<byte>, req: seq<Element>, i: nat, offId: int,
                            res: Option<seq<Element>>, errno: int)
    requires sent == Encode(Reply(input, offId, res, errno)) && |sent| <= INT_MAX
    requires Answers(input, req, offId, i)
    ensures var id := ReplyOffsets(sent)[1];
            && HeaderOk(sent)
            && ReadsBack(sent, ReplyOffsets(sent)[0], Some(StringValue([0x32, 0x2e, 0x30])))
            && (id == -1 <==> offId == -1)
            && (offId != -1 ==>
                  0 <= id && forall default :: ReadAlike(input, offId, sent, id, |req[i].body|, default))
  {
    hide FindElement, Encode, ListBytes, IsBody, Pos, CopiedElement, Size, Holds, ReplyOffsets, ReadsBack, ReadAlike,
      HeaderOk, Reply;
    var es := Reply(input, offId, res, errno);
    OffsetsOfReply(sent, input, req, i, offId, res, errno);
    ReplyShape(input, req, i, offId, res, errno);
    ElementReadsBack(sent, es, 0, StringValue(VERSION));
    if offId != -1 {
      CopyIsPassed(input, req, i, KEY_ID);
      forall default ensures ReadAlike(input, offId, sent, Pos(es, 1), |req[i].body|, default) {
        IdReadsAlike(input, req, i, sent, es, default);
      }
    }
  }

  lemma IdReadsAlike(input: seq<byte>, req: seq<Element>, i: nat, sent: seq<byte>, es: seq<Element>, default: int)
    requires Holds(input, req) && Valid(req) && i < |req|
    requires Holds(sent, es) && |es| == 3 && CopiedElement(KEY_ID, Some(input), Pos(req, i)) == [es[1]]
    ensures ReadAlike(input, Pos(req, i), sent, Pos(es, 1), |req[i].body|, default)
  {
    hide FindElement, Encode, ListBytes, Pos, CopiedElement, Size, HoldsAt, Peek,
      GetString, GetBinary, GetSubdocument, GetBoolean, GetInt32;
    CopyIsPassed(input, req, i, KEY_ID);
    assert IsBody(req[i].kind, req[i].body) by { assert req[i] in req; }
    if req[i].kind != CODE_WITH_SCOPE {
      CopyIsFaithful(input, req, i, KEY_ID);
      SameValueReadsAlike(input, req, i, sent, es, 1, default);
    } else {
      ElementAt(input, req, i);
      ElementAt(sent, es, 1);
      NoGetterAnswers(input, Pos(req, i), default);
      NoGetterAnswers(sent, Pos(es, 1), default);
    }
  }

  /** The reply to a successful call gives the callee's document, or null if there is none, and no error. */
  lemma ResultIsRead(sent: seq<byte>, input: seq<byte>, req: seq<Element>, i: nat, offId: int,
                     res: Option<seq<Element>>)
    requires sent == Encode(Reply(input, offId, res, 0)) && |sent| <= INT_MAX
    requires Answers(input, req, offId, i)
    ensures var result := ReplyOffsets(sent)[2];
            && ReplyOffsets(sent)[3] == -1
            && match res
               case Some(es) => ReadsBack(sent, result, Some(DocumentValue(es)))
               case None => 4 <= result && Peek(sent, result) == 0x0a && ReadsBack(sent, result, Some(NullValue))
  {
    hide FindElement, Encode, ListBytes, IsBody, Pos, CopiedElement, Size, Holds, ReplyOffsets, ReadsBack, ReadAlike,
      HeaderOk, Reply;
    var es := Reply(input, offId, res, 0);
    OffsetsOfReply(sent, input, req, i, offId, res, 0);
    ReplyShape(input, req, i, offId, res, 0);
    ElementReadsBack(sent, es, |es| - 1, OutcomeValue(res, 0));
    ElementAt(sent, es, |es| - 1);
  }

  /** The reply to a failed call gives the error code, and no result. */
  lemma ErrorIsRead(sent: seq<byte>, input: seq<byte>, req: seq<Element>, i: nat, offId: int,
                    res: Option<seq<Element>>, errno: int)
    requires errno != 0
    requires sent == Encode(Reply(input, offId, res, errno)) && |sent| <= INT_MAX
    requires Answers(input, req, offId, i)
    ensures ReplyOffsets(sent)[2] == -1
    ensures match GetSubdocument(Some(sent), ReplyOffsets(sent)[3])
            case Some(p) =>
              && p <= |sent| && HeaderOk(sent[p..])
              && forall default :: GetInt32(Some(sent[p..]), CodeOffset(sent[p..]), default) == Wrap32(errno)
            case None => false
  {
    hide FindElement, Encode, ListBytes, IsBody, Pos, CopiedElement, Size, Holds, ReplyOffsets, ReadAlike,
      HeaderOk, Reply, GetSubdocument, GetInt32, Wrap32, CodeOffset;
    var es := Reply(input, offId, res, errno);
    OffsetsOfReply(sent, input, req, i, offId, res, errno);
    ReplyShape(input, req, i, offId, res, errno);
    ElementReadsBack(sent, es, |es| - 1, OutcomeValue(res, errno));
    var p := GetSubdocument(Some(sent), ReplyOffsets(sent)[3]).value;
    CodeIsRead(sent[p..], errno);
  }

  lemma CodeIsRead(sub: seq<byte>, errno: int)
    requires Holds(sub, [Int32Element(KEY_CODE, errno)])
    ensures HeaderOk(sub) && forall default :: GetInt32(Some(sub), CodeOffset(sub), default) == Wrap32(errno)
  {
    hide Holds, FindProps, HeaderOk, GetInt32, GetString, GetBinary, GetSubdocument, GetBoolean, Wrap32;
    var kvs := [(KEY_CODE, Int32Value(errno))];
    assert Build(kvs) == [Int32Element(KEY_CODE, errno)];
    RoundTrip(sub, kvs, [KEY_CODE], 0);
    assert First(Build(kvs), KEY_CODE) == 0;
  }
}
