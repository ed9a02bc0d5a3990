/**
  Reading BSON documents in place: element sizes, the property scan and the getters.
 */
module BsonReader {
  import opened Bytes
  import opened BsonFormat

  /** Number of value bytes of an element of the given type at data, or -1. */
  function MeasureValue(kind: byte, mem: seq<byte>, data: nat, end: int): (r: int)
    requires data < end
    ensures IsInt32(end) ==> IsInt32(r)
  {
    if kind == 0x01 || kind == 0x09 || kind == 0x11 || kind == 0x12 then 8
    else if kind == 0x02 || kind == 0x0d || kind == 0x0e || kind == 0x0f then Counted(ReadInt(mem, data), 4)
    else if kind == 0x03 || kind == 0x04 then Counted(ReadInt(mem, data), 0)
    else if kind == 0x05 then Counted(ReadInt(mem, data), 5)
    else if kind == 0x06 || kind == 0x0a then 0
    else if kind == 0x07 then 12
    else if kind == 0x08 then 1
    else if kind == 0x0b then
      var pattern := data + StrNLen(mem, data, end - data) + 1;
      if end <= pattern || Peek(mem, pattern - 1) != 0 then -1 else
      var options := pattern + StrNLen(mem, pattern, end - pattern) + 1;
      if end <= options || Peek(mem, options - 1) != 0 then -1 else options - data
    else if kind == 0x0c then Counted(ReadInt(mem, data), 16)
    else if kind == 0x10 then 4
    else if kind == 0x13 then 16
    else -1
  }

  /** A length word plus a fixed part, added as C ints. */
  function Counted(len: int, fixed: nat): (r: int)
    ensures IsInt32(r)
  {
    if len < 0 then -1 else Wrap32(len + fixed)
  }

  predicate HeaderOk(mem: seq<byte>) {
    var end := ReadInt(mem, 0);
    4 < end && Peek(mem, end - 1) == 0
  }

  datatype Props = Props(found: int, offs: seq<int>)

  /** Index of the first key still unset and equal to name, or |keys|. */
  function FirstUnset(keys: seq<CString>, offs: seq<int>, name: seq<byte>): (r: nat)
    requires |keys| == |offs|
    ensures r <= |keys|
    ensures r < |keys| ==> offs[r] < 0 && keys[r] == name
    ensures forall i :: 0 <= i < r ==> !(offs[i] < 0 && keys[i] == name)
  {
    if keys == [] || (offs[0] < 0 && keys[0] == name) then 0
    else 1 + FirstUnset(keys[1..], offs[1..], name)
  }

  /** Where the scan of bson_get_props is: next element, offsets found, how many. */
  datatype Cursor = Cursor(data: nat, offs: seq<int>, scanned: nat)

  datatype Outcome = Done(props: Props) | More(cursor: Cursor)

  /** Notes the element of the given name at elem: the first unset key of that name gets its offset. */
  function Mark(keys: seq<CString>, c: Cursor, name: seq<byte>, elem: nat): (r: Cursor)
    requires |keys| == |c.offs|
    ensures |r.offs| == |keys| && r.data == c.data
  {
    var k := FirstUnset(keys, c.offs, name);
    if k < |keys| then Cursor(c.data, c.offs[k := elem], c.scanned + 1) else c
  }

  /** The element scan, one element. */
  function Step(mem: seq<byte>, end: int, keys: seq<CString>, c: Cursor): (r: Outcome)
    requires |keys| == |c.offs| && c.data < end
    ensures r.More? ==> |r.cursor.offs| == |keys| && c.data < r.cursor.data
    ensures r.Done? ==> |r.props.offs| == |keys|
  {
    if Peek(mem, c.data) == 0 then Done(Props(c.scanned, c.offs)) else
    var name := c.data + 1;
    var n := StrNLen(mem, name, end - name);
    var value := name + n + 1;
    if end <= value || Peek(mem, value - 1) != 0 then Done(Props(-1, c.offs)) else
    var c' := Mark(keys, c, Slice(mem, name, n), c.data);
    if c'.scanned > c.scanned && c'.scanned == |keys| then Done(Props(c'.scanned, c'.offs)) else
    var m := MeasureValue(Peek(mem, c.data), mem, value, end);
    if m < 0 then Done(Props(-1, c'.offs)) else More(c'.(data := value + m))
  }

  function Scan(mem: seq<byte>, end: int, keys: seq<CString>, c: Cursor): (r: Props)
    requires |keys| == |c.offs|
    ensures |r.offs| == |keys|
    decreases end - c.data
  {
    if c.data >= end then Props(c.scanned, c.offs) else
    match Step(mem, end, keys, c)
    case Done(props) => props
    case More(c') => Scan(mem, end, keys, c')
  }

  /** What bson_get_props computes on a document whose header it accepts. */
  function FindProps(mem: seq<byte>, keys: seq<CString>): (r: Props)
    ensures |r.offs| == |keys|
  {
    Scan(mem, ReadInt(mem, 0), keys, Cursor(4, Unset(|keys|), 0))
  }

  function Unset(n: nat): (r: seq<int>)
    ensures |r| == n
  {
    seq(n, _ => -1)
  }

  lemma UnsetIs(offs: seq<int>)
    requires forall i :: 0 <= i < |offs| ==> offs[i] == -1
    ensures offs == Unset(|offs|)
  {
  }

  /** The inner loop of bson_get_props over the requested names. */
  method MarkKey(keys: seq<CString>, offs: array<int>, name: seq<byte>, elem: nat, scanned: nat) returns (count: nat)
    requires offs.Length == |keys|
    modifies offs
    ensures var c := Mark(keys, Cursor(0, old(offs[..]), scanned), name, elem);
            offs[..] == c.offs && count == c.scanned
  {
    count := scanned;
    ghost var first := FirstUnset(keys, offs[..], name);
    var k := 0;
    while k < |keys|
      invariant 0 <= k <= first && offs[..] == old(offs[..])
    {
      assert offs[k] == offs[..][k];
      if offs[k] < 0 && keys[k] == name {
        offs[k] := elem;
        count := count + 1;
        break;
      }
      k := k + 1;
    }
  }

  /**
    bson_get_props. The offsets are the caller's variables: they stay untouched when the
    document header is rejected.
   */
  method GetProps(mem: seq<byte>, keys: seq<CString>, offs: array<int>) returns (ret: int)
    requires offs.Length == |keys|
    modifies offs
    ensures !HeaderOk(mem) ==> ret == -1 && offs[..] == old(offs[..])
    ensures HeaderOk(mem) ==> Props(ret, offs[..]) == FindProps(mem, keys)
  {
    hide Step, ReadInt, Peek, Unset;
    var end := ReadInt(mem, 0);
    var data: nat := 4;
    if end <= data || Peek(mem, end - 1) != 0 {
      return -1;
    }
    var total := 0;
    while total < |keys|
      invariant total <= |keys|
      invariant forall i :: 0 <= i < total ==> offs[i] == -1
    {
      offs[total] := -1;
      total := total + 1;
    }
    assert offs[..] == Unset(|keys|) by { UnsetIs(offs[..]); }
    var scanned: nat := 0;
    while data < end
      invariant Scan(mem, end, keys, Cursor(data, offs[..], scanned)) == FindProps(mem, keys)
      decreases end - data
    {
      var done;
      done, ret, data, scanned := ScanElement(mem, end, keys, offs, data, scanned);
      if done {
        return;
      }
    }
    return scanned;
  }

  /** The body of the element loop. */
  method ScanElement(mem: seq<byte>, end: int, keys: seq<CString>, offs: array<int>, at: nat, count: nat)
    returns (done: bool, ret: int, data: nat, scanned: nat)
    requires offs.Length == |keys| && at < end
    modifies offs
    ensures Step(mem, end, keys, Cursor(at, old(offs[..]), count))
            == if done then Done(Props(ret, offs[..])) else More(Cursor(data, offs[..], scanned))
  {
    hide MeasureValue, StrNLen, FirstUnset, Peek, Slice;
    done, ret, data, scanned := true, -1, at, count;
    var kind := Peek(mem, data);
    data := data + 1;
    var name := data;
    if kind == 0 {
      ret := scanned;
      return;
    }
    data := data + StrNLen(mem, name, end - name) + 1;
    if end <= data || Peek(mem, data - 1) != 0 {
      return;
    }
    scanned := MarkKey(keys, offs, Slice(mem, name, data - 1 - name), at, count);
    if scanned > count && scanned == |keys| {
      ret := scanned;
      return;
    }
    var elmlen := MeasureValue(kind, mem, data, end);
    if elmlen < 0 {
      return;
    }
    data := data + elmlen;
    done := false;
  }

  /** Start of the value of the element at offset if it has one of two types, and the document end. */
  function SeekData(doc: Option<seq<byte>>, offset: int, type1: byte, type2: byte): (r: Option<(nat, nat)>)
    ensures r.Some? ==> r.value.0 < r.value.1
  {
    if doc.None? || offset < 4 then None else
    var end := ReadInt(doc.value, 0);
    if end <= offset || Peek(doc.value, end - 1) != 0 then None else
    if Peek(doc.value, offset) != type1 && Peek(doc.value, offset) != type2 then None else
    var data := offset + 1 + StrNLen(doc.value, offset + 1, end - (offset + 1)) + 1;
    if end <= data || Peek(doc.value, data - 1) != 0 then None else Some((data, end))
  }

  /** The getters return offsets where the C code returns pointers; None is the caller's default. */
  function GetString(doc: Option<seq<byte>>, offset: int): Option<nat> {
    var s := SeekData(doc, offset, 0x02, 0x02);
    if s.None? then None else
    var len := ReadInt(doc.value, s.value.0);
    var data := s.value.0 + 4;
    if len <= 0 || s.value.1 - data < len || Peek(doc.value, data + len - 1) != 0 then None else Some(data)
  }

  function GetSubdocument(doc: Option<seq<byte>>, offset: int): Option<nat> {
    var s := SeekData(doc, offset, 0x04, 0x03);
    if s.None? then None else Some(s.value.0)
  }

  /** Offset and length of the data of a binary. */
  function GetBinary(doc: Option<seq<byte>>, offset: int): Option<(nat, nat)> {
    var s := SeekData(doc, offset, 0x05, 0x05);
    if s.None? then None else
    var len := ReadInt(doc.value, s.value.0);
    var data := s.value.0 + 5;
    if len <= 0 || s.value.1 - data < len then None else Some((data, len))
  }

  function GetBoolean(doc: Option<seq<byte>>, offset: int, default: int): int {
    var s := SeekData(doc, offset, 0x08, 0x08);
    if s.None? then default else if Peek(doc.value, s.value.0) != 0 then 1 else 0
  }

  function GetInt32(doc: Option<seq<byte>>, offset: int, default: int): int {
    var s := SeekData(doc, offset, 0x10, 0x10);
    if s.None? then default else ReadInt(doc.value, s.value.0)
  }

  // ---- element sizes -------------------------------------------------------------------

  lemma ReadIntOfBody(mem: seq<byte>, at: nat, body: seq<byte>)
    requires HoldsAt(mem, at, body) && |body| >= 4
    ensures ReadInt(mem, at) == ReadInt(body, 0)
  {
    forall i | 0 <= i < 4 ensures Peek(mem, at + i) == Peek(body, i) {
      assert mem[at..at + |body|][i] == body[i];
    }
    assert Peek(mem, at + 0) == Peek(body, 0);
  }

  lemma CStringBody(mem: seq<byte>, at: nat, b: seq<byte>, end: int)
    requires HoldsAt(mem, at, b) && IsCString(b) && at + |b| < end
    ensures at + StrNLen(mem, at, end - at) + 1 == at + |b| && Peek(mem, at + |b| - 1) == 0
  {
    var s: CString := b[..|b| - 1];
    assert b == s + [0];
    CStringAt(mem, at, s, end - at);
  }

  lemma MeasureRegex(mem: seq<byte>, at: nat, body: seq<byte>, end: int)
    requires HoldsAt(mem, at, body) && IsBody(REGEX, body) && at + |body| < end
    ensures MeasureValue(REGEX, mem, at, end) == |body|
  {
    hide MeasureValue, StrNLen, IsCString;
    var n: nat :| 0 < n < |body| && IsCString(body[..n]) && IsCString(body[n..]);
    var b1, b2 := body[..n], body[n..];
    assert body == [] + b1 + b2 && body == b1 + b2 + [];
    HoldsAtPart(mem, at, [], b1, b2);
    HoldsAtPart(mem, at, b1, b2, []);
    MeasureRegexParts(mem, at, b1, b2, end);
  }

  lemma MeasureRegexParts(mem: seq<byte>, at: nat, b1: seq<byte>, b2: seq<byte>, end: int)
    requires HoldsAt(mem, at, b1) && IsCString(b1) && HoldsAt(mem, at + |b1|, b2) && IsCString(b2)
    requires at + |b1| + |b2| < end
    ensures MeasureValue(REGEX, mem, at, end) == |b1| + |b2|
  {
    hide StrNLen, IsCString, HoldsAt;
    CStringBody(mem, at, b1, end);
    CStringBody(mem, at + |b1|, b2, end);
  }

  /**
    The measured size is the size BSON 1.1 gives the value, except for JavaScript code with
    scope, whose length word already counts itself.
   */
  lemma MeasureExact(kind: byte, mem: seq<byte>, at: nat, body: seq<byte>, end: int)
    requires HoldsAt(mem, at, body) && IsBody(kind, body) && at + |body| < end <= INT_MAX
    ensures MeasureValue(kind, mem, at, end) == |body| <==> kind != CODE_WITH_SCOPE
    ensures kind == CODE_WITH_SCOPE ==> MeasureValue(kind, mem, at, end) == Wrap32(|body| + 4)
  {
    hide StrNLen;
    if kind == REGEX {
      MeasureRegex(mem, at, body, end);
    } else if |body| >= 4 {
      ReadIntOfBody(mem, at, body);
      if kind == DBPOINTER {
        assert forall i | 0 <= i < 4 :: Peek(body[..|body| - 12], i) == Peek(body, i);
        assert Peek(body, 0) == body[0];
      }
    }
  }

  /** A length word that can be added to a fixed part without leaving the range of an int. */
  predicate Countable(len: int, fixed: nat) {
    0 <= len && len + fixed <= INT_MAX
  }

  /** Two NUL bytes from data on, the second of them not the last byte before end. */
  ghost predicate TwoStrings(mem: seq<byte>, data: nat, end: int) {
    exists i: nat, j: nat :: data <= i < j < end - 1 && Peek(mem, i) == 0 && Peek(mem, j) == 0
  }

  /** Which values have no size, whatever the bytes are. */
  lemma MeasureRejects(kind: byte, mem: seq<byte>, data: nat, end: int)
    requires data < end <= INT_MAX
    ensures MeasureValue(kind, mem, data, end) < 0 <==>
            if kind in {DOUBLE, 0x06, 0x07, BOOLEAN, 0x09, NULL, INT32, 0x11, 0x12, 0x13} then false
            else if kind in {STRING, 0x0d, 0x0e, CODE_WITH_SCOPE} then !Countable(ReadInt(mem, data), 4)
            else if kind in {DOCUMENT, ARRAY} then !Countable(ReadInt(mem, data), 0)
            else if kind == BINARY then !Countable(ReadInt(mem, data), 5)
            else if kind == DBPOINTER then !Countable(ReadInt(mem, data), 16)
            else kind == REGEX ==> !TwoStrings(mem, data, end)
  {
    hide StrNLen, Peek, ReadInt;
    if kind == REGEX {
      StrNLenStops(mem, data, end - data);
      var first := data + StrNLen(mem, data, end - data);
      if first + 1 < end {
        StrNLenStops(mem, first + 1, end - (first + 1));
        var second := first + 1 + StrNLen(mem, first + 1, end - (first + 1));
        if second + 1 < end {
          assert data <= first < second < end - 1 && Peek(mem, first) == 0 && Peek(mem, second) == 0;
        }
      }
    }
  }

  // ---- the property scan ---------------------------------------------------------------

  /** Number of offsets that are set. */
  function CountSet(offs: seq<int>): (r: nat)
    ensures r <= |offs|
  {
    if offs == [] then 0 else (if offs[0] >= 0 then 1 else 0) + CountSet(offs[1..])
  }

  lemma {:induction false} CountSetUpdate(offs: seq<int>, k: nat, v: nat)
    requires k < |offs| && offs[k] < 0
    ensures CountSet(offs[k := v]) == CountSet(offs) + 1
  {
    if k == 0 {
      assert offs[0 := v][1..] == offs[1..];
    } else {
      assert offs[k := v][1..] == offs[1..][k - 1 := v];
      CountSetUpdate(offs[1..], k - 1, v);
    }
  }

  lemma {:induction false} CountSetFull(offs: seq<int>)
    ensures CountSet(offs) == |offs| <==> forall k :: 0 <= k < |offs| ==> offs[k] >= 0
  {
    if offs != [] {
      CountSetFull(offs[1..]);
      assert (forall k :: 0 <= k < |offs| ==> offs[k] >= 0) ==> forall k :: 0 <= k < |offs[1..]| ==> offs[1..][k] >= 0;
      if offs[0] >= 0 && forall k :: 0 <= k < |offs[1..]| ==> offs[1..][k] >= 0 {
        forall k | 0 <= k < |offs| ensures offs[k] >= 0 {
          assert k > 0 ==> offs[k] == offs[1..][k - 1];
        }
      }
    }
  }

  /** Offset of the first element with the given name among the first i elements, or -1. */
  function OffsetWithin(es: seq<Element>, i: nat, key: CString): int
    requires i <= |es|
  {
    if First(es, key) < i then Pos(es, First(es, key)) else -1
  }

  function Offsets(es: seq<Element>, i: nat, keys: seq<CString>): (r: seq<int>)
    requires i <= |es|
    ensures |r| == |keys|
  {
    seq(|keys|, k requires 0 <= k < |keys| => OffsetWithin(es, i, keys[k]))
  }

  predicate Distinct(keys: seq<CString>) {
    forall i, j :: 0 <= i < j < |keys| ==> keys[i] != keys[j]
  }

  /** Only the last element may be JavaScript code with scope. */
  predicate Scannable(es: seq<Element>) {
    forall i :: 0 <= i < |es| - 1 ==> es[i].kind != CODE_WITH_SCOPE
  }

  /** An element the scan steps over to the one behind it. */
  ghost predicate Passed(e: Element) {
    if e.kind == CODE_WITH_SCOPE then |e.body| >= 4 && ReadInt(e.body, 0) == |e.body| - 4 else IsBody(e.kind, e.body)
  }

  /** The scan gets from the first element of the list to the end. */
  ghost predicate Passable(es: seq<Element>) {
    forall i :: 0 <= i < |es| ==> Passed(es[i]) || (i == |es| - 1 && es[i].kind == CODE_WITH_SCOPE
                                                   && IsBody(CODE_WITH_SCOPE, es[i].body))
  }

  lemma ScannableIsPassable(es: seq<Element>)
    requires Valid(es) && Scannable(es)
    ensures Passable(es)
  {
    hide IsBody;
    forall i | 0 <= i < |es| ensures IsBody(es[i].kind, es[i].body) {
      assert es[i] in es;
    }
  }

  /** What one more element does to the offsets found so far. */
  lemma OffsetsStep(es: seq<Element>, i: nat, keys: seq<CString>)
    requires i < |es| && Distinct(keys)
    ensures var k := FirstUnset(keys, Offsets(es, i, keys), es[i].key);
            Offsets(es, i + 1, keys) ==
            if k < |keys| then Offsets(es, i, keys)[k := Pos(es, i)] else Offsets(es, i, keys)
  {
    hide First, ListBytes, Pos, FirstUnset;
    var offs := Offsets(es, i, keys);
    var k := FirstUnset(keys, offs, es[i].key);
    assert Pos(es, i) >= 0;
    forall j | 0 <= j < |keys|
      ensures OffsetWithin(es, i + 1, keys[j]) == if j == k then Pos(es, i) else offs[j]
    {
      if First(es, keys[j]) == i {
        assert es[i].key == keys[j];
        assert offs[j] < 0;
        assert k <= j && k == j;
      } else if j == k {
        assert false;
      }
    }
  }

  lemma OffsetsDone(es: seq<Element>, i: nat, keys: seq<CString>)
    requires i <= |es| && CountSet(Offsets(es, i, keys)) == |keys|
    ensures Offsets(es, |es|, keys) == Offsets(es, i, keys)
  {
    CountSetFull(Offsets(es, i, keys));
    forall j | 0 <= j < |keys| ensures OffsetWithin(es, |es|, keys[j]) == OffsetWithin(es, i, keys[j]) {
      assert Offsets(es, i, keys)[j] >= 0;
    }
  }

  /** The name of element i as the scan sees it. */
  lemma NameAt(mem: seq<byte>, es: seq<Element>, i: nat)
    requires Holds(mem, es) && i < |es|
    ensures var name := Pos(es, i) + 1;
            var value := name + |es[i].key| + 1;
            && Peek(mem, Pos(es, i)) == es[i].kind
            && value < Size(es)
            && StrNLen(mem, name, Size(es) - name) == |es[i].key|
            && Slice(mem, name, |es[i].key|) == es[i].key
            && Peek(mem, value - 1) == 0
            && HoldsAt(mem, value, es[i].body)
  {
    var e := es[i];
    ElementAt(mem, es, i);
    var name := Pos(es, i) + 1;
    CStringAt(mem, name, e.key, Size(es) - name);
  }

  function CursorAt(es: seq<Element>, i: nat, keys: seq<CString>): (r: Cursor)
    requires i <= |es|
  {
    var offs := Offsets(es, i, keys);
    Cursor(Pos(es, i), offs, CountSet(offs))
  }

  lemma KindIsSet(e: Element)
    requires IsBody(e.kind, e.body) || Passed(e)
    ensures e.kind != 0
  {
  }

  /** One iteration of the scan, at element i of an encoded document. */
  lemma StepElement(mem: seq<byte>, es: seq<Element>, i: nat, keys: seq<CString>)
    requires Holds(mem, es) && i < |es| && es[i].kind != 0
    requires Distinct(keys)
    requires CountSet(Offsets(es, i, keys)) < |keys| || keys == []
    ensures
      var c' := CursorAt(es, i + 1, keys);
      var value := Pos(es, i) + 2 + |es[i].key|;
      && Pos(es, i) < value < Size(es)
      && var m := MeasureValue(es[i].kind, mem, value, Size(es));
         Step(mem, Size(es), keys, CursorAt(es, i, keys)) ==
         if c'.scanned == |keys| && keys != [] then Done(Props(c'.scanned, c'.offs))
         else if m < 0 then Done(Props(-1, c'.offs))
         else More(c'.(data := value + m))
  {
    hide MeasureValue, StrNLen, ListBytes, Encode, HoldsAt, IsBody, Peek, Slice, Pos, First, Mark, Offsets,
      CountSet, Size;
    NameAt(mem, es, i);
    MarkElement(es, i, keys);
  }

  /** Noting element i makes what was found among i elements what is found among i + 1. */
  lemma MarkElement(es: seq<Element>, i: nat, keys: seq<CString>)
    requires i < |es| && Distinct(keys)
    ensures Mark(keys, CursorAt(es, i, keys), es[i].key, Pos(es, i)) == CursorAt(es, i + 1, keys).(data := Pos(es, i))
  {
    hide Pos, First, Offsets, FirstUnset, CountSet;
    OffsetsStep(es, i, keys);
    var offs := Offsets(es, i, keys);
    var k := FirstUnset(keys, offs, es[i].key);
    if k < |keys| {
      CountSetUpdate(offs, k, Pos(es, i));
    }
  }

  lemma StepAtEnd(mem: seq<byte>, es: seq<Element>, keys: seq<CString>)
    requires Holds(mem, es)
    ensures var c := CursorAt(es, |es|, keys);
            c.data < Size(es) && Step(mem, Size(es), keys, c) == Done(Props(c.scanned, c.offs))
  {
    Frame(mem, es);
  }

  /** Scanning from element i on, with the offsets found so far, finds what the whole document holds. */
  lemma {:induction false} ScanEncoded(mem: seq<byte>, es: seq<Element>, i: nat, keys: seq<CString>)
    requires Holds(mem, es) && Passable(es) && i <= |es|
    requires Distinct(keys)
    requires CountSet(Offsets(es, i, keys)) < |keys| || keys == []
    ensures var all := Offsets(es, |es|, keys);
            Scan(mem, Size(es), keys, CursorAt(es, i, keys)) == Props(CountSet(all), all)
    decreases |es| - i
  {
    hide MeasureValue, Step, HoldsAt, Encode, ListBytes, IsBody;
    Frame(mem, es);
    if i == |es| {
      StepAtEnd(mem, es, keys);
    } else {
      KindIsSet(es[i]);
      StepElement(mem, es, i, keys);
      ListBytesAt(es, i);
      if CountSet(Offsets(es, i + 1, keys)) == |keys| && keys != [] {
        OffsetsDone(es, i + 1, keys);
      } else if Passed(es[i]) {
        AfterPassed(mem, es, i);
        ScanEncoded(mem, es, i + 1, keys);
      } else {
        AfterElement(mem, es, i);
      }
    }
  }

  /** Where the scan goes after element i: to the next one, or past the end of the document. */
  lemma AfterElement(mem: seq<byte>, es: seq<Element>, i: nat)
    requires Holds(mem, es) && i < |es| && IsBody(es[i].kind, es[i].body)
    ensures Pos(es, i) + 2 + |es[i].key| < Size(es)
    ensures
      var value := Pos(es, i) + 2 + |es[i].key|;
      var m := MeasureValue(es[i].kind, mem, value, Size(es));
      if es[i].kind == CODE_WITH_SCOPE then m == Wrap32(|es[i].body| + 4) else value + m == Pos(es, i + 1)
  {
    hide MeasureValue;
    NameAt(mem, es, i);
    ElementAt(mem, es, i);
    MeasureExact(es[i].kind, mem, Pos(es, i) + 2 + |es[i].key|, es[i].body, Size(es));
  }

  lemma AfterPassed(mem: seq<byte>, es: seq<Element>, i: nat)
    requires Holds(mem, es) && i < |es| && Passed(es[i])
    ensures
      var value := Pos(es, i) + 2 + |es[i].key|;
      value < Size(es) && value + MeasureValue(es[i].kind, mem, value, Size(es)) == Pos(es, i + 1)
  {
    hide IsBody, StrNLen;
    if es[i].kind != CODE_WITH_SCOPE {
      AfterElement(mem, es, i);
    } else {
      NameAt(mem, es, i);
      ElementAt(mem, es, i);
      ReadIntOfBody(mem, Pos(es, i) + 2 + |es[i].key|, es[i].body);
    }
  }

  /**
    bson_get_props on a document in memory: with distinct names, the result counts the names
    present and each offset is that of the first element so named, or -1.
   */
  lemma GetPropsFinds(mem: seq<byte>, es: seq<Element>, keys: seq<CString>)
    requires Holds(mem, es) && Valid(es) && Scannable(es) && Distinct(keys)
    ensures HeaderOk(mem)
    ensures var r := FindProps(mem, keys);
            && r.found == CountSet(r.offs)
            && forall k :: 0 <= k < |keys| ==>
                 r.offs[k] == if First(es, keys[k]) < |es| then Pos(es, First(es, keys[k])) else -1
  {
    hide Passable, Scannable, Valid, Holds, Distinct, Pos, First, CountSet, FindProps;
    ScannableIsPassable(es);
    GetPropsPasses(mem, es, keys);
  }

  /** The same for every list of elements the scan gets through. */
  lemma GetPropsPasses(mem: seq<byte>, es: seq<Element>, keys: seq<CString>)
    requires Holds(mem, es) && Passable(es) && Distinct(keys)
    ensures HeaderOk(mem)
    ensures var r := FindProps(mem, keys);
            && r.found == CountSet(r.offs)
            && forall k :: 0 <= k < |keys| ==>
                 r.offs[k] == if First(es, keys[k]) < |es| then Pos(es, First(es, keys[k])) else -1
  {
    hide Passable, Scan, Holds, Peek, ReadInt, Unset, CursorAt, Pos, First, Offsets, CountSet, Distinct, Size;
    Frame(mem, es);
    CursorAtStart(es, keys);
    ScanEncoded(mem, es, 0, keys);
    forall k | 0 <= k < |keys|
      ensures Offsets(es, |es|, keys)[k] == if First(es, keys[k]) < |es| then Pos(es, First(es, keys[k])) else -1
    {
      OffsetsEnd(es, keys, k);
    }
  }

  lemma CursorAtStart(es: seq<Element>, keys: seq<CString>)
    ensures CursorAt(es, 0, keys) == Cursor(4, Unset(|keys|), 0)
    ensures CountSet(Offsets(es, 0, keys)) < |keys| || keys == []
  {
    assert es[..0] == [];
    assert Offsets(es, 0, keys) == Unset(|keys|);
    CountNone(|keys|);
  }

  lemma OffsetsEnd(es: seq<Element>, keys: seq<CString>, k: nat)
    requires k < |keys|
    ensures Offsets(es, |es|, keys)[k] == if First(es, keys[k]) < |es| then Pos(es, First(es, keys[k])) else -1
  {
  }

  lemma {:induction false} CountNone(n: nat)
    ensures CountSet(Unset(n)) == 0
  {
    if n > 0 {
      assert Unset(n)[1..] == Unset(n - 1);
      CountNone(n - 1);
    }
  }

  // ---- any bytes at all ----------------------------------------------------------------

  /** off is where an element named key lies between the header and the end of a document. */
  predicate NamedAt(mem: seq<byte>, end: int, key: CString, off: int) {
    && 4 <= off && off + 2 + |key| < end
    && Peek(mem, off) != 0 && Slice(mem, off + 1, |key|) == key && Peek(mem, off + 1 + |key|) == 0
  }

  predicate Sound(mem: seq<byte>, end: int, keys: seq<CString>, offs: seq<int>)
    requires |keys| == |offs|
  {
    forall k :: 0 <= k < |keys| ==> offs[k] == -1 || NamedAt(mem, end, keys[k], offs[k])
  }

  lemma StepSound(mem: seq<byte>, end: int, keys: seq<CString>, c: Cursor)
    requires |keys| == |c.offs| && 4 <= c.data < end
    requires Sound(mem, end, keys, c.offs) && c.scanned == CountSet(c.offs)
    ensures match Step(mem, end, keys, c)
            case Done(r) => Sound(mem, end, keys, r.offs) && (r.found == -1 || r.found == CountSet(r.offs))
            case More(c') => Sound(mem, end, keys, c'.offs) && c'.scanned == CountSet(c'.offs)
  {
    hide MeasureValue, StrNLen, Peek, Slice, Mark, Sound, CountSet;
    var name := c.data + 1;
    var n := StrNLen(mem, name, end - name);
    if Peek(mem, c.data) != 0 && name + n + 1 < end && Peek(mem, name + n) == 0 {
      MarkSound(mem, end, keys, c, Slice(mem, name, n));
    }
  }

  lemma MarkSound(mem: seq<byte>, end: int, keys: seq<CString>, c: Cursor, name: seq<byte>)
    requires |keys| == |c.offs| && 4 <= c.data && c.data + 2 + |name| < end
    requires Peek(mem, c.data) != 0 && Slice(mem, c.data + 1, |name|) == name && Peek(mem, c.data + 1 + |name|) == 0
    requires Sound(mem, end, keys, c.offs) && c.scanned == CountSet(c.offs)
    ensures var c' := Mark(keys, c, name, c.data);
            Sound(mem, end, keys, c'.offs) && c'.scanned == CountSet(c'.offs)
  {
    hide Peek, Slice, FirstUnset, CountSet;
    var k := FirstUnset(keys, c.offs, name);
    if k < |keys| {
      assert NamedAt(mem, end, keys[k], c.data);
      CountSetUpdate(c.offs, k, c.data);
    }
  }

  lemma {:induction false} ScanSound(mem: seq<byte>, end: int, keys: seq<CString>, c: Cursor)
    requires |keys| == |c.offs| && 4 <= c.data
    requires Sound(mem, end, keys, c.offs) && c.scanned == CountSet(c.offs)
    ensures var r := Scan(mem, end, keys, c);
            Sound(mem, end, keys, r.offs) && (r.found == -1 || r.found == CountSet(r.offs))
    decreases end - c.data
  {
    hide Sound, Step, CountSet;
    if c.data < end {
      StepSound(mem, end, keys, c);
      match Step(mem, end, keys, c) {
        case Done(_) =>
        case More(c') => ScanSound(mem, end, keys, c');
      }
    }
  }

  /**
    Whatever the bytes: an offset bson_get_props hands out lies inside the document, at an
    element of the name asked for, and the result counts these offsets or is -1.
   */
  lemma FindPropsSound(mem: seq<byte>, keys: seq<CString>)
    ensures var r := FindProps(mem, keys);
            Sound(mem, ReadInt(mem, 0), keys, r.offs) && (r.found == -1 || r.found == CountSet(r.offs))
  {
    CountNone(|keys|);
    ScanSound(mem, ReadInt(mem, 0), keys, Cursor(4, Unset(|keys|), 0));
  }

  /** At such an offset, seeking only asks for the type. */
  lemma SeekSound(mem: seq<byte>, key: CString, off: int, type1: byte, type2: byte)
    requires HeaderOk(mem) && NamedAt(mem, ReadInt(mem, 0), key, off)
    ensures SeekData(Some(mem), off, type1, type2) ==
            if Peek(mem, off) == type1 || Peek(mem, off) == type2 then Some((off + 2 + |key|, ReadInt(mem, 0)))
            else None
  {
    hide StrNLen, Peek, ReadInt;
    var end := ReadInt(mem, 0);
    StrNLenIs(mem, off + 1, end - (off + 1), key);
  }

  /** Whatever the bytes: the strings and binaries handed out end inside the document. */
  lemma GettersStayInside(mem: seq<byte>, offset: int)
    ensures var doc, end := Some(mem), ReadInt(mem, 0);
            && (match GetString(doc, offset)
                case Some(p) => offset < p < end && p + StrNLen(mem, p, end - p) < end
                case None => true)
            && (match GetBinary(doc, offset)
                case Some((p, n)) => offset < p && 0 < n && p + n <= end
                case None => true)
  {
    hide StrNLen, Peek, ReadInt;
    var end := ReadInt(mem, 0);
    match GetString(Some(mem), offset) {
      case Some(p) => StrNLenStops(mem, p, end - p);
      case None =>
    }
  }

  // ---- the getters ---------------------------------------------------------------------

  /** Seeking element i succeeds exactly if it has one of the two types asked for. */
  lemma SeekElement(mem: seq<byte>, es: seq<Element>, i: nat, type1: byte, type2: byte)
    requires Holds(mem, es) && i < |es|
    ensures var value: nat := Pos(es, i) + 2 + |es[i].key|;
            && SeekData(Some(mem), Pos(es, i), type1, type2)
               == (if es[i].kind == type1 || es[i].kind == type2 then Some((value, Size(es))) else None)
            && HoldsAt(mem, value, es[i].body) && value + |es[i].body| < Size(es)
  {
    hide StrNLen, ListBytes, Encode, HoldsAt;
    Frame(mem, es);
    NameAt(mem, es, i);
    ElementAt(mem, es, i);
  }

  lemma StringIsRead(mem: seq<byte>, es: seq<Element>, i: nat, s: CString)
    requires Holds(mem, es) && i < |es| && es[i] == StringElement(es[i].key, s)
    ensures var p := GetString(Some(mem), Pos(es, i));
            p.Some? && Slice(mem, p.value, |s|) == s && Peek(mem, p.value + |s|) == 0
  {
    hide StrNLen, ListBytes, Encode, SeekData, LE32, ReadInt, Size, Pos;
    SeekElement(mem, es, i, 0x02, 0x02);
    var value := Pos(es, i) + 2 + |es[i].key|;
    var w := LE32(|s| + 1);
    assert StringBody(s) == [] + w + (s + [0]) && StringBody(s) == w + (s + [0]) + [];
    HoldsAtPart(mem, value, [], w, s + [0]);
    HoldsAtPart(mem, value, w, s + [0], []);
    ReadIntLE32(mem, value, |s| + 1);
    CStringAt(mem, value + 4, s, |s| + 1);
  }

  lemma SubdocumentIsRead(mem: seq<byte>, es: seq<Element>, i: nat, sub: seq<Element>)
    requires Holds(mem, es) && i < |es|
    requires es[i] == DocumentElement(es[i].key, sub) || es[i] == ArrayElement(es[i].key, sub)
    ensures var p := GetSubdocument(Some(mem), Pos(es, i));
            p.Some? && p.value <= |mem| && Holds(mem[p.value..], sub)
  {
    hide SeekData, ListBytes, Encode, Pos;
    SeekElement(mem, es, i, 0x04, 0x03);
    var value := Pos(es, i) + 2 + |es[i].key|;
    assert mem[value..][..Size(sub)] == mem[value..value + Size(sub)];
  }

  /** An empty binary cannot be told from a missing one: the getter wants at least one byte. */
  lemma BinaryIsRead(mem: seq<byte>, es: seq<Element>, i: nat, data: seq<byte>)
    requires Holds(mem, es) && i < |es| && es[i] == BinaryElement(es[i].key, data)
    ensures var p := GetBinary(Some(mem), Pos(es, i));
            && (p.Some? <==> data != [])
            && (p.Some? ==> p.value.1 == |data| && Slice(mem, p.value.0, |data|) == data)
  {
    hide SeekData, LE32, ReadInt, ListBytes, Encode, Pos, Size;
    SeekElement(mem, es, i, 0x05, 0x05);
    var value := Pos(es, i) + 2 + |es[i].key|;
    var w := LE32(|data|);
    assert BinaryBody(0, data) == [] + w + ([0] + data) && BinaryBody(0, data) == (w + [0]) + data + [];
    HoldsAtPart(mem, value, [], w, [0] + data);
    HoldsAtPart(mem, value, w + [0], data, []);
    ReadIntLE32(mem, value, |data|);
    SliceOfHeld(mem, value + 5, data);
  }

  lemma BooleanIsRead(mem: seq<byte>, es: seq<Element>, i: nat, value: int, default: int)
    requires Holds(mem, es) && i < |es| && es[i] == BooleanElement(es[i].key, value)
    ensures GetBoolean(Some(mem), Pos(es, i), default) == if value != 0 then 1 else 0
  {
    SeekElement(mem, es, i, 0x08, 0x08);
    SliceOfHeld(mem, Pos(es, i) + 2 + |es[i].key|, es[i].body);
    assert Slice(mem, Pos(es, i) + 2 + |es[i].key|, 1)[0] == es[i].body[0];
  }

  lemma Int32IsRead(mem: seq<byte>, es: seq<Element>, i: nat, value: int, default: int)
    requires Holds(mem, es) && i < |es| && es[i] == Int32Element(es[i].key, value)
    ensures GetInt32(Some(mem), Pos(es, i), default) == Wrap32(value)
  {
    SeekElement(mem, es, i, 0x10, 0x10);
    ReadIntLE32(mem, Pos(es, i) + 2 + |es[i].key|, value);
  }

  /**
    What every getter says of element i is fixed by the element's type and value bytes: it
    answers exactly for its own types, and then with the value.
   */
  lemma GettersSee(mem: seq<byte>, es: seq<Element>, i: nat, default: int)
    requires Holds(mem, es) && i < |es| && IsBody(es[i].kind, es[i].body)
    ensures
      var doc, at, kind, body := Some(mem), Pos(es, i), es[i].kind, es[i].body;
      && (match GetString(doc, at)
          case Some(p) => kind == STRING && Slice(mem, p, |body| - 4) == body[4..]
          case None => kind != STRING)
      && (match GetSubdocument(doc, at)
          case Some(p) => (kind == DOCUMENT || kind == ARRAY) && Slice(mem, p, |body|) == body
          case None => kind != DOCUMENT && kind != ARRAY)
      && (match GetBinary(doc, at)
          case Some((p, n)) => kind == BINARY && n == |body| - 5 > 0 && Slice(mem, p, n) == body[5..]
          case None => kind != BINARY || |body| == 5)
      && GetBoolean(doc, at, default) == (if kind == BOOLEAN then (if body[0] != 0 then 1 else 0) else default)
      && GetInt32(doc, at, default) == (if kind == INT32 then ReadInt(body, 0) else default)
  {
    hide SeekData, StrNLen, ListBytes, Encode, HoldsAt, Slice, ReadInt, Pos, Size, Peek;
    var kind, body := es[i].kind, es[i].body;
    var value := Pos(es, i) + 2 + |es[i].key|;
    SeekElement(mem, es, i, 0x02, 0x02);
    SeekElement(mem, es, i, 0x04, 0x03);
    SeekElement(mem, es, i, 0x05, 0x05);
    SeekElement(mem, es, i, 0x08, 0x08);
    SeekElement(mem, es, i, 0x10, 0x10);
    if |body| >= 4 {
      ReadIntOfBody(mem, value, body);
    }
    if kind == STRING {
      BodyFrom(mem, value, body, 4);
    } else if kind == DOCUMENT || kind == ARRAY {
      BodyFrom(mem, value, body, 0);
    } else if kind == BINARY {
      BodyFrom(mem, value, body, 5);
    } else if kind == BOOLEAN {
      BodyFrom(mem, value, body, 0);
    }
  }

  /** Part of a value in memory. */
  lemma BodyFrom(mem: seq<byte>, at: nat, body: seq<byte>, n: nat)
    requires HoldsAt(mem, at, body) && n <= |body|
    ensures Slice(mem, at + n, |body| - n) == body[n..]
    ensures body != [] ==> Peek(mem, at) == body[0] && Peek(mem, at + |body| - 1) == body[|body| - 1]
  {
    assert body == body[..n] + body[n..] + [];
    HoldsAtPart(mem, at, body[..n], body[n..], []);
    SliceOfHeld(mem, at + n, body[n..]);
    if body != [] {
      assert mem[at..at + |body|][0] == body[0];
      assert mem[at..at + |body|][|body| - 1] == body[|body| - 1];
    }
  }

  /** A value as the setters take it. */
  datatype Value =
    | StringValue(s: CString)
    | DocumentValue(sub: seq<Element>)
    | ArrayValue(sub: seq<Element>)
    | BinaryValue(data: seq<byte>)
    | BooleanValue(b: int)
    | Int32Value(n: int)
    | NullValue

  function ToElement(key: CString, v: Value): Element {
    match v
    case StringValue(s) => StringElement(key, s)
    case DocumentValue(sub) => DocumentElement(key, sub)
    case ArrayValue(sub) => ArrayElement(key, sub)
    case BinaryValue(data) => BinaryElement(key, data)
    case BooleanValue(b) => BooleanElement(key, b)
    case Int32Value(n) => Int32Element(key, n)
    case NullValue => NullElement(key)
  }

  /**
    What the getters together say of an offset. Every getter whose type is not the stored
    one answers with the caller's default.
   */
  ghost predicate ReadsBack(mem: seq<byte>, offset: int, v: Option<Value>) {
    var doc := Some(mem);
    && (match GetString(doc, offset)
        case Some(p) => v.Some? && v.value.StringValue? && Slice(mem, p, |v.value.s|) == v.value.s
          && Peek(mem, p + |v.value.s|) == 0
        case None => v.None? || !v.value.StringValue?)
    && (match GetSubdocument(doc, offset)
        case Some(p) => v.Some? && (v.value.DocumentValue? || v.value.ArrayValue?) && p <= |mem|
          && Holds(mem[p..], v.value.sub)
        case None => v.None? || !(v.value.DocumentValue? || v.value.ArrayValue?))
    && (match GetBinary(doc, offset)
        case Some((p, n)) => v.Some? && v.value.BinaryValue? && v.value.data != [] && n == |v.value.data|
          && Slice(mem, p, n) == v.value.data
        case None => v.None? || !v.value.BinaryValue? || v.value.data == [])
    && (forall default :: GetBoolean(doc, offset, default) ==
          if v.Some? && v.value.BooleanValue? then (if v.value.b != 0 then 1 else 0) else default)
    && (forall default :: GetInt32(doc, offset, default) ==
          if v.Some? && v.value.Int32Value? then Wrap32(v.value.n) else default)
  }

  lemma ElementReadsBack(mem: seq<byte>, es: seq<Element>, i: nat, v: Value)
    requires Holds(mem, es) && i < |es| && es[i] == ToElement(es[i].key, v)
    ensures ReadsBack(mem, Pos(es, i), Some(v))
  {
    hide SeekData, StrNLen, ListBytes, Encode, HoldsAt, ReadInt, Peek, Slice;
    SeekElement(mem, es, i, 0x02, 0x02);
    SeekElement(mem, es, i, 0x04, 0x03);
    SeekElement(mem, es, i, 0x05, 0x05);
    SeekElement(mem, es, i, 0x08, 0x08);
    SeekElement(mem, es, i, 0x10, 0x10);
    match v {
      case StringValue(s) => StringIsRead(mem, es, i, s);
      case DocumentValue(sub) => SubdocumentIsRead(mem, es, i, sub);
      case ArrayValue(sub) => SubdocumentIsRead(mem, es, i, sub);
      case BinaryValue(data) => BinaryIsRead(mem, es, i, data);
      case BooleanValue(b) => forall default { BooleanIsRead(mem, es, i, b, default); }
      case Int32Value(n) => forall default { Int32IsRead(mem, es, i, n, default); }
      case NullValue =>
    }
  }

  /** Keys with values, in the order in which they are set. */
  function Build(kvs: seq<(CString, Value)>): (r: seq<Element>)
    ensures |r| == |kvs|
  {
    seq(|kvs|, i requires 0 <= i < |kvs| => ToElement(kvs[i].0, kvs[i].1))
  }

  lemma ValueBodyIsBody(key: CString, v: Value)
    requires |ToElement(key, v).body| <= INT_MAX
    ensures IsBody(ToElement(key, v).kind, ToElement(key, v).body)
    ensures ToElement(key, v).kind != CODE_WITH_SCOPE
  {
    var b := ToElement(key, v).body;
    match v {
      case StringValue(s) =>
        assert b[0..4] == LE32(|s| + 1);
        ReadIntLE32(b, 0, |s| + 1);
      case BinaryValue(data) =>
        assert b[0..4] == LE32(|data|);
        ReadIntLE32(b, 0, |data|);
      case DocumentValue(sub) =>
        assert b[0..4] == LE32(Size(sub));
        ReadIntLE32(b, 0, Size(sub));
      case ArrayValue(sub) =>
        assert b[0..4] == LE32(Size(sub));
        ReadIntLE32(b, 0, Size(sub));
      case BooleanValue(_) =>
      case Int32Value(_) =>
      case NullValue =>
    }
  }

  lemma BuildIsValid(kvs: seq<(CString, Value)>)
    requires Size(Build(kvs)) <= INT_MAX
    ensures Valid(Build(kvs)) && Scannable(Build(kvs))
  {
    var es := Build(kvs);
    forall i | 0 <= i < |es| ensures IsBody(es[i].kind, es[i].body) && es[i].kind != CODE_WITH_SCOPE {
      ListBytesAt(es, i);
      ValueBodyIsBody(kvs[i].0, kvs[i].1);
    }
  }

  lemma UnsetReadsBack(mem: seq<byte>)
    ensures ReadsBack(mem, -1, None)
  {
  }

  /**
    The round trip: in a document built by any sequence of setters, bson_get_props with
    distinct names counts those present and hands out offsets at which the getters return
    the value first stored under each name, and the default under a name never stored.
   */
  lemma RoundTrip(mem: seq<byte>, kvs: seq<(CString, Value)>, keys: seq<CString>, k: nat)
    requires Holds(mem, Build(kvs))
    requires Distinct(keys) && k < |keys|
    ensures HeaderOk(mem) && FindProps(mem, keys).found == CountSet(FindProps(mem, keys).offs)
    ensures var first := First(Build(kvs), keys[k]);
            ReadsBack(mem, FindProps(mem, keys).offs[k], if first < |kvs| then Some(kvs[first].1) else None)
  {
    var es := Build(kvs);
    hide ListBytes, Encode, HoldsAt, IsBody, Peek, FindProps, Pos, First, HeaderOk;
    BuildIsValid(kvs);
    GetPropsFinds(mem, es, keys);
    var first := First(es, keys[k]);
    if first < |kvs| {
      ElementReadsBack(mem, es, first, kvs[first].1);
    } else {
      UnsetReadsBack(mem);
    }
  }
}
