/**
  Where the property scan meets its purpose: exactly on documents in which nothing follows
  JavaScript code with scope, because the scan resumes four bytes too far behind such a value.
 */
module BsonScanLimits {
  import opened Bytes
  import opened BsonFormat
  import opened BsonReader

  /** Element i is JavaScript code with scope, the first in the document, and not its last element. */
  predicate BlocksScan(es: seq<Element>, i: nat) {
    && i + 1 < |es| && es[i].kind == CODE_WITH_SCOPE
    && forall k :: 0 <= k < i ==> es[k].kind != CODE_WITH_SCOPE
  }

  /** The name right behind the first JavaScript code with scope has not occurred before. */
  predicate NextNameIsNew(es: seq<Element>) {
    forall i :: 0 <= i < |es| && BlocksScan(es, i) ==> First(es, es[i + 1].key) == i + 1
  }

  /** What a scan for the given names is for: the first element of each name, and how many there are. */
  ghost predicate FindsFirst(mem: seq<byte>, es: seq<Element>, keys: seq<CString>) {
    var r := FindProps(mem, keys);
    && r.found == CountSet(r.offs)
    && forall k :: 0 <= k < |keys| ==>
         r.offs[k] == if First(es, keys[k]) < |es| then Pos(es, First(es, keys[k])) else -1
  }

  lemma StepMovesOn(mem: seq<byte>, end: int, keys: seq<CString>, c: Cursor, at: nat)
    requires |keys| == |c.offs| && at < c.data < end && at !in c.offs
    ensures match Step(mem, end, keys, c)
            case Done(r) => at !in r.offs
            case More(c') => at !in c'.offs && at < c'.data
  {
    hide MeasureValue, StrNLen, Peek, Slice, FirstUnset;
  }

  /** The scan never hands out an offset that lies behind its cursor. */
  lemma {:induction false} ScanMovesOn(mem: seq<byte>, end: int, keys: seq<CString>, c: Cursor, at: nat)
    requires |keys| == |c.offs| && at < c.data && at !in c.offs
    ensures at !in Scan(mem, end, keys, c).offs
    decreases end - c.data
  {
    hide Step;
    if c.data < end {
      StepMovesOn(mem, end, keys, c, at);
      match Step(mem, end, keys, c) {
        case Done(_) =>
        case More(c') => ScanMovesOn(mem, end, keys, c', at);
      }
    }
  }

  /** Before the element it looks for, a scan for one name has found nothing. */
  lemma NothingYet(es: seq<Element>, i: nat, key: CString)
    requires i <= First(es, key)
    ensures Offsets(es, i, [key]) == [-1] && CountSet(Offsets(es, i, [key])) == 0
  {
  }

  lemma ValidAt(es: seq<Element>, i: nat)
    requires Valid(es) && i < |es|
    ensures IsBody(es[i].kind, es[i].body) && es[i].kind != 0
  {
    assert es[i] in es;
  }

  /** Up to the first JavaScript code with scope, the scan goes from element to element. */
  lemma {:induction false} ScanReaches(mem: seq<byte>, es: seq<Element>, j: nat, i: nat, key: CString)
    requires Holds(mem, es) && Valid(es) && j <= i < |es| && i <= First(es, key)
    requires forall k :: 0 <= k < i ==> es[k].kind != CODE_WITH_SCOPE
    ensures Scan(mem, Size(es), [key], CursorAt(es, j, [key])) == Scan(mem, Size(es), [key], CursorAt(es, i, [key]))
    decreases i - j
  {
    hide MeasureValue, Step, HoldsAt, Encode, ListBytes, IsBody, Offsets, CountSet, First;
    if j < i {
      NothingYet(es, j, key);
      NothingYet(es, j + 1, key);
      ValidAt(es, j);
      StepElement(mem, es, j, [key]);
      ListBytesAt(es, j);
      AfterElement(mem, es, j);
      ScanReaches(mem, es, j + 1, i, key);
    }
  }

  /** The element right behind the first JavaScript code with scope is missed. */
  lemma ElementBehindScopedCodeIsMissed(mem: seq<byte>, es: seq<Element>, i: nat)
    requires Holds(mem, es) && Valid(es) && BlocksScan(es, i) && First(es, es[i + 1].key) == i + 1
    ensures Pos(es, i + 1) !in FindProps(mem, [es[i + 1].key]).offs
  {
    hide MeasureValue, Step, Scan, HoldsAt, Encode, ListBytes, IsBody, Offsets, CountSet, First, Peek, ReadInt;
    var key := es[i + 1].key;
    Frame(mem, es);
    CursorAtStart(es, [key]);
    ScanReaches(mem, es, 0, i, key);
    NothingYet(es, i, key);
    NothingYet(es, i + 1, key);
    ValidAt(es, i);
    StepElement(mem, es, i, [key]);
    ListBytesAt(es, i);
    AfterElement(mem, es, i);
    ScanAfterScopedCode(mem, es, i, key);
  }

  lemma ScanAfterScopedCode(mem: seq<byte>, es: seq<Element>, i: nat, key: CString)
    requires Holds(mem, es) && i + 1 < |es| && CursorAt(es, i, [key]).data < Size(es)
    requires
      var value := Pos(es, i) + 2 + |es[i].key|;
      && value + |es[i].body| == Pos(es, i + 1)
      && match Step(mem, Size(es), [key], CursorAt(es, i, [key]))
         case Done(r) => r.offs == [-1]
         case More(c) => c.offs == [-1] && c.data == value + |es[i].body| + 4
    ensures Pos(es, i + 1) !in Scan(mem, Size(es), [key], CursorAt(es, i, [key])).offs
  {
    hide Step, HoldsAt, Encode, ListBytes, Pos, Size, Offsets;
    match Step(mem, Size(es), [key], CursorAt(es, i, [key])) {
      case Done(_) =>
      case More(c) => ScanMovesOn(mem, Size(es), [key], c, Pos(es, i + 1));
    }
  }

  /** If every name is used once, the name behind the first JavaScript code with scope is new. */
  lemma DistinctNamesAreNew(es: seq<Element>)
    requires forall i, j :: 0 <= i < j < |es| ==> es[i].key != es[j].key
    ensures NextNameIsNew(es)
  {
    hide First;
    forall i | 0 <= i < |es| && BlocksScan(es, i) ensures First(es, es[i + 1].key) == i + 1 {
      var f := First(es, es[i + 1].key);
      assert f <= i + 1;
      assert es[f].key == es[i + 1].key;
    }
  }

  /**
    Exactly when the scan finds what it is for: a document in which the name behind the first
    JavaScript code with scope is new is scanned correctly for every list of distinct names if
    and only if nothing follows JavaScript code with scope in it.
   */
  lemma ScanIsExact(mem: seq<byte>, es: seq<Element>)
    requires Holds(mem, es) && Valid(es) && NextNameIsNew(es)
    ensures Scannable(es) <==> forall keys: seq<CString> :: Distinct(keys) ==> FindsFirst(mem, es, keys)
  {
    hide Holds, Valid, FindProps, First, Pos, CountSet;
    if Scannable(es) {
      forall keys: seq<CString> | Distinct(keys) ensures FindsFirst(mem, es, keys) {
        GetPropsFinds(mem, es, keys);
      }
    } else {
      var i := FirstScopedCode(es);
      var key := es[i + 1].key;
      ElementBehindScopedCodeIsMissed(mem, es, i);
      assert Distinct([key]);
      assert FindProps(mem, [key]).offs[0] in FindProps(mem, [key]).offs;
      assert [key][0] == key && !FindsFirst(mem, es, [key]);
    }
  }

  lemma FirstScopedCode(es: seq<Element>) returns (i: nat)
    requires !Scannable(es)
    ensures BlocksScan(es, i)
  {
    var j: nat :| j < |es| - 1 && es[j].kind == CODE_WITH_SCOPE;
    i := 0;
    while es[i].kind != CODE_WITH_SCOPE
      invariant i <= j
      invariant forall k :: 0 <= k < i ==> es[k].kind != CODE_WITH_SCOPE
      decreases j - i
    {
      i := i + 1;
    }
  }

  /** A code without text and with an empty scope, and behind it a null that a scan for it misses. */
  lemma ScopedCodeExample()
    ensures
      var a: CString, b: CString := [0x61], [0x62];
      var code := Element(CODE_WITH_SCOPE, a, [14, 0, 0, 0, 1, 0, 0, 0, 0, 5, 0, 0, 0, 0]);
      var es := [code, NullElement(b)];
      && Holds(Encode(es), es) && Valid(es) && First(es, b) == 1
      && FindProps(Encode(es), [b]).offs != [Pos(es, 1)]
  {
    hide Encode, FindProps, IsBody;
    var a: CString, b: CString := [0x61], [0x62];
    var code := Element(CODE_WITH_SCOPE, a, [14, 0, 0, 0, 1, 0, 0, 0, 0, 5, 0, 0, 0, 0]);
    var es := [code, NullElement(b)];
    assert a[0] != b[0];
    BodiesAreValid();
    SizeOfTwo(code, NullElement(b));
    assert Encode(es)[0..Size(es)] == Encode(es);
    ElementBehindScopedCodeIsMissed(Encode(es), es, 0);
    assert Pos(es, 1) in [Pos(es, 1)];
  }

  lemma SizeOfTwo(e1: Element, e2: Element)
    ensures Size([e1, e2]) == 5 + |ElementBytes(e1)| + |ElementBytes(e2)|
  {
    AppendElement([], e1);
    AppendElement([e1], e2);
    assert [] + [e1] == [e1] && [e1] + [e2] == [e1, e2];
  }

  lemma BodiesAreValid()
    ensures IsBody(CODE_WITH_SCOPE, [14, 0, 0, 0, 1, 0, 0, 0, 0, 5, 0, 0, 0, 0]) && IsBody(NULL, [])
  {
  }
}
