/**
  BSON documents as values: the elements of a document, their layout in memory, and what
  BSON 1.1 says about the value part of each element type.
 */
module BsonFormat {
  import opened Bytes

  /** One element: type byte, name, and the bytes of its value. */
  datatype Element = Element(kind: byte, key: CString, body: seq<byte>)

  const DOUBLE: byte := 0x01
  const STRING: byte := 0x02
  const DOCUMENT: byte := 0x03
  const ARRAY: byte := 0x04
  const BINARY: byte := 0x05
  const BOOLEAN: byte := 0x08
  const NULL: byte := 0x0a
  const REGEX: byte := 0x0b
  const DBPOINTER: byte := 0x0c
  const CODE_WITH_SCOPE: byte := 0x0f
  const INT32: byte := 0x10

  function ElementBytes(e: Element): (r: seq<byte>)
    ensures |r| == 2 + |e.key| + |e.body|
  {
    [e.kind] + (e.key + [0]) + e.body
  }

  function ListBytes(es: seq<Element>): seq<byte> {
    if es == [] then [] else ElementBytes(es[0]) + ListBytes(es[1..])
  }

  /** Length of the whole document: length word, elements, terminator. */
  function Size(es: seq<Element>): (r: nat)
    ensures r >= 5
  {
    4 + |ListBytes(es)| + 1
  }

  function Encode(es: seq<Element>): (r: seq<byte>)
    ensures |r| == Size(es)
  {
    LE32(Size(es)) + ListBytes(es) + [0]
  }

  /** mem starts with the document es, whose length a C int can count. */
  predicate Holds(mem: seq<byte>, es: seq<Element>) {
    Size(es) <= INT_MAX && HoldsAt(mem, 0, Encode(es))
  }

  /** Offset of element i in the document; at |es|, the offset of the terminator. */
  function Pos(es: seq<Element>, i: nat): (r: nat)
    requires i <= |es|
  {
    4 + |ListBytes(es[..i])|
  }

  /** The value bodies the setters write. */
  function StringBody(s: CString): seq<byte> { LE32(|s| + 1) + (s + [0]) }

  function BinaryBody(subtype: byte, data: seq<byte>): seq<byte> { LE32(|data|) + [subtype] + data }

  function StringElement(key: CString, s: CString): Element { Element(STRING, key, StringBody(s)) }

  function DocumentElement(key: CString, sub: seq<Element>): Element { Element(DOCUMENT, key, Encode(sub)) }

  function ArrayElement(key: CString, sub: seq<Element>): Element { Element(ARRAY, key, Encode(sub)) }

  function BinaryElement(key: CString, data: seq<byte>): Element { Element(BINARY, key, BinaryBody(0, data)) }

  function BooleanElement(key: CString, value: int): Element {
    Element(BOOLEAN, key, [if value != 0 then 1 else 0])
  }

  function Int32Element(key: CString, value: int): Element { Element(INT32, key, LE32(value)) }

  function NullElement(key: CString): Element { Element(NULL, key, []) }

  /** The string production of BSON 1.1: a length that counts the trailing NUL, then the bytes. */
  predicate IsStringBody(b: seq<byte>) {
    |b| >= 5 && ReadInt(b, 0) == |b| - 4 && b[|b| - 1] == 0
  }

  predicate IsCString(b: seq<byte>) {
    b != [] && b[|b| - 1] == 0 && 0 !in b[..|b| - 1]
  }

  /** What BSON 1.1 allows as the value of an element of the given type. */
  ghost predicate IsBody(kind: byte, b: seq<byte>) {
    if kind in {DOUBLE, 0x09, 0x11, 0x12} then |b| == 8
    else if kind in {STRING, 0x0d, 0x0e} then IsStringBody(b)
    else if kind in {DOCUMENT, ARRAY} then |b| >= 5 && ReadInt(b, 0) == |b|
    else if kind == BINARY then |b| >= 5 && ReadInt(b, 0) == |b| - 5
    else if kind in {0x06, NULL} then b == []
    else if kind == 0x07 then |b| == 12
    else if kind == BOOLEAN then |b| == 1
    else if kind == REGEX then exists n :: 0 < n < |b| && IsCString(b[..n]) && IsCString(b[n..])
    else if kind == DBPOINTER then |b| >= 17 && IsStringBody(b[..|b| - 12])
    else if kind == CODE_WITH_SCOPE then |b| >= 14 && ReadInt(b, 0) == |b|
    else if kind == INT32 then |b| == 4
    else if kind == 0x13 then |b| == 16
    else false
  }

  ghost predicate Valid(es: seq<Element>) {
    forall e :: e in es ==> IsBody(e.kind, e.body)
  }

  /** Index of the first element with the given name, or |es|. */
  function First(es: seq<Element>, key: CString): (r: nat)
    ensures r <= |es|
    ensures r < |es| ==> es[r].key == key
    ensures forall i :: 0 <= i < r ==> es[i].key != key
  {
    if es == [] || es[0].key == key then 0 else 1 + First(es[1..], key)
  }

  lemma {:induction false} ListBytesConcat(a: seq<Element>, b: seq<Element>)
    ensures ListBytes(a + b) == ListBytes(a) + ListBytes(b)
  {
    if a == [] {
      assert a + b == b;
    } else {
      assert (a + b)[0] == a[0] && (a + b)[1..] == a[1..] + b;
      ListBytesConcat(a[1..], b);
      assert ElementBytes(a[0]) + ListBytes(a[1..] + b) == ElementBytes(a[0]) + ListBytes(a[1..]) + ListBytes(b);
    }
  }

  lemma ListBytesAt(es: seq<Element>, i: nat)
    requires i < |es|
    ensures ListBytes(es) == ListBytes(es[..i]) + ElementBytes(es[i]) + ListBytes(es[i + 1..])
    ensures Pos(es, i + 1) == Pos(es, i) + |ElementBytes(es[i])| < Size(es)
  {
    assert es == es[..i] + [es[i]] + es[i + 1..];
    ListBytesConcat(es[..i] + [es[i]], es[i + 1..]);
    ListBytesConcat(es[..i], [es[i]]);
    assert ListBytes([es[i]]) == ElementBytes(es[i]) + [];
    assert es[..i + 1] == es[..i] + [es[i]];
  }

  /** Appending an element grows the document by that element. */
  lemma AppendElement(es: seq<Element>, e: Element)
    ensures ListBytes(es + [e]) == ListBytes(es) + ElementBytes(e)
    ensures Size(es + [e]) == Size(es) + |ElementBytes(e)|
    ensures Pos(es + [e], |es|) == Size(es) - 1
  {
    hide ElementBytes;
    ListBytesConcat(es, [e]);
    assert [e][1..] == [] && ListBytes([e]) == ElementBytes(e) + [];
    assert (es + [e])[..|es|] == es;
  }

  /** The layout of element i inside a document in memory. */
  lemma ElementAt(mem: seq<byte>, es: seq<Element>, i: nat)
    requires Holds(mem, es) && i < |es|
    ensures 4 <= Pos(es, i) && Pos(es, i) + |ElementBytes(es[i])| == Pos(es, i + 1) < Size(es)
    ensures Peek(mem, Pos(es, i)) == es[i].kind
    ensures HoldsAt(mem, Pos(es, i) + 1, es[i].key + [0])
    ensures HoldsAt(mem, Pos(es, i) + 2 + |es[i].key|, es[i].body)
  {
    hide ListBytes, LE32;
    var e := es[i];
    ListBytesAt(es, i);
    var pre := LE32(Size(es)) + ListBytes(es[..i]);
    var post := ListBytes(es[i + 1..]) + [0];
    assert Encode(es) == pre + ElementBytes(e) + post;
    HoldsAtPart(mem, 0, pre, ElementBytes(e), post);
    ElementParts(mem, Pos(es, i), e);
  }

  /** An element in memory: its type, its name, its value. */
  lemma ElementParts(mem: seq<byte>, at: nat, e: Element)
    requires HoldsAt(mem, at, ElementBytes(e))
    ensures Peek(mem, at) == e.kind
    ensures HoldsAt(mem, at + 1, e.key + [0])
    ensures HoldsAt(mem, at + 2 + |e.key|, e.body)
  {
    assert ElementBytes(e) == [] + [e.kind] + ((e.key + [0]) + e.body);
    HoldsAtPart(mem, at, [], [e.kind], (e.key + [0]) + e.body);
    SliceOfHeld(mem, at, [e.kind]);
    assert Slice(mem, at, 1)[0] == e.kind;
    HoldsAtPart(mem, at, [e.kind], e.key + [0], e.body);
    assert ElementBytes(e) == ([e.kind] + (e.key + [0])) + e.body + [];
    HoldsAtPart(mem, at, [e.kind] + (e.key + [0]), e.body, []);
  }

  /** The length word and the terminator of a document in memory. */
  lemma Frame(mem: seq<byte>, es: seq<Element>)
    requires Holds(mem, es)
    ensures ReadInt(mem, 0) == Size(es) && Peek(mem, Size(es) - 1) == 0
    ensures Pos(es, |es|) == Size(es) - 1
  {
    var w := LE32(Size(es));
    assert Encode(es) == [] + w + (ListBytes(es) + [0]);
    HoldsAtPart(mem, 0, [], w, ListBytes(es) + [0]);
    ReadIntLE32(mem, 0, Size(es));
    assert mem[0..Size(es)][Size(es) - 1] == Encode(es)[Size(es) - 1];
    assert es[..|es|] == es;
  }
}
