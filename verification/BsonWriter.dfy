/**
  Building BSON documents in place: the setters, shrinking a binary, and the copy of an
  element from another document.
 */
module BsonWriter {
  import opened Bytes
  import opened BsonFormat
  import opened BsonReader

  /** doc holds es and is long enough for one more element. */
  predicate Room(doc: array<byte>, es: seq<Element>, e: Element)
    reads doc
  {
    Holds(doc[..], es) && Size(es + [e]) <= doc.Length && Size(es + [e]) <= INT_MAX
  }

  /** The whole buffer after e was appended: the longer document, and what lay behind it. */
  function Appended(mem: seq<byte>, es: seq<Element>, e: Element): seq<byte>
    requires Size(es + [e]) <= |mem|
  {
    Encode(es + [e]) + mem[Size(es + [e])..]
  }

  /** mem with w written over it at offset at. */
  function Written(mem: seq<byte>, at: nat, w: seq<byte>): (r: seq<byte>)
    requires at + |w| <= |mem|
    ensures |r| == |mem|
  {
    mem[..at] + w + mem[at + |w|..]
  }

  lemma WrittenBehind(mem: seq<byte>, at: nat, w: seq<byte>)
    requires 4 <= at && at + |w| <= |mem|
    ensures Written(mem, at, w)[..4] == mem[..4]
  {
  }

  lemma WriteOn(mem: seq<byte>, at: nat, w1: seq<byte>, w2: seq<byte>)
    requires at + |w1| + |w2| <= |mem|
    ensures Written(Written(mem, at, w1), at + |w1|, w2) == Written(mem, at, w1 + w2)
  {
    var r := Written(Written(mem, at, w1), at + |w1|, w2);
    assert r[..at + |w1|] == mem[..at] + w1;
    assert r[at + |w1| + |w2|..] == mem[at + |w1| + |w2|..];
  }

  /** The room a setter relies on, in numbers. */
  lemma RoomLayout(mem: seq<byte>, es: seq<Element>, e: Element)
    requires Holds(mem, es)
    ensures 5 <= Size(es) <= |mem| && ReadInt(mem, 0) == Size(es)
    ensures Size(es + [e]) == Size(es) + |ElementBytes(e)|
  {
    AppendElement(es, e);
    Frame(mem, es);
  }

  /** The element over the old terminator, a new terminator, the new length: that appends. */
  lemma FinishAppend(mem: seq<byte>, es: seq<Element>, e: Element)
    requires Holds(mem, es) && Size(es + [e]) <= |mem| && Size(es + [e]) <= INT_MAX
    ensures Holds(Appended(mem, es, e), es + [e])
    ensures 5 <= Size(es) && Size(es) + |ElementBytes(e)| == Size(es + [e])
    ensures Written(Written(mem, Size(es) - 1, ElementBytes(e) + [0]), 0, LE32(Size(es + [e]))) == Appended(mem, es, e)
  {
    hide ListBytes, ElementBytes, LE32, Written;
    AppendElement(es, e);
    ElementsInside(mem, es);
    var n := Size(es + [e]);
    var w, word, list := ElementBytes(e) + [0], LE32(n), ListBytes(es);
    var mid := Written(mem, Size(es) - 1, w);
    WrittenOverRest(mem, Size(es) - 1, w);
    WrittenAtStart(mid, word);
    assert list + w == list + ElementBytes(e) + [0];
    assert word + (list + w + mem[n..]) == word + (list + ElementBytes(e)) + [0] + mem[n..];
    assert Appended(mem, es, e)[0..n] == Encode(es + [e]);
  }

  lemma ElementsInside(mem: seq<byte>, es: seq<Element>)
    requires Holds(mem, es)
    ensures 5 <= Size(es) <= |mem| && mem[4..Size(es) - 1] == ListBytes(es)
  {
    assert mem[0..Size(es)] == Encode(es);
    assert mem[4..Size(es) - 1] == mem[0..Size(es)][4..Size(es) - 1];
  }

  lemma WrittenOverRest(mem: seq<byte>, at: nat, w: seq<byte>)
    requires 4 <= at && at + |w| <= |mem|
    ensures Written(mem, at, w)[4..] == mem[4..at] + w + mem[at + |w|..]
  {
  }

  lemma WrittenAtStart(mem: seq<byte>, w: seq<byte>)
    requires |w| <= |mem|
    ensures Written(mem, 0, w) == w + mem[|w|..]
  {
  }

  /** memcpy into a buffer. */
  method Store(dst: array<byte>, at: nat, src: seq<byte>)
    requires at + |src| <= dst.Length
    modifies dst
    ensures dst[..] == Written(old(dst[..]), at, src)
  {
    forall i | 0 <= i < |src| {
      dst[at + i] := src[i];
    }
  }

  method CreateEmptyDocument(doc: array<byte>)
    requires doc.Length >= 5
    modifies doc
    ensures Holds(doc[..], []) && doc[..] == Encode([]) + old(doc[5..])
  {
    doc[0] := 5;
    doc[1] := 0;
    doc[2] := 0;
    doc[3] := 0;
    doc[4] := 0;
    assert doc[..] == [5, 0, 0, 0, 0] + old(doc[5..]);
  }

  /** Without a document, this and every other setter only measures. */
  method SetString(doc: array?<byte>, key: CString, s: CString, ghost es: seq<Element>) returns (r: int)
    requires doc != null ==> Room(doc, es, StringElement(key, s))
    modifies doc
    ensures r == |ElementBytes(StringElement(key, s))|
    ensures doc != null ==>
              && doc[..] == Appended(old(doc[..]), es, StringElement(key, s))
              && Holds(doc[..], es + [StringElement(key, s)])
  {
    hide Written, ListBytes, Encode, HoldsAt, LE32, ReadInt, Size, Appended;
    var keylen := |key| + 1;
    var datalen := |s| + 1;
    if doc != null {
      ghost var e := StringElement(key, s);
      ghost var was := doc[..];
      RoomLayout(was, es, e);
      FinishAppend(was, es, e);
      var end := ReadInt(doc[..], 0);
      Store(doc, end - 1, [STRING]);
      Store(doc, end, key + [0]);
      WriteOn(was, Size(es) - 1, [STRING], key + [0]);
      end := end + keylen;
      Store(doc, end, LE32(datalen));
      WriteOn(was, Size(es) - 1, [STRING] + (key + [0]), LE32(datalen));
      end := end + 4;
      Store(doc, end, s + [0]);
      WriteOn(was, Size(es) - 1, [STRING] + (key + [0]) + LE32(datalen), s + [0]);
      end := end + datalen;
      assert [STRING] + (key + [0]) + LE32(datalen) + (s + [0]) == ElementBytes(e);
      Store(doc, end, [0]);
      WriteOn(was, Size(es) - 1, ElementBytes(e), [0]);
      end := end + 1;
      Store(doc, 0, LE32(end));
    }
    return 1 + keylen + 4 + datalen;
  }

  method SetSubelement(doc: array?<byte>, key: CString, kind: byte, src: seq<byte>, ghost es: seq<Element>)
    returns (r: int)
    requires doc != null ==> Room(doc, es, Element(kind, key, src))
    modifies doc
    ensures r == |ElementBytes(Element(kind, key, src))|
    ensures doc != null ==>
              && doc[..] == Appended(old(doc[..]), es, Element(kind, key, src))
              && Holds(doc[..], es + [Element(kind, key, src)])
  {
    hide Written, ListBytes, Encode, HoldsAt, LE32, ReadInt, Size, Appended;
    var keylen := |key| + 1;
    if doc != null {
      ghost var e := Element(kind, key, src);
      ghost var was := doc[..];
      RoomLayout(was, es, e);
      FinishAppend(was, es, e);
      var end := ReadInt(doc[..], 0);
      Store(doc, end - 1, [kind]);
      Store(doc, end, key + [0]);
      WriteOn(was, Size(es) - 1, [kind], key + [0]);
      end := end + keylen;
      Store(doc, end, src);
      WriteOn(was, Size(es) - 1, [kind] + (key + [0]), src);
      end := end + |src|;
      Store(doc, end, [0]);
      WriteOn(was, Size(es) - 1, ElementBytes(e), [0]);
      end := end + 1;
      Store(doc, 0, LE32(end));
    }
    return 1 + keylen + |src|;
  }

  /** An embedded document or array is copied by its own length word, whatever follows that word. */
  method SetSubdocument(doc: array?<byte>, key: CString, kind: byte, subDoc: seq<byte>, ghost es: seq<Element>)
    returns (r: int)
    requires ReadInt(subDoc, 0) >= 0
    requires doc != null ==> Room(doc, es, Element(kind, key, Slice(subDoc, 0, ReadInt(subDoc, 0))))
    modifies doc
    ensures var e := Element(kind, key, Slice(subDoc, 0, ReadInt(subDoc, 0)));
            && r == |ElementBytes(e)|
            && (doc != null ==> doc[..] == Appended(old(doc[..]), es, e) && Holds(doc[..], es + [e]))
  {
    r := SetSubelement(doc, key, kind, Slice(subDoc, 0, ReadInt(subDoc, 0)), es);
  }

  /** Of a document in memory this copies the document. */
  lemma SubdocumentBytes(subDoc: seq<byte>, sub: seq<Element>)
    requires Holds(subDoc, sub)
    ensures ReadInt(subDoc, 0) >= 0 && Slice(subDoc, 0, ReadInt(subDoc, 0)) == Encode(sub)
  {
    Frame(subDoc, sub);
    SliceOfHeld(subDoc, 0, Encode(sub));
  }

  method SetBoolean(doc: array?<byte>, key: CString, value: int, ghost es: seq<Element>) returns (r: int)
    requires doc != null ==> Room(doc, es, BooleanElement(key, value))
    modifies doc
    ensures r == |ElementBytes(BooleanElement(key, value))|
    ensures doc != null ==>
              && doc[..] == Appended(old(doc[..]), es, BooleanElement(key, value))
              && Holds(doc[..], es + [BooleanElement(key, value)])
  {
    r := SetSubelement(doc, key, BOOLEAN, [if value != 0 then 1 else 0], es);
  }

  method SetInt32(doc: array?<byte>, key: CString, value: int, ghost es: seq<Element>) returns (r: int)
    requires doc != null ==> Room(doc, es, Int32Element(key, value))
    modifies doc
    ensures r == |ElementBytes(Int32Element(key, value))|
    ensures doc != null ==>
              && doc[..] == Appended(old(doc[..]), es, Int32Element(key, value))
              && Holds(doc[..], es + [Int32Element(key, value)])
  {
    r := SetSubelement(doc, key, INT32, LE32(value), es);
  }

  method SetNull(doc: array?<byte>, key: CString, ghost es: seq<Element>) returns (r: int)
    requires doc != null ==> Room(doc, es, NullElement(key))
    modifies doc
    ensures r == |ElementBytes(NullElement(key))|
    ensures doc != null ==>
              doc[..] == Appended(old(doc[..]), es, NullElement(key)) && Holds(doc[..], es + [NullElement(key)])
  {
    r := SetSubelement(doc, key, NULL, [], es);
  }

  function Zeros(n: nat): (r: seq<byte>)
    ensures |r| == n
  {
    seq(n, _ => 0)
  }

  /** Adds a zero-filled binary; buf is where its data starts, for the caller to fill in. */
  method SetBinary(doc: array?<byte>, key: CString, binlen: int, ghost es: seq<Element>) returns (r: int, buf: nat)
    requires doc != null && binlen >= 0 ==> Room(doc, es, BinaryElement(key, Zeros(binlen)))
    modifies doc
    ensures binlen < 0 ==> r == -1 && (doc != null ==> doc[..] == old(doc[..]))
    ensures binlen >= 0 ==> r == |ElementBytes(BinaryElement(key, Zeros(binlen)))|
    ensures binlen >= 0 && doc != null ==>
              && doc[..] == Appended(old(doc[..]), es, BinaryElement(key, Zeros(binlen)))
              && Holds(doc[..], es + [BinaryElement(key, Zeros(binlen))])
              && buf == DataOffset(es, key)
  {
    hide Written, ListBytes, Encode, HoldsAt, LE32, ReadInt, Size, Appended;
    buf := 0;
    var keylen := |key| + 1;
    if binlen < 0 {
      return -1, 0;
    }
    if doc != null {
      ghost var e := BinaryElement(key, Zeros(binlen));
      ghost var was := doc[..];
      RoomLayout(was, es, e);
      FinishAppend(was, es, e);
      var end := ReadInt(doc[..], 0);
      Store(doc, end - 1, [BINARY]);
      Store(doc, end, key + [0]);
      WriteOn(was, Size(es) - 1, [BINARY], key + [0]);
      end := end + keylen;
      Store(doc, end, LE32(binlen));
      WriteOn(was, Size(es) - 1, [BINARY] + (key + [0]), LE32(binlen));
      end := end + 4;
      Store(doc, end, [0]);
      WriteOn(was, Size(es) - 1, [BINARY] + (key + [0]) + LE32(binlen), [0]);
      end := end + 1;
      buf := end;
      Store(doc, end, Zeros(binlen));
      WriteOn(was, Size(es) - 1, [BINARY] + (key + [0]) + LE32(binlen) + [0], Zeros(binlen));
      end := end + binlen;
      assert [BINARY] + (key + [0]) + LE32(binlen) + [0] + Zeros(binlen) == ElementBytes(e);
      Store(doc, end, [0]);
      WriteOn(was, Size(es) - 1, ElementBytes(e), [0]);
      end := end + 1;
      Store(doc, 0, LE32(end));
    }
    r := 1 + keylen + 4 + 1 + binlen;
  }

  /** Where the data of a binary appended to es starts. */
  function DataOffset(es: seq<Element>, key: CString): nat {
    Size(es) - 1 + 2 + |key| + 5
  }

  /** A document that ends in a binary: what comes before the length word, the word, the data. */
  lemma BinaryLast(es: seq<Element>, key: CString, data: seq<byte>)
    ensures var e := BinaryElement(key, data);
            && Size(es + [e]) == DataOffset(es, key) + |data| + 1
            && Encode(es + [e]) == LE32(Size(es + [e])) + BinaryLead(es, key) + LE32(|data|) + [0] + data + [0]
  {
    var e := BinaryElement(key, data);
    AppendElement(es, e);
    assert ElementBytes(e) == [BINARY] + (key + [0]) + LE32(|data|) + [0] + data;
    assert ListBytes(es) + ElementBytes(e) == BinaryLead(es, key) + LE32(|data|) + [0] + data;
  }

  function BinaryLead(es: seq<Element>, key: CString): (r: seq<byte>)
    ensures |r| == DataOffset(es, key) - 9
  {
    ListBytes(es) + [BINARY] + (key + [0])
  }

  /** Filling in the data behind the pointer SetBinary returned. */
  lemma FillBinary(mem: seq<byte>, es: seq<Element>, key: CString, data: seq<byte>, data': seq<byte>)
    requires Holds(mem, es + [BinaryElement(key, data)]) && |data'| == |data|
    ensures var at := DataOffset(es, key);
            at + |data| <= |mem| && Holds(Written(mem, at, data'), es + [BinaryElement(key, data')])
  {
    hide ListBytes, BinaryLead, BinaryElement, LE32, Encode, Size, DataOffset;
    BinaryLast(es, key, data);
    BinaryLast(es, key, data');
    var at := DataOffset(es, key);
    var n := at + |data| + 1;
    var head := LE32(n) + BinaryLead(es, key) + LE32(|data|) + [0];
    assert mem[0..n] == head + data + [0];
    assert mem[..at] == mem[0..n][..at] == head;
    assert mem[at + |data|] == mem[0..n][n - 1] == 0;
    assert Written(mem, at, data')[0..n] == head + data' + [0];
  }

  /** Replacing the length words and moving the terminator down turns the longer binary into the shorter. */
  lemma ShrinkLast(mem: seq<byte>, es: seq<Element>, key: CString, data: seq<byte>, m: nat)
    requires Holds(mem, es + [BinaryElement(key, data)]) && m < |data|
    ensures var at := DataOffset(es, key);
            var short := es + [BinaryElement(key, data[..m])];
            && 9 <= at && at + |data| < |mem|
            && Size(short) == Size(es + [BinaryElement(key, data)]) - (|data| - m)
            && Holds(Written(Written(Written(mem, at + m, [0]), at - 5, LE32(m)), 0, LE32(Size(short))), short)
  {
    hide ListBytes, BinaryLead, BinaryElement, LE32, Encode, Size, DataOffset;
    BinaryLast(es, key, data);
    BinaryLast(es, key, data[..m]);
    var at := DataOffset(es, key);
    var n, n' := at + |data| + 1, at + m + 1;
    var w, lead, old' := LE32(n), BinaryLead(es, key), LE32(|data|);
    assert w + lead + old' + [0] + data + [0] == w + lead + old' + ([0] + data[..m]) + (data[m..] + [0]);
    ShrinkBytes(mem, w, lead, old', [0] + data[..m], data[m..] + [0], LE32(n'), LE32(m));
    assert LE32(n') + lead + LE32(m) + ([0] + data[..m]) + [0] == LE32(n') + lead + LE32(m) + [0] + data[..m] + [0];
  }

  /** The three writes of a shrink, on bytes: a new terminator, a new data length, a new total length. */
  lemma ShrinkBytes(mem: seq<byte>, total: seq<byte>, lead: seq<byte>, len: seq<byte>, kept: seq<byte>,
                    cut: seq<byte>, total': seq<byte>, len': seq<byte>)
    requires |total| == |total'| == |len| == |len'| == 4 && cut != []
    requires HoldsAt(mem, 0, total + lead + len + kept + cut)
    ensures var at := 4 + |lead|;
            && at + 4 + |kept| + 1 <= |mem|
            && HoldsAt(Written(Written(Written(mem, at + 4 + |kept|, [0]), at, len'), 0, total'),
                       0, total' + lead + len' + kept + [0])
  {
    hide Written, HoldsAt;
    var at := 4 + |lead|;
    ShrinkKeeps(mem, total, lead, len, kept, cut);
    ShrinkPieces(mem, at, kept, total', len');
    JoinPieces(Written(Written(Written(mem, at + 4 + |kept|, [0]), at, len'), 0, total'), total', lead, len', kept);
  }

  /** What a shrink leaves where it is. */
  lemma ShrinkKeeps(mem: seq<byte>, total: seq<byte>, lead: seq<byte>, len: seq<byte>, kept: seq<byte>, cut: seq<byte>)
    requires |total| == |len| == 4 && cut != [] && HoldsAt(mem, 0, total + lead + len + kept + cut)
    ensures var at := 4 + |lead|;
            at + 4 + |kept| < |mem| && mem[4..at] == lead && mem[at + 4..at + 4 + |kept|] == kept
  {
    assert total + lead + len + kept + cut == total + lead + (len + kept + cut);
    HoldsAtPart(mem, 0, total, lead, len + kept + cut);
    assert total + lead + (len + kept + cut) == total + lead + len + kept + cut;
    HoldsAtPart(mem, 0, total + lead + len, kept, cut);
  }

  lemma JoinPieces(mem: seq<byte>, total: seq<byte>, lead: seq<byte>, len: seq<byte>, kept: seq<byte>)
    requires |total| == |len| == 4
    requires var at := 4 + |lead|;
             var end := at + 4 + |kept|;
             && end < |mem| && mem[0..4] == total && mem[4..at] == lead && mem[at..at + 4] == len
             && mem[at + 4..end] == kept && mem[end..end + 1] == [0]
    ensures HoldsAt(mem, 0, total + lead + len + kept + [0])
  {
    var at := 4 + |lead|;
    var end := at + 4 + |kept|;
    assert mem[0..end + 1] == mem[0..4] + mem[4..at] + mem[at..at + 4] + mem[at + 4..end] + mem[end..end + 1];
  }

  lemma ShrinkPieces(mem: seq<byte>, at: nat, kept: seq<byte>, total': seq<byte>, len': seq<byte>)
    requires |total'| == |len'| == 4 <= at && at + 4 + |kept| < |mem|
    ensures var m3 := Written(Written(Written(mem, at + 4 + |kept|, [0]), at, len'), 0, total');
            var end := at + 4 + |kept|;
            && m3[0..4] == total' && m3[4..at] == mem[4..at] && m3[at..at + 4] == len'
            && m3[at + 4..end] == mem[at + 4..end] && m3[end..end + 1] == [0]
  {
    hide Written;
    var end := at + 4 + |kept|;
    var m1 := Written(mem, end, [0]);
    var m2 := Written(m1, at, len');
    WrittenThere(mem, end, [0]);
    WrittenThere(m1, at, len');
    WrittenThere(m2, 0, total');
    WrittenElsewhere(m2, 0, total', at, at + 4);
    WrittenElsewhere(mem, end, [0], 4, at);
    WrittenElsewhere(m1, at, len', 4, at);
    WrittenElsewhere(m2, 0, total', 4, at);
    WrittenElsewhere(mem, end, [0], at + 4, end);
    WrittenElsewhere(m1, at, len', at + 4, end);
    WrittenElsewhere(m2, 0, total', at + 4, end);
    WrittenElsewhere(m1, at, len', end, end + 1);
    WrittenElsewhere(m2, 0, total', end, end + 1);
  }

  lemma WrittenThere(mem: seq<byte>, at: nat, w: seq<byte>)
    requires at + |w| <= |mem|
    ensures Written(mem, at, w)[at..at + |w|] == w
  {
  }

  lemma WrittenElsewhere(mem: seq<byte>, at: nat, w: seq<byte>, i: nat, j: nat)
    requires at + |w| <= |mem| && i <= j <= |mem| && (j <= at || at + |w| <= i)
    ensures Written(mem, at, w)[i..j] == mem[i..j]
  {
  }

  /** The length word of binary i, and the byte behind its data. */
  lemma BinaryLayout(mem: seq<byte>, es: seq<Element>, i: nat, data: seq<byte>)
    requires Holds(mem, es) && i < |es| && es[i] == BinaryElement(es[i].key, data)
    ensures var buf := DataOffset(es[..i], es[i].key);
            && 9 <= buf && buf + |data| < Size(es) <= |mem|
            && ReadInt(mem, buf - 5) == |data|
            && mem[buf + |data|] == if i + 1 < |es| then es[i + 1].kind else 0
  {
    hide ListBytes, Encode, LE32, ReadInt;
    ElementAt(mem, es, i);
    var e := es[i];
    var buf := DataOffset(es[..i], e.key);
    var w := LE32(|data|);
    assert e.body == [] + w + ([0] + data);
    HoldsAtPart(mem, buf - 5, [], w, [0] + data);
    ReadIntLE32(mem, buf - 5, |data|);
    if i + 1 < |es| {
      ElementAt(mem, es, i + 1);
    } else {
      Frame(mem, es);
    }
  }

  lemma ReadIntAgrees(mem: seq<byte>, mem': seq<byte>)
    requires |mem| >= 4 && |mem'| >= 4 && mem[..4] == mem'[..4]
    ensures ReadInt(mem, 0) == ReadInt(mem', 0)
  {
    assert forall i | 0 <= i < 4 :: mem[..4][i] == mem[i] && mem'[..4][i] == mem'[i];
    assert mem[..4][0] == Peek(mem, 0);
  }

  /**
    bson_shrink_binary on binary i of a document. It succeeds exactly for the last element and
    a length that is no growth, and then leaves what adding the shorter binary would have left.
   */
  method ShrinkBinary(doc: array<byte>, buf: nat, binlen: nat, ghost es: seq<Element>, ghost i: nat,
                      ghost data: seq<byte>) returns (r: int)
    requires Holds(doc[..], es) && i < |es| && es[i] == BinaryElement(es[i].key, data)
    requires buf == DataOffset(es[..i], es[i].key)
    requires i + 1 < |es| ==> es[i + 1].kind != 0
    modifies doc
    ensures r == 0 || r == -1
    ensures r == 0 <==> i + 1 == |es| && binlen <= |data|
    ensures r == 0 ==> Holds(doc[..], es[..i] + [BinaryElement(es[i].key, data[..binlen])])
    ensures r == -1 ==> doc[..] == old(doc[..])
  {
    hide Written, ListBytes, LE32, Encode, Size, DataOffset, BinaryElement, HoldsAt, ReadInt;
    ghost var was := doc[..];
    ghost var key := es[i].key;
    BinaryLayout(was, es, i, data);
    var lenptr := buf - 5;
    var oldBinlen := ReadInt(doc[..], lenptr);
    if doc[buf + oldBinlen] != 0 {
      return -1;
    }
    if oldBinlen < binlen {
      return -1;
    }
    assert es == es[..i] + [BinaryElement(key, data)];
    if oldBinlen == binlen {
      assert data[..binlen] == data;
      return 0;
    }
    ShrinkLast(was, es[..i], key, data, binlen);
    Store(doc, buf + binlen, [0]);
    Store(doc, lenptr, LE32(binlen));
    var oldDoclen := ReadInt(doc[..], 0);
    assert oldDoclen == Size(es) by {
      WrittenBehind(was, buf + binlen, [0]);
      WrittenBehind(Written(was, buf + binlen, [0]), lenptr, LE32(binlen));
      ReadIntAgrees(was, doc[..]);
      Frame(was, es);
    }
    Store(doc, 0, LE32(oldDoclen - (oldBinlen - binlen)));
    return 0;
  }

  /** Type and value bytes of the element at offset, as bson_set_element finds them. */
  function FindElement(doc: Option<seq<byte>>, offset: int): Option<(byte, seq<byte>)> {
    if doc.None? || offset < 4 then None else
    var end := ReadInt(doc.value, 0);
    if end <= offset + 1 || Peek(doc.value, end - 1) != 0 then None else
    var kind := Peek(doc.value, offset);
    var data := offset + 1 + StrNLen(doc.value, offset + 1, end - (offset + 1)) + 1;
    if end <= data || Peek(doc.value, data - 1) != 0 then None else
    var len := MeasureValue(kind, doc.value, data, end);
    if len < 0 then None else Some((kind, Slice(doc.value, data, len)))
  }

  function CopiedElement(key: CString, doc: Option<seq<byte>>, offset: int): seq<Element> {
    match FindElement(doc, offset)
    case Some((kind, body)) => [Element(kind, key, body)]
    case None => []
  }

  method SetElement(doc1: array?<byte>, key: CString, doc2: Option<seq<byte>>, offset: int, ghost es: seq<Element>)
    returns (r: int)
    requires doc1 != null ==> Holds(doc1[..], es)
    requires doc1 != null && FindElement(doc2, offset).Some? ==> Room(doc1, es, CopiedElement(key, doc2, offset)[0])
    modifies doc1
    ensures FindElement(doc2, offset).None? ==> r == 0 && (doc1 != null ==> doc1[..] == old(doc1[..]))
    ensures FindElement(doc2, offset).Some? ==>
              var e := CopiedElement(key, doc2, offset)[0];
              && r == |ElementBytes(e)|
              && (doc1 != null ==> doc1[..] == Appended(old(doc1[..]), es, e) && Holds(doc1[..], es + [e]))
  {
    hide MeasureValue, StrNLen, ReadInt, Peek;
    if doc2.None? || offset < 4 {
      return 0;
    }
    var mem := doc2.value;
    var end2 := ReadInt(mem, 0);
    var data2 := offset;
    if end2 <= data2 + 1 || Peek(mem, end2 - 1) != 0 {
      return 0;
    }
    var kind := Peek(mem, data2);
    data2 := data2 + 1;
    data2 := data2 + StrNLen(mem, data2, end2 - data2) + 1;
    if end2 <= data2 || Peek(mem, data2 - 1) != 0 {
      return 0;
    }
    var elmlen := MeasureValue(kind, mem, data2, end2);
    if elmlen < 0 {
      return 0;
    }
    r := SetSubelement(doc1, key, kind, Slice(mem, data2, elmlen), es);
  }

  lemma FindElementAt(mem: seq<byte>, es: seq<Element>, i: nat)
    requires Holds(mem, es) && i < |es|
    ensures var value := Pos(es, i) + 2 + |es[i].key|;
            && value < Size(es)
            && var m := MeasureValue(es[i].kind, mem, value, Size(es));
               FindElement(Some(mem), Pos(es, i)) == if m < 0 then None else Some((es[i].kind, Slice(mem, value, m)))
  {
    hide MeasureValue, StrNLen, ListBytes, Encode, HoldsAt, Peek, Slice, ReadInt;
    Frame(mem, es);
    NameAt(mem, es, i);
    ElementAt(mem, es, i);
  }

  /**
    The copy of an element keeps type and value, so every getter says of the copy what it
    says of the original; the one type not copied faithfully is JavaScript code with scope.
   */
  lemma CopyIsFaithful(mem: seq<byte>, es: seq<Element>, i: nat, key: CString)
    requires Holds(mem, es) && Valid(es) && i < |es|
    ensures CopiedElement(key, Some(mem), Pos(es, i)) == [Element(es[i].kind, key, es[i].body)]
            <==> es[i].kind != CODE_WITH_SCOPE
  {
    hide MeasureValue, StrNLen, ListBytes, Encode, HoldsAt, FindElement;
    var value := Pos(es, i) + 2 + |es[i].key|;
    FindElementAt(mem, es, i);
    ElementAt(mem, es, i);
    SliceOfHeld(mem, value, es[i].body);
    assert es[i] in es;
    MeasureExact(es[i].kind, mem, value, es[i].body, Size(es));
  }

  /** Every getter answers alike at two offsets, byte for byte; n is the size of the values there. */
  predicate ReadAlike(mem: seq<byte>, at: nat, mem1: seq<byte>, at1: nat, n: nat, default: int) {
    var doc, doc1 := Some(mem), Some(mem1);
    && GetBoolean(doc, at, default) == GetBoolean(doc1, at1, default)
    && GetInt32(doc, at, default) == GetInt32(doc1, at1, default)
    && (match (GetString(doc, at), GetString(doc1, at1))
        case (Some(p), Some(p1)) => n >= 4 && Slice(mem, p, n - 4) == Slice(mem1, p1, n - 4)
        case (None, None) => true
        case _ => false)
    && (match (GetSubdocument(doc, at), GetSubdocument(doc1, at1))
        case (Some(p), Some(p1)) => Slice(mem, p, n) == Slice(mem1, p1, n)
        case (None, None) => true
        case _ => false)
    && (match (GetBinary(doc, at), GetBinary(doc1, at1))
        case (Some((p, k)), Some((p1, k1))) => k == k1 && Slice(mem, p, k) == Slice(mem1, p1, k1)
        case (None, None) => true
        case _ => false)
  }

  /** Elements of the same type and value read alike, wherever they are. */
  lemma SameValueReadsAlike(mem: seq<byte>, es: seq<Element>, i: nat, mem1: seq<byte>, es1: seq<Element>,
                            i1: nat, default: int)
    requires Holds(mem, es) && i < |es| && IsBody(es[i].kind, es[i].body)
    requires Holds(mem1, es1) && i1 < |es1| && es1[i1].kind == es[i].kind && es1[i1].body == es[i].body
    ensures ReadAlike(mem, Pos(es, i), mem1, Pos(es1, i1), |es[i].body|, default)
  {
    hide Holds, Slice, ReadInt, Pos, GetString, GetBinary, GetSubdocument, GetBoolean, GetInt32;
    GettersSee(mem, es, i, default);
    GettersSee(mem1, es1, i1, default);
  }

  /** No getter answers for a type that has none. */
  lemma NoGetterAnswers(mem: seq<byte>, at: nat, default: int)
    requires Peek(mem, at) !in {STRING, DOCUMENT, ARRAY, BINARY, BOOLEAN, INT32}
    ensures var doc := Some(mem);
            && GetString(doc, at).None? && GetSubdocument(doc, at).None? && GetBinary(doc, at).None?
            && GetBoolean(doc, at, default) == default && GetInt32(doc, at, default) == default
  {
  }

  /**
    Every getter says of a copied element, at the end of its new document, what it says of the
    original, byte for byte; of JavaScript code with scope no getter says anything.
   */
  lemma CopyReadsAlike(mem: seq<byte>, es: seq<Element>, i: nat, key: CString, mem1: seq<byte>,
                       es1: seq<Element>, default: int)
    requires Holds(mem, es) && Valid(es) && i < |es|
    requires Holds(mem1, es1 + CopiedElement(key, Some(mem), Pos(es, i)))
    ensures ReadAlike(mem, Pos(es, i), mem1, Size(es1) - 1, |es[i].body|, default)
  {
    hide CopiedElement, Encode, ListBytes, HoldsAt, Slice, ReadInt, Peek, Pos, Size, ReadAlike;
    var copied := CopiedElement(key, Some(mem), Pos(es, i));
    if es[i].kind != CODE_WITH_SCOPE {
      CopyIsFaithful(mem, es, i, key);
      AppendElement(es1, copied[0]);
      assert IsBody(es[i].kind, es[i].body) by { assert es[i] in es; }
      assert (es1 + copied)[|es1|] == copied[0];
      SameValueReadsAlike(mem, es, i, mem1, es1 + copied, |es1|, default);
    } else {
      ScopedCodeReadsAlike(mem, es, i, key, mem1, es1, default);
    }
  }

  lemma ScopedCodeReadsAlike(mem: seq<byte>, es: seq<Element>, i: nat, key: CString, mem1: seq<byte>,
                             es1: seq<Element>, default: int)
    requires Holds(mem, es) && i < |es| && es[i].kind == CODE_WITH_SCOPE
    requires Holds(mem1, es1 + CopiedElement(key, Some(mem), Pos(es, i)))
    ensures ReadAlike(mem, Pos(es, i), mem1, Size(es1) - 1, |es[i].body|, default)
  {
    hide MeasureValue, FindElement, Encode, ListBytes, HoldsAt, Slice, ReadInt, Peek, Pos, Size,
      GetString, GetBinary, GetSubdocument, GetBoolean, GetInt32;
    ElementAt(mem, es, i);
    FindElementAt(mem, es, i);
    NoGetterAnswers(mem, Pos(es, i), default);
    var copied := CopiedElement(key, Some(mem), Pos(es, i));
    if copied == [] {
      assert es1 + copied == es1;
      Frame(mem1, es1);
    } else {
      AppendElement(es1, copied[0]);
      assert es1 + copied == es1 + [copied[0]] && (es1 + copied)[|es1|] == copied[0];
      ElementAt(mem1, es1 + copied, |es1|);
    }
    NoGetterAnswers(mem1, Size(es1) - 1, default);
  }

  /** Appending leaves the offsets handed out before valid, and what every getter says at them unchanged. */
  lemma EarlierElementsReadAsBefore(mem: seq<byte>, mem1: seq<byte>, es: seq<Element>, more: seq<Element>,
                                    i: nat, default: int)
    requires Holds(mem, es) && Holds(mem1, es + more) && i < |es| && IsBody(es[i].kind, es[i].body)
    ensures Pos(es + more, i) == Pos(es, i)
    ensures ReadAlike(mem, Pos(es, i), mem1, Pos(es, i), |es[i].body|, default)
  {
    hide ReadAlike, Holds;
    assert (es + more)[..i] == es[..i] && (es + more)[i] == es[i];
    SameValueReadsAlike(mem, es, i, mem1, es + more, i, default);
  }

  /** The measures of the elements, added up. */
  function Measures(es: seq<Element>): nat {
    if es == [] then 0 else |ElementBytes(es[0])| + Measures(es[1..])
  }

  /** The size of the empty document plus the measures of what is added is the final size. */
  lemma {:induction false} SizeIsSum(es: seq<Element>)
    ensures Size(es) == 5 + Measures(es)
  {
    if es != [] {
      SizeIsSum(es[1..]);
    }
  }
}
