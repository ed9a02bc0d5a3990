/**
  What scan, getters and copier make of arbitrary bytes: exactly which elements they refuse.
 */
module BsonMalformed {
  import opened Bytes
  import opened BsonFormat
  import opened BsonReader
  import opened BsonWriter

  /** The name behind the type byte at elem ends with its first NUL at nul, and end is not right behind that. */
  predicate NameEndsAt(mem: seq<byte>, elem: nat, nul: nat, end: int) {
    && elem + 1 <= nul < end - 1 && Peek(mem, nul) == 0
    && forall i :: elem + 1 <= i < nul ==> Peek(mem, i) != 0
  }

  /** What strnlen and the check behind it find. */
  lemma NameFound(mem: seq<byte>, elem: nat, end: int)
    requires elem < end
    ensures var value := elem + 1 + StrNLen(mem, elem + 1, end - (elem + 1)) + 1;
            && (value < end && Peek(mem, value - 1) == 0 <==> exists nul: nat :: NameEndsAt(mem, elem, nul, end))
            && forall nul: nat :: NameEndsAt(mem, elem, nul, end) ==> value == nul + 1
  {
    var n := StrNLen(mem, elem + 1, end - (elem + 1));
    StrNLenStops(mem, elem + 1, end - (elem + 1));
    if elem + n + 2 < end && Peek(mem, elem + 1 + n) == 0 {
      assert NameEndsAt(mem, elem, elem + 1 + n, end);
    }
  }

  /** A document whose length word and last byte are in order, and an offset of an element in it. */
  predicate Inside(doc: Option<seq<byte>>, offset: int) {
    && doc.Some? && 4 <= offset < ReadInt(doc.value, 0)
    && Peek(doc.value, ReadInt(doc.value, 0) - 1) == 0
  }

  /** Seeking succeeds exactly inside a document, at a terminated name, for the types asked for; the value is next. */
  lemma SeekIsExact(doc: Option<seq<byte>>, offset: int, type1: byte, type2: byte)
    ensures SeekData(doc, offset, type1, type2).Some? <==>
              && Inside(doc, offset) && Peek(doc.value, offset) in {type1, type2}
              && exists nul: nat :: NameEndsAt(doc.value, offset, nul, ReadInt(doc.value, 0))
    ensures forall nul: nat ::
              SeekData(doc, offset, type1, type2).Some?
              && NameEndsAt(doc.value, offset, nul, ReadInt(doc.value, 0)) ==>
                SeekData(doc, offset, type1, type2).value == (nul + 1, ReadInt(doc.value, 0))
  {
    hide StrNLen, Peek, ReadInt, NameEndsAt;
    if Inside(doc, offset) {
      NameFound(doc.value, offset, ReadInt(doc.value, 0));
    }
  }

  /** Copying finds an element exactly inside a document, at a terminated name, if its value has a size. */
  lemma CopyIsExact(doc: Option<seq<byte>>, offset: int)
    ensures FindElement(doc, offset).None? <==>
              || !Inside(doc, offset)
              || forall nul: nat :: NameEndsAt(doc.value, offset, nul, ReadInt(doc.value, 0)) ==>
                   MeasureValue(Peek(doc.value, offset), doc.value, nul + 1, ReadInt(doc.value, 0)) < 0
  {
    hide StrNLen, Peek, ReadInt, NameEndsAt, MeasureValue;
    if Inside(doc, offset) {
      NameFound(doc.value, offset, ReadInt(doc.value, 0));
    }
  }

  /**
    The scan gives up at an element, with -1, exactly if its name is not terminated, or its value
    has no size and it was not the last one looked for.
   */
  lemma StepRejects(mem: seq<byte>, end: int, keys: seq<CString>, c: Cursor)
    requires |keys| == |c.offs| && c.data < end
    ensures var r := Step(mem, end, keys, c);
            r.Done? && r.props.found == -1 <==>
              && Peek(mem, c.data) != 0
              && forall nul: nat :: NameEndsAt(mem, c.data, nul, end) ==>
                   && MeasureValue(Peek(mem, c.data), mem, nul + 1, end) < 0
                   && !(c.scanned + 1 == |keys|
                        && exists k :: 0 <= k < |keys| && c.offs[k] < 0
                                       && keys[k] == Slice(mem, c.data + 1, nul - (c.data + 1)))
  {
    hide StrNLen, Peek, NameEndsAt, MeasureValue, Slice;
    NameFound(mem, c.data, end);
  }

  /** What every getter answers at a terminated name, from the bytes behind it alone. */
  lemma GettersAreExact(mem: seq<byte>, offset: nat, nul: nat, default: int)
    requires Inside(Some(mem), offset) && NameEndsAt(mem, offset, nul, ReadInt(mem, 0))
    ensures var doc, kind, value, end := Some(mem), Peek(mem, offset), nul + 1, ReadInt(mem, 0);
            var len := ReadInt(mem, value);
            && GetString(doc, offset)
               == (if kind == 0x02 && 0 < len <= end - (value + 4) && Peek(mem, value + 4 + len - 1) == 0
                   then Some(value + 4) else None)
            && GetSubdocument(doc, offset) == (if kind == 0x03 || kind == 0x04 then Some(value) else None)
            && GetBinary(doc, offset)
               == (if kind == 0x05 && 0 < len <= end - (value + 5) then Some((value + 5, len)) else None)
            && GetBoolean(doc, offset, default)
               == (if kind != 0x08 then default else if Peek(mem, value) != 0 then 1 else 0)
            && GetInt32(doc, offset, default) == (if kind == 0x10 then len else default)
  {
    hide StrNLen, Peek, ReadInt, NameEndsAt;
    NameFound(mem, offset, ReadInt(mem, 0));
  }

  /** Anywhere else they all answer with the default. */
  lemma NothingElsewhere(doc: Option<seq<byte>>, offset: int, default: int)
    requires Inside(doc, offset) ==> forall nul: nat :: !NameEndsAt(doc.value, offset, nul, ReadInt(doc.value, 0))
    ensures GetString(doc, offset).None? && GetSubdocument(doc, offset).None? && GetBinary(doc, offset).None?
    ensures GetBoolean(doc, offset, default) == default && GetInt32(doc, offset, default) == default
  {
    hide StrNLen, Peek, ReadInt, NameEndsAt;
    if Inside(doc, offset) {
      NameFound(doc.value, offset, ReadInt(doc.value, 0));
    }
  }
}
