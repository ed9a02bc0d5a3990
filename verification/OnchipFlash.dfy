/**
  On-chip flash: programming can only clear bits and works on aligned 32-bit words, erasing
  sets a whole page to ones, and writing erases on demand.
 */
module OnchipFlash {
  import opened Errno
  import opened FlashCells
  import opened Pow2

  const ALIGN := 4

  /** Erase blocks of one sector of the flash. */
  datatype Region = Region(offset: nat, blocks: nat)

  /**
    A sector of the flash as configured: its first and last address, and whether the status
    register reports it available.
   */
  datatype Sector = Sector(enabled: bool, available: bool, start: nat, end: nat)

  /** The sectors that become regions; without a control register all enabled ones do. */
  function Usable(sectors: seq<Sector>, hasCsr: bool): seq<Sector> {
    if sectors == [] then [] else
    var first := if sectors[0].enabled && (!hasCsr || sectors[0].available) then [sectors[0]] else [];
    first + Usable(sectors[1..], hasCsr)
  }

  /** Exactly the enabled sectors that are available, or all enabled ones without a control register. */
  lemma {:induction false} UsableExactly(sectors: seq<Sector>, hasCsr: bool)
    ensures forall s :: s in Usable(sectors, hasCsr) <==> s in sectors && s.enabled && (!hasCsr || s.available)
  {
    if sectors != [] {
      UsableExactly(sectors[1..], hasCsr);
      assert forall s :: s in sectors <==> s == sectors[0] || s in sectors[1..];
    }
  }

  /** In the order in which they are configured. */
  lemma {:induction false} UsableInOrder(a: seq<Sector>, b: seq<Sector>, hasCsr: bool)
    ensures Usable(a + b, hasCsr) == Usable(a, hasCsr) + Usable(b, hasCsr)
  {
    if a == [] {
      assert a + b == b;
    } else {
      assert (a + b)[0] == a[0] && (a + b)[1..] == a[1..] + b;
      UsableInOrder(a[1..], b, hasCsr);
      var first := if a[0].enabled && (!hasCsr || a[0].available) then [a[0]] else [];
      assert Usable(a + b, hasCsr) == first + Usable(a[1..] + b, hasCsr);
      assert Usable(a, hasCsr) == first + Usable(a[1..], hasCsr);
      Concat3(first, Usable(a[1..], hasCsr), Usable(b, hasCsr));
    }
  }

  lemma Concat3<T>(a: seq<T>, b: seq<T>, c: seq<T>)
    ensures a + (b + c) == a + b + c
  {
  }

  function Table(sectors: seq<Sector>, pageSize: nat): (r: seq<Region>)
    requires pageSize > 0
    ensures |r| == |sectors|
  {
    seq(|sectors|, i requires 0 <= i < |sectors| =>
          var s := sectors[i];
          Region(s.start, if s.start <= s.end then (s.end - s.start + 1) / pageSize else 0))
  }

  /** Sectors of whole pages within the flash, in ascending order. */
  predicate Ascending(sectors: seq<Sector>, pageSize: nat, length: nat)
    requires pageSize > 0
  {
    && (forall i :: 0 <= i < |sectors| ==>
          && sectors[i].start % pageSize == 0 && (sectors[i].end + 1) % pageSize == 0
          && sectors[i].start <= sectors[i].end < length)
    && (forall i :: 0 <= i < |sectors| - 1 ==> sectors[i].end < sectors[i + 1].start)
  }

  /** The blocks of a sector of whole pages reach from its start to its end. */
  lemma BlocksFillSector(start: nat, end: nat, pageSize: nat)
    requires pageSize > 0 && start <= end && start % pageSize == 0 && (end + 1) % pageSize == 0
    ensures start + (end - start + 1) / pageSize * pageSize == end + 1
  {
    var a, b := start / pageSize, (end + 1) / pageSize;
    assert start == pageSize * a && end + 1 == pageSize * b;
    assert pageSize * b - pageSize * a == pageSize * (b - a);
    if b < a {
      MultipleGrows(pageSize, b, a);
    }
    RemainderIs(end - start + 1, pageSize, b - a, 0);
  }

  /** What is left of the memory after all bits of w were cleared where they are zero. */
  function Programmed(mem: seq<bv8>, at: nat, w: seq<bv8>): (r: seq<bv8>)
    requires at + |w| <= |mem|
    ensures |r| == |mem|
  {
    seq(|mem|, a requires 0 <= a < |mem| => if at <= a < at + |w| then Cleared(mem[a], w[a - at]) else mem[a])
  }

  /** Start of the block that holds address a. */
  function BlockOf(a: nat, blockSize: nat): (b: nat)
    requires blockSize > 0
    ensures b <= a < b + blockSize
  {
    a - a % blockSize
  }

  /** Whether writing src at offset finds the block at b different from what it is to hold. */
  predicate Dirty(mem: seq<bv8>, offset: int, src: seq<bv8>, b: nat, blockSize: nat) {
    exists a :: b <= a < b + blockSize && offset <= a < offset + |src| && 0 <= a < |mem| && mem[a] != src[a - offset]
  }

  /** What a successful write makes of address a: the data, or ones in an erased block, or what it was. */
  function Target(mem: seq<bv8>, offset: int, src: seq<bv8>, blockSize: nat, a: nat): bv8
    requires a < |mem| && blockSize > 0
  {
    if offset <= a < offset + |src| then src[a - offset]
    else if Dirty(mem, offset, src, BlockOf(a, blockSize), blockSize) then 0xff
    else mem[a]
  }

  class Flash {
    const data: array<bv8>
    const pageSize: nat
    const regions: seq<Region>
    const hasCsr: bool
    const readOnly: bool
    /** Whether the controller never times out and passes every operation it is enabled for. */
    const healthy: bool
    /** The write protection bits of the control register. */
    var writable: bool

    /** A region table in ascending order, each region a whole number of pages; there may be gaps. */
    ghost predicate Valid()
      reads this
    {
      && IsPower(pageSize) && pageSize % ALIGN == 0 && data.Length % pageSize == 0
      && (forall i :: 0 <= i < |regions| ==>
            regions[i].offset % pageSize == 0 && EndOf(regions[i]) <= data.Length)
      && (forall i :: 0 <= i < |regions| - 1 ==> EndOf(regions[i]) <= regions[i + 1].offset)
    }

    /** altera_onchip_flash_init: ascending sectors of whole pages make a valid region table, each sector its region. */
    constructor (data: array<bv8>, pageSize: nat, sectors: seq<Sector>, hasCsr: bool, readOnly: bool, healthy: bool)
      requires IsPower(pageSize) && pageSize % ALIGN == 0 && data.Length % pageSize == 0
      ensures this.data == data && this.pageSize == pageSize && this.hasCsr == hasCsr && this.readOnly == readOnly
      ensures this.healthy == healthy
      ensures regions == Table(Usable(sectors, hasCsr), pageSize) && !writable
      ensures var used := Usable(sectors, hasCsr);
              Ascending(used, pageSize, data.Length) ==>
                && Valid()
                && forall i :: 0 <= i < |used| ==>
                  regions[i].offset == used[i].start && EndOf(regions[i]) == used[i].end + 1
    {
      this.data, this.pageSize := data, pageSize;
      this.hasCsr, this.readOnly, this.healthy := hasCsr, readOnly, healthy;
      regions := Table(Usable(sectors, hasCsr), pageSize);
      writable := false;
      new;
      var used := Usable(sectors, hasCsr);
      if Ascending(used, pageSize, data.Length) {
        forall i | 0 <= i < |used| ensures EndOf(regions[i]) == used[i].end + 1 {
          BlocksFillSector(used[i].start, used[i].end, pageSize);
        }
      }
    }

    function EndOf(r: Region): nat {
      r.offset + r.blocks * pageSize
    }

    /** The first region from number i on that holds address offset, or |regions|. */
    function Home(offset: int, i: nat): (r: nat)
      requires i <= |regions|
      ensures i <= r <= |regions|
      ensures r < |regions| ==> regions[r].offset <= offset < EndOf(regions[r])
      ensures forall j :: i <= j < r ==> !(regions[j].offset <= offset < EndOf(regions[j]))
      decreases |regions| - i
    {
      if i == |regions| || regions[i].offset <= offset < EndOf(regions[i]) then i else Home(offset, i + 1)
    }

    predicate Inside(offset: int) {
      Home(offset, 0) < |regions|
    }

    /** The end of the run of regions without gaps that starts with region i. */
    function RunEnd(i: nat): (e: nat)
      requires i < |regions|
      ensures EndOf(regions[i]) <= e
      decreases |regions| - i
    {
      if i + 1 < |regions| && regions[i + 1].offset == EndOf(regions[i]) then
        assert regions[i + 1].blocks * pageSize >= 0;
        RunEnd(i + 1)
      else EndOf(regions[i])
    }

    /** How far the regions go on from offset without a gap. */
    function Limit(offset: int): (e: int)
      ensures offset <= e
    {
      if Inside(offset) then RunEnd(Home(offset, 0)) else offset
    }

    /** How many of length bytes from offset on lie in that run. */
    function Covered(offset: int, length: nat): (k: nat)
      ensures k <= length
    {
      Min(length, Limit(offset) - offset)
    }

    // ---- the device ----

    /** Polling for idle may time out. */
    method PollIdle() returns (ret: int)
      ensures ret == 0 || ret == -ETIMEDOUT
      ensures healthy ==> ret == 0
    {
      var busy: bool := *;
      ret := if busy && !healthy then -ETIMEDOUT else 0;
    }

    /** Page erase by word address; if it does not pass, the page holds anything. */
    method PageErase(wordAddress: nat) returns (passed: bool)
      requires Valid() && wordAddress * 4 < data.Length
      modifies data
      ensures var b := BlockOf(wordAddress * 4, pageSize);
              && SameOutside(old(data[..]), data[..], b, b + pageSize)
              && (passed ==> writable && data[..] == Erased(old(data[..]), b, pageSize))
      ensures healthy && writable ==> passed
    {
      passed := *;
      passed := (passed || healthy) && writable;
      var b := BlockOf(wordAddress * 4, pageSize);
      var junk: nat -> bv8 := *;
      forall a | 0 <= a < data.Length && b <= a < b + pageSize {
        data[a] := if passed then 0xff else junk(a);
      }
    }

    /** One 32-bit write; if it does not pass, the word holds anything. */
    method WriteWord(at: nat, chunk: seq<bv8>) returns (passed: bool)
      requires |chunk| == 4 && at % ALIGN == 0 && at + 4 <= data.Length
      modifies data
      ensures SameOutside(old(data[..]), data[..], at, at + 4)
      ensures passed ==> writable && data[..] == Programmed(old(data[..]), at, chunk)
      ensures healthy && writable ==> passed
    {
      passed := *;
      passed := (passed || healthy) && writable;
      var junk: nat -> bv8 := *;
      forall i | 0 <= i < 4 {
        data[at + i] := if passed then Cleared(data[at + i], chunk[i]) else junk(i);
      }
    }

    // ---- the driver ----

    method EraseBlock(blockOffset: nat) returns (ret: int)
      requires Valid()
      modifies this`writable, data
      ensures (writable ==> old(writable)) && (ret == 0 ==> !writable)
      ensures ret == 0 ==> blockOffset % pageSize == 0 && blockOffset < data.Length
                           && data[..] == Erased(old(data[..]), blockOffset, pageSize)
      ensures SameOutside(old(data[..]), data[..], blockOffset, blockOffset + pageSize)
      ensures blockOffset >= data.Length ==> ret == -EFAULT
      ensures blockOffset < data.Length && (!hasCsr || readOnly) ==> ret == -ENODEV
      ensures blockOffset < data.Length && hasCsr && !readOnly && blockOffset % pageSize != 0 ==> ret == -EINVAL
      ensures blockOffset >= data.Length || !hasCsr || readOnly || blockOffset % pageSize != 0 ==>
                data[..] == old(data[..])
      ensures healthy && hasCsr && !readOnly && blockOffset < data.Length && blockOffset % pageSize == 0 ==> ret == 0
    {
      hide EndOf, BlockOf, And, Erased;
      if blockOffset >= data.Length {
        return -EFAULT;
      }
      if !hasCsr || readOnly {
        return -ENODEV;
      }
      AlignedByMask(blockOffset);
      if And(blockOffset, pageSize - 1) != 0 {
        return -EINVAL;
      }
      ret := PollIdle();
      if ret != 0 {
        return;
      }
      writable := true;
      PageStart(blockOffset, pageSize);
      var pageAddress := blockOffset / 4;
      var passed := PageErase(pageAddress);
      ret := PollIdle();
      ret := if passed then 0 else -ETIMEDOUT;
      writable := false;
    }

    lemma AlignedByMask(offset: nat)
      requires Valid()
      ensures And(offset, pageSize - 1) == offset % pageSize
    {
      var k: nat :| pageSize == Power(k);
      MaskIsRemainder(offset, k);
    }

    /** One word, and polling until it is written. */
    method ProgramWord(at: nat, chunk: seq<bv8>) returns (ret: int)
      requires |chunk| == 4 && at % ALIGN == 0 && at + 4 <= data.Length
      modifies data
      ensures SameOutside(old(data[..]), data[..], at, at + ALIGN)
      ensures ret == 0 ==> writable && data[..] == Programmed(old(data[..]), at, chunk)
      ensures healthy && writable ==> ret == 0
    {
      hide Programmed, SameOutside;
      var passed := WriteWord(at, chunk);
      ret := PollIdle();
      if ret != 0 {
        return;
      }
      ret := if passed then 0 else -ETIMEDOUT;
    }

    /** Programs src at dataOffset word by word, with ones as padding. */
    method WriteBlock(blockOffset: nat, dataOffset: nat, src: seq<bv8>) returns (ret: int)
      requires data.Length % ALIGN == 0
      modifies this`writable, data
      ensures writable ==> old(writable)
      ensures blockOffset >= data.Length || dataOffset >= data.Length || |src| > data.Length - dataOffset ==>
                ret == -EFAULT && data[..] == old(data[..])
      ensures blockOffset < data.Length && dataOffset < data.Length && |src| <= data.Length - dataOffset
                && (!hasCsr || readOnly) ==>
                ret == -ENODEV && data[..] == old(data[..])
      ensures ret == 0 ==> dataOffset + |src| <= data.Length && data[..] == Programmed(old(data[..]), dataOffset, src)
      ensures SameOutside(old(data[..]), data[..], dataOffset - dataOffset % ALIGN, WordEnd(dataOffset + |src|))
      ensures healthy && hasCsr && !readOnly && blockOffset < data.Length && dataOffset < data.Length ==>
                |src| <= data.Length - dataOffset ==> ret == 0
    {
      if blockOffset >= data.Length || dataOffset >= data.Length || |src| > data.Length - dataOffset {
        return -EFAULT;
      }
      if !hasCsr || readOnly {
        return -ENODEV;
      }
      ret := PollIdle();
      if ret != 0 {
        return;
      }
      writable := true;
      ret := WriteWords(dataOffset, src);
      writable := false;
    }

    /** One pass of the loop of alt_onchip_flash_write_block. */
    method WriteNextWord(dataOffset: nat, src: seq<bv8>, bufferOffset: nat, current: nat, ghost was: seq<bv8>)
      returns (ret: int, n: nat, next: nat)
      requires data.Length % ALIGN == 0 && dataOffset + |src| <= data.Length == |was|
      requires bufferOffset < |src| && current == dataOffset + bufferOffset
      requires data[..] == Programmed(was, dataOffset, src[..bufferOffset])
      modifies data
      ensures 0 < n <= |src| - bufferOffset && next % ALIGN == 0
      ensures n < |src| - bufferOffset ==> next == current + n
      ensures ret == 0 ==> data[..] == Programmed(was, dataOffset, src[..bufferOffset + n])
      ensures SameOutside(was, data[..], dataOffset - dataOffset % ALIGN, WordEnd(dataOffset + |src|))
      ensures healthy && writable ==> ret == 0
    {
      hide Programmed, WordEnd, SameOutside;
      var at, chunk;
      at, chunk, n := NextWord(current, src, bufferOffset);
      WordFits(at, data.Length);
      ghost var before := data[..];
      ret := ProgramWord(at, chunk);
      WordKeepsFrame(was, before, data[..], dataOffset, src, bufferOffset, at, n);
      if ret == 0 {
        PaddedWord(was, dataOffset, src, bufferOffset, bufferOffset + n, at, current - at, chunk);
      }
      next := at + ALIGN;
    }

    /** The loop of alt_onchip_flash_write_block. */
    method WriteWords(dataOffset: nat, src: seq<bv8>) returns (ret: int)
      requires data.Length % ALIGN == 0 && dataOffset + |src| <= data.Length
      modifies data
      ensures ret == 0 ==> data[..] == Programmed(old(data[..]), dataOffset, src)
      ensures SameOutside(old(data[..]), data[..], dataOffset - dataOffset % ALIGN, WordEnd(dataOffset + |src|))
      ensures healthy && writable ==> ret == 0
    {
      ret := 0;
      ghost var was := data[..];
      var bufferOffset := 0;
      var current := dataOffset;
      ProgrammedNothing(was, dataOffset, src[..0]);
      hide Programmed, WordEnd, SameOutside;
      while bufferOffset < |src|
        invariant 0 <= bufferOffset <= |src| && ret == 0
        invariant bufferOffset < |src| ==> current == dataOffset + bufferOffset
        invariant data[..] == Programmed(was, dataOffset, src[..bufferOffset])
        invariant SameOutside(was, data[..], dataOffset - dataOffset % ALIGN, WordEnd(dataOffset + |src|))
      {
        var n;
        ret, n, current := WriteNextWord(dataOffset, src, bufferOffset, current, was);
        if ret != 0 {
          return;
        }
        bufferOffset := bufferOffset + n;
      }
      assert src[..bufferOffset] == src;
    }

    /** memcmp, erase and program for the part of the data that falls into the block at c. */
    method WriteInBlock(c: nat, off: nat, part: seq<bv8>) returns (ret: int)
      requires Valid() && c % pageSize == 0 && c <= off && off + |part| <= c + pageSize <= data.Length
      modifies this`writable, data
      ensures writable ==> old(writable)
      ensures SameOutside(old(data[..]), data[..], c, c + pageSize)
      ensures ret == 0 ==> data[..] == BlockWritten(old(data[..]), c, pageSize, off, part)
      ensures old(data[off..off + |part|]) == part ==> ret == 0 && data[..] == old(data[..])
      ensures healthy && hasCsr && !readOnly ==> ret == 0
      ensures !hasCsr || readOnly ==> data[..] == old(data[..])
    {
      hide Programmed, Erased, BlockWritten, SameOutside, WordEnd;
      ret := 0;
      ghost var was := data[..];
      if data[off..off + |part|] == part {
        NothingChanged(was, c, pageSize, off, part);
      } else {
        ret := EraseBlock(c);
        if ret == 0 {
          ghost var erased := data[..];
          WholeWords(data.Length, pageSize);
          ret := WriteBlock(c, off, part);
          WholeWords(c, pageSize);
          WordsInBlock(c, pageSize, off, off + |part|);
          Outside(was, erased, data[..], c, c + pageSize, off - off % ALIGN, WordEnd(off + |part|), c, c + pageSize);
          EraseThenProgram(was, c, pageSize, off, part);
        }
      }
    }

    lemma {:induction false} RunBounds(i: nat)
      requires Valid() && i < |regions|
      ensures regions[i].offset <= EndOf(regions[i]) <= RunEnd(i) <= data.Length && RunEnd(i) % pageSize == 0
      decreases |regions| - i
    {
      assert regions[i].blocks * pageSize >= 0;
      if i + 1 < |regions| && regions[i + 1].offset == EndOf(regions[i]) {
        RunBounds(i + 1);
      } else {
        RegionAligned(regions[i].offset, regions[i].blocks, pageSize);
      }
    }

    lemma {:induction false} OffsetsAscend(i: nat, j: nat)
      requires Valid() && i < j < |regions|
      ensures EndOf(regions[i]) <= regions[j].offset
    {
      if i + 1 < j {
        OffsetsAscend(i, j - 1);
        RunBounds(j - 1);
      }
      assert EndOf(regions[j - 1]) <= regions[j - 1 + 1].offset;
    }

    lemma LimitBounds(offset: int)
      requires Valid() && Inside(offset)
      ensures 0 <= offset < Limit(offset) <= data.Length && Limit(offset) % pageSize == 0
    {
      RunBounds(Home(offset, 0));
    }

    /** Where the write stands before region i: still to begin, at this region, or past the end of the run. */
    ghost predicate Onward(i: nat, offset: int, pos: nat)
      requires i <= |regions|
    {
      Inside(offset) ==>
        if i <= Home(offset, 0) then pos == 0
        else
          || (i < |regions| && offset + pos == regions[i].offset && RunEnd(i) == Limit(offset))
          || (offset + pos == Limit(offset) && forall j :: i <= j < |regions| ==> offset + pos < regions[j].offset)
    }

    lemma NextInRun(i: nat, offset: int, pos: nat)
      requires Valid() && i < |regions| && Inside(offset) && i >= Home(offset, 0)
      requires RunEnd(i) == Limit(offset) && offset + pos == EndOf(regions[i])
      ensures Onward(i + 1, offset, pos)
    {
      if i + 1 < |regions| && regions[i + 1].offset != EndOf(regions[i]) {
        forall j | i + 1 <= j < |regions| ensures offset + pos < regions[j].offset {
          if j > i + 1 {
            OffsetsAscend(i + 1, j);
            RunBounds(i + 1);
          }
        }
      }
    }

    /** How far the write came: the blocks before the one at front are as they should be. */
    ghost predicate Reached(was: seq<bv8>, offset: int, src: seq<bv8>, pos: nat)
      requires Valid()
      reads this, data
    {
      var k := Covered(offset, |src|);
      if !(Inside(offset)) then pos == 0 && data[..] == was
      else
        && pos <= k && (pos > 0 ==> pos < |src| && (offset + pos) % pageSize == 0)
        && Progress(was, data[..], offset, src[..k], pageSize, BlockOf(offset + pos, pageSize))
        && SameOutside(was, data[..], BlockOf(offset, pageSize), BlockOf(offset + pos, pageSize))
    }

    lemma NothingReached(offset: int, src: seq<bv8>)
      requires Valid()
      ensures Reached(data[..], offset, src, 0)
    {
      if Inside(offset) {
        LimitBounds(offset);
        ProgressStart(data[..], offset, src[..Covered(offset, |src|)], pageSize);
      }
    }

    /** The block loop of alt_onchip_flash_write over one region. */
    method WriteRegion(i: nat, offset: int, src: seq<bv8>, from: nat, ghost was: seq<bv8>)
      returns (ret: int, pos: nat, finished: bool)
      requires Valid() && i < |regions| && from <= |src| && |was| == data.Length
      requires Inside(offset) && Reached(was, offset, src, from)
      requires regions[i].offset <= offset + from < EndOf(regions[i]) && RunEnd(i) == Limit(offset)
      modifies this`writable, data
      ensures writable ==> old(writable)
      ensures finished ==> Finished(was, offset, src, ret)
      ensures healthy && hasCsr && !readOnly ==> ret == 0
      ensures !hasCsr || readOnly ==> data[..] == old(data[..])
      ensures !finished ==>
                ret == 0 && pos <= |src| && Reached(was, offset, src, pos) && offset + pos == EndOf(regions[i])
    {
      hide Progress, SameOutside, IsTarget, BlockOf, BlockWritten, Covered;
      ret, pos, finished := 0, from, false;
      RunBounds(i);
      var c := regions[i].offset;
      var j := 0;
      while j < regions[i].blocks
        invariant 0 <= j <= regions[i].blocks && c == regions[i].offset + j * pageSize && c % pageSize == 0
        invariant ret == 0 && pos <= |src| && c <= offset + pos <= EndOf(regions[i])
        invariant Reached(was, offset, src, pos) && (writable ==> old(writable))
        invariant !hasCsr || readOnly ==> data[..] == old(data[..])
      {
        BlockInRegion(i, j, c);
        if offset + pos >= c && offset + pos < c + pageSize {
          BlockOfUnique(offset + pos, c, pageSize);
          if pos > 0 {
            BlockOfUnique(offset + pos, offset + pos, pageSize);
          }
          var n := Min(c + pageSize - (offset + pos), |src| - pos);
          ghost var before := data[..];
          ret := WriteInBlock(c, offset + pos, src[pos..pos + n]);
          BlockServed(was, before, offset, src, pos, c, n, ret);
          if |src| - pos == n || ret != 0 {
            finished := true;
            return;
          }
          pos := pos + n;
          BlockOfUnique(c + pageSize, c + pageSize, pageSize);
        }
        c := c + pageSize;
        j := j + 1;
      }
    }

    lemma BlockInRegion(i: nat, j: nat, c: nat)
      requires Valid() && i < |regions| && j < regions[i].blocks
      requires c == regions[i].offset + j * pageSize && c % pageSize == 0
      ensures c + pageSize == regions[i].offset + (j + 1) * pageSize <= EndOf(regions[i]) <= RunEnd(i) <= data.Length
      ensures (c + pageSize) % pageSize == 0
    {
      RunBounds(i);
      assert (j + 1) * pageSize == j * pageSize + pageSize;
      if j + 1 < regions[i].blocks {
        MultipleGrows(pageSize, j + 1, regions[i].blocks);
      }
      NextBoundary(c, pageSize);
    }

    /** The claim of Write about its result, at the point where it ends with the last block. */
    ghost predicate Finished(was: seq<bv8>, offset: int, src: seq<bv8>, ret: int)
      requires Valid() && Inside(offset)
      reads this, data
    {
      var k := Covered(offset, |src|);
      && |was| == data.Length
      && (ret == 0 ==> IsTarget(was, data[..], offset, src[..k], pageSize))
      && (k == 0 ==> data[..] == was)
      && (k > 0 ==> SameOutside(was, data[..], BlockOf(offset, pageSize), BlockOf(offset + k - 1, pageSize) + pageSize))
    }

    /** What one block adds. */
    lemma BlockServed(was: seq<bv8>, before: seq<bv8>, offset: int, src: seq<bv8>, pos: nat, c: nat, n: nat, ret: int)
      requires Valid() && |was| == |before| == data.Length && Inside(offset)
      requires c % pageSize == 0 && c <= offset + pos < c + pageSize <= Limit(offset) <= data.Length
      requires BlockOf(offset + pos, pageSize) == c
      requires pos <= Covered(offset, |src|) && (pos > 0 ==> pos < |src| && offset + pos == c)
      requires pos + n <= |src| && n == Min(c + pageSize - (offset + pos), |src| - pos)
      requires Progress(was, before, offset, src[..Covered(offset, |src|)], pageSize, c)
      requires SameOutside(was, before, BlockOf(offset, pageSize), c)
      requires SameOutside(before, data[..], c, c + pageSize)
      requires ret == 0 ==> data[..] == BlockWritten(before, c, pageSize, offset + pos, src[pos..pos + n])
      requires n == 0 ==> ret == 0
      ensures |src| - pos == n || ret != 0 ==> Finished(was, offset, src, ret)
      ensures |src| - pos != n && ret == 0 ==>
                && offset + pos + n == c + pageSize && pos + n <= Covered(offset, |src|)
                && Progress(was, data[..], offset, src[..Covered(offset, |src|)], pageSize, c + pageSize)
                && SameOutside(was, data[..], BlockOf(offset, pageSize), c + pageSize)
    {
      hide Progress, IsTarget, SameOutside, BlockOf, BlockWritten;
      var k := Covered(offset, |src|);
      Amounts(offset, |src|, pos, c, n);
      if ret == 0 {
        assert src[..k][pos..pos + n] == src[pos..pos + n];
        ProgressBlock(was, before, offset, src[..k], pageSize, c, offset + pos, n);
      }
      BlockOfMonotone(offset, offset + pos, pageSize);
      Outside(was, before, data[..], BlockOf(offset, pageSize), c, c, c + pageSize, BlockOf(offset, pageSize),
        c + pageSize);
      if |src| - pos == n || ret != 0 {
        BlockFinishes(was, offset, src, pos, c, n, ret);
      }
    }

    lemma Amounts(offset: int, length: nat, pos: nat, c: nat, n: nat)
      requires Valid() && Inside(offset)
      requires c <= offset + pos < c + pageSize <= Limit(offset) && pos <= Covered(offset, length)
      requires pos > 0 ==> pos < length
      requires pos + n <= length && n == Min(c + pageSize - (offset + pos), length - pos)
      ensures pos + n <= Covered(offset, length)
      ensures length - pos == n ==> Covered(offset, length) == length && offset + length <= c + pageSize
      ensures length - pos != n ==> offset + pos + n == c + pageSize
      ensures offset + pos + n ==
                if offset + Covered(offset, length) < c + pageSize then offset + Covered(offset, length)
                else c + pageSize
      ensures if Covered(offset, length) == 0 then n == 0 else pos < Covered(offset, length)
    {
    }

    lemma BlockFinishes(was: seq<bv8>, offset: int, src: seq<bv8>, pos: nat, c: nat, n: nat, ret: int)
      requires Valid() && |was| == data.Length && Inside(offset)
      requires c % pageSize == 0 && c <= offset + pos < c + pageSize && BlockOf(offset + pos, pageSize) == c
      requires pos + n <= |src|
      requires var k := Covered(offset, |src|);
               && (if k == 0 then n == 0 else pos < k)
               && (|src| - pos == n ==> k == |src| && offset + k <= c + pageSize)
               && (ret == 0 ==> |src| - pos == n && Progress(was, data[..], offset, src[..k], pageSize, c + pageSize))
      requires SameOutside(was, data[..], BlockOf(offset, pageSize), c + pageSize)
      requires n == 0 ==> ret == 0
      ensures Finished(was, offset, src, ret)
    {
      hide Progress, IsTarget, SameOutside, BlockOf;
      var k := Covered(offset, |src|);
      if ret == 0 {
        NextBoundary(c, pageSize);
        ProgressDone(was, data[..], offset, src[..k], pageSize, c + pageSize);
      }
      if k > 0 {
        BlockOfMonotone(offset + pos, offset + k - 1, pageSize);
        Widen(was, data[..], BlockOf(offset, pageSize), c + pageSize, BlockOf(offset + k - 1, pageSize) + pageSize);
      } else {
        NothingWritten(was, data[..], offset, src[..k], pageSize);
      }
    }

    /**
      When success means what it says. Of a successful write the part in the run of regions is
      written and the rest keeps its old contents, with no error reported; so the flash holds the
      data if and only if it held the rest before.
     */
    lemma CompleteIfCovered(was: seq<bv8>, now: seq<bv8>, offset: int, src: seq<bv8>)
      requires Valid() && |was| == data.Length && 0 <= offset && offset + |src| <= |was|
      requires IsTarget(was, now, offset, src[..Covered(offset, |src|)], pageSize)
      ensures var k := Covered(offset, |src|);
              && now[offset..offset + k] == src[..k]
              && now[offset + k..offset + |src|] == was[offset + k..offset + |src|]
              && (now[offset..offset + |src|] == src <==> was[offset + k..offset + |src|] == src[k..])
    {
      var k := Covered(offset, |src|);
      UncoveredKept(was, now, offset, src);
      assert now[offset..offset + k] == src[..k];
      assert now[offset..offset + |src|] == now[offset..offset + k] + now[offset + k..offset + |src|];
      assert now[offset..offset + |src|][k..] == now[offset + k..offset + |src|];
      assert src == src[..k] + src[k..];
    }

    lemma UncoveredKept(was: seq<bv8>, now: seq<bv8>, offset: int, src: seq<bv8>)
      requires Valid() && |was| == data.Length && 0 <= offset && offset + |src| <= |was|
      requires IsTarget(was, now, offset, src[..Covered(offset, |src|)], pageSize)
      ensures forall a :: offset + Covered(offset, |src|) <= a < offset + |src| ==> now[a] == was[a]
    {
      var k := Covered(offset, |src|);
      if Inside(offset) {
        LimitBounds(offset);
      }
      forall a | offset + k <= a < offset + |src| ensures now[a] == was[a] {
        if k > 0 {
          BlockOfUnique(Limit(offset), Limit(offset), pageSize);
          BlockOfMonotone(Limit(offset), a, pageSize);
        }
        assert !Dirty(was, offset, src[..k], BlockOf(a, pageSize), pageSize);
      }
    }

    /** In one run of regions the whole write is covered, and then complete whatever was there. */
    lemma InOneRun(offset: int, length: nat)
      requires Inside(offset) && offset + length <= Limit(offset)
      ensures Covered(offset, length) == length
    {
    }

    /**
      For instance, on a flash of three pages of which the middle one is in no region: a write of
      all three over different contents stops, with success, behind the first page.
     */
    lemma GapIsNotWritten(was: seq<bv8>, now: seq<bv8>, src: seq<bv8>)
      requires Valid() && regions == [Region(0, 1), Region(2 * pageSize, 1)]
      requires |was| == |src| == 3 * pageSize == data.Length
      requires forall a :: 0 <= a < |was| ==> was[a] != src[a]
      requires IsTarget(was, now, 0, src[..Covered(0, |src|)], pageSize)
      ensures Covered(0, |src|) == pageSize
      ensures now[..pageSize] == src[..pageSize] && now[pageSize..] == was[pageSize..] && now != src
    {
      assert RunEnd(0) == pageSize && Home(0, 0) == 0;
      CompleteIfCovered(was, now, 0, src);
      assert now[pageSize..3 * pageSize] == now[pageSize..] && was[pageSize..3 * pageSize] == was[pageSize..];
      assert now[0..pageSize] == now[..pageSize];
      assert now[pageSize] == now[pageSize..][0] == was[pageSize..][0] == was[pageSize];
    }

    lemma WriteEnds(was: seq<bv8>, offset: int, src: seq<bv8>, pos: nat)
      requires Valid() && |was| == data.Length && pos <= |src| && Reached(was, offset, src, pos)
      requires Inside(offset) ==> offset + pos == Limit(offset)
      ensures IsTarget(was, data[..], offset, src[..Covered(offset, |src|)], pageSize)
      ensures Covered(offset, |src|) == 0 ==> data[..] == was
      ensures Covered(offset, |src|) > 0 ==>
                SameOutside(was, data[..], BlockOf(offset, pageSize),
                            BlockOf(offset + Covered(offset, |src|) - 1, pageSize) + pageSize)
    {
      var k := Covered(offset, |src|);
      if Inside(offset) {
        LimitBounds(offset);
        BlockOfUnique(offset + pos, offset + pos, pageSize);
        ProgressDone(was, data[..], offset, src[..k], pageSize, offset + pos);
        BlockBefore(offset + k - 1, offset + pos, pageSize);
        BlockOfMonotone(offset + k - 1, offset + pos - 1, pageSize);
      }
    }

    /**
      alt_onchip_flash_write. As much of the data as lies in one run of regions without gaps is
      written; the caller has to stay inside it, or success does not mean that everything was.
     */
    method Write(offset: int, src: seq<bv8>) returns (ret: int)
      requires Valid()
      modifies this`writable, data
      ensures writable ==> old(writable)
      ensures offset >= data.Length || |src| > data.Length - offset ==> ret == -EFAULT && data[..] == old(data[..])
      ensures ret == 0 ==> IsTarget(old(data[..]), data[..], offset, src[..Covered(offset, |src|)], pageSize)
      ensures Covered(offset, |src|) == 0 ==> data[..] == old(data[..])
      ensures Covered(offset, |src|) > 0 ==>
                SameOutside(old(data[..]), data[..], BlockOf(offset, pageSize),
                            BlockOf(offset + Covered(offset, |src|) - 1, pageSize) + pageSize)
      ensures healthy && hasCsr && !readOnly && offset < data.Length && |src| <= data.Length - offset ==> ret == 0
      ensures !hasCsr || readOnly ==> data[..] == old(data[..])
    {
      assert pageSize > 0;
      hide Reached, IsTarget, IsPower, Progress, EndOf;
      ret := 0;
      if offset >= data.Length || |src| > data.Length - offset {
        return -EFAULT;
      }
      ghost var was := data[..];
      var pos := 0;
      var i := 0;
      NothingReached(offset, src);
      while i < |regions|
        invariant 0 <= i <= |regions| && ret == 0 && 0 <= pos <= |src|
        invariant Reached(was, offset, src, pos) && (writable ==> old(writable))
        invariant Onward(i, offset, pos)
        invariant !hasCsr || readOnly ==> data[..] == old(data[..])
      {
        RunBounds(i);
        if regions[i].offset <= offset + pos < EndOf(regions[i]) {
          var finished;
          ret, pos, finished := WriteRegion(i, offset, src, pos, was);
          if finished {
            return;
          }
          NextInRun(i, offset, pos);
        } else if Inside(offset) && i > Home(offset, 0) && offset + pos == regions[i].offset {
          NextInRun(i, offset, pos);
        }
        i := i + 1;
      }
      WriteEnds(was, offset, src, pos);
    }
  }

  /** The next word to program: its address, its padded bytes, and how many of them are data. */
  method NextWord(current: nat, src: seq<bv8>, bufferOffset: nat) returns (at: nat, chunk: seq<bv8>, n: nat)
    requires bufferOffset < |src|
    ensures at == current - current % ALIGN && at % ALIGN == 0 && |chunk| == 4
    ensures 0 < n <= |src| - bufferOffset && current - at + n <= 4
    ensures n < |src| - bufferOffset ==> current - at + n == 4
    ensures forall i :: 0 <= i < 4 ==>
              chunk[i] == if current - at <= i < current - at + n then src[bufferOffset + i - (current - at)] else 0xff
  {
    var length := |src| - bufferOffset;
    var padding, end := 0, 0;
    at := current;
    if current % ALIGN == 0 {
      var next := at + ALIGN;
      end := Min(length, next - at);
    } else {
      padding := current % ALIGN;
      at := current - padding;
      var next := at + ALIGN;
      end := Min(length + padding, next - at);
    }
    n := end - padding;
    chunk := Pad(src[bufferOffset..bufferOffset + n], padding);
  }

  /** A word of ones with some bytes copied into it. */
  function Pad(part: seq<bv8>, padding: nat): (r: seq<bv8>)
    requires padding + |part| <= 4
    ensures |r| == 4
  {
    seq(4, i requires 0 <= i < 4 => if padding <= i < padding + |part| then part[i - padding] else 0xff)
  }

  lemma WordInRange(at: nat, current: nat, n: nat, dataOffset: nat, length: nat)
    requires at == current - current % ALIGN && 0 < n && current + n <= dataOffset + length
    requires dataOffset <= current
    ensures dataOffset - dataOffset % ALIGN <= at && at + ALIGN <= WordEnd(dataOffset + length)
    ensures dataOffset + length <= WordEnd(dataOffset + length)
  {
  }

  /** Programming the words so far and one more has touched no word without data. */
  lemma WordKeepsFrame(was: seq<bv8>, before: seq<bv8>, now: seq<bv8>, dataOffset: nat, src: seq<bv8>,
                       bufferOffset: nat, at: nat, n: nat)
    requires dataOffset + |src| <= |was| && 0 < n && bufferOffset + n <= |src|
    requires at == dataOffset + bufferOffset - (dataOffset + bufferOffset) % ALIGN
    requires before == Programmed(was, dataOffset, src[..bufferOffset])
    requires SameOutside(before, now, at, at + ALIGN)
    ensures SameOutside(was, now, dataOffset - dataOffset % ALIGN, WordEnd(dataOffset + |src|))
  {
    hide Programmed, WordEnd, SameOutside;
    var current := dataOffset + bufferOffset;
    WordInRange(at, current, n, dataOffset, |src|);
    ProgrammedOutside(was, dataOffset, src[..bufferOffset]);
    Outside(was, before, now, dataOffset, current, at, at + ALIGN,
            dataOffset - dataOffset % ALIGN, WordEnd(dataOffset + |src|));
  }

  lemma ProgrammedNothing(mem: seq<bv8>, at: nat, w: seq<bv8>)
    requires at + |w| <= |mem| && w == []
    ensures Programmed(mem, at, w) == mem && forall lo, hi :: SameOutside(mem, mem, lo, hi)
  {
  }

  lemma ProgrammedOutside(mem: seq<bv8>, at: nat, w: seq<bv8>)
    requires at + |w| <= |mem|
    ensures SameOutside(mem, Programmed(mem, at, w), at, at + |w|)
  {
  }

  lemma Outside(m0: seq<bv8>, m1: seq<bv8>, m2: seq<bv8>, a: int, b: int, c: int, d: int, lo: int, hi: int)
    requires SameOutside(m0, m1, a, b) && SameOutside(m1, m2, c, d)
    requires lo <= a && b <= hi && lo <= c && d <= hi
    ensures SameOutside(m0, m2, lo, hi)
  {
  }

  function Min(a: int, b: int): int {
    if a < b then a else b
  }

  /** End of the last word that holds one of the bytes before to. */
  function WordEnd(to: nat): nat {
    (to + ALIGN - 1) / ALIGN * ALIGN
  }

  lemma WordStart(from: nat, c: nat)
    requires c % ALIGN == 0 && c <= from
    ensures c <= from - from % ALIGN
  {
  }

  lemma WordEndBelow(to: nat, end: nat)
    requires end % ALIGN == 0 && to <= end
    ensures WordEnd(to) <= end
  {
  }

  /** Whole pages are whole words. */
  lemma WholeWords(n: nat, pageSize: nat)
    requires pageSize > 0 && pageSize % ALIGN == 0 && n % pageSize == 0
    ensures n % ALIGN == 0
  {
    var q, words := n / pageSize, pageSize / 4;
    assert n == pageSize * q && pageSize == 4 * words;
    assert n == 4 * (words * q) by { Associate(4, words, q); }
  }

  lemma Associate(a: int, b: int, c: int)
    ensures a * b * c == a * (b * c)
  {
  }

  lemma RegionAligned(offset: nat, blocks: nat, pageSize: nat)
    requires pageSize > 0 && offset % pageSize == 0
    ensures (offset + blocks * pageSize) % pageSize == 0
  {
    var q := offset / pageSize;
    assert offset == pageSize * q && blocks * pageSize == pageSize * blocks;
    assert pageSize * (q + blocks) == pageSize * q + pageSize * blocks;
    RemainderIs(offset + blocks * pageSize, pageSize, q + blocks, 0);
  }

  lemma PageStart(offset: nat, pageSize: nat)
    requires pageSize > 0 && pageSize % ALIGN == 0 && offset % pageSize == 0
    ensures offset / 4 * 4 == offset && BlockOf(offset, pageSize) == offset
  {
    WholeWords(offset, pageSize);
  }

  lemma WordsInBlock(c: nat, pageSize: nat, from: nat, to: nat)
    requires pageSize % ALIGN == 0 && c % ALIGN == 0 && c <= from && to <= c + pageSize
    ensures c <= from - from % ALIGN && WordEnd(to) <= c + pageSize
  {
    WordStart(from, c);
    WordEndBelow(to, c + pageSize);
  }

  lemma WordFits(at: nat, n: nat)
    requires at % ALIGN == 0 && n % ALIGN == 0 && at < n
    ensures at + 4 <= n
  {
  }

  /** A padded word programs the bytes it carries and leaves its neighbours alone. */
  lemma PaddedWord(mem: seq<bv8>, dataOffset: nat, src: seq<bv8>, from: nat, to: nat, at: nat, padding: nat,
                   chunk: seq<bv8>)
    requires dataOffset + |src| <= |mem| && from < to <= |src| && at + 4 <= |mem| && |chunk| == 4
    requires at + padding == dataOffset + from && padding + (to - from) <= 4
    requires forall i :: 0 <= i < 4 ==>
              chunk[i] == if padding <= i < padding + (to - from) then src[from + i - padding] else 0xff
    ensures Programmed(Programmed(mem, dataOffset, src[..from]), at, chunk) == Programmed(mem, dataOffset, src[..to])
  {
    hide Cleared;
    var once := Programmed(mem, dataOffset, src[..from]);
    var twice := Programmed(once, at, chunk);
    forall a | 0 <= a < |mem| ensures twice[a] == Programmed(mem, dataOffset, src[..to])[a] {
      if at <= a < at + 4 {
        ClearedByOnes(once[a]);
        assert twice[a] == Cleared(once[a], chunk[a - at]);
        assert dataOffset + from <= a < dataOffset + to ==> once[a] == mem[a] && chunk[a - at] == src[a - dataOffset];
      } else {
        assert twice[a] == once[a];
      }
    }
  }

  // ---- blocks --------------------------------------------------------------------------

  /** A block after its part of the data was written: as it was if that was there already, else erased around it. */
  function BlockWritten(mem: seq<bv8>, c: nat, blockSize: nat, off: nat, part: seq<bv8>): (r: seq<bv8>)
    requires off + |part| <= |mem|
    ensures |r| == |mem|
  {
    if mem[off..off + |part|] == part then mem
    else seq(|mem|, a requires 0 <= a < |mem| =>
               if off <= a < off + |part| then part[a - off] else if c <= a < c + blockSize then 0xff else mem[a])
  }

  lemma NothingChanged(mem: seq<bv8>, c: nat, blockSize: nat, off: nat, part: seq<bv8>)
    requires off + |part| <= |mem| && mem[off..off + |part|] == part
    ensures BlockWritten(mem, c, blockSize, off, part) == mem && SameOutside(mem, mem, c, c + blockSize)
  {
  }

  /** Programming an erased block writes the data as it is. */
  lemma EraseThenProgram(mem: seq<bv8>, c: nat, blockSize: nat, off: nat, part: seq<bv8>)
    requires c <= off && off + |part| <= c + blockSize <= |mem| && mem[off..off + |part|] != part
    ensures Programmed(Erased(mem, c, blockSize), off, part) == BlockWritten(mem, c, blockSize, off, part)
  {
    hide Cleared, Programmed, Erased, BlockWritten;
    var erased := Erased(mem, c, blockSize);
    forall a | 0 <= a < |mem|
      ensures Programmed(erased, off, part)[a] == BlockWritten(mem, c, blockSize, off, part)[a]
    {
      ProgrammedAt(erased, off, part, a);
      ErasedAt(mem, c, blockSize, a);
      BlockWrittenAt(mem, c, blockSize, off, part, a);
      if off <= a < off + |part| {
        ClearedByOnes(part[a - off]);
      }
    }
  }

  lemma ProgrammedAt(mem: seq<bv8>, at: nat, w: seq<bv8>, a: nat)
    requires at + |w| <= |mem| && a < |mem|
    ensures Programmed(mem, at, w)[a] == if at <= a < at + |w| then Cleared(mem[a], w[a - at]) else mem[a]
  {
  }

  lemma ErasedAt(mem: seq<bv8>, at: nat, n: nat, a: nat)
    requires a < |mem|
    ensures Erased(mem, at, n)[a] == if at <= a < at + n then 0xff else mem[a]
  {
  }

  predicate IsTarget(mem: seq<bv8>, mem': seq<bv8>, offset: int, src: seq<bv8>, blockSize: nat)
    requires blockSize > 0
  {
    |mem'| == |mem| && forall a :: 0 <= a < |mem| ==> mem'[a] == Target(mem, offset, src, blockSize, a)
  }

  /** All addresses before front hold what they are to hold, the others what they held. */
  predicate Progress(mem: seq<bv8>, mem': seq<bv8>, offset: int, src: seq<bv8>, blockSize: nat, front: nat)
    requires blockSize > 0
  {
    |mem'| == |mem|
    && forall a :: 0 <= a < |mem| ==> mem'[a] == if a < front then Target(mem, offset, src, blockSize, a) else mem[a]
  }

  lemma BlockOfUnique(a: nat, b: nat, blockSize: nat)
    requires blockSize > 0 && b % blockSize == 0 && b <= a < b + blockSize
    ensures BlockOf(a, blockSize) == b
  {
    assert b == blockSize * (b / blockSize);
    RemainderIs(a, blockSize, b / blockSize, a - b);
  }

  lemma NextBoundary(c: nat, blockSize: nat)
    requires blockSize > 0 && c % blockSize == 0
    ensures (c + blockSize) % blockSize == 0
  {
    assert c + blockSize == blockSize * (c / blockSize + 1);
    RemainderIs(c + blockSize, blockSize, c / blockSize + 1, 0);
  }

  lemma Widen(mem: seq<bv8>, mem': seq<bv8>, lo: int, hi: int, hi': int)
    requires SameOutside(mem, mem', lo, hi) && hi <= hi'
    ensures SameOutside(mem, mem', lo, hi')
  {
  }

  lemma NothingWritten(mem: seq<bv8>, mem': seq<bv8>, offset: int, src: seq<bv8>, blockSize: nat)
    requires blockSize > 0 && src == [] && IsTarget(mem, mem', offset, src, blockSize)
    ensures mem' == mem
  {
  }

  lemma BlockOfAligned(a: nat, blockSize: nat)
    requires blockSize > 0
    ensures BlockOf(a, blockSize) % blockSize == 0
  {
    assert BlockOf(a, blockSize) == blockSize * (a / blockSize);
    RemainderIs(BlockOf(a, blockSize), blockSize, a / blockSize, 0);
  }

  lemma BlockOfMonotone(a: nat, b: nat, blockSize: nat)
    requires blockSize > 0 && a <= b
    ensures BlockOf(a, blockSize) <= BlockOf(b, blockSize)
  {
    var p, q := BlockOf(a, blockSize), BlockOf(b, blockSize);
    if p > q {
      BlockOfAligned(a, blockSize);
      BlockOfAligned(b, blockSize);
      assert p == blockSize * (p / blockSize) && q == blockSize * (q / blockSize);
      if p / blockSize > q / blockSize {
        MultipleGrows(blockSize, q / blockSize, p / blockSize);
      } else {
        MultipleGrows(blockSize, p / blockSize - 1, q / blockSize);
      }
    }
  }

  lemma ProgressStart(mem: seq<bv8>, offset: nat, src: seq<bv8>, blockSize: nat)
    requires blockSize > 0
    ensures Progress(mem, mem, offset, src, blockSize, BlockOf(offset, blockSize))
  {
    var front := BlockOf(offset, blockSize);
    forall a | 0 <= a < |mem| && a < front ensures Target(mem, offset, src, blockSize, a) == mem[a] {
      BlockOfAligned(offset, blockSize);
      BlockBefore(a, front, blockSize);
    }
  }

  /** The block of an address before a block boundary ends there at the latest. */
  lemma BlockBefore(a: nat, front: nat, blockSize: nat)
    requires blockSize > 0 && front % blockSize == 0 && a < front
    ensures BlockOf(a, blockSize) + blockSize <= front
  {
    BlockOfAligned(a, blockSize);
    var b := BlockOf(a, blockSize);
    assert b == blockSize * (b / blockSize) && front == blockSize * (front / blockSize);
    if b / blockSize < front / blockSize {
      MultipleGrows(blockSize, b / blockSize, front / blockSize);
    } else if b / blockSize > front / blockSize {
      MultipleGrows(blockSize, front / blockSize, b / blockSize);
    }
  }

  /** Writing one block carries the progress over it. */
  lemma ProgressBlock(mem: seq<bv8>, now: seq<bv8>, offset: int, src: seq<bv8>, blockSize: nat, c: nat,
                      off: nat, n: nat)
    requires blockSize > 0 && c % blockSize == 0 && c + blockSize <= |mem|
    requires off == if offset < c then c else offset
    requires off + n == if offset + |src| < c + blockSize then offset + |src| else c + blockSize
    requires offset <= off && c <= off
    requires Progress(mem, now, offset, src, blockSize, c)
    ensures Progress(mem, BlockWritten(now, c, blockSize, off, src[off - offset..off - offset + n]), offset, src,
              blockSize, c + blockSize)
  {
    hide Target, BlockWritten;
    var part := src[off - offset..off - offset + n];
    var next := BlockWritten(now, c, blockSize, off, part);
    assert now[off..off + n] == mem[off..off + n];
    forall a | 0 <= a < |mem|
      ensures next[a] == if a < c + blockSize then Target(mem, offset, src, blockSize, a) else mem[a]
    {
      BlockWrittenAt(now, c, blockSize, off, part, a);
      if c <= a < c + blockSize {
        TargetInBlock(mem, offset, src, blockSize, c, off, n, a);
      }
    }
  }

  lemma BlockWrittenAt(mem: seq<bv8>, c: nat, blockSize: nat, off: nat, part: seq<bv8>, a: nat)
    requires off + |part| <= |mem| && c <= off && off + |part| <= c + blockSize && a < |mem|
    ensures BlockWritten(mem, c, blockSize, off, part)[a] ==
            if off <= a < off + |part| then part[a - off]
            else if c <= a < c + blockSize && mem[off..off + |part|] != part then 0xff else mem[a]
  {
    assert mem[off..off + |part|] == part && off <= a < off + |part| ==>
      mem[off..off + |part|][a - off] == part[a - off];
  }

  /** What the block at c is to hold at address a. */
  lemma TargetInBlock(mem: seq<bv8>, offset: int, src: seq<bv8>, blockSize: nat, c: nat, off: nat, n: nat, a: nat)
    requires blockSize > 0 && c % blockSize == 0 && c + blockSize <= |mem|
    requires off == if offset < c then c else offset
    requires off + n == if offset + |src| < c + blockSize then offset + |src| else c + blockSize
    requires offset <= off && c <= off && c <= a < c + blockSize
    ensures var part := src[off - offset..off - offset + n];
            Target(mem, offset, src, blockSize, a) ==
            if off <= a < off + n then part[a - off] else if mem[off..off + n] == part then mem[a] else 0xff
  {
    hide Dirty, BlockOf;
    DirtyBlock(mem, offset, src, blockSize, c, off, n);
    BlockOfUnique(a, c, blockSize);
  }

  lemma DirtyBlock(mem: seq<bv8>, offset: int, src: seq<bv8>, blockSize: nat, c: nat, off: nat, n: nat)
    requires c + blockSize <= |mem| && offset <= off && c <= off
    requires off == if offset < c then c else offset
    requires off + n == if offset + |src| < c + blockSize then offset + |src| else c + blockSize
    ensures Dirty(mem, offset, src, c, blockSize) <==> mem[off..off + n] != src[off - offset..off - offset + n]
  {
    var held, part := mem[off..off + n], src[off - offset..off - offset + n];
    if Dirty(mem, offset, src, c, blockSize) {
      var a := DirtyAddress(mem, offset, src, c, blockSize);
      assert held[a - off] == mem[a] && part[a - off] == src[a - offset];
    } else {
      hide Dirty;
      forall i | 0 <= i < n ensures held[i] == part[i] {
        assert held[i] == mem[off + i] && part[i] == src[off - offset + i];
        CleanAddress(mem, offset, src, c, blockSize, off + i);
      }
    }
  }

  lemma DirtyAddress(mem: seq<bv8>, offset: int, src: seq<bv8>, c: nat, blockSize: nat) returns (a: nat)
    requires Dirty(mem, offset, src, c, blockSize)
    ensures c <= a < c + blockSize && offset <= a < offset + |src| && a < |mem| && mem[a] != src[a - offset]
  {
    a :| c <= a < c + blockSize && offset <= a < offset + |src| && 0 <= a < |mem| && mem[a] != src[a - offset];
  }

  lemma CleanAddress(mem: seq<bv8>, offset: int, src: seq<bv8>, c: nat, blockSize: nat, a: nat)
    requires !Dirty(mem, offset, src, c, blockSize)
    requires c <= a < c + blockSize && offset <= a < offset + |src| && a < |mem|
    ensures mem[a] == src[a - offset]
  {
  }

  lemma ProgressDone(mem: seq<bv8>, now: seq<bv8>, offset: int, src: seq<bv8>, blockSize: nat, front: nat)
    requires blockSize > 0 && front % blockSize == 0 && offset + |src| <= front
    requires Progress(mem, now, offset, src, blockSize, front)
    ensures IsTarget(mem, now, offset, src, blockSize)
  {
    forall a | front <= a < |mem| ensures Target(mem, offset, src, blockSize, a) == mem[a] {
      assert BlockOf(a, blockSize) >= front by {
        BlockOfUnique(front, front, blockSize);
        BlockOfMonotone(front, a, blockSize);
      }
    }
  }
}
