/**
  The FatFs disk on serial NOR flash: sector writes by write-enable, erase, program and poll
  commands, over a device that ignores what it has not been enabled for or is too busy to do.
 */
module SpiNor {
  import opened Bytes
  import opened FlashCells
  import opened Pow2

  const CMD_FREAD: bv8 := 0x0b
  const CMD_WREN: bv8 := 0x06
  const CMD_ERASE: bv8 := 0x20
  const CMD_PROG: bv8 := 0x02

  const SECT_SIZE := 4096
  const PAGE_SIZE := 256
  /** What three address bytes can name. */
  const ADDRESSABLE := 0x100_0000

  function Byte(x: nat): bv8 {
    (x % 256) as bv8
  }

  /** The command bytes for an address, and the address a device reads from them. */
  function AddressBytes(addr: nat): seq<bv8> {
    [Byte(addr / 256 / 256), Byte(addr / 256), Byte(addr)]
  }

  function AddressOf(b1: bv8, b2: bv8, b3: bv8): nat {
    b1 as nat * 256 * 256 + b2 as nat * 256 + b3 as nat
  }

  lemma LowByteValue(x: nat)
    ensures Byte(x) as nat == x % 256
  {
    ByteValue(x % 256);
  }

  /** Addresses survive exactly if they fit in 24 bits. */
  lemma AddressArrives(addr: nat)
    ensures AddressOf(Byte(addr / 256 / 256), Byte(addr / 256), Byte(addr)) == addr % ADDRESSABLE
    ensures addr % ADDRESSABLE == addr <==> addr < ADDRESSABLE
  {
    hide Byte;
    var a1 := addr / 256;
    var a2 := a1 / 256;
    LowByteValue(addr);
    LowByteValue(a1);
    LowByteValue(a2);
    ThreeBytes(addr, a1, a2);
  }

  lemma ThreeBytes(a: nat, a1: nat, a2: nat)
    requires a1 == a / 256 && a2 == a1 / 256
    ensures a2 % 256 * 256 * 256 + a1 % 256 * 256 + a % 256 == a % ADDRESSABLE
    ensures a % ADDRESSABLE == a <==> a < ADDRESSABLE
  {
    var q := a2 / 256;
    var low := a2 % 256 * 256 * 256 + a1 % 256 * 256 + a % 256;
    assert a == ADDRESSABLE * q + low;
    RemainderIs(a, ADDRESSABLE, q, low);
  }

  /** Where in the device a 32-bit address lands: only its low 24 bits are sent. */
  function Lands(addr: nat): (r: nat)
    ensures r < ADDRESSABLE
  {
    addr % ADDRESSABLE
  }

  /** A sector boundary stays one, and the bytes of a sector stay together. */
  lemma LandsTogether(addr: nat, n: nat)
    requires addr % SECT_SIZE == 0 && n < SECT_SIZE
    ensures Lands(addr) % SECT_SIZE == 0 && Lands(addr + n) == Lands(addr) + n
  {
    var k, q, r := addr / SECT_SIZE, addr / ADDRESSABLE, addr % ADDRESSABLE;
    assert addr == SECT_SIZE * k && addr == ADDRESSABLE * q + r;
    RemainderIs(r, SECT_SIZE, k - 4096 * q, 0);
    assert r + SECT_SIZE <= ADDRESSABLE;
    RemainderIs(addr + n, ADDRESSABLE, q, r + n);
  }

  /** Wrapping at 32 bits does not change where an address lands. */
  lemma LandsWrapped(addr: nat)
    ensures Lands(addr % WORD) == Lands(addr)
  {
    var q := addr / WORD;
    var r := addr % WORD;
    assert addr == ADDRESSABLE * (256 * q + r / ADDRESSABLE) + r % ADDRESSABLE;
    RemainderIs(addr, ADDRESSABLE, 256 * q + r / ADDRESSABLE, r % ADDRESSABLE);
  }

  /** Page programming clears bits, and wraps around within its page. */
  function PageProgrammed(mem: seq<bv8>, at: nat, w: seq<bv8>): (r: seq<bv8>)
    requires |w| <= PAGE_SIZE
    ensures |r| == |mem|
  {
    var page := at - at % PAGE_SIZE;
    seq(|mem|, a requires 0 <= a < |mem| =>
          var k := (a - at) % PAGE_SIZE;
          if page <= a < page + PAGE_SIZE && k < |w| then Cleared(mem[a], w[k]) else mem[a])
  }

  class Nor {
    const data: array<bv8>
    /** Whether no transfer to the device ever fails. */
    const healthy: bool
    /** Write enable latch. */
    var enabled: bool
    /** Status reads until the operation in progress is over. */
    var busy: nat
    /** Bytes of a transfer that is still open because the next one is to be merged with it. */
    var open: seq<bv8>

    ghost predicate Valid()
      reads this
    {
      data.Length % SECT_SIZE == 0 && 0 < data.Length <= ADDRESSABLE
    }

    ghost predicate Idle()
      reads this
    {
      busy == 0 && open == []
    }

    /** What a finished transfer makes of the memory. */
    function Effect(mem: seq<bv8>, cmd: seq<bv8>): (r: seq<bv8>)
      requires |mem| == data.Length && Valid()
      reads this
      ensures |r| == |mem|
    {
      if !enabled || busy > 0 || |cmd| < 4 then mem else
      var addr := AddressOf(cmd[1], cmd[2], cmd[3]);
      if addr >= |mem| then mem
      else if cmd[0] == 0x20 && |cmd| == 4 then Erased(mem, addr - addr % SECT_SIZE, SECT_SIZE)
      else if cmd[0] == 0x02 && |cmd| <= 4 + PAGE_SIZE then PageProgrammed(mem, addr, cmd[4..])
      else mem
    }

    /** A transfer that only writes; it may fail, and then had no effect. */
    method Command(bytes: seq<bv8>, merge: bool) returns (result: int)
      requires Valid()
      modifies this, data
      ensures healthy ==> result >= 0
      ensures result < 0 ==> data[..] == old(data[..])
      ensures result >= 0 && merge ==>
                data[..] == old(data[..]) && open == old(open) + bytes && enabled == old(enabled) && busy == old(busy)
      ensures result >= 0 && !merge ==>
                var cmd := old(open) + bytes;
                && open == [] && data[..] == old(Effect(data[..], open + bytes))
                && (cmd == [0x06] ==> enabled == (old(enabled) || old(busy) == 0) && busy == old(busy))
      ensures Valid()
    {
      var fails: bool := *;
      if fails && !healthy {
        open := [];
        return -1;
      }
      result := 0;
      if merge {
        open := open + bytes;
        return;
      }
      var cmd := open + bytes;
      open := [];
      if cmd == [0x06] {
        enabled := enabled || busy == 0;
        return;
      }
      var after := Effect(data[..], cmd);
      forall a | 0 <= a < data.Length {
        data[a] := after[a];
      }
      if enabled && busy == 0 && |cmd| >= 4 && (cmd[0] == 0x20 || cmd[0] == 0x02) {
        enabled := false;
        busy := *;
      }
    }

    /** Reading two status bytes; time passes with every byte. */
    method ReadStatus() returns (result: int, sr: seq<bv8>)
      requires Valid()
      modifies this
      ensures healthy ==> result >= 0
      ensures result >= 0 ==> |sr| == 2 && open == []
      ensures result >= 0 ==> (sr[1] & 1 == 0 <==> busy == 0)
      ensures result >= 0 && old(busy) > 0 ==> busy < old(busy)
      ensures result >= 0 && old(busy) == 0 ==> busy == 0
      ensures Valid()
    {
      var fails: bool := *;
      if fails && !healthy {
        return -1, [];
      }
      open := [];
      var first: bv8 := if busy > 0 then 1 else 0;
      busy := if busy > 0 then busy - 1 else 0;
      result, sr := 0, [first, if busy > 0 then 1 else 0];
    }

    /** Reading on from an address; what it gives past the end of the device is open. */
    method ReadArray(cmd: seq<bv8>, n: nat) returns (result: int, got: seq<bv8>)
      requires Valid() && Idle()
      ensures healthy ==> result >= 0
      ensures result >= 0 ==> |got| == n
      ensures result >= 0 && |cmd| == 5 && cmd[0] == 0x0b
                && AddressOf(cmd[1], cmd[2], cmd[3]) + n <= data.Length ==>
                var addr := AddressOf(cmd[1], cmd[2], cmd[3]);
                got == data[addr..addr + n]
    {
      var fails: bool := *;
      if fails && !healthy {
        return -1, [];
      }
      var junk: nat -> bv8 := *;
      result, got := 0, seq(n, i requires 0 <= i => junk(i));
      if |cmd| == 5 && cmd[0] == 0x0b {
        var addr := AddressOf(cmd[1], cmd[2], cmd[3]);
        if addr + n <= data.Length {
          got := data[addr..addr + n];
        }
      }
    }

    // ---- the driver ----

    /** Write enable, then an erase or program command, then polling until it is over. */
    method Enable() returns (result: int)
      requires Valid() && Idle()
      modifies this, data
      ensures Valid() && data[..] == old(data[..])
      ensures result >= 0 ==> Idle() && enabled
      ensures healthy ==> result >= 0
    {
      assert open + [CMD_WREN] == [CMD_WREN];
      result := Command([CMD_WREN], false);
    }

    method WaitUntilDone() returns (result: int)
      requires Valid() && open == []
      modifies this
      ensures Valid()
      ensures result >= 0 ==> Idle()
      ensures healthy ==> result >= 0
    {
      while true
        invariant Valid() && open == []
        decreases busy
      {
        var sr;
        result, sr := ReadStatus();
        if result < 0 {
          return;
        }
        if sr[1] & 1 == 0 {
          return;
        }
      }
    }

    lemma EraseEffect(mem: seq<bv8>, addr: nat)
      requires Valid() && |mem| == data.Length && enabled && busy == 0 && addr % SECT_SIZE == 0
      ensures Effect(mem, [CMD_ERASE] + AddressBytes(addr)) == Erased(mem, Lands(addr), SECT_SIZE)
    {
      hide Byte;
      var cmd := [CMD_ERASE] + AddressBytes(addr);
      AddressArrives(addr);
      LandsTogether(addr, 0);
      assert cmd[0] == CMD_ERASE && [cmd[1], cmd[2], cmd[3]] == AddressBytes(addr);
    }

    lemma ProgramEffect(mem: seq<bv8>, addr: nat, page: seq<bv8>)
      requires Valid() && |mem| == data.Length && enabled && busy == 0
      requires Lands(addr) % PAGE_SIZE == 0 && |page| == PAGE_SIZE
      ensures Effect(mem, [CMD_PROG] + AddressBytes(addr) + page) == PageProgrammed(mem, Lands(addr), page)
    {
      hide Byte, Cleared;
      var cmd := [CMD_PROG] + AddressBytes(addr) + page;
      AddressArrives(addr);
      assert cmd[0] == CMD_PROG && [cmd[1], cmd[2], cmd[3]] == AddressBytes(addr);
      assert cmd[4..] == page;
    }

    /** The first pass of the page loop: erasing the sector. */
    method EraseSector(addr: nat) returns (result: int)
      requires Valid() && Idle() && addr % SECT_SIZE == 0
      modifies this, data
      ensures Valid()
      ensures result < 0 ==> data[..] == old(data[..]) || data[..] == Erased(old(data[..]), Lands(addr), SECT_SIZE)
      ensures result >= 0 ==> Idle() && data[..] == Erased(old(data[..]), Lands(addr), SECT_SIZE)
      ensures healthy ==> result >= 0
    {
      result := Enable();
      if result < 0 {
        return;
      }
      hide Effect, Erased, Lands;
      var wrcmd := [CMD_ERASE] + AddressBytes(addr);
      EraseEffect(data[..], addr);
      assert open + wrcmd == wrcmd && wrcmd != [CMD_WREN];
      result := Command(wrcmd, false);
      if result < 0 {
        return;
      }
      result := WaitUntilDone();
    }

    /** The other passes: programming one page. */
    method ProgramPage(addr: nat, page: seq<bv8>) returns (result: int)
      requires Valid() && Idle() && Lands(addr) % PAGE_SIZE == 0 && |page| == PAGE_SIZE
      modifies this, data
      ensures Valid()
      ensures result < 0 ==> data[..] == old(data[..]) || data[..] == PageProgrammed(old(data[..]), Lands(addr), page)
      ensures result >= 0 ==> Idle() && data[..] == PageProgrammed(old(data[..]), Lands(addr), page)
      ensures healthy ==> result >= 0
    {
      result := Enable();
      if result < 0 {
        return;
      }
      hide Effect, PageProgrammed, Lands;
      var wrcmd := [CMD_PROG] + AddressBytes(addr);
      result := Command(wrcmd, true);
      if result < 0 {
        return;
      }
      assert open == wrcmd;
      ProgramEffect(data[..], addr, page);
      assert wrcmd + page != [CMD_WREN];
      result := Command(page, false);
      if result < 0 {
        return;
      }
      result := WaitUntilDone();
    }

    /** One pass of the sector loop of epcs_fatfs_raw_write. */
    method WriteSector(addr: nat, sector: seq<bv8>) returns (result: int)
      requires Valid() && Idle() && addr % SECT_SIZE == 0 && |sector| == SECT_SIZE
      modifies this, data
      ensures Valid()
      ensures SameOutside(old(data[..]), data[..], Lands(addr), Lands(addr) + SECT_SIZE)
      ensures result >= 0 ==> Idle() && data[..] == Overwritten(old(data[..]), Lands(addr), sector)
      ensures healthy ==> result >= 0
    {
      hide Lands, Cleared;
      ghost var was := data[..];
      LandsTogether(addr, 0);
      result := EraseSector(addr);
      if result < 0 {
        return;
      }
      var page := 0;
      assert data[..] == Partial(was, Lands(addr), sector, 0);
      while page < SECT_SIZE / PAGE_SIZE
        invariant 0 <= page <= 16 && Valid() && Idle()
        invariant data[..] == Partial(was, Lands(addr), sector, page * PAGE_SIZE)
      {
        var n := page * PAGE_SIZE;
        NextPage(was, Lands(addr), sector, n);
        LandsTogether(addr, n);
        result := ProgramPage(addr + n, sector[n..n + PAGE_SIZE]);
        if result < 0 {
          return;
        }
        page := page + 1;
      }
      result := 0;
      assert data[..] == Overwritten(was, Lands(addr), sector);
    }

    /** The sector at a 32-bit address, which stands for the unwrapped address at, and the next address. */
    method WriteNext(addr: nat, sector: seq<bv8>, ghost at: nat) returns (result: int, next: nat)
      requires Valid() && Idle() && Addresses(addr, at) && |sector| == SECT_SIZE
      modifies this, data
      ensures Valid() && Addresses(next, at + SECT_SIZE)
      ensures SameOutside(old(data[..]), data[..], Lands(at), Lands(at) + SECT_SIZE)
      ensures result >= 0 ==> Idle() && data[..] == Overwritten(old(data[..]), Lands(at), sector)
      ensures healthy ==> result >= 0
    {
      hide Lands, Overwritten, SameOutside;
      SectorAligned(at);
      LandsWrapped(at);
      result := WriteSector(addr, sector);
      next := (addr + SECT_SIZE) % WORD;
    }

    /** epcs_fatfs_raw_write: whole sectors, as many as the data fills, on a wrapping 32-bit address. */
    method RawWrite(offset: nat, buf: seq<bv8>) returns (result: int)
      requires Valid() && Idle() && offset % SECT_SIZE == 0 && offset < WORD
      modifies this, data
      ensures Valid() && (result == 0 || result == -1)
      ensures SameBeyond(old(data[..]), data[..], offset, WholeSectors(|buf|))
      ensures result == 0 ==> Idle() && data[..] == Poured(old(data[..]), offset, buf)
      ensures healthy ==> result == 0
    {
      AddressesItself(offset);
      hide Addresses, Lands, Overwritten, SameBeyond, SameOutside, Poured, WholeSectors;
      ghost var was := data[..];
      ghost var total := WholeSectors(|buf|);
      SectorCount(|buf|);
      var count := |buf| / SECT_SIZE;
      var addr := offset;
      var buff := 0;
      SameBeyondNothing(was, offset);
      assert buf[0..] == buf;
      while count > 0
        invariant Valid() && Idle() && 0 <= buff && 0 <= count && buff + count * SECT_SIZE == total
        invariant Addresses(addr, offset + buff)
        invariant Poured(data[..], offset + buff, buf[buff..]) == Poured(was, offset, buf)
        invariant SameBeyond(was, data[..], offset, buff)
      {
        ghost var before := data[..];
        var r;
        r, addr := WriteNext(addr, buf[buff..buff + SECT_SIZE], offset + buff);
        if r < 0 {
          SameBeyondMore(was, before, data[..], offset, buff, total);
          return -1;
        }
        SameBeyondMore(was, before, data[..], offset, buff, buff + SECT_SIZE);
        PouredStep(before, offset + buff, buf, buff);
        buff := buff + SECT_SIZE;
        count := count - 1;
      }
      PouredNothing(data[..], offset + buff, buf[buff..]);
      return 0;
    }
  }

  lemma SectorCount(n: nat)
    ensures n / SECT_SIZE * SECT_SIZE == WholeSectors(n) <= n < WholeSectors(n) + SECT_SIZE
  {
  }

  lemma PouredStep(mem: seq<bv8>, offset: nat, buf: seq<bv8>, k: nat)
    requires k + SECT_SIZE <= |buf|
    ensures Poured(mem, offset, buf[k..]) ==
            Poured(Overwritten(mem, Lands(offset), buf[k..k + SECT_SIZE]), offset + SECT_SIZE, buf[k + SECT_SIZE..])
  {
    hide Overwritten, Lands;
    assert buf[k..][..SECT_SIZE] == buf[k..k + SECT_SIZE];
    assert buf[k..][SECT_SIZE..] == buf[k + SECT_SIZE..];
  }

  /** A 32-bit address of a sector, and the address it would be without wrapping. */
  predicate Addresses(addr: nat, at: nat) {
    at % SECT_SIZE == 0 && addr == at % WORD
  }

  lemma AddressesItself(addr: nat)
    requires addr % SECT_SIZE == 0 && addr < WORD
    ensures Addresses(addr, addr)
  {
  }

  lemma SectorAligned(at: nat)
    requires at % SECT_SIZE == 0
    ensures at % WORD % SECT_SIZE == 0 && (at + SECT_SIZE) % SECT_SIZE == 0
    ensures (at % WORD + SECT_SIZE) % WORD == (at + SECT_SIZE) % WORD
  {
    var k, q, r := at / SECT_SIZE, at / WORD, at % WORD;
    assert at == SECT_SIZE * k && at == WORD * q + r;
    RemainderIs(r, SECT_SIZE, k - 0x10_0000 * q, 0);
    RemainderIs(at + SECT_SIZE, SECT_SIZE, k + 1, 0);
    if r + SECT_SIZE < WORD {
      RemainderIs(at + SECT_SIZE, WORD, q, r + SECT_SIZE);
    } else {
      RemainderIs(at + SECT_SIZE, WORD, q + 1, r + SECT_SIZE - WORD);
    }
  }

  /** Sector after sector written where its address lands. */
  function Poured(mem: seq<bv8>, offset: nat, buf: seq<bv8>): (r: seq<bv8>)
    ensures |r| == |mem|
    decreases |buf|
  {
    if |buf| < SECT_SIZE then mem
    else Poured(Overwritten(mem, Lands(offset), buf[..SECT_SIZE]), offset + SECT_SIZE, buf[SECT_SIZE..])
  }

  /** As long as the addresses do not leave the 24 bits, that is one array update. */
  lemma {:induction false} PouredIsOverwritten(mem: seq<bv8>, offset: nat, buf: seq<bv8>)
    requires Lands(offset) + |buf| <= ADDRESSABLE && |buf| % SECT_SIZE == 0
    ensures Poured(mem, offset, buf) == Overwritten(mem, Lands(offset), buf)
    decreases |buf|
  {
    if buf == [] {
      assert Overwritten(mem, Lands(offset), buf) == mem;
    } else {
      var at, rest := Lands(offset), buf[SECT_SIZE..];
      if rest == [] {
        assert buf[..SECT_SIZE] == buf;
      } else {
        RemainderIs(offset + SECT_SIZE, ADDRESSABLE, offset / ADDRESSABLE, at + SECT_SIZE);
        PouredIsOverwritten(Overwritten(mem, at, buf[..SECT_SIZE]), offset + SECT_SIZE, rest);
        OverwriteOn(mem, at, buf, SECT_SIZE, |rest|);
        assert buf[..SECT_SIZE + |rest|] == buf && buf[SECT_SIZE..SECT_SIZE + |rest|] == rest;
      }
    }
  }

  /** mem' is mem except where n bytes from offset on may land. */
  predicate SameBeyond(mem: seq<bv8>, mem': seq<bv8>, offset: nat, n: nat) {
    |mem'| == |mem| && forall a :: 0 <= a < |mem| && (a - offset) % ADDRESSABLE >= n ==> mem'[a] == mem[a]
  }

  lemma SameBeyondNothing(mem: seq<bv8>, offset: nat)
    ensures SameBeyond(mem, mem, offset, 0)
  {
  }

  lemma SameBeyondMore(was: seq<bv8>, before: seq<bv8>, now: seq<bv8>, offset: nat, n: nat, total: nat)
    requires SameBeyond(was, before, offset, n) && n + SECT_SIZE <= total
    requires SameOutside(before, now, Lands(offset + n), Lands(offset + n) + SECT_SIZE)
    ensures SameBeyond(was, now, offset, total)
  {
    forall a | 0 <= a < |was| && (a - offset) % ADDRESSABLE >= total ensures now[a] == was[a] {
      if Lands(offset + n) <= a < Lands(offset + n) + SECT_SIZE {
        DistanceIn(offset, n, a);
        assert false;
      }
    }
  }

  /** A byte of the sector n bytes further on is at most that far away, counted in 24 bits. */
  lemma DistanceIn(offset: nat, n: nat, a: nat)
    requires Lands(offset + n) <= a < Lands(offset + n) + SECT_SIZE
    ensures (a - offset) % ADDRESSABLE < n + SECT_SIZE
  {
    var q := (offset + n) / ADDRESSABLE;
    var x := n + (a - Lands(offset + n));
    assert offset + n == ADDRESSABLE * q + Lands(offset + n);
    assert a - offset == ADDRESSABLE * (x / ADDRESSABLE - q) + x % ADDRESSABLE;
    RemainderIs(a - offset, ADDRESSABLE, x / ADDRESSABLE - q, x % ADDRESSABLE);
  }

  /** Inside the 24 bits this is the usual frame. */
  lemma SameBeyondIsOutside(mem: seq<bv8>, mem': seq<bv8>, offset: nat, n: nat)
    requires SameBeyond(mem, mem', offset, n) && offset + n <= ADDRESSABLE && |mem| <= ADDRESSABLE
    ensures SameOutside(mem, mem', offset, offset + n)
  {
    forall a | 0 <= a < |mem| && !(offset <= a < offset + n) ensures mem'[a] == mem[a] {
      if a < offset {
        RemainderIs(a - offset, ADDRESSABLE, -1, a - offset + ADDRESSABLE);
      } else {
        RemainderIs(a - offset, ADDRESSABLE, 0, a - offset);
      }
    }
  }

  /** The bytes that fill whole sectors. */
  function WholeSectors(n: nat): (r: nat)
    ensures r <= n
  {
    n / SECT_SIZE * SECT_SIZE
  }

  function Overwritten(mem: seq<bv8>, at: nat, w: seq<bv8>): (r: seq<bv8>)
    ensures |r| == |mem|
  {
    seq(|mem|, a requires 0 <= a < |mem| => if at <= a < at + |w| then w[a - at] else mem[a])
  }

  /** A sector of which the first n bytes are programmed and the rest is erased. */
  function Partial(mem: seq<bv8>, addr: nat, sector: seq<bv8>, n: nat): (r: seq<bv8>)
    requires n <= |sector| == SECT_SIZE
    ensures |r| == |mem|
  {
    seq(|mem|, a requires 0 <= a < |mem| =>
          if addr <= a < addr + n then sector[a - addr] else if addr + n <= a < addr + SECT_SIZE then 0xff else mem[a])
  }

  /** Programming the next page of an erased rest of a sector writes just that page. */
  lemma NextPage(mem: seq<bv8>, addr: nat, sector: seq<bv8>, n: nat)
    requires addr % SECT_SIZE == 0 && |sector| == SECT_SIZE && n % PAGE_SIZE == 0 && n + PAGE_SIZE <= SECT_SIZE
    ensures (addr + n) % PAGE_SIZE == 0
    ensures PageProgrammed(Partial(mem, addr, sector, n), addr + n, sector[n..n + PAGE_SIZE])
            == Partial(mem, addr, sector, n + PAGE_SIZE)
  {
    hide Cleared;
    var at := addr + n;
    assert at % PAGE_SIZE == 0;
    var before := Partial(mem, addr, sector, n);
    var after := PageProgrammed(before, at, sector[n..n + PAGE_SIZE]);
    var goal := Partial(mem, addr, sector, n + PAGE_SIZE);
    forall a | 0 <= a < |mem| ensures after[a] == goal[a] {
      if at <= a < at + PAGE_SIZE {
        assert (a - at) % PAGE_SIZE == a - at;
        assert before[a] == 0xff;
        ClearedByOnes(sector[a - addr]);
      }
    }
  }

  lemma OverwriteOn(mem: seq<bv8>, at: nat, w: seq<bv8>, n: nat, k: nat)
    requires n + k <= |w|
    ensures Overwritten(Overwritten(mem, at, w[..n]), at + n, w[n..n + k]) == Overwritten(mem, at, w[..n + k])
  {
  }

  // ---- the disk ------------------------------------------------------------------------

  datatype DResult = RES_OK | RES_ERROR | RES_PARERR

  class Disk {
    const nor: Nor
    /** The disk is the part of the flash between these sectors. */
    const startSector: nat
    const endSector: nat

    /** EPCS_disk_initialize, for a flash of known size; the disk is unusable if nothing is left of it. */
    constructor (nor: Nor, flashStart: nat)
      requires nor.Valid()
      ensures this.nor == nor && startSector == (flashStart + SECT_SIZE - 1) / SECT_SIZE
      ensures Valid() <==> startSector * SECT_SIZE < nor.data.Length
    {
      this.nor := nor;
      startSector := (flashStart + SECT_SIZE - 1) / SECT_SIZE;
      endSector := nor.data.Length / SECT_SIZE;
    }

    ghost predicate Valid()
      reads this, nor
    {
      nor.Valid() && startSector < endSector && endSector * SECT_SIZE == nor.data.Length
    }

    function Sectors(): seq<bv8>
      reads nor.data
    {
      nor.data[..]
    }

    /** EPCS_disk_write, for every 32-bit sector and count whose length in bytes is not negative as a C int. */
    method Write(buff: seq<bv8>, sector: nat, count: nat) returns (res: DResult)
      requires Valid() && nor.Idle() && |buff| == count * SECT_SIZE && sector < WORD && count < WORD
      requires Length(count) >= 0
      modifies nor, nor.data
      ensures Valid()
      ensures res == RES_PARERR <==> Refused(startSector, endSector, sector, count)
      ensures nor.healthy && !Refused(startSector, endSector, sector, count) ==> res == RES_OK
      ensures res == RES_PARERR ==> Sectors() == old(Sectors())
      ensures res == RES_OK ==>
                nor.Idle() && Sectors() == Poured(old(Sectors()), Offset(sector), buff[..Length(count)])
      ensures SameBeyond(old(Sectors()), Sectors(), Offset(sector), Length(count))
      ensures startSector + sector + count <= endSector ==>
                && SameOutside(old(Sectors()), Sectors(), Offset(sector), Offset(sector) + |buff|)
                && (res == RES_OK ==> Sectors() == Overwritten(old(Sectors()), Offset(sector), buff))
    {
      hide Refused, Poured, SameBeyond, SameOutside, Overwritten;
      res := WriteWhereItLands(buff, sector, count);
      if startSector + sector + count <= endSector {
        OnDisk(sector, count);
        assert buff[..Length(count)] == buff;
        WriteOnDisk(old(Sectors()), Sectors(), buff, sector, count);
      }
    }

    /** What it does, stated by where the addresses land. */
    method WriteWhereItLands(buff: seq<bv8>, sector: nat, count: nat) returns (res: DResult)
      requires Valid() && nor.Idle() && |buff| == count * SECT_SIZE && sector < WORD && count < WORD
      requires Length(count) >= 0
      modifies nor, nor.data
      ensures Valid()
      ensures res == RES_PARERR <==> Refused(startSector, endSector, sector, count)
      ensures nor.healthy && !Refused(startSector, endSector, sector, count) ==> res == RES_OK
      ensures res == RES_PARERR ==> Sectors() == old(Sectors())
      ensures res == RES_OK ==>
                nor.Idle() && Sectors() == Poured(old(Sectors()), Offset(sector), buff[..Length(count)])
      ensures SameBeyond(old(Sectors()), Sectors(), Offset(sector), Length(count))
    {
      hide Poured, SameBeyond, Lands;
      var s := (sector + startSector) % WORD;
      var len := Length(count);
      if (s + count) % WORD > endSector {
        SameBeyondItself(nor.data[..], Offset(sector), len);
        return RES_PARERR;
      }
      LengthFits(count);
      DriverOffset(sector + startSector);
      LandsAlike(nor.data[..], s * SECT_SIZE % WORD, Offset(sector), buff[..len]);
      ghost var was := nor.data[..];
      var result := nor.RawWrite(s * SECT_SIZE % WORD, buff[..len]);
      SameBeyondAlike(was, nor.data[..], s * SECT_SIZE % WORD, Offset(sector), len);
      if result < 0 {
        return RES_ERROR;
      }
      return RES_OK;
    }

    /** The address of a sector of the disk, as a number. */
    function Offset(sector: nat): nat {
      (startSector + sector) * SECT_SIZE
    }

    /** EPCS_disk_read, for the same range. */
    method Read(sector: nat, count: nat) returns (res: DResult, buff: seq<bv8>)
      requires Valid() && nor.Idle() && sector < WORD && count < WORD && Length(count) >= 0
      ensures res == RES_PARERR <==> Refused(startSector, endSector, sector, count)
      ensures nor.healthy && !Refused(startSector, endSector, sector, count) ==> res == RES_OK
      ensures res == RES_OK ==> |buff| == Length(count)
      ensures res == RES_OK && Lands(Offset(sector)) + |buff| <= nor.data.Length ==>
                buff == nor.data[Lands(Offset(sector))..Lands(Offset(sector)) + |buff|]
    {
      hide Byte, AddressOf, Lands;
      var s := (sector + startSector) % WORD;
      if (s + count) % WORD > endSector {
        return RES_PARERR, [];
      }
      DriverOffset(sector + startSector);
      var offset := s * SECT_SIZE % WORD;
      var cmd := [CMD_FREAD] + AddressBytes(offset) + [0xff];
      AddressArrives(offset);
      assert [cmd[1], cmd[2], cmd[3]] == AddressBytes(offset);
      assert AddressOf(cmd[1], cmd[2], cmd[3]) == Lands(offset) by {
        assert AddressOf(cmd[1], cmd[2], cmd[3]) == offset % ADDRESSABLE;
        LandsIs(offset);
      }
      var result;
      result, buff := nor.ReadArray(cmd, Length(count));
      if result < 0 {
        return RES_ERROR, [];
      }
      return RES_OK, buff;
    }

    /** A sector on the disk lands at its own address, inside the device. */
    lemma OnDisk(sector: nat, count: nat)
      requires Valid() && startSector + sector + count <= endSector
      ensures count > 0 ==> Lands(Offset(sector)) == Offset(sector)
      ensures Offset(sector) + count * SECT_SIZE <= endSector * SECT_SIZE == nor.data.Length <= ADDRESSABLE
      ensures Length(count) == count * SECT_SIZE
    {
    }

    /** On the disk, a write is exactly that array update and touches nothing else. */
    lemma WriteOnDisk(was: seq<bv8>, now: seq<bv8>, buff: seq<bv8>, sector: nat, count: nat)
      requires Valid() && startSector + sector + count <= endSector
      requires |was| == nor.data.Length && |buff| == count * SECT_SIZE
      ensures !Refused(startSector, endSector, sector, count)
      ensures Poured(was, Offset(sector), buff) == Overwritten(was, Offset(sector), buff)
      ensures SameBeyond(was, now, Offset(sector), |buff|) ==>
                SameOutside(was, now, Offset(sector), Offset(sector) + |buff|)
    {
      hide Lands, SameBeyond, SameOutside, Poured;
      OnDisk(sector, count);
      if count > 0 {
        PouredIsOverwritten(was, Offset(sector), buff);
      } else {
        PouredNothing(was, Offset(sector), buff);
      }
      if SameBeyond(was, now, Offset(sector), |buff|) {
        SameBeyondIsOutside(was, now, Offset(sector), |buff|);
      }
    }

    /** A write and a read of the same sectors: if both succeed, the data come back. */
    method WriteAndRead(buff: seq<bv8>, sector: nat, count: nat) returns (wrote: DResult, read: DResult, got: seq<bv8>)
      requires Valid() && nor.Idle() && |buff| == count * SECT_SIZE && sector < WORD && count < WORD
      requires Length(count) >= 0
      modifies nor, nor.data
      ensures wrote == RES_OK && read == RES_OK && Lands(Offset(sector)) + Length(count) <= nor.data.Length ==>
                got == buff[..Length(count)]
      ensures nor.healthy && !Refused(startSector, endSector, sector, count) ==> wrote == RES_OK && read == RES_OK
      ensures startSector + sector + count <= endSector && count > 0 ==>
                Length(count) == |buff| && Lands(Offset(sector)) + |buff| <= nor.data.Length
    {
      hide Lands, Poured, Overwritten, SameBeyond;
      read, got := RES_ERROR, [];
      if startSector + sector + count <= endSector && count > 0 {
        OnDisk(sector, count);
      }
      LengthFits(count);
      ghost var was := nor.data[..];
      wrote := Write(buff, sector, count);
      if wrote == RES_OK {
        read, got := Read(sector, count);
        if Lands(Offset(sector)) + Length(count) <= nor.data.Length {
          PouredIsOverwritten(was, Offset(sector), buff[..Length(count)]);
          ReadsBackWritten(was, Lands(Offset(sector)), buff[..Length(count)]);
        }
      }
    }
  }

  /** The length in bytes the disk functions pass on: a 32-bit shift, read as a C int. */
  function Length(count: nat): int {
    Wrap32(count * SECT_SIZE)
  }

  lemma LengthFits(count: nat)
    ensures Length(count) <= count * SECT_SIZE && (Length(count) >= 0 ==> Length(count) % SECT_SIZE == 0)
  {
    var x := count * SECT_SIZE;
    var q, r := x / WORD, x % WORD;
    assert x == WORD * q + r;
    assert r == SECT_SIZE * (count - 0x10_0000 * q);
    RemainderIs(r, SECT_SIZE, count - 0x10_0000 * q, 0);
  }

  lemma LandsIs(addr: nat)
    ensures Lands(addr) == addr % ADDRESSABLE
  {
  }

  lemma PouredNothing(mem: seq<bv8>, offset: nat, buf: seq<bv8>)
    requires |buf| < SECT_SIZE
    ensures Poured(mem, offset, buf) == mem && (buf == [] ==> Overwritten(mem, offset, buf) == mem)
  {
  }

  lemma SameBeyondItself(mem: seq<bv8>, offset: nat, n: nat)
    ensures SameBeyond(mem, mem, offset, n)
  {
  }

  /** The 32-bit product of a 32-bit sum lands where the unwrapped product does. */
  lemma DriverOffset(sector: nat)
    ensures var offset := sector % WORD * SECT_SIZE % WORD;
            offset < WORD && offset % SECT_SIZE == 0 && Lands(offset) == Lands(sector * SECT_SIZE)
  {
    var r, q := sector % WORD, sector / WORD;
    LandsWrapped(r * SECT_SIZE);
    var x := r * SECT_SIZE;
    assert sector * SECT_SIZE == ADDRESSABLE * (256 * SECT_SIZE * q + x / ADDRESSABLE) + x % ADDRESSABLE;
    RemainderIs(sector * SECT_SIZE, ADDRESSABLE, 256 * SECT_SIZE * q + x / ADDRESSABLE, x % ADDRESSABLE);
  }

  /** What is poured depends only on where the offset lands. */
  lemma {:induction false} LandsAlike(mem: seq<bv8>, x: nat, y: nat, buf: seq<bv8>)
    requires Lands(x) == Lands(y)
    ensures Poured(mem, x, buf) == Poured(mem, y, buf)
    decreases |buf|
  {
    if |buf| >= SECT_SIZE {
      StepAlike(x, y);
      LandsAlike(Overwritten(mem, Lands(x), buf[..SECT_SIZE]), x + SECT_SIZE, y + SECT_SIZE, buf[SECT_SIZE..]);
    }
  }

  lemma StepAlike(x: nat, y: nat)
    requires Lands(x) == Lands(y)
    ensures Lands(x + SECT_SIZE) == Lands(y + SECT_SIZE)
  {
    NextLanding(x);
    NextLanding(y);
  }

  lemma NextLanding(x: nat)
    ensures Lands(x + SECT_SIZE) == if Lands(x) + SECT_SIZE < ADDRESSABLE then Lands(x) + SECT_SIZE
              else Lands(x) + SECT_SIZE - ADDRESSABLE
  {
  }

  lemma SameBeyondAlike(mem: seq<bv8>, mem': seq<bv8>, x: nat, y: nat, n: nat)
    requires Lands(x) == Lands(y) && SameBeyond(mem, mem', x, n)
    ensures SameBeyond(mem, mem', y, n)
  {
    forall a | 0 <= a < |mem| && (a - y) % ADDRESSABLE >= n ensures mem'[a] == mem[a] {
      DistanceAlike(a, x, y);
    }
  }

  lemma DistanceAlike(a: nat, x: nat, y: nat)
    requires Lands(x) == Lands(y)
    ensures (a - x) % ADDRESSABLE == (a - y) % ADDRESSABLE
  {
  }

  lemma ReadsBackWritten(mem: seq<bv8>, at: nat, w: seq<bv8>)
    requires at + |w| <= |mem|
    ensures Overwritten(mem, at, w)[at..at + |w|] == w
  {
  }

  /** The driver's test whether a request lies behind the end of the disk, in 32-bit sums. */
  predicate Refused(start: nat, end: nat, sector: nat, count: nat) {
    ((sector + start) % WORD + count) % WORD > end
  }

  /**
    Exactly when that test is right: it refuses just the requests that reach past the end if
    and only if the sum of start, sector and count does not wrap, or wraps to behind the end.
   */
  lemma RefusalIsExact(start: nat, end: nat, sector: nat, count: nat)
    requires start < WORD && end < WORD && sector < WORD && count < WORD
    ensures (Refused(start, end, sector, count) <==> start + sector + count > end)
            <==> start + sector + count < WORD || (start + sector + count) % WORD > end
  {
  }

  /**
    For instance, one sector at 2^32 - 17 of a disk that starts at 16 is not refused: its
    address lands in the last sector of a 16 MiB device.
   */
  lemma LastSectorIsNotRefused(end: nat)
    requires 16 < end < WORD
    ensures var sector, count := WORD - 17, 1;
            && !Refused(16, end, sector, count) && 16 + sector + count > end
            && Lands((16 + sector) * SECT_SIZE) == ADDRESSABLE - SECT_SIZE
  {
    assert (16 + (WORD - 17)) * SECT_SIZE == ADDRESSABLE * (256 * SECT_SIZE - 1) + (ADDRESSABLE - SECT_SIZE);
  }

  /** With a start above sector 0, another request that is not refused lands in sector 0, below the disk. */
  lemma FirstSectorIsNotRefused(start: nat, end: nat)
    requires 0 < start < end < WORD
    ensures var sector, count := WORD - start, 1;
            && !Refused(start, end, sector, count) && start + sector + count > end
            && Lands((start + sector) * SECT_SIZE) == 0
  {
    assert (start + (WORD - start)) * SECT_SIZE == ADDRESSABLE * (256 * SECT_SIZE);
    RemainderIs(WORD * SECT_SIZE, ADDRESSABLE, 256 * SECT_SIZE, 0);
  }

  /** And a request for 2^20 sectors up to the end of the 32-bit range is accepted with length 0: nothing is written. */
  lemma LongRequestWritesNothing(mem: seq<bv8>, start: nat, end: nat, buff: seq<bv8>)
    requires start < end < WORD && start <= WORD - 0x10_0000
    ensures var sector, count := WORD - 0x10_0000 - start, 0x10_0000;
            && !Refused(start, end, sector, count) && start + sector + count > end && Length(count) == 0
            && Poured(mem, (start + sector) * SECT_SIZE, buff[..Length(count)]) == mem
  {
  }
}
