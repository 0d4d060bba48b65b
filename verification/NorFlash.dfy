/** The on-chip flash driver, drivers/drv_flash_f4.c, over NOR cells.

    Programming a NOR cell can only clear bits; only an erase sets them.  The
    HAL calls are stubs that behave so and may fail part-way.  `healthy` is the
    environment's choice for one call: true when the hardware works throughout. */
module NorFlash {

  type byte = bv8

  const ROM_START: nat := 0x0800_0000
  const ROM_SIZE: nat := 0x10_0000
  const ROM_END: nat := ROM_START + ROM_SIZE
  const WORD_LIMIT: nat := 0x1_0000_0000
  const RT_ERROR: int := 1
  const RT_EINVAL: int := 10
  const ERASED: byte := 0xFF

  // --- What programming can do to a cell ---------------------------------

  /** Programming d over was can leave now: it clears only bits that d has
      clear, and it may have cleared just some of them. */
  ghost predicate Between(was: byte, d: byte, now: byte) {
    now & (was & d) == was & d && now | was == was
  }

  /** The NOR cell after programming d, where the bits of stuck fail to clear. */
  function Programmed(was: byte, d: byte, stuck: byte): byte {
    was & (d | stuck)
  }

  /** d can be programmed over was: it asks for no bit to be set. */
  ghost predicate Programmable(was: byte, d: byte) {
    was & d == d
  }

  /** A write of data at offset `at` of memory: nothing outside the range
      changes, inside each cell is between its old value and the new data. */
  ghost predicate Touched(was: seq<byte>, now: seq<byte>, at: nat, data: seq<byte>) {
    && |now| == |was|
    && at + |data| <= |was|
    && (forall a :: 0 <= a < |was| && !(at <= a < at + |data|) ==> now[a] == was[a])
    && (forall a :: at <= a < at + |data| ==> Between(was[a], data[a - at], now[a]))
  }

  /** No cell of the range would need a bit set. */
  ghost predicate AllProgrammable(was: seq<byte>, at: nat, data: seq<byte>)
    requires at + |data| <= |was|
  {
    forall a :: at <= a < at + |data| ==> Programmable(was[a], data[a - at])
  }

  /** Working hardware clears every bit that data has clear. */
  ghost predicate Cleared(was: seq<byte>, now: seq<byte>, at: nat, data: seq<byte>) {
    && |now| == |was|
    && at + |data| <= |was|
    && forall a :: at <= a < at + |data| ==> now[a] == Programmed(was[a], data[a - at], 0)
  }

  lemma BetweenLaws(was: byte, d: byte, stuck: byte)
    ensures Between(was, d, was)
    ensures Between(was, d, Programmed(was, d, stuck))
  {
  }

  // --- Program log ---------------------------------------------------------

  /** One attempted program, and whether the HAL reported it done. */
  datatype Program = Program(address: nat, width: nat, ok: bool)

  ghost predicate AllReported(ps: seq<Program>) {
    forall i :: 0 <= i < |ps| ==> ps[i].ok
  }

  /** The programs cover [from, to) in order, without gap or overlap, each
      naturally aligned. */
  ghost predicate Tiles(ps: seq<Program>, from: nat, to: nat)
    decreases |ps|
  {
    if ps == [] then from == to
    else
      var p := ps[|ps| - 1];
      && (p.width == 1 || p.width == 2 || p.width == 4)
      && p.address % p.width == 0
      && p.address + p.width == to
      && Tiles(ps[..|ps| - 1], from, p.address)
  }

  lemma {:induction false} TilesSpan(ps: seq<Program>, from: nat, to: nat, i: nat)
    requires Tiles(ps, from, to) && i < |ps|
    ensures from <= ps[i].address && ps[i].address + ps[i].width <= to
    decreases |ps|
  {
    var q := ps[..|ps| - 1];
    if i < |q| {
      TilesSpan(q, from, ps[|q|].address, i);
    } else if q != [] {
      TilesSpan(q, from, ps[|q|].address, 0);
    }
  }

  /** No two attempted programs of one write overlap, and all are aligned. */
  lemma {:induction false} TilesDisjointAligned(ps: seq<Program>, from: nat, to: nat, i: nat, j: nat)
    requires Tiles(ps, from, to) && i < j < |ps|
    ensures ps[i].address + ps[i].width <= ps[j].address
    ensures ps[i].width in {1, 2, 4} && ps[i].address % ps[i].width == 0
    decreases |ps|
  {
    var q := ps[..|ps| - 1];
    if j < |q| {
      TilesDisjointAligned(q, from, ps[|q|].address, i, j);
    } else {
      TilesSpan(q, from, ps[|q|].address, i);
      TilesWidth(q, from, ps[|q|].address, i);
    }
  }

  lemma {:induction false} TilesWidth(ps: seq<Program>, from: nat, to: nat, i: nat)
    requires Tiles(ps, from, to) && i < |ps|
    ensures ps[i].width in {1, 2, 4} && ps[i].address % ps[i].width == 0
    decreases |ps|
  {
    if i < |ps| - 1 { TilesWidth(ps[..|ps| - 1], from, ps[|ps| - 1].address, i); }
  }

  lemma TilesSnoc(ps: seq<Program>, from: nat, to: nat, p: Program)
    requires Tiles(ps, from, to) && p.address == to
    requires (p.width == 1 || p.width == 2 || p.width == 4) && p.address % p.width == 0
    ensures Tiles(ps + [p], from, to + p.width)
  {
    assert (ps + [p])[..|ps|] == ps;
  }

  // --- Sectors ---------------------------------------------------------------

  /** GetSector for the STM32F407: sectors 0 to 11, any other address gives 0. */
  function GetSector(address: nat): nat {
    if 0x0800_0000 <= address < 0x0800_4000 then 0
    else if 0x0800_4000 <= address < 0x0800_8000 then 1
    else if 0x0800_8000 <= address < 0x0800_C000 then 2
    else if 0x0800_C000 <= address < 0x0801_0000 then 3
    else if 0x0801_0000 <= address < 0x0802_0000 then 4
    else if 0x0802_0000 <= address < 0x0804_0000 then 5
    else if 0x0804_0000 <= address < 0x0806_0000 then 6
    else if 0x0806_0000 <= address < 0x0808_0000 then 7
    else if 0x0808_0000 <= address < 0x080A_0000 then 8
    else if 0x080A_0000 <= address < 0x080C_0000 then 9
    else if 0x080C_0000 <= address < 0x080E_0000 then 10
    else if 0x080E_0000 <= address < 0x0810_0000 then 11
    else 0
  }

  /** Four sectors of 16 KiB, one of 64 KiB, seven of 128 KiB. */
  function SectorSize(n: nat): nat {
    if n < 4 then 0x4000 else if n == 4 then 0x1_0000 else 0x2_0000
  }

  function SectorStart(n: nat): nat
    decreases n
  {
    if n == 0 then ROM_START else SectorStart(n - 1) + SectorSize(n - 1)
  }

  /** The start of sector n without recursion; 12 is the end of the flash. */
  lemma SectorStartIs(n: nat)
    requires n <= 12
    ensures SectorStart(n) == ROM_START + (if n <= 4 then n * 0x4000 else (n - 4) * 0x2_0000)
    decreases n
  {
    if n > 0 { SectorStartIs(n - 1); }
  }

  /** The sector map of the STM32F407, in plain numbers. */
  lemma SectorMap()
    ensures SectorStart(0) == 0x0800_0000 && SectorStart(1) == 0x0800_4000 && SectorStart(2) == 0x0800_8000
    ensures SectorStart(3) == 0x0800_C000 && SectorStart(4) == 0x0801_0000 && SectorStart(5) == 0x0802_0000
    ensures forall n: nat :: 5 <= n <= 12 ==> SectorStart(n) == 0x0802_0000 + (n - 5) * 0x2_0000
  {
    forall n: nat | n <= 12 ensures SectorStart(n) == ROM_START + (if n <= 4 then n * 0x4000 else (n - 4) * 0x2_0000) {
      SectorStartIs(n);
    }
  }

  lemma SectorStartMonotone(m: nat, n: nat)
    requires m <= n <= 12
    ensures SectorStart(m) <= SectorStart(n)
  {
    SectorStartIs(m);
    SectorStartIs(n);
  }

  /** GetSector inverts the sector map. */
  lemma GetSectorIff(address: nat, n: nat)
    requires ROM_START <= address < ROM_END && n < 12
    ensures GetSector(address) == n <==> SectorStart(n) <= address < SectorStart(n + 1)
  {
    SectorStartIs(n);
    SectorStartIs(n + 1);
  }

  lemma SectorOf(address: nat)
    requires ROM_START <= address < ROM_END
    ensures GetSector(address) < 12
    ensures SectorStart(GetSector(address)) <= address < SectorStart(GetSector(address) + 1)
    ensures ROM_START <= SectorStart(GetSector(address)) && SectorStart(GetSector(address) + 1) <= ROM_END
  {
    var n := GetSector(address);
    GetSectorIff(address, n);
    SectorStartIs(n);
    SectorStartIs(n + 1);
  }

  /** First and one-past-last address that erasing [addr, addr+size) clears. */
  function EraseFrom(addr: nat): nat { SectorStart(GetSector(addr)) }

  function EraseTo(addr: nat, size: nat): nat
    requires addr + size >= 1
  {
    SectorStart(GetSector(addr + size - 1) + 1)
  }

  predicate Boundary(address: nat) {
    exists n: nat | n <= 12 :: SectorStart(n) == address
  }

  /** The erased sectors are exactly those that meet [addr, addr+size). */
  lemma ErasedSectorsMeetRange(addr: nat, size: nat, n: nat)
    requires ROM_START <= addr && size >= 1 && addr + size <= ROM_END && n < 12
    ensures GetSector(addr) <= n <= GetSector(addr + size - 1)
       <==> SectorStart(n) < addr + size && addr < SectorStart(n + 1)
  {
    var last := addr + size - 1;
    SectorOf(addr);
    SectorOf(last);
    var f, l := GetSector(addr), GetSector(last);
    if n < f { SectorStartMonotone(n + 1, f); }
    if f <= n { SectorStartMonotone(f + 1, n + 1); }
    if n <= l { SectorStartMonotone(n, l); }
    if l < n { SectorStartMonotone(l + 1, n); }
  }

  lemma StartsAtBoundary(addr: nat)
    requires ROM_START <= addr < ROM_END
    ensures EraseFrom(addr) <= addr
    ensures EraseFrom(addr) == addr <==> Boundary(addr)
  {
    SectorOf(addr);
    assert Boundary(EraseFrom(addr));
    if Boundary(addr) {
      var n: nat :| n <= 12 && SectorStart(n) == addr;
      SectorStartIs(n);
      SectorStartIs(n + 1);
      GetSectorIff(addr, n);
    }
  }

  lemma EndsAtBoundary(addr: nat, size: nat)
    requires ROM_START <= addr && size >= 1 && addr + size <= ROM_END
    ensures addr + size <= EraseTo(addr, size)
    ensures EraseTo(addr, size) == addr + size <==> Boundary(addr + size)
  {
    var last := addr + size - 1;
    SectorOf(last);
    assert Boundary(EraseTo(addr, size)) by { assert GetSector(last) + 1 <= 12; }
    if Boundary(addr + size) {
      var n: nat :| n <= 12 && SectorStart(n) == addr + size;
      SectorStartIs(n);
      assert n > 0;
      SectorStartIs(n - 1);
      GetSectorIff(last, n - 1);
    }
  }

  /** An erase clears no more than was asked for iff both ends are boundaries. */
  lemma EraseExactIffAligned(addr: nat, size: nat)
    requires ROM_START <= addr && size >= 1 && addr + size <= ROM_END
    ensures EraseFrom(addr) <= addr && addr + size <= EraseTo(addr, size)
    ensures EraseFrom(addr) == addr && EraseTo(addr, size) == addr + size
       <==> Boundary(addr) && Boundary(addr + size)
  {
    StartsAtBoundary(addr);
    EndsAtBoundary(addr, size);
  }

  // --- The range check -------------------------------------------------------------

  /** The test of stm32_flash_write and stm32_flash_erase, in 32 bits. */
  predicate RangePasses(addr: nat, size: nat) {
    (addr + size) % WORD_LIMIT <= ROM_END && size >= 1
  }

  predicate InFlash(addr: nat, size: nat) {
    size >= 1 && ROM_START <= addr && addr + size <= ROM_END
  }

  /** The test is about the end of the range only: it tells ranges in the flash
      from others iff the range does not end in front of the flash's end with a
      start before it, and does not wrap round to such an end. */
  lemma RangeCheckExactIff(addr: nat, size: nat)
    requires addr < WORD_LIMIT && 1 <= size < WORD_LIMIT
    ensures (RangePasses(addr, size) <==> InFlash(addr, size))
       <==> if addr + size < WORD_LIMIT then addr >= ROM_START || addr + size > ROM_END
            else addr + size - WORD_LIMIT > ROM_END
  {
    if addr + size >= WORD_LIMIT { assert (addr + size) % WORD_LIMIT == addr + size - WORD_LIMIT; }
  }

  /** Address 0 passes and is not in the flash; so does a range that wraps. */
  lemma RangeCheckFails()
    ensures RangePasses(0, 1) && !InFlash(0, 1)
    ensures RangePasses(0xFFFF_FFFF, 2) && !InFlash(0xFFFF_FFFF, 2)
  {
  }

  /** Partitions lie where the test is exact. */
  lemma RangeCheckExactOnPartitions(part: Partition, addr: nat, size: nat)
    requires part in {APP, APPDATA, DOWNLOAD} && 1 <= size && addr + size <= part.len
    ensures RangePasses(part.Base() + addr, size) && InFlash(part.Base() + addr, size)
  {
  }

  // --- The driver --------------------------------------------------------------

  class Flash {
    const cells: array<byte>      // cells[k] is the byte at ROM_START + k
    ghost var log: seq<Program>   // every attempted program, oldest first

    ghost predicate Valid()
      reads this
    {
      cells.Length == ROM_SIZE
    }

    constructor ()
      ensures Valid() && fresh(cells) && log == []
    {
      cells := new byte[ROM_SIZE];
      log := [];
    }

    /** HAL_FLASH_Program: one aligned unit, with the NOR fault model. */
    method HalFlashProgram(address: nat, data: seq<byte>, healthy: bool) returns (ok: bool)
      requires Valid()
      requires |data| == 1 || |data| == 2 || |data| == 4
      requires address % |data| == 0
      requires ROM_START <= address && address + |data| <= ROM_END
      modifies this`log, cells
      ensures log == old(log) + [Program(address, |data|, ok)]
      ensures Touched(old(cells[..]), cells[..], address - ROM_START, data)
      ensures healthy ==> ok && Cleared(old(cells[..]), cells[..], address - ROM_START, data)
    {
      hide Between, Programmed;
      var at := address - ROM_START;
      ghost var was := cells[..];
      var stuck: seq<byte> := *;
      if healthy || |stuck| != |data| { stuck := seq(|data|, _ => 0); }
      forall k | 0 <= k < |data| {
        cells[at + k] := Programmed(cells[at + k], data[k], stuck[k]);
      }
      forall a | at <= a < at + |data|
        ensures Between(was[a], data[a - at], cells[..][a])
        ensures healthy ==> cells[..][a] == Programmed(was[a], data[a - at], 0)
      {
        assert cells[at + (a - at)] == Programmed(was[a], data[a - at], stuck[a - at]);
        BetweenLaws(was[a], data[a - at], stuck[a - at]);
      }
      var status: bool := *;
      ok := healthy || status;
      log := log + [Program(address, |data|, ok)];
    }

    /** One pass of the write loop: program a unit, read it back, compare. */
    method ProgramAndCompare(ghost was: seq<byte>, base: nat, buf: seq<byte>, written: nat, n: nat, healthy: bool)
      returns (ok: bool)
      requires Valid()
      requires base + |buf| <= ROM_SIZE && Done(was, cells[..], base, buf, written)
      requires written + n <= |buf| && (n == 1 || n == 2 || n == 4)
      requires (ROM_START + base + written) % n == 0
      modifies this`log, cells
      ensures |log| == |old(log)| + 1
      ensures log == old(log) + [Program(ROM_START + base + written, n, log[|old(log)|].ok)]
      ensures Touched(was, cells[..], base, buf)
      ensures ok <==> log[|old(log)|].ok && cells[base + written..base + written + n] == buf[written..written + n]
      ensures ok ==> Done(was, cells[..], base, buf, written + n)
      ensures !ok && healthy ==> !AllProgrammable(was, base, buf)
    {
      hide Between, Programmable, Touched, AllProgrammable, Cleared;
      var unit := buf[written..written + n];
      ghost var before := cells[..];
      ok := HalFlashProgram(ROM_START + base + written, unit, healthy);
      ok := ok && cells[base + written..base + written + n] == unit;
      UnitTouches(was, before, cells[..], base, buf, written, n);
      if ok {
        UnitDone(was, before, cells[..], base, buf, written, n);
      } else if healthy {
        MismatchNeedsSet(was, before, cells[..], base, buf, written, n);
      }
    }

    /** The write loop: words, half-words and bytes as alignment allows. */
    method WriteUnits(addr: nat, buf: seq<byte>, healthy: bool) returns (ok: bool)
      requires Valid()
      requires ROM_START <= addr && addr + |buf| <= ROM_END
      modifies this`log, cells
      ensures Touched(old(cells[..]), cells[..], addr - ROM_START, buf)
      ensures ok ==> Done(old(cells[..]), cells[..], addr - ROM_START, buf, |buf|)
      ensures !ok && healthy ==> !AllProgrammable(old(cells[..]), addr - ROM_START, buf)
      ensures Issued(old(log), log, addr, |buf|, ok)
      ensures ok <==> Reported(old(log), log) && cells[addr - ROM_START..addr - ROM_START + |buf|] == buf
    {
      hide Between, Programmable, Touched, AllProgrammable, Cleared, Tiles, Done, Logged, Issued, Reported;
      var size := |buf|;
      var base := addr - ROM_START;
      ghost var was := cells[..];
      ghost var start := log;
      var written := 0;
      DoneNil(was, base, buf);
      LoggedNil(start, addr, size);
      ReportedNil(start);
      while written < size
        invariant 0 <= written <= size
        invariant Done(was, cells[..], base, buf, written)
        invariant Logged(start, log, addr, written, size) && Reported(start, log)
      {
        var writeSize := UnitSize(addr + written, size - written);
        ghost var before := log;
        ok := ProgramAndCompare(was, base, buf, written, writeSize, healthy);
        LoggedStep(start, before, log, addr, written, size, log[|before|].ok);
        ReportedStep(start, before, log);
        if !ok {
          UnitDiffers(cells[..], base, buf, written, writeSize);
          return;
        }
        written := written + writeSize;
      }
      LoggedDone(start, log, addr, size);
      AllDone(was, cells[..], base, buf);
      ok := true;
    }

    /** stm32_flash_write */
    method Write(addr: nat, buf: seq<byte>, healthy: bool) returns (result: int)
      requires Valid()
      requires ROM_START <= addr && addr + |buf| < WORD_LIMIT
      modifies this`log, cells
      ensures result == |buf| || result == -RT_ERROR || result == -RT_EINVAL
      // out of range or empty: refused, nothing touched
      ensures result == -RT_EINVAL <==> addr + |buf| > ROM_END || |buf| < 1
      ensures result == -RT_EINVAL ==> cells[..] == old(cells[..]) && log == old(log)
      // otherwise only the range is touched, and success means it holds buf
      ensures result != -RT_EINVAL ==> Touched(old(cells[..]), cells[..], addr - ROM_START, buf)
      ensures result >= 0 ==> cells[addr - ROM_START..addr - ROM_START + |buf|] == buf
      // on working hardware it succeeds exactly when no bit must be set
      ensures result != -RT_EINVAL && healthy ==>
                (result == |buf| <==> AllProgrammable(old(cells[..]), addr - ROM_START, buf))
      // success is what the HAL reports of every program and the read-back confirms
      ensures result != -RT_EINVAL ==>
                (result == |buf| <==>
                   Reported(old(log), log) && cells[addr - ROM_START..addr - ROM_START + |buf|] == buf)
      // the programs issued
      ensures Issued(old(log), log, addr, |buf|, result >= 0)
    {
      hide Between, Programmable, Touched, AllProgrammable, Tiles, Done, Issued, Reported;
      var size := |buf|;
      var endAddr := addr + size;
      if endAddr > ROM_END || size < 1 {
        IssuedNil(log, addr, size);
        return -RT_EINVAL;
      }
      ghost var was := cells[..];
      var ok := WriteUnits(addr, buf, healthy);
      if !ok {
        return -RT_ERROR;
      }
      AllDone(was, cells[..], addr - ROM_START, buf);
      return size;
    }

    /** One sector; a failed erase leaves anything in it. */
    method EraseSector(n: nat, healthy: bool) returns (ok: bool)
      requires Valid() && n < 12
      modifies cells
      ensures forall a :: 0 <= a < ROM_SIZE && !(SectorStart(n) <= ROM_START + a < SectorStart(n + 1)) ==>
                cells[a] == old(cells[a])
      ensures ok ==> forall a :: 0 <= a < ROM_SIZE && SectorStart(n) <= ROM_START + a < SectorStart(n + 1) ==>
                cells[a] == ERASED
      ensures healthy ==> ok
    {
      hide SectorStart;
      SectorStartIs(n);
      SectorStartIs(n + 1);
      var lo, hi := SectorStart(n) - ROM_START, SectorStart(n + 1) - ROM_START;
      var left: seq<byte> := *;
      ok := *;
      ok := ok || healthy;
      forall a | lo <= a < hi {
        cells[a] := if ok then ERASED else if a - lo < |left| then left[a - lo] else cells[a];
      }
    }

    /** HAL_FLASHEx_Erase: sector by sector, stopping at the first failure. */
    method HalFlashErase(first: nat, count: nat, healthy: bool) returns (ok: bool)
      requires Valid()
      requires first + count <= 12
      modifies cells
      ensures forall a :: 0 <= a < ROM_SIZE && !(SectorStart(first) <= ROM_START + a < SectorStart(first + count)) ==>
                cells[a] == old(cells[a])
      ensures ok ==> forall a :: 0 <= a < ROM_SIZE && SectorStart(first) <= ROM_START + a < SectorStart(first + count) ==>
                cells[a] == ERASED
      ensures healthy ==> ok
    {
      hide SectorStart;
      ok := true;
      for i := first to first + count
        invariant forall a :: 0 <= a < ROM_SIZE && !(SectorStart(first) <= ROM_START + a < SectorStart(i)) ==>
                    cells[a] == old(cells[a])
        invariant forall a :: 0 <= a < ROM_SIZE && SectorStart(first) <= ROM_START + a < SectorStart(i) ==>
                    cells[a] == ERASED
        invariant ok
      {
        SectorStartMonotone(first, i);
        SectorStartMonotone(i, i + 1);
        SectorStartMonotone(i + 1, first + count);
        ok := EraseSector(i, healthy);
        if !ok {
          return;
        }
      }
    }

    /** stm32_flash_erase: every sector that meets the range, and no other. */
    method Erase(addr: nat, size: nat, healthy: bool) returns (result: int)
      requires Valid()
      requires ROM_START <= addr && addr + size < WORD_LIMIT
      modifies cells
      ensures result == -RT_EINVAL <==> addr + size > ROM_END || size < 1
      ensures result == size || result == -RT_ERROR || result == -RT_EINVAL
      ensures result == -RT_EINVAL ==> cells[..] == old(cells[..])
      ensures result != -RT_EINVAL ==>
                forall a :: 0 <= a < ROM_SIZE && !(EraseFrom(addr) <= ROM_START + a < EraseTo(addr, size)) ==>
                  cells[a] == old(cells[a])
      ensures result >= 0 ==>
                forall a :: 0 <= a < ROM_SIZE && EraseFrom(addr) <= ROM_START + a < EraseTo(addr, size) ==>
                  cells[a] == ERASED
      ensures healthy && result != -RT_EINVAL ==> result == size
    {
      if addr + size > ROM_END || size < 1 {
        return -RT_EINVAL;
      }
      SectorOf(addr);
      SectorOf(addr + size - 1);
      ErasedSectorsMeetRange(addr, size, GetSector(addr));
      var firstSector := GetSector(addr);
      var nbOfSectors := GetSector(addr + size - 1) - firstSector + 1;
      var ok := HalFlashErase(firstSector, nbOfSectors, healthy);
      return if ok then size else -RT_ERROR;
    }
  }

  /** The widest unit that alignment and the remaining size allow. */
  function UnitSize(cur: nat, rest: nat): (n: nat)
    requires rest >= 1
    ensures n <= rest && (n == 1 || n == 2 || n == 4) && cur % n == 0
  {
    if cur % 4 == 0 && rest >= 4 then 4
    else if cur % 2 == 0 && rest >= 2 then 2
    else 1
  }

  lemma BoundStep(count: nat, cur: nat, written: nat, size: nat)
    requires ProgramBound(count, cur, written, size) && written < size
    ensures var n := UnitSize(cur, size - written);
            ProgramBound(count + 1, cur + n, written + n, size) && count + 1 <= size / 4 + 4
  {
    hide UnitSize;
    var r, n := cur % 4, UnitSize(cur, size - written);
    Mod4(cur, n);
    UnitSizeIs(cur, size - written);
    if r == 0 {
      assert (cur + n) % 4 == if n == 4 then 0 else n;
    } else if r == 2 {
      assert (cur + n) % 4 == if n == 2 then 0 else 3;
    } else {
      assert n == 1 && (cur + n) % 4 == if r == 1 then 2 else 0;
    }
  }

  lemma UnitWidest(cur: nat, rest: nat, ok: bool)
    requires rest >= 1
    ensures Widest(Program(cur, UnitSize(cur, rest), ok), cur + rest)
  {
  }

  lemma UnitSizeIs(cur: nat, rest: nat)
    requires rest >= 1
    ensures var r, n := cur % 4, UnitSize(cur, rest);
            n == if r == 0 && rest >= 4 then 4 else if (r == 0 || r == 2) && rest >= 2 then 2 else 1
  {
  }

  lemma Mod4(a: nat, n: nat)
    requires n <= 4
    ensures (a + n) % 4 == if a % 4 + n >= 4 then a % 4 + n - 4 else a % 4 + n
  {
  }

  /** No wider program would be aligned and fit below `end`. */
  predicate Widest(p: Program, end: nat) {
    forall w :: w in {2, 4} && w > p.width ==> p.address % w != 0 || p.address + w > end
  }

  ghost predicate AllWidest(ps: seq<Program>, end: nat) {
    forall i :: 0 <= i < |ps| ==> Widest(ps[i], end)
  }

  /** The programs one write adds to the log: each is the widest possible, they tile an initial part of the
      range, all of it when the write succeeds, and they are few. */
  ghost predicate Issued(start: seq<Program>, now: seq<Program>, addr: nat, size: nat, complete: bool) {
    && start <= now
    && |now| - |start| <= size / 4 + 4
    && AllWidest(now[|start|..], addr + size)
    && exists to: nat :: to <= addr + size && Tiles(now[|start|..], addr, to) && (complete ==> to == addr + size)
  }

  /** The HAL reported every program of this write done. */
  ghost predicate Reported(start: seq<Program>, now: seq<Program>) {
    start <= now && AllReported(now[|start|..])
  }

  lemma ReportedNil(start: seq<Program>)
    ensures Reported(start, start)
  {
  }

  lemma ReportedStep(start: seq<Program>, before: seq<Program>, now: seq<Program>)
    requires Reported(start, before) && |now| == |before| + 1 && now[..|before|] == before
    ensures Reported(start, now) <==> now[|before|].ok
  {
    var ps := now[|start|..];
    assert ps[|ps| - 1] == now[|before|];
    assert forall i :: 0 <= i < |ps| - 1 ==> ps[i] == before[|start|..][i];
  }

  lemma UnitDiffers(now: seq<byte>, base: nat, buf: seq<byte>, w: nat, n: nat)
    requires base + |buf| <= |now| && w + n <= |buf|
    ensures now[base + w..base + w + n] != buf[w..w + n] ==> now[base..base + |buf|] != buf
  {
    var there, unit := now[base + w..base + w + n], buf[w..w + n];
    if there != unit {
      var j :| 0 <= j < n && there[j] != unit[j];
      assert now[base..base + |buf|][w + j] == there[j] != buf[w + j];
    }
  }

  lemma IssuedNil(start: seq<Program>, addr: nat, size: nat)
    ensures Issued(start, start, addr, size, false)
  {
    assert start[|start|..] == [];
    assert Tiles([], addr, addr);
  }

  /** The log while the write loop runs. */
  ghost predicate Logged(start: seq<Program>, now: seq<Program>, addr: nat, written: nat, size: nat) {
    && start <= now
    && Tiles(now[|start|..], addr, addr + written)
    && AllWidest(now[|start|..], addr + size)
    && ProgramBound(|now| - |start|, addr + written, written, size)
  }

  lemma LoggedNil(start: seq<Program>, addr: nat, size: nat)
    ensures Logged(start, start, addr, 0, size)
  {
    assert start[|start|..] == [];
  }

  lemma LoggedStep(start: seq<Program>, before: seq<Program>, now: seq<Program>, addr: nat, written: nat, size: nat,
                   ok: bool)
    requires Logged(start, before, addr, written, size) && written < size
    requires now == before + [Program(addr + written, UnitSize(addr + written, size - written), ok)]
    ensures var n := UnitSize(addr + written, size - written); Logged(start, now, addr, written + n, size)
    ensures Issued(start, now, addr, size, false)
  {
    hide Tiles, ProgramBound, Widest;
    var n := UnitSize(addr + written, size - written);
    UnitWidest(addr + written, size - written, ok);
    var p := Program(addr + written, n, ok);
    BoundStep(|before| - |start|, addr + written, written, size);
    assert now[|start|..] == before[|start|..] + [p];
    TilesSnoc(before[|start|..], addr, addr + written, p);
  }

  lemma LoggedDone(start: seq<Program>, now: seq<Program>, addr: nat, size: nat)
    requires Logged(start, now, addr, size, size)
    ensures Issued(start, now, addr, size, true)
  {
    hide Tiles;
  }

  /** The first w bytes of buf are written and read back. */
  ghost predicate Done(was: seq<byte>, now: seq<byte>, base: nat, buf: seq<byte>, w: nat) {
    && w <= |buf|
    && base + |buf| <= |was|
    && Touched(was, now, base, buf[..w])
    && now[base..base + w] == buf[..w]
  }

  lemma DoneNil(was: seq<byte>, base: nat, buf: seq<byte>)
    requires base + |buf| <= |was|
    ensures Done(was, was, base, buf, 0)
  {
  }

  /** How many programs can have been issued when `written` bytes are done:
      none twice while the address becomes aligned, then words, then the rest. */
  predicate ProgramBound(count: nat, cur: nat, written: nat, size: nat) {
    var r := cur % 4;
    if r == 0 then 4 * count <= written + 8
    else if r == 2 then (written <= 1 && count == written) || (size - written < 2 && 4 * count <= written + 10)
    else (written == 0 && count == 0) || (written == size && 4 * count <= written + 13)
  }

  /** One more unit on top of w done bytes touches only the range of buf. */
  lemma UnitTouches(was: seq<byte>, before: seq<byte>, now: seq<byte>, base: nat, buf: seq<byte>, w: nat, n: nat)
    requires Done(was, before, base, buf, w) && w + n <= |buf|
    requires Touched(before, now, base + w, buf[w..w + n])
    ensures Touched(was, now, base, buf[..w + n]) && Touched(was, now, base, buf)
  {
    hide Between;
    forall a | base <= a < base + |buf|
      ensures Between(was[a], buf[a - base], now[a])
    {
      if a < base + w {
        assert Between(was[a], buf[..w][a - base], before[a]);
      } else if a < base + w + n {
        assert Between(before[a], buf[w..w + n][a - (base + w)], now[a]);
      } else {
        BetweenLaws(was[a], buf[a - base], 0);
      }
    }
  }

  lemma UnitDone(was: seq<byte>, before: seq<byte>, now: seq<byte>, base: nat, buf: seq<byte>, w: nat, n: nat)
    requires Done(was, before, base, buf, w) && w + n <= |buf|
    requires Touched(before, now, base + w, buf[w..w + n])
    requires now[base + w..base + w + n] == buf[w..w + n]
    ensures Done(was, now, base, buf, w + n)
  {
    hide Between;
    UnitTouches(was, before, now, base, buf, w, n);
    assert now[base..base + w] == before[base..base + w];
    assert now[base..base + w + n] == now[base..base + w] + now[base + w..base + w + n];
    assert buf[..w + n] == buf[..w] + buf[w..w + n];
  }

  lemma AllDone(was: seq<byte>, now: seq<byte>, base: nat, buf: seq<byte>)
    requires Done(was, now, base, buf, |buf|)
    ensures Touched(was, now, base, buf) && now[base..base + |buf|] == buf
    ensures AllProgrammable(was, base, buf)
  {
    hide Between, Programmable;
    assert buf[..|buf|] == buf;
    forall a | base <= a < base + |buf|
      ensures Programmable(was[a], buf[a - base])
    {
      assert now[a] == now[base..base + |buf|][a - base];
      AgreedCell(was[a], buf[a - base], now[a]);
    }
  }

  lemma AgreedCell(was: byte, d: byte, now: byte)
    requires Between(was, d, now) && now == d
    ensures Programmable(was, d)
  {
  }

  lemma MismatchNeedsSet(was: seq<byte>, before: seq<byte>, now: seq<byte>, base: nat, buf: seq<byte>, w: nat, n: nat)
    requires Done(was, before, base, buf, w) && w + n <= |buf|
    requires Cleared(before, now, base + w, buf[w..w + n])
    requires now[base + w..base + w + n] != buf[w..w + n]
    ensures !AllProgrammable(was, base, buf)
  {
    hide Between;
    var j :| 0 <= j < n && now[base + w..base + w + n][j] != buf[w..w + n][j];
    var a := base + w + j;
    assert now[a] == Programmed(before[a], buf[w..w + n][a - (base + w)], 0);
    assert before[a] == was[a];
    assert !Programmable(was[a], buf[a - base]);
  }

  // --- Partitions (the FAL layer) ------------------------------------------------

  /** A slice of the onchip_flash_128k device, which starts at sector 5. */
  datatype Partition = Partition(offset: nat, len: nat) {
    function Base(): nat { DEVICE_START + offset }
  }

  const DEVICE_START: nat := 0x0802_0000
  const DEVICE_SIZE: nat := 7 * 128 * 1024
  const APP := Partition(0, 3 * 128 * 1024)
  const APPDATA := Partition(3 * 128 * 1024, 1 * 128 * 1024)
  const DOWNLOAD := Partition(4 * 128 * 1024, 3 * 128 * 1024)

  /** The three partitions tile the device, and each is made of whole sectors. */
  lemma PartitionTable()
    ensures APP.offset == 0 && APP.offset + APP.len == APPDATA.offset
    ensures APPDATA.offset + APPDATA.len == DOWNLOAD.offset && DOWNLOAD.offset + DOWNLOAD.len == DEVICE_SIZE
    ensures DEVICE_START + DEVICE_SIZE == ROM_END
    ensures APP.Base() == 0x0802_0000 && APPDATA.Base() == 0x0808_0000 && DOWNLOAD.Base() == 0x080A_0000
    ensures APP.len == 393216 && APPDATA.len == 131072 && DOWNLOAD.len == 393216
    ensures forall p :: p in {APP, APPDATA, DOWNLOAD} ==>
              EraseFrom(p.Base()) == p.Base() && EraseTo(p.Base(), p.len) == p.Base() + p.len
  {
    SectorStartIs(5);
    SectorStartIs(8);
    SectorStartIs(9);
    SectorStartIs(12);
  }

  /** fal_partition_write; the lookup of the flash device may fail. */
  method PartitionWrite(flash: Flash, part: Partition, addr: nat, buf: seq<byte>, deviceFound: bool, healthy: bool)
    returns (result: int)
    requires flash.Valid()
    requires part in {APP, APPDATA, DOWNLOAD} && addr + |buf| < WORD_LIMIT
    modifies flash`log, flash.cells
    ensures result == |buf| || result < 0
    ensures result == |buf| ==> |buf| >= 1 && addr + |buf| <= part.len
    ensures !(deviceFound && 1 <= |buf| && addr + |buf| <= part.len) ==>
              result < 0 && flash.cells[..] == old(flash.cells[..])
    ensures deviceFound && 1 <= |buf| && addr + |buf| <= part.len ==>
              var at := part.Base() - ROM_START + addr;
              && Touched(old(flash.cells[..]), flash.cells[..], at, buf)
              && (result >= 0 ==> flash.cells[at..at + |buf|] == buf)
              && (healthy ==> (result >= 0 <==> AllProgrammable(old(flash.cells[..]), at, buf)))
  {
    hide Touched, AllProgrammable, Tiles;
    if addr + |buf| > part.len {
      return -1;
    }
    if !deviceFound {
      return -1;
    }
    result := flash.Write(part.Base() + addr, buf, healthy);
  }

  /** fal_partition_erase_all */
  method PartitionEraseAll(flash: Flash, part: Partition, deviceFound: bool, healthy: bool) returns (result: int)
    requires flash.Valid()
    requires part in {APP, APPDATA, DOWNLOAD}
    modifies flash.cells
    ensures result == part.len || result < 0
    ensures deviceFound && healthy ==> result == part.len
    ensures !deviceFound ==> result < 0 && flash.cells[..] == old(flash.cells[..])
    ensures var lo := part.Base() - ROM_START; var hi := lo + part.len;
            && (forall a :: 0 <= a < ROM_SIZE && !(lo <= a < hi) ==> flash.cells[a] == old(flash.cells[a]))
            && (result >= 0 ==> forall a :: lo <= a < hi ==> flash.cells[a] == ERASED)
  {
    if !deviceFound {
      return -1;
    }
    PartitionTable();
    result := flash.Erase(part.Base(), part.len, healthy);
  }
}
