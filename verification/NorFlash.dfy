/**
 The serial NOR flash and the writer that lays data out on it
 (`src/platform/mcuxsdk/aknano_flash_storage.c`).

 The driver (`mflash_drv_*`) is not part of this model beyond what NOR flash does: erasing sets a
 whole sector to 0xFF, programming ANDs one page into the cells. Either may fail, and then leaves
 anything at all in the sector or page it was working on. For an address that is not aligned nothing
 is known but that other sectors (pages) are untouched.
 */
module NorFlash {
  import opened Bytes

  const PAGE := 256
  const SECTOR := 4096
  const ERASED: uint8 := 255

  function SectorStart(addr: nat): nat {
    addr / SECTOR * SECTOR
  }

  /** The end of the sectors that hold the bytes below `addr`. */
  function SectorEnd(addr: nat): nat {
    (addr + SECTOR - 1) / SECTOR * SECTOR
  }

  function PageStart(addr: nat): nat {
    addr / PAGE * PAGE
  }

  predicate InUnit(i: nat, start: nat, len: nat) {
    start <= i < start + len
  }

  /** The two flash contents agree outside `[lo, hi)`. */
  ghost predicate SameExcept(a: seq<uint8>, b: seq<uint8>, lo: nat, hi: nat) {
    |a| == |b| && forall i {:trigger a[i]} {:trigger b[i]} | 0 <= i < |a| && !(lo <= i < hi) :: a[i] == b[i]
  }

  /** They agree outside the sectors that `[offset, offset + len)` touches. */
  ghost predicate SameOutside(a: seq<uint8>, b: seq<uint8>, offset: nat, len: nat) {
    SameExcept(a, b, SectorStart(offset), if len == 0 then SectorStart(offset) else SectorEnd(offset + len))
  }

  class Flash {
    const cells: array<uint8>
    /** A driver in working order: aligned operations succeed. */
    const working: bool

    constructor (sectors: nat, working: bool)
      ensures Valid() && cells.Length == sectors * SECTOR && this.working == working && fresh(cells)
    {
      cells := new uint8[sectors * SECTOR](_ => ERASED);
      this.working := working;
    }

    predicate Valid() {
      cells.Length % SECTOR == 0
    }

    method SectorErase(addr: nat) returns (status: int)
      requires Valid() && addr < cells.Length
      modifies cells
      ensures working && addr % SECTOR == 0 ==> status == 0
      ensures status == 0 && addr % SECTOR == 0 ==>
                forall i | addr <= i < addr + SECTOR :: cells[i] == ERASED
      ensures forall i | 0 <= i < cells.Length && !InUnit(i, SectorStart(addr), SECTOR) :: cells[i] == old(cells[i])
    {
      var base := SectorStart(addr);
      status := *;
      if addr % SECTOR == 0 && (working || status == 0) {
        status := 0;
        forall i | base <= i < base + SECTOR {
          cells[i] := ERASED;
        }
      } else {
        Scramble(base, SECTOR);
      }
    }

    method PageProgram(addr: nat, page: array<uint8>) returns (status: int)
      requires Valid() && addr < cells.Length
      requires page.Length == PAGE && page != cells
      modifies cells
      ensures working && addr % PAGE == 0 ==> status == 0
      ensures status == 0 && addr % PAGE == 0 ==>
                forall i | addr <= i < addr + PAGE :: cells[i] == And(old(cells[i]), page[i - addr])
      ensures forall i | 0 <= i < cells.Length && !InUnit(i, PageStart(addr), PAGE) :: cells[i] == old(cells[i])
    {
      var base := PageStart(addr);
      status := *;
      if addr % PAGE == 0 && (working || status == 0) {
        status := 0;
        forall i | base <= i < base + PAGE {
          cells[i] := And(cells[i], page[i - base]);
        }
      } else {
        Scramble(base, PAGE);
      }
    }

    /** A failed or misaddressed operation leaves anything in the unit it worked on. */
    method Scramble(base: nat, len: nat)
      requires base + len <= cells.Length
      modifies cells
      ensures forall i | 0 <= i < cells.Length && !(base <= i < base + len) :: cells[i] == old(cells[i])
    {
      for k := base to base + len
        invariant forall i | 0 <= i < cells.Length && !(base <= i < base + len) :: cells[i] == old(cells[i])
      {
        cells[k] := *;
      }
    }

    /** `mflash_drv_read`: on success the bytes are copied, on failure nothing is known about them. */
    method Read(addr: nat, output: array<uint8>, len: nat) returns (status: int)
      requires addr + len <= cells.Length && len <= output.Length && output != cells
      modifies output
      ensures working ==> status == 0
      ensures status == 0 ==> output[..len] == cells[addr..addr + len]
      ensures output[len..] == old(output[len..])
    {
      status := *;
      if working || status == 0 {
        status := 0;
        forall i | 0 <= i < len {
          output[i] := cells[addr + i];
        }
      } else {
        for k := 0 to len
          invariant output[len..] == old(output[len..])
        {
          output[k] := *;
        }
      }
    }
  }

  /** The flash contents with `data` laid out at `offset` and the cells from its end to `erased` erased;
      everything else as before. */
  function Laid(flash: seq<uint8>, offset: nat, data: seq<uint8>, erased: nat): (r: seq<uint8>)
    ensures |r| == |flash|
  {
    seq(|flash|, i requires 0 <= i < |flash| =>
      if offset <= i < offset + |data| then data[i - offset]
      else if offset <= i < erased then ERASED
      else flash[i])
  }

  /** The flash contents after a complete write: the data, then erased cells up to the end of its last
      sector. */
  function Stored(flash: seq<uint8>, offset: nat, data: seq<uint8>): (r: seq<uint8>)
    ensures |r| == |flash|
  {
    Laid(flash, offset, data, SectorEnd(offset + |data|))
  }

  /** Behind the data its last sector is erased, and that sector is the one the data ends in. */
  lemma StoredErasesTheRest(flash: seq<uint8>, offset: nat, data: seq<uint8>, i: nat)
    requires offset + |data| <= i < SectorEnd(offset + |data|) && i < |flash|
    ensures Stored(flash, offset, data)[i] == 0xFF
    ensures SectorEnd(offset + |data|) % 4096 == 0 && SectorEnd(offset + |data|) < offset + |data| + 4096
  {
  }

  lemma StoredOnlyTouchesItsSectors(flash: seq<uint8>, offset: nat, data: seq<uint8>)
    requires offset % SECTOR == 0
    ensures SameOutside(flash, Stored(flash, offset, data), offset, |data|)
  {
  }

  lemma LaidOut(before: seq<uint8>, now: seq<uint8>, offset: nat, data: seq<uint8>)
    requires offset % SECTOR == 0 && SectorEnd(offset + |data|) <= |now| && SameOutside(before, now, offset, |data|)
    requires forall i | offset <= i < SectorEnd(offset + |data|) ::
               now[i] == (if i < offset + |data| then data[i - offset] else ERASED)
    ensures now == Stored(before, offset, data)
  {
  }

  /** A unit that holds one of the data's addresses lies within the data's sectors. */
  lemma UnitWithinSectors(offset: nat, len: nat, addr: nat)
    requires offset <= addr < offset + len
    ensures SectorStart(offset) <= SectorStart(addr) && SectorStart(addr) + SECTOR <= SectorEnd(offset + len)
    ensures SectorStart(offset) <= PageStart(addr) && PageStart(addr) + PAGE <= SectorEnd(offset + len)
  {
    var first, last, page := offset / SECTOR, (offset + len + SECTOR - 1) / SECTOR, addr / PAGE;
    assert first <= addr / SECTOR < last;
    assert SECTOR * first <= addr < SECTOR * last;
    assert 16 * first <= page < 16 * last;
  }

  /** The sectors that cover the data end where `Stored` says. */
  lemma SectorsCovered(offset: nat, len: nat, sectors: nat)
    requires offset % SECTOR == 0 && len <= SECTOR * sectors < len + SECTOR
    ensures offset + SECTOR * sectors == SectorEnd(offset + len)
  {
  }

  /** On a sector-aligned write every erase and program address is aligned. */
  lemma AlignedAddresses(offset: nat, pages: nat, sectors: nat)
    requires offset % SECTOR == 0
    ensures (offset + SECTOR * sectors) % SECTOR == 0 && (offset + PAGE * pages) % PAGE == 0
  {
  }

  /** A page that is not yet used up the erased sectors has room in them. */
  lemma PageFits(pages: nat, sectors: nat)
    requires PAGE * pages < SECTOR * sectors
    ensures PAGE * pages + PAGE <= SECTOR * sectors
  {
  }

  /** The write loop's erase: only on reaching the next sector. */
  method EraseOnReaching(flash: Flash, addr: nat, nextEraseAddr: nat) returns (status: int)
    requires flash.Valid() && addr <= nextEraseAddr && addr < flash.cells.Length
    modifies flash.cells
    ensures flash.working && nextEraseAddr % SECTOR == 0 ==> status == 0
    ensures forall i | 0 <= i < flash.cells.Length && !InUnit(i, SectorStart(addr), SECTOR) ::
              flash.cells[i] == old(flash.cells[i])
    ensures addr < nextEraseAddr ==> flash.cells[..] == old(flash.cells[..])
    ensures addr == nextEraseAddr && addr % SECTOR == 0 && status == 0 ==>
              addr + SECTOR <= flash.cells.Length && forall i | addr <= i < addr + SECTOR :: flash.cells[i] == ERASED
  {
    status := 0;
    if addr >= nextEraseAddr {
      status := flash.SectorErase(nextEraseAddr);
    }
  }

  /** The write loop's program: the chunk, padded with 0xFF, goes through the page buffer. Programming
      erased cells leaves the chunk, and the padding leaves cells erased. */
  method ProgramChunk(flash: Flash, chunk: seq<uint8>, addr: nat, pageBuffer: array<uint8>) returns (status: int)
    requires flash.Valid() && pageBuffer.Length == PAGE && pageBuffer != flash.cells
    requires 0 < |chunk| <= PAGE && addr < flash.cells.Length
    modifies flash.cells, pageBuffer
    ensures flash.working && addr % PAGE == 0 ==> status == 0
    ensures forall i | 0 <= i < flash.cells.Length && !InUnit(i, PageStart(addr), PAGE) ::
              flash.cells[i] == old(flash.cells[i])
    ensures addr % PAGE == 0 && status == 0 ==>
              forall i | addr <= i < addr + PAGE && old(flash.cells[i]) == ERASED ::
                flash.cells[i] == (if i < addr + |chunk| then chunk[i - addr] else ERASED)
  {
    forall i | 0 <= i < PAGE {
      pageBuffer[i] := if i < |chunk| then chunk[i] else ERASED;
    }
    status := flash.PageProgram(addr, pageBuffer);
    forall i: uint8 ensures And(ERASED, i) == i {
      AndErased(i);
    }
  }

  /** A pass changes nothing outside the data's sectors. */
  lemma FrameStep(before: seq<uint8>, was: seq<uint8>, now: seq<uint8>, offset: nat, len: nat, addr: nat)
    requires offset <= addr < offset + len && SameOutside(before, was, offset, len)
    requires SameExcept(was, now, SectorStart(addr), SectorStart(addr) + SECTOR)
    ensures SameOutside(before, now, offset, len)
  {
    UnitWithinSectors(offset, len, addr);
  }

  /** One pass of the write loop, at `addr` with the cells from there to `nextEraseAddr` erased. */
  method WriteChunk(flash: Flash, chunk: seq<uint8>, addr: nat, nextEraseAddr: nat, pageBuffer: array<uint8>,
                    ghost aligned: bool)
    returns (ret: int, next: nat)
    requires flash.Valid() && pageBuffer.Length == PAGE && pageBuffer != flash.cells
    requires 0 < |chunk| <= PAGE && addr < flash.cells.Length
    requires addr == nextEraseAddr || addr + PAGE <= nextEraseAddr
    requires aligned ==> addr % PAGE == 0 && nextEraseAddr % SECTOR == 0 && nextEraseAddr <= flash.cells.Length
    requires aligned ==> forall i | addr <= i < nextEraseAddr :: flash.cells[i] == ERASED
    modifies flash.cells, pageBuffer
    ensures ret == 0 || ret == -1 || ret == -2
    ensures aligned && flash.working ==> ret == 0
    ensures next == if addr == nextEraseAddr then nextEraseAddr + SECTOR else nextEraseAddr
    ensures SameExcept(old(flash.cells[..]), flash.cells[..], SectorStart(addr), SectorStart(addr) + SECTOR)
    ensures aligned && ret == 0 ==>
              && next <= flash.cells.Length
              && (forall i | 0 <= i < addr :: flash.cells[i] == old(flash.cells[i]))
              && (forall i | addr <= i < next ::
                    flash.cells[i] == (if i < addr + |chunk| then chunk[i - addr] else ERASED))
  {
    UnitWithinSectors(SectorStart(addr), SECTOR, addr);
    next := if addr >= nextEraseAddr then nextEraseAddr + SECTOR else nextEraseAddr;
    ret := EraseOnReaching(flash, addr, nextEraseAddr);
    if ret != 0 {
      ret := -2;
      return;
    }
    ret := ProgramChunk(flash, chunk, addr, pageBuffer);
    if ret != 0 {
      ret := -1;
    }
  }

  /** `aknano_write_data_to_flash`: program page after page, erasing each sector on reaching it.
      Whatever happens only the sectors of the data change; on success at an aligned offset the flash
      holds exactly the data followed by erased cells, whatever it held before. */
  method WriteDataToFlash(flash: Flash, offset: nat, data: seq<uint8>) returns (ret: int)
    requires flash.Valid() && offset + |data| <= flash.cells.Length
    modifies flash.cells
    ensures ret == 0 || ret == -1 || ret == -2
    ensures SameOutside(old(flash.cells[..]), flash.cells[..], offset, |data|)
    ensures data == [] ==> ret == 0
    ensures flash.working && offset % SECTOR == 0 ==> ret == 0
    ensures ret == 0 && offset % SECTOR == 0 ==>
              flash.cells[..] == Stored(old(flash.cells[..]), offset, data)
  {
    ret := 0;
    var totalProcessed := 0;
    var pageBuffer := new uint8[PAGE];
    var chunkFlashAddr, nextEraseAddr := offset, offset;
    var chunkLen := PAGE;  // a do-while: the first test always succeeds
    ghost var before := flash.cells[..];
    ghost var pages, sectors: nat := 0, 0;
    ghost var aligned := offset % SECTOR == 0;
    while chunkLen == PAGE
      invariant ret == 0 && 0 <= totalProcessed <= |data| && 0 <= chunkLen <= PAGE
      invariant chunkFlashAddr == offset + totalProcessed && nextEraseAddr == offset + SECTOR * sectors
      invariant totalProcessed == if chunkLen == PAGE then PAGE * pages else |data|
      invariant totalProcessed <= SECTOR * sectors < totalProcessed + SECTOR
      invariant SameOutside(before, flash.cells[..], offset, |data|)
      invariant aligned ==> nextEraseAddr <= flash.cells.Length
      invariant aligned ==> forall i | offset <= i < nextEraseAddr ::
                  flash.cells[i] == if i < chunkFlashAddr then data[i - offset] else ERASED
      decreases |data| - totalProcessed, chunkLen
    {
      var remainingBytes := |data| - totalProcessed;
      chunkLen := if remainingBytes < PAGE then remainingBytes else PAGE;
      if chunkLen > 0 {
        ghost var was := flash.cells[..];
        if aligned {
          AlignedAddresses(offset, pages, sectors);
        }
        if nextEraseAddr > chunkFlashAddr {
          PageFits(pages, sectors);
        }
        ret, nextEraseAddr := WriteChunk(flash, data[totalProcessed..totalProcessed + chunkLen], chunkFlashAddr,
                                         nextEraseAddr, pageBuffer, aligned);
        FrameStep(before, was, flash.cells[..], offset, |data|, chunkFlashAddr);
        if ret != 0 {
          break;
        }
        sectors := if chunkFlashAddr == offset + SECTOR * sectors then sectors + 1 else sectors;
        totalProcessed := totalProcessed + chunkLen;
        chunkFlashAddr := chunkFlashAddr + chunkLen;
        pages := pages + 1;
      }
    }
    if aligned && ret == 0 {
      SectorsCovered(offset, |data|, sectors);
      LaidOut(before, flash.cells[..], offset, data);
    }
  }
}
