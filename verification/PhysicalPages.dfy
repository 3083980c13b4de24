/** The physical page allocator: one bit per 4 KB frame, set while the frame is taken. */
module PhysicalPages {
  import opened Machine
  import opened Bits
  import opened Wrappers

  const HIGH_PADDRESS: nat := 0x0100_0000  // 16 MB
  const LOW_PADDRESS: nat := PAGE_SIZE
  const HIGH_FRAME: nat := 4096
  const VGA_PADDRESS: nat := 0x000B_8000

  class PhysicalMemory {
    const bitmap: array<bv8>
    const maxAddress: nat

    ghost predicate Valid() {
      maxAddress % PAGE_SIZE == 0 && maxAddress < TWO_32 && Frames() <= 8 * bitmap.Length
    }

    // How many frames lie below the highest usable address.
    function Frames(): nat {
      maxAddress / PAGE_SIZE
    }

    ghost function Taken(): set<nat>
      reads bitmap
    {
      MarkedSet(bitmap[..])
    }

    constructor (size: nat, maxAddress: nat)
      ensures bitmap.Length == size && this.maxAddress == maxAddress && fresh(bitmap)
      ensures Taken() == {}
    {
      bitmap := new bv8[size](_ => 0);
      this.maxAddress := maxAddress;
      new;
      forall f: nat | f < 8 * size
        ensures !Marked(bitmap[..], f)
      {
        assert bitmap[f / 8] == 0;
      }
    }

    method IsPageFree(address: nat) returns (free: bool)
      requires address / PAGE_SIZE < 8 * bitmap.Length
      ensures free <==> address / PAGE_SIZE !in Taken()
      ensures free <==> bitmap[address / 32768] & Mask(address / 4096 % 8) == 0
    {
      var f := address / PAGE_SIZE;
      free := bitmap[f / 8] & Mask(f % 8) == 0;
    }

    method AllocAddress(address: nat)
      requires address / PAGE_SIZE < 8 * bitmap.Length
      modifies bitmap
      ensures Taken() == old(Taken()) + {address / PAGE_SIZE}
    {
      var f := address / PAGE_SIZE;
      MarkOne(bitmap[..], f);
      ghost var was := bitmap[..];
      bitmap[f / 8] := bitmap[f / 8] | Mask(f % 8);
      assert bitmap[..] == was[f / 8 := was[f / 8] | Mask(f % 8)];
    }

    // Addresses 0 and beyond the end of memory are ignored.
    method PageFree(address: nat)
      requires Valid()
      modifies bitmap
      ensures Taken() == if 0 < address < maxAddress then old(Taken()) - {address / PAGE_SIZE} else old(Taken())
    {
      if address != 0 && address < maxAddress {
        var f := address / PAGE_SIZE;
        ghost var was := bitmap[..];
        ClearOne(was, f);
        bitmap[f / 8] := bitmap[f / 8] & !Mask(f % 8);
        assert bitmap[..] == was[f / 8 := was[f / 8] & !Mask(f % 8)];
      }
    }

    // The lowest free frame of [low, high) is taken and its address returned; 0 when there is none.
    method PageAllocLimit(low: nat, high: nat) returns (address: nat)
      requires Valid()
      requires low % PAGE_SIZE == 0 < low && high % PAGE_SIZE == 0 && high <= maxAddress
      modifies bitmap
      ensures address == 0 <==> forall f: nat | low / PAGE_SIZE <= f < high / PAGE_SIZE :: f in old(Taken())
      ensures address == 0 ==> Taken() == old(Taken())
      ensures address != 0 ==> LowestFree(address, low / PAGE_SIZE, high / PAGE_SIZE, old(Taken()))
      ensures address != 0 ==> Taken() == old(Taken()) + {address / PAGE_SIZE}
    {
      ghost var n := low / PAGE_SIZE;
      var current := low;
      while current < high
        invariant low / PAGE_SIZE <= n && current == n * PAGE_SIZE
        invariant Taken() == old(Taken())
        invariant forall f: nat | low / PAGE_SIZE <= f < n :: f in old(Taken())
      {
        assert current / PAGE_SIZE == n < high / PAGE_SIZE;
        var free := IsPageFree(current);
        if free {
          AllocAddress(current);
          return current;
        }
        current, n := current + PAGE_SIZE, n + 1;
      }
      return 0;
    }

    method PageAllocHigh() returns (address: nat)
      requires Valid()
      modifies bitmap
      ensures address == 0 <==> forall f: nat | HIGH_FRAME <= f < Frames() :: f in old(Taken())
      ensures address == 0 ==> Taken() == old(Taken())
      ensures address != 0 ==> LowestFree(address, HIGH_FRAME, Frames(), old(Taken()))
      ensures address != 0 ==> Taken() == old(Taken()) + {address / PAGE_SIZE}
    {
      address := 0;
      if maxAddress > HIGH_PADDRESS {
        address := PageAllocLimit(HIGH_PADDRESS, maxAddress);
      }
    }

    method PageAllocLow() returns (address: nat)
      requires Valid()
      modifies bitmap
      ensures address == 0 <==> forall f: nat | 1 <= f < Frames() && f < HIGH_FRAME :: f in old(Taken())
      ensures address == 0 ==> Taken() == old(Taken())
      ensures address != 0 ==>
                LowestFree(address, 1, if Frames() < HIGH_FRAME then Frames() else HIGH_FRAME, old(Taken()))
      ensures address != 0 ==> Taken() == old(Taken()) + {address / PAGE_SIZE}
    {
      if HIGH_PADDRESS > maxAddress {
        address := PageAllocLimit(LOW_PADDRESS, maxAddress);
      } else {
        address := PageAllocLimit(LOW_PADDRESS, HIGH_PADDRESS);
      }
    }

    // High memory first, so that low memory stays available to devices that need it.
    // The kernel panics where this returns 0.
    method PageAlloc() returns (address: nat)
      requires Valid()
      modifies bitmap
      ensures address == 0 <==> forall f: nat | 1 <= f < Frames() :: f in old(Taken())
      ensures address == 0 ==> Taken() == old(Taken())
      ensures address != 0 ==> Taken() == old(Taken()) + {address / PAGE_SIZE}
      ensures address >= HIGH_PADDRESS ==> LowestFree(address, HIGH_FRAME, Frames(), old(Taken()))
      ensures 0 < address < HIGH_PADDRESS ==>
                && LowestFree(address, 1, if Frames() < HIGH_FRAME then Frames() else HIGH_FRAME, old(Taken()))
                && forall f: nat | HIGH_FRAME <= f < Frames() :: f in old(Taken())
      ensures address != 0 ==> NextFree(address / PAGE_SIZE, Frames(), old(Taken()))
      ensures 0 < address < 0x100_0000 ==> forall f: nat | 0x1000 <= f && 4096 * f < maxAddress :: f in old(Taken())
    {
      address := PageAllocHigh();
      if address == 0 {
        address := PageAllocLow();
      }
    }
  }

  // `address` is that of the lowest frame of [low, high) outside `taken`.
  ghost predicate LowestFree(address: nat, low: nat, high: nat, taken: set<nat>) {
    var f := address / PAGE_SIZE;
    address % PAGE_SIZE == 0 && low <= f < high && f !in taken && forall g: nat | low <= g < f :: g in taken
  }

  // The frame that an allocation takes: the lowest free one from 16 MB on or, if there is none, below.
  ghost predicate NextFree(f: nat, frames: nat, taken: set<nat>) {
    && 0 < f < frames && f !in taken
    && (forall g: nat | HIGH_FRAME <= g < (if f < HIGH_FRAME then frames else f) :: g in taken)
    && (f < HIGH_FRAME ==> forall g: nat | 0 < g < f :: g in taken)
  }

  lemma NextFreeUnique(f: nat, g: nat, frames: nat, taken: set<nat>)
    requires NextFree(f, frames, taken) && NextFree(g, frames, taken)
    ensures f == g
  {
  }

  // ---------- Building the bitmap from the boot loader's memory map ----------

  datatype Region = Region(base: nat, length: nat, available: bool) {
    ghost predicate Valid() {
      base < TWO_32 && length < TWO_32
    }

    // The end address, in 32-bit arithmetic.
    function End(): nat {
      (base + length) % TWO_32
    }

    // Does the walk in 4 KB steps from `base` reach an address at or past the end?
    predicate WalkEnds() {
      base >= End() || base + (End() - base + PAGE_SIZE - 1) / PAGE_SIZE * PAGE_SIZE < TWO_32
    }

    // The address at which the walk meets frame `f`, if it does.
    function VisitAddress(f: nat): nat {
      f * PAGE_SIZE + base % PAGE_SIZE
    }

    ghost predicate Frees(f: nat, maxAddress: nat) {
      available && base <= VisitAddress(f) < End() && 0 < VisitAddress(f) < maxAddress
    }
  }

  datatype MultibootInfo = MultibootInfo(hasMemory: bool, memUpper: nat, memoryMap: Option<seq<Region>>) {
    function Megabytes(): nat {
      memUpper / 1024 + 1
    }

    function BitmapSize(): nat {
      Megabytes() * 256 / 8
    }

    function MaxAddress(): nat {
      1024 * 1024 * Megabytes() % TWO_32
    }
  }

  // The bitmap has a bit for every frame below the highest address.
  lemma BitmapCovers(m: MultibootInfo)
    ensures m.MaxAddress() % PAGE_SIZE == 0 && m.MaxAddress() < TWO_32
    ensures m.MaxAddress() / PAGE_SIZE <= 8 * m.BitmapSize() && 256 <= 8 * m.BitmapSize()
    // in whole megabytes, the first one and those that the `memUpper` kilobytes behind it reach
    ensures m.MaxAddress() == WholeMegabytes(m.memUpper) % 0x1_0000_0000
    ensures 8 * m.BitmapSize() * 4096 == WholeMegabytes(m.memUpper)
  {
    WholeExactly(m.memUpper);
    WrappedMegabytes(m.memUpper / 1024 + 1);
    assert m.BitmapSize() == 32 * (m.memUpper / 1024 + 1);
  }

  // The first megabyte and `memUpper` kilobytes, rounded down to megabytes.
  function WholeMegabytes(memUpper: nat): nat {
    (0x10_0000 + 1024 * memUpper) / 0x10_0000 * 0x10_0000
  }

  lemma WholeExactly(memUpper: nat)
    ensures WholeMegabytes(memUpper) == 0x10_0000 * (memUpper / 1024 + 1) && WholeMegabytes(memUpper) % 0x10_0000 == 0
    ensures WholeMegabytes(memUpper) <= 0x10_0000 + 1024 * memUpper < WholeMegabytes(memUpper) + 0x10_0000
  {
    var q, r := memUpper / 1024, memUpper % 1024;
    assert 0x10_0000 + 1024 * memUpper == 0x10_0000 * (q + 1) + 1024 * r;
  }

  lemma WrappedMegabytes(mb: nat)
    ensures 1024 * 1024 * mb % TWO_32 == 256 * (mb % 4096) * PAGE_SIZE && mb % 4096 <= mb
  {
    var q, r := mb / 4096, mb % 4096;
    assert mb == 4096 * q + r;
    assert 1024 * 1024 * mb == TWO_32 * q + 1024 * 1024 * r;
  }

  // The frames that the memory map, or the lack of one, leaves free.
  ghost predicate Offered(m: MultibootInfo, f: nat) {
    match m.memoryMap
    case Some(regions) => exists i :: 0 <= i < |regions| && regions[i].Frees(f, m.MaxAddress())
    case None => f != VGA_PADDRESS / PAGE_SIZE
  }

  // The frames of the kernel image and of the bitmap that follows it.
  ghost predicate KernelFrame(m: MultibootInfo, start: nat, end: nat, f: nat) {
    start <= f * PAGE_SIZE < end + m.BitmapSize()
  }

  // The address after `steps` steps, in 32-bit arithmetic.
  function StepAddress(region: Region, steps: nat): nat {
    (region.base + steps * PAGE_SIZE) % TWO_32
  }

  lemma WalkNeverEnds(region: Region, steps: nat)
    requires region.Valid() && !region.WalkEnds()
    ensures StepAddress(region, steps) < region.End()
  {
    var q, r := region.base / PAGE_SIZE, region.base % PAGE_SIZE;
    var a, b := (q + steps) / 0x10_0000, (q + steps) % 0x10_0000;
    assert region.base + steps * PAGE_SIZE == a * TWO_32 + (b * PAGE_SIZE + r);
    assert StepAddress(region, steps) == b * PAGE_SIZE + r;
    var n := (region.End() - region.base + PAGE_SIZE - 1) / PAGE_SIZE;
    assert (q + n) * PAGE_SIZE + r >= TWO_32;
    assert q + n >= 0x10_0000 && (n - 1) * PAGE_SIZE < region.End() - region.base;
  }

  // The condition is exact: where it fails, every step stays below the end address.
  lemma WalkEndsExactly(region: Region)
    requires region.Valid()
    ensures region.WalkEnds() <==> exists steps: nat :: StepAddress(region, steps) >= region.End()
  {
    if region.base >= region.End() {
      assert StepAddress(region, 0) >= region.End();
    } else if region.WalkEnds() {
      assert StepAddress(region, (region.End() - region.base + PAGE_SIZE - 1) / PAGE_SIZE) >= region.End();
    } else {
      forall steps: nat
        ensures StepAddress(region, steps) < region.End()
      {
        WalkNeverEnds(region, steps);
      }
    }
  }

  // A region that ends just below 4 GB, not at a page's start: the walk wraps and never ends.
  lemma WalkNeverEndsAt()
    ensures var region := Region(0xFFFF_E800, 0x17FF, true);
            && region.Valid() && region.End() == 0xFFFF_FFFF
            && forall steps: nat :: StepAddress(region, steps) < region.End()
  {
    WalkEndsExactly(Region(0xFFFF_E800, 0x17FF, true));
  }

  lemma NextStep(region: Region, address: nat)
    requires region.Valid() && region.WalkEnds() && region.base <= address < region.End()
    requires address % PAGE_SIZE == region.base % PAGE_SIZE
    ensures address + PAGE_SIZE < TWO_32
    ensures region.VisitAddress(address / PAGE_SIZE) == address
  {
    var steps := (address - region.base) / PAGE_SIZE;
    assert address == region.base + steps * PAGE_SIZE;
  }

  method FillBitmap(pages: PhysicalMemory)
    modifies pages.bitmap
    ensures forall f: nat | f < 8 * pages.bitmap.Length :: f in pages.Taken()
  {
    for i := 0 to pages.bitmap.Length
      invariant forall k | 0 <= k < i :: pages.bitmap[k] == 0xff
    {
      pages.bitmap[i] := 0xff;
    }
    forall f: nat | f < 8 * pages.bitmap.Length
      ensures Marked(pages.bitmap[..], f)
    {
      FullByte(pages.bitmap[f / 8]);
    }
  }

  method ReserveKernel(pages: PhysicalMemory, start: nat, end: nat)
    requires pages.Valid() && start % PAGE_SIZE == 0 && end <= 8 * pages.bitmap.Length * PAGE_SIZE
    modifies pages.bitmap
    ensures forall f: nat :: f in pages.Taken() <==> f in old(pages.Taken()) || start <= f * PAGE_SIZE < end
  {
    ghost var n := start / PAGE_SIZE;
    var address := start;
    while address < end
      invariant start <= address == n * PAGE_SIZE && (start < address ==> address < end + PAGE_SIZE)
      invariant forall f: nat :: f in pages.Taken() <==> f in old(pages.Taken()) || start / PAGE_SIZE <= f < n
    {
      assert address / PAGE_SIZE == n;
      pages.AllocAddress(address);
      address, n := address + PAGE_SIZE, n + 1;
    }
    assert forall f: nat :: start / PAGE_SIZE <= f < n <==> start <= f * PAGE_SIZE < end;
  }

  method FreeRegion(pages: PhysicalMemory, region: Region)
    requires pages.Valid() && region.Valid() && region.available && region.WalkEnds()
    modifies pages.bitmap
    ensures forall f: nat :: f in pages.Taken() <==> f in old(pages.Taken()) && !region.Frees(f, pages.maxAddress)
  {
    ghost var n := 0;
    var address := region.base;
    while address < region.End()
      invariant address == region.base + n * PAGE_SIZE < TWO_32
      invariant forall f: nat :: f in pages.Taken() <==>
                                 && f in old(pages.Taken())
                                 && !(region.Frees(f, pages.maxAddress) && f < region.base / PAGE_SIZE + n)
      decreases region.End() - address
    {
      assert address / PAGE_SIZE == region.base / PAGE_SIZE + n && address % PAGE_SIZE == region.base % PAGE_SIZE;
      NextStep(region, address);
      pages.PageFree(address);
      address, n := (address + PAGE_SIZE) % TWO_32, n + 1;
    }
  }

  method FreeRegions(pages: PhysicalMemory, regions: seq<Region>)
    requires pages.Valid()
    requires forall r | r in regions :: r.Valid() && (r.available ==> r.WalkEnds())
    modifies pages.bitmap
    ensures forall f: nat | f < 8 * pages.bitmap.Length ::
              f in pages.Taken() <==> !exists i :: 0 <= i < |regions| && regions[i].Frees(f, pages.maxAddress)
  {
    FillBitmap(pages);
    for i := 0 to |regions|
      invariant forall f: nat | f < 8 * pages.bitmap.Length ::
          f in pages.Taken() <==> !exists k :: 0 <= k < i && regions[k].Frees(f, pages.maxAddress)
    {
      if regions[i].available {
        FreeRegion(pages, regions[i]);
      }
    }
  }

  ghost predicate FreeAsOffered(m: MultibootInfo, taken: set<nat>) {
    forall f: nat | f < 8 * m.BitmapSize() :: f in taken <==> !Offered(m, f)
  }

  // 32-bit numbers, regions whose walk ends, and a page-aligned kernel that lies, with the bitmap behind it, in
  // memory the bitmap has bits for.
  ghost predicate Bootable(m: MultibootInfo, start: nat, end: nat) {
    && m.memUpper < TWO_32
    && (m.memoryMap.Some? ==>
          forall r | r in m.memoryMap.value :: r.Valid() && (r.available ==> r.WalkEnds()))
    && start % PAGE_SIZE == 0 && start <= end
    && end + m.BitmapSize() <= 8 * m.BitmapSize() * PAGE_SIZE && end + m.BitmapSize() <= TWO_32 - PAGE_SIZE
  }

  // Some available region that does not wrap reaches the frame, in memory.
  ghost predicate OfferedAt(m: MultibootInfo, f: nat)
    requires m.memoryMap.Some?
  {
    exists i: nat :: i < |m.memoryMap.value| && RegionOffers(m, i, f)
  }

  ghost predicate RegionOffers(m: MultibootInfo, i: nat, f: nat)
    requires m.memoryMap.Some? && i < |m.memoryMap.value|
  {
    var r := m.memoryMap.value[i];
    && r.available && r.base <= 4096 * f + r.base % 4096 < r.base + r.length
    && r.base + r.length < 0x1_0000_0000 && 0 < 4096 * f + r.base % 4096 < m.MaxAddress()
  }

  // A region that reaches 4 GB or beyond offers nothing.
  lemma WrappedOffersNothing(r: Region, f: nat, maxAddress: nat)
    requires r.base < 0x1_0000_0000 && r.length < 0x1_0000_0000 && 0x1_0000_0000 <= r.base + r.length
    ensures !r.Frees(f, maxAddress)
  {
    assert (r.base + r.length) % 0x1_0000_0000 == r.base + r.length - 0x1_0000_0000;
  }

  // On the map's numbers: what is offered by a region that does not wrap, and that nothing else is offered.
  lemma OfferedOnMap(m: MultibootInfo, f: nat)
    requires m.memoryMap.Some?
    ensures OfferedAt(m, f) ==> Offered(m, f)
    ensures Offered(m, f) ==>
              exists r :: r in m.memoryMap.value && r.available
                          && r.base <= 4096 * f + r.base % 4096 < r.base + r.length
                          && 0 < 4096 * f + r.base % 4096 < m.MaxAddress()
  {
    var regions := m.memoryMap.value;
    if Offered(m, f) {
      var i :| 0 <= i < |regions| && regions[i].Frees(f, m.MaxAddress());
      assert regions[i] in regions && regions[i].End() <= regions[i].base + regions[i].length;
    }
    if OfferedAt(m, f) {
      var i: nat :| i < |regions| && RegionOffers(m, i, f);
      assert regions[i].Frees(f, m.MaxAddress());
    }
  }

  method PhysicalInit(m: MultibootInfo, start: nat, end: nat) returns (pages: PhysicalMemory?)
    requires Bootable(m, start, end)
    ensures pages == null <==> !m.hasMemory
    ensures pages != null ==>
              && pages.Valid() && fresh(pages) && fresh(pages.bitmap) && pages.maxAddress == m.MaxAddress()
              && forall f: nat | f < 8 * m.BitmapSize() ::
                   f in pages.Taken() <==> !Offered(m, f) || KernelFrame(m, start, end, f)
    // on the numbers given
    ensures pages != null ==>
              && pages.maxAddress == WholeMegabytes(m.memUpper) % 0x1_0000_0000
              && WholeMegabytes(m.memUpper) % 0x10_0000 == 0
              && 8 * pages.bitmap.Length * 4096 == WholeMegabytes(m.memUpper)
              && WholeMegabytes(m.memUpper) <= 0x10_0000 + 1024 * m.memUpper < WholeMegabytes(m.memUpper) + 0x10_0000
    ensures pages != null && m.memoryMap.Some? ==>
              forall f: nat, i: nat |
                && i < |m.memoryMap.value| && m.memoryMap.value[i].available
                && m.memoryMap.value[i].base <= 4096 * f + m.memoryMap.value[i].base % 4096
                && 4096 * f + m.memoryMap.value[i].base % 4096 < m.memoryMap.value[i].base + m.memoryMap.value[i].length
                && m.memoryMap.value[i].base + m.memoryMap.value[i].length < 0x1_0000_0000
                && 0 < 4096 * f + m.memoryMap.value[i].base % 4096 < pages.maxAddress
                && !(start <= 4096 * f < end + pages.bitmap.Length) ::
                f !in pages.Taken()
    ensures pages != null && m.memoryMap.None? ==>
              forall f: nat | f < 8 * pages.bitmap.Length ::
                f in pages.Taken() <==> f == 0xB8 || start <= 4096 * f < end + pages.bitmap.Length
  {
    if !m.hasMemory {
      return null;
    }
    BitmapCovers(m);
    pages := new PhysicalMemory(m.BitmapSize(), m.MaxAddress());
    match m.memoryMap {
      case Some(regions) => FreeRegions(pages, regions);
      case None => pages.AllocAddress(VGA_PADDRESS);
    }
    assert FreeAsOffered(m, pages.Taken());
    ReserveKernel(pages, start, end + m.BitmapSize());
    WholeExactly(m.memUpper);
    if m.memoryMap.Some? {
      forall f: nat
        ensures OfferedAt(m, f) ==> Offered(m, f)
      {
        OfferedOnMap(m, f);
      }
    }
  }
}
