/** Starting the memory stack: the page allocator from the boot loader's information, the kernel's page
    directory, and an empty heap. */
module Boot {
  import opened Machine
  import opened PageTables
  import opened FrameOwnership
  import P = PhysicalPages
  import A = AddressSpaces
  import H = KernelHeap
  import R = FrameRuns
  import K = KernelMemory

  // May frame `f` be handed out? It must be in memory and offered by the map, and not hold the kernel or its bitmap.
  ghost predicate Usable(m: P.MultibootInfo, start: nat, end: nat, f: nat) {
    f < m.MaxAddress() / PAGE_SIZE && P.Offered(m, f) && !P.KernelFrame(m, start, end, f)
  }

  // Every frame with an owner is one that may be handed out.
  ghost predicate OwnersUsable(m: P.MultibootInfo, start: nat, end: nat, s: Snapshot) {
    forall f | f in s.owner :: 0 < f && Usable(m, start, end, f)
  }

  // Null where there is no memory information, or no memory for the directory. `ram` is what memory holds at boot.
  method MmInit(m: P.MultibootInfo, start: nat, end: nat, ram: Ram, links: bool) returns (memory: K.KernelMemory?)
    requires P.Bootable(m, start, end) && |ram| == m.MaxAddress() / PAGE_SIZE
    ensures memory != null ==>
              && m.hasMemory && fresh(memory) && fresh(memory.users) && fresh(memory.heap) && fresh(memory.heap.spaces)
              && fresh(memory.heap.spaces.pages.bitmap)
              && memory.Valid() && memory.heap.links == links
              && memory.heap.Now() == H.EMPTY && memory.users.clients == {}
              && Excludes(m, start, end, memory.heap.spaces.reserved, |memory.heap.spaces.ram|)
              && memory.heap.spaces.pages.maxAddress == m.MaxAddress()
              && memory.heap.spaces.pages.bitmap.Length == m.BitmapSize()
    ensures memory == null && m.hasMemory ==>
              forall f: nat | 0 < f :: !Usable(m, start, end, f)
  {
    P.BitmapCovers(m);
    var pages := P.PhysicalInit(m, start, end);
    if pages == null {
      return null;
    }
    var spaces := new A.AddressSpaces(pages, ram);
    var users := new R.FrameClients(spaces);
    var dir := users.MakeDirectory(false);
    if dir == 0 {
      return null;
    }
    var heap := new H.KernelHeap(spaces, Process(dir, false), links);
    memory := new K.KernelMemory(heap, users);
  }

  // Of the frames in memory, all but the usable ones are reserved.
  ghost predicate Excludes(m: P.MultibootInfo, start: nat, end: nat, reserved: set<nat>, frames: nat) {
    && frames == m.MaxAddress() / PAGE_SIZE
    && forall f: nat | f < frames :: f in reserved <==> !Usable(m, start, end, f)
  }

  lemma NoneOwnsTheKernel(m: P.MultibootInfo, start: nat, end: nat, s: Snapshot, reserved: set<nat>)
    requires s.Sound(reserved) && Excludes(m, start, end, reserved, |s.ram|)
    ensures OwnersUsable(m, start, end, s)
  {
    forall f | f in s.owner
      ensures 0 < f && Usable(m, start, end, f)
    {
      assert s.Owned(f, reserved);
    }
  }

  // From boot over any run, no frame of the kernel, none outside memory and none that the memory map does not
  // offer ever serves as a directory, a table, a heap page or a client's page.
  method BootAndRun(m: P.MultibootInfo, start: nat, end: nat, ram: Ram, links: bool, ops: seq<K.Op>)
    returns (memory: K.KernelMemory?, ok: bool)
    requires P.Bootable(m, start, end) && |ram| == m.MaxAddress() / PAGE_SIZE
    ensures memory != null ==> memory.heap.spaces.Valid() && OwnersUsable(m, start, end, memory.heap.spaces.State())
    ensures memory != null ==>
              forall f | f in memory.heap.spaces.owner ::
                && 0 < 4096 * f < memory.heap.spaces.pages.maxAddress
                && !(start <= 4096 * f < end + memory.heap.spaces.pages.bitmap.Length)
                && (m.memoryMap.None? ==> f != 0xB8)
                && (m.memoryMap.Some? ==>
                      exists r :: r in m.memoryMap.value && r.available
                                  && r.base <= 4096 * f + r.base % 4096 < r.base + r.length)
    ensures memory != null && ok ==> memory.Valid()
    ensures memory != null && !ok ==> memory.heap.spaces.State().Exhausted()
  {
    ok := true;
    memory := MmInit(m, start, end, ram, links);
    if memory != null {
      ghost var trace;
      ok, trace := memory.Run(ops);
      if m.memoryMap.Some? {
        forall f: nat
          ensures P.Offered(m, f) ==>
                    exists r :: r in m.memoryMap.value && r.available
                                && r.base <= 4096 * f + r.base % 4096 < r.base + r.length
        {
          P.OfferedOnMap(m, f);
        }
      }
      NoneOwnsTheKernel(m, start, end, memory.heap.spaces.State(), memory.heap.spaces.reserved);
    }
  }
}
