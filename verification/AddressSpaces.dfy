/** Page directories and page tables that are created on demand, over the page allocator. */
module AddressSpaces {
  import opened Machine
  import opened PageTables
  import opened FrameOwnership
  import P = PhysicalPages

  class AddressSpaces {
    const pages: P.PhysicalMemory
    ghost const reserved: set<nat>  // the frames taken before the first allocation, never handed out
    var ram: Ram
    ghost var owner: map<nat, Owner>

    ghost function State(): Snapshot
      reads this, pages.bitmap
    {
      Snapshot(ram, pages.Taken(), owner)
    }

    ghost predicate Valid()
      reads this, pages.bitmap
    {
      pages.Valid() && pages.Frames() == |ram| && State().Sound(reserved)
    }

    // Whatever memory holds at boot, nothing has been handed out yet.
    constructor (pages: P.PhysicalMemory, ram: Ram)
      requires pages.Valid() && pages.Frames() == |ram|
      ensures Valid() && this.pages == pages && this.ram == ram
      ensures owner == map[] && reserved == pages.Taken()
    {
      this.pages := pages;
      this.ram := ram;
      reserved := pages.Taken();
      owner := map[];
    }

    method SetPageDirectoryEntry(p: Process, linear: nat, table: nat)
      requires Valid() && State().IsDirectory(p.pageDir) && DirectoryIndex(linear) < ENTRIES - 1
      requires State().Owned(table, reserved) && table !in owner
      modifies this
      ensures Valid() && p.pageDir < |ram|
      ensures ram == Install(old(ram), p.pageDir, DirectoryIndex(linear), table, p.user)
      ensures owner == old(owner)[table := TableOf(p.pageDir, DirectoryIndex(linear))]
    {
      var slot := DirectoryIndex(linear);
      InstallKeeps(State(), reserved, p, slot, table);
      ram := ram[p.pageDir := ram[p.pageDir][slot := Entry(true, true, p.user, table)]];
      owner := owner[table := TableOf(p.pageDir, slot)];
    }

    // Returns the frame and index of the entry for `linear`; `ok` is false where the kernel panics
    // for lack of memory. The tables it had to make are `created`.
    method GetPageTableEntry(p: Process, linear: nat)
      returns (ok: bool, frame: nat, index: nat, ghost created: seq<nat>)
      requires Valid() && linear < TWO_32 && linear % PAGE_SIZE == 0 && State().IsDirectory(p.pageDir)
      modifies this, pages.bitmap
      ensures Valid()
      ensures !ok ==> State().Exhausted()
      ensures ok ==> Resolves(old(State()), p, DirectoryIndex(linear), TableIndex(linear), created, State())
      ensures ok && created != [] ==> P.NextFree(created[0], |ram|, old(pages.Taken()))
      ensures ok ==> State().IsDirectory(p.pageDir) && index == TableIndex(linear)
      ensures ok ==> 0 < frame == TableFrame(old(ram), p.pageDir, DirectoryIndex(linear), created)
      ensures ok && DirectoryIndex(linear) < ENTRIES - 1 ==>
                frame in owner && owner[frame] == TableOf(p.pageDir, DirectoryIndex(linear))
      decreases ENTRIES - DirectoryIndex(linear), State().Missing(p.pageDir, DirectoryIndex(linear)), 0
    {
      var slot := DirectoryIndex(linear);
      index := TableIndex(linear);
      SlotInRam(State(), reserved, p.pageDir, slot);
      DirectoryEntryOwner(State(), reserved, p.pageDir, slot);
      ok, created := true, [];
      frame := ram[p.pageDir][slot].frame;
      if frame == 0 {
        SlotOpens(State(), reserved, p, slot, index);
        ok, frame := AddTable(p, linear);
        if !ok {
          return;
        }
        ok, created := InitialiseTable(p, linear, frame, old(State()));
        if ok {
          LastRound(old(State()), p, slot, index, created, State());
        }
      }
    }

    // A fresh frame becomes the table of an empty slot; its entries are what the frame held.
    method AddTable(p: Process, linear: nat) returns (ok: bool, table: nat)
      requires Valid() && linear < TWO_32 && linear % PAGE_SIZE == 0
      requires State().Mappable(p, DirectoryIndex(linear), TableIndex(linear))
      requires ram[p.pageDir][DirectoryIndex(linear)].frame == 0
      modifies this, pages.bitmap
      ensures Valid()
      ensures !ok ==> State().Exhausted()
      ensures ok ==> Underway(old(State()), p, DirectoryIndex(linear), TableIndex(linear), [table], State(), 0)
      ensures ok ==> P.NextFree(table, |ram|, old(pages.Taken()))
      ensures ok ==> State().Missing(p.pageDir, DirectoryIndex(linear)) == 0
    {
      var slot := DirectoryIndex(linear);
      SlotOpens(State(), reserved, p, slot, TableIndex(linear));
      var address := pages.PageAlloc();
      if address == 0 {
        return false, 0;
      }
      table := address / PAGE_SIZE;
      TakeKeeps(old(State()), reserved, table);
      FirstRound(old(State()), p, slot, TableIndex(linear), table);
      SetPageDirectoryEntry(p, linear, table);
      ok := true;
    }

    // The loop that clears a new table. It starts at the address asked for, not at the table's start.
    method InitialiseTable(p: Process, linear: nat, table: nat, ghost start: Snapshot)
      returns (ok: bool, ghost created: seq<nat>)
      requires Valid() && linear < TWO_32 && linear % PAGE_SIZE == 0 && DirectoryIndex(linear) < ENTRIES - 1
      requires Underway(start, p, DirectoryIndex(linear), TableIndex(linear), [table], State(), 0)
      requires NextSlotOpen(start, p, DirectoryIndex(linear), TableIndex(linear))
      modifies this, pages.bitmap
      ensures Valid()
      ensures !ok ==> State().Exhausted()
      ensures ok ==> Underway(start, p, DirectoryIndex(linear), TableIndex(linear), created, State(), ENTRIES)
      ensures ok ==> created[0] == table
      decreases ENTRIES - DirectoryIndex(linear), 0, 3
    {
      ghost var slot, index := DirectoryIndex(linear), TableIndex(linear);
      ok, created := true, [table];
      for n := 0 to ENTRIES
        invariant Valid()
        invariant Underway(start, p, slot, index, created, State(), n)
        invariant created[0] == table
      {
        ok, created := InitialisingRound(p, linear, n, start, created);
        if !ok {
          return;
        }
      }
    }

    method InitialisingRound(p: Process, linear: nat, n: nat, ghost start: Snapshot, ghost sofar: seq<nat>)
      returns (ok: bool, ghost created: seq<nat>)
      requires Valid() && linear < TWO_32 && linear % PAGE_SIZE == 0 && DirectoryIndex(linear) < ENTRIES - 1
      requires n < ENTRIES && Underway(start, p, DirectoryIndex(linear), TableIndex(linear), sofar, State(), n)
      requires NextSlotOpen(start, p, DirectoryIndex(linear), TableIndex(linear))
      modifies this, pages.bitmap
      ensures Valid()
      ensures !ok ==> State().Exhausted()
      ensures ok ==> Underway(start, p, DirectoryIndex(linear), TableIndex(linear), created, State(), n + 1)
      ensures created != [] && created[0] == sofar[0]
      decreases ENTRIES - DirectoryIndex(linear), 0, 2
    {
      ghost var made;
      ghost var before := State();
      RoundSettable(start, p, linear, sofar, before, n);
      RoundDecreases(start, p, linear, sofar, before, n);
      ok, made := SetPageTableEntry(p, linear + n * PAGE_SIZE, 0, false);
      created := sofar + made;
      if ok {
        NextRound(start, p, linear, sofar, before, n, made, State());
      }
    }

    method SetPageTableEntry(p: Process, linear: nat, physical: nat, present: bool)
      returns (ok: bool, ghost created: seq<nat>)
      requires Valid()
      requires State().Settable(p, DirectoryIndex(PageAlign(linear)), TableIndex(PageAlign(linear)),
                                Entry(present, true, p.user, PageAlign(physical) / PAGE_SIZE))
      modifies this, pages.bitmap
      ensures Valid()
      ensures !ok ==> State().Exhausted()
      ensures ok ==> Sets(old(State()), p, DirectoryIndex(PageAlign(linear)), TableIndex(PageAlign(linear)),
                          Entry(present, true, p.user, PageAlign(physical) / PAGE_SIZE), created, State())
      ensures ok && created != [] ==> P.NextFree(created[0], |ram|, old(pages.Taken()))
      decreases ENTRIES - DirectoryIndex(PageAlign(linear)),
                State().Missing(p.pageDir, DirectoryIndex(PageAlign(linear))), 1
    {
      var frame, index;
      ok, frame, index, created := GetPageTableEntry(p, PageAlign(linear));
      if ok {
        var entry := Entry(present, true, p.user, PageAlign(physical) / PAGE_SIZE);
        if DirectoryIndex(PageAlign(linear)) < ENTRIES - 1 {
          assert State().Owned(frame, reserved);
          WriteKeeps(State(), reserved, frame, ram[frame][index := entry]);
        } else {
          SelfMapWriteExactly(State(), reserved, p.pageDir, index, entry);
        }
        ram := ram[frame := ram[frame][index := entry]];
      }
    }

    // A directory whose last slot refers to itself and whose other slots are empty. 0 when out of memory.
    method CreateDirectory(user: bool) returns (dir: nat)
      requires Valid()
      modifies this, pages.bitmap
      ensures Valid()
      ensures dir == 0 ==> State() == old(State()) && State().Exhausted()
      ensures dir != 0 ==>
                && P.NextFree(dir, |ram|, old(pages.Taken()))
                && ram == old(ram)[dir := ram[dir]]
                && pages.Taken() == old(pages.Taken()) + {dir} && owner == old(owner)[dir := Directory]
                && SelfMapped(ram, dir)
                && forall slot: nat | slot < ENTRIES - 1 :: ram[dir][slot] == Entry(false, false, user, 0)
    {
      var address := pages.PageAlloc();
      dir := address / PAGE_SIZE;
      if dir != 0 {
        TakeKeeps(old(State()), reserved, dir);
        ram := ram[dir := seq(ENTRIES, _ => Entry(false, false, false, 0))];
        for index := 0 to ENTRIES
          modifies `ram
          invariant |ram| == |old(ram)| && ram == old(ram)[dir := ram[dir]]
          invariant forall k: nat | index <= k < ENTRIES :: ram[dir][k] == Entry(false, false, false, 0)
          invariant forall k: nat | k < index ::
              ram[dir][k] == if k == ENTRIES - 1 then Entry(true, true, user, dir) else Entry(false, false, user, 0)
        {
          if index == ENTRIES - 1 {
            ram := ram[dir := ram[dir][index := Entry(true, true, user, dir)]];
          } else {
            ram := ram[dir := ram[dir][index := Entry(false, false, user, 0)]];
          }
        }
        DirectoryKeeps(old(State()).(taken := pages.Taken()), reserved, dir, ram[dir]);
        owner := owner[dir := Directory];
      }
    }

    // A page for the kernel heap or for some other client of the allocator; 0 when out of memory.
    method AllocPage(ghost use: Owner) returns (frame: nat)
      requires Valid() && (use.Client? || use.HeapPage?)
      modifies `owner, pages.bitmap
      ensures Valid()
      ensures frame == 0 ==> State() == old(State()) && State().Exhausted()
      ensures frame != 0 ==>
                && P.NextFree(frame, |ram|, old(pages.Taken())) && frame < 0x10_0000 && frame !in old(owner)
                && State() == Snapshot(ram, old(State()).taken + {frame}, old(owner)[frame := use])
    {
      var address := pages.PageAlloc();
      frame := address / PAGE_SIZE;
      if frame != 0 {
        TakeKeeps(old(State()), reserved, frame);
        AssignKeeps(State(), reserved, frame, use);
        owner := owner[frame := use];
      }
    }

    // Frees a frame that is neither reserved nor in use as a table, and ends what it served as.
    method FreePage(frame: nat)
      requires Valid() && frame !in reserved && !Referred(State(), frame)
      modifies `owner, pages.bitmap
      ensures Valid()
      ensures State() == if 0 < frame < |ram| then Snapshot(ram, old(State()).taken - {frame}, old(owner) - {frame})
                         else old(State())
    {
      pages.PageFree(frame * PAGE_SIZE);
      if 0 < frame < |ram| {
        FreeKeepsExactly(old(State()), reserved, frame);
        owner := owner - {frame};
      }
    }

    // Zeroes the page that a linear address is mapped to.
    method ClearMappedPage(p: Process, linear: nat)
      requires Valid() && State().IsDirectory(p.pageDir) && linear < TWO_32
      requires LookupAt(ram, p.pageDir, DirectoryIndex(linear), TableIndex(linear)).Some?
      requires var frame := LookupAt(ram, p.pageDir, DirectoryIndex(linear), TableIndex(linear)).value.frame;
               frame in owner && owner[frame].HeapPage?
      modifies `ram
      ensures Valid()
      ensures var frame := LookupAt(old(ram), p.pageDir, DirectoryIndex(linear), TableIndex(linear)).value.frame;
              frame < |ram| && ram == old(ram)[frame := seq(ENTRIES, _ => Entry(false, false, false, 0))]
    {
      var frame := ram[ram[p.pageDir][DirectoryIndex(linear)].frame][TableIndex(linear)].frame;
      var zeroes := seq(ENTRIES, _ => Entry(false, false, false, 0));
      assert State().Owned(frame, reserved);
      WriteKeeps(State(), reserved, frame, zeroes);
      ram := ram[frame := zeroes];
    }
  }
}
