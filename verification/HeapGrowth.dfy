/** The pages under the kernel heap: which frames back them, and what adding one does. */
module HeapGrowth {
  import opened Machine
  import opened Wrappers
  import opened PageTables
  import opened FrameOwnership

  const HEAP_BASE: nat := 0xD000_0000
  const HEAP_LIMIT: nat := 0xFFC0_0000  // the heap must stay below the self-mapping slot

  function PageLookup(ram: Ram, dir: nat, page: nat): Option<Entry> {
    LookupAt(ram, dir, page / ENTRIES % ENTRIES, page % ENTRIES)
  }

  // Page `page` is mapped to a frame that was handed out for it.
  ghost predicate HeapPageAt(s: Snapshot, dir: nat, page: nat) {
    var entry := PageLookup(s.ram, dir, page);
    entry.Some? && entry.value.frame in s.owner && s.owner[entry.value.frame] == HeapPage(page)
  }

  ghost predicate HeapMapped(s: Snapshot, dir: nat, from: nat, to: nat) {
    s.IsDirectory(dir) && forall page: nat | from <= page * PAGE_SIZE < to :: HeapPageAt(s, dir, page)
  }

  // `t` is `s` after `dir` got pages for [from, to): all else is mapped and owned as before, and no page
  // in use was written to.
  ghost predicate Grown(s: Snapshot, dir: nat, from: nat, to: nat, t: Snapshot) {
    && Kept(s, {}, t)
    && s.taken <= t.taken
    && forall d: nat, k: nat, i: nat {:trigger LookupAt(t.ram, d, k, i)} |
         s.IsDirectory(d) && k < ENTRIES - 1 && i < ENTRIES
         && !(d == dir && from <= (k * ENTRIES + i) * PAGE_SIZE < to) ::
         LookupAt(t.ram, d, k, i) == LookupAt(s.ram, d, k, i)
  }

  ghost function Assigned(s: Snapshot, f: nat, page: nat): Snapshot {
    Snapshot(s.ram, s.taken + {f}, s.owner[f := HeapPage(page)])
  }

  ghost function Zeroed(s: Snapshot, f: nat): Snapshot
    requires f < |s.ram|
  {
    s.(ram := s.ram[f := seq(ENTRIES, _ => Entry(false, false, false, 0))])
  }

  // The heap's growth never asks for a table except at the start of a directory slot.
  lemma FirstTouchAligned(s: Snapshot, reserved: set<nat>, p: Process, top: nat)
    requires s.Sound(reserved) && HEAP_BASE <= top < HEAP_LIMIT && top % PAGE_SIZE == 0
    requires HeapMapped(s, p.pageDir, HEAP_BASE, top)
    ensures s.Mappable(p, DirectoryIndex(top), TableIndex(top))
    ensures s.ram[p.pageDir][DirectoryIndex(top)].frame == 0 ==> TableIndex(top) == 0
  {
    var slot, index := DirectoryIndex(top), TableIndex(top);
    IndicesOfPage(top);
    assert SelfMapped(s.ram, p.pageDir);
    if 0 < index {
      var page := slot * ENTRIES + index - 1;
      assert page / ENTRIES == slot && page % ENTRIES == index - 1;
      assert HeapPageAt(s, p.pageDir, page);
      assert s.SlotSound(p.pageDir, slot);
    }
  }

  // A frame that is neither a directory nor a table may be overwritten without changing any mapping.
  lemma ZeroedLookup(s: Snapshot, reserved: set<nat>, f: nat, d: nat, k: nat, i: nat)
    requires s.Sound(reserved) && s.IsDirectory(d) && k < ENTRIES - 1 && i < ENTRIES
    requires f in s.owner && s.owner[f].HeapPage?
    ensures f < |s.ram| && LookupAt(Zeroed(s, f).ram, d, k, i) == LookupAt(s.ram, d, k, i)
  {
    assert s.Owned(f, reserved);
    assert s.SlotSound(d, k);
  }

  lemma GrowOnePage(s: Snapshot, reserved: set<nat>, p: Process, top: nat, f: nat, created: seq<nat>, t: Snapshot)
    requires s.Sound(reserved) && HEAP_BASE <= top < HEAP_LIMIT && top % PAGE_SIZE == 0
    requires HeapMapped(s, p.pageDir, HEAP_BASE, top)
    requires f !in s.owner && 0 < f < |s.ram| && Assigned(s, f, top / PAGE_SIZE).Sound(reserved) && t.Sound(reserved)
    requires Sets(Assigned(s, f, top / PAGE_SIZE), p, DirectoryIndex(top), TableIndex(top),
                  Entry(true, true, p.user, f), created, t)
    ensures LookupAt(t.ram, p.pageDir, DirectoryIndex(top), TableIndex(top)) == Some(Entry(true, true, p.user, f))
    ensures f in t.owner && t.owner[f] == HeapPage(top / PAGE_SIZE) && f < |t.ram|
    ensures Grown(s, p.pageDir, top, top + PAGE_SIZE, Zeroed(t, f))
  {
    var a := Assigned(s, f, top / PAGE_SIZE);
    var slot, index := DirectoryIndex(top), TableIndex(top);
    FirstTouchAligned(s, reserved, p, top);
    IndicesOfPage(top);
    SetKeepsFrames(a, reserved, p, slot, index, Entry(true, true, p.user, f), created, t);
    forall d: nat, k: nat, i: nat | s.IsDirectory(d) && k < ENTRIES - 1 && i < ENTRIES
      ensures LookupAt(Zeroed(t, f).ram, d, k, i) ==
              LookupAfter(a, p, slot, index, Entry(true, true, p.user, f), created, d, k, i)
      ensures !(d == p.pageDir && top <= (k * ENTRIES + i) * PAGE_SIZE < top + PAGE_SIZE) ==>
                LookupAt(Zeroed(t, f).ram, d, k, i) == LookupAt(s.ram, d, k, i)
    {
      assert s.SlotSound(p.pageDir, slot);
      assert k == slot && i == index ==> (k * ENTRIES + i) * PAGE_SIZE == top;
      assert a.IsDirectory(d) && t.IsDirectory(d);
      LookupAfterSet(a, reserved, p, slot, index, Entry(true, true, p.user, f), created, t, d, k, i);
      ZeroedLookup(t, reserved, f, d, k, i);
    }
    LookupAfterSet(a, reserved, p, slot, index, Entry(true, true, p.user, f), created, t, p.pageDir, slot, index);
  }

  lemma GrownTransitive(s: Snapshot, dir: nat, from: nat, mid: nat, to: nat, t: Snapshot, u: Snapshot)
    requires from <= mid <= to && Grown(s, dir, from, mid, t) && Grown(t, dir, mid, to, u)
    ensures Grown(s, dir, from, to, u)
  {
  }

  lemma HeapExtends(s: Snapshot, p: Process, top: nat, t: Snapshot)
    requires HEAP_BASE <= top < HEAP_LIMIT && top % PAGE_SIZE == 0
    requires HeapMapped(s, p.pageDir, HEAP_BASE, top) && Grown(s, p.pageDir, top, top + PAGE_SIZE, t)
    requires HeapPageAt(t, p.pageDir, top / PAGE_SIZE)
    ensures HeapMapped(t, p.pageDir, HEAP_BASE, top + PAGE_SIZE)
  {
    forall page: nat | HEAP_BASE <= page * PAGE_SIZE < top + PAGE_SIZE
      ensures HeapPageAt(t, p.pageDir, page)
    {
      if page * PAGE_SIZE < top {
        assert HeapPageAt(s, p.pageDir, page);
        var k, i := page / ENTRIES, page % ENTRIES;
        assert page == k * ENTRIES + i && k < ENTRIES - 1;
        assert LookupAt(t.ram, p.pageDir, k, i) == LookupAt(s.ram, p.pageDir, k, i);
      }
    }
  }

  lemma AlignedAddresses(top: nat, f: nat)
    requires top < HEAP_LIMIT && top % PAGE_SIZE == 0 && f < 0x10_0000
    ensures PageAlign(top) == top && PageAlign(f * PAGE_SIZE) / PAGE_SIZE == f
    ensures DirectoryIndex(top) == top / PAGE_SIZE / ENTRIES % ENTRIES < ENTRIES - 1
    ensures TableIndex(top) == top / PAGE_SIZE % ENTRIES
  {
  }

  // One round of the growth, with the addresses as the page tables round them.
  lemma PageAdded(s: Snapshot, reserved: set<nat>, p: Process, top: nat, f: nat, created: seq<nat>, t: Snapshot)
    requires s.Sound(reserved) && HEAP_BASE <= top < HEAP_LIMIT && top % PAGE_SIZE == 0
    requires HeapMapped(s, p.pageDir, HEAP_BASE, top)
    requires f !in s.owner && 0 < f < |s.ram| && f < 0x10_0000
    requires Assigned(s, f, top / PAGE_SIZE).Sound(reserved) && t.Sound(reserved)
    requires Sets(Assigned(s, f, top / PAGE_SIZE), p, DirectoryIndex(PageAlign(top)), TableIndex(PageAlign(top)),
                  Entry(true, true, p.user, PageAlign(f * PAGE_SIZE) / PAGE_SIZE), created, t)
    ensures LookupAt(t.ram, p.pageDir, DirectoryIndex(top), TableIndex(top)) == Some(Entry(true, true, p.user, f))
    ensures f in t.owner && t.owner[f] == HeapPage(top / PAGE_SIZE) && f < |t.ram| && t.IsDirectory(p.pageDir)
    ensures Grown(s, p.pageDir, top, top + PAGE_SIZE, Zeroed(t, f))
    ensures HeapMapped(Zeroed(t, f), p.pageDir, HEAP_BASE, top + PAGE_SIZE)
  {
    AlignedAddresses(top, f);
    GrowOnePage(s, reserved, p, top, f, created, t);
    assert t.IsDirectory(p.pageDir);
    ZeroedLookup(t, reserved, f, p.pageDir, DirectoryIndex(top), TableIndex(top));
    assert HeapPageAt(Zeroed(t, f), p.pageDir, top / PAGE_SIZE);
    HeapExtends(s, p, top, Zeroed(t, f));
  }
}
