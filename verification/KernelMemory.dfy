/** Runs of the whole memory stack: directories, mappings, the kernel heap and other clients of the
    page allocator, in any order. */
module KernelMemory {
  import opened Machine
  import opened PageTables
  import opened FrameOwnership
  import opened HeapGrowth
  import opened HeapLayout
  import H = KernelHeap
  import R = FrameRuns

  // The frames serving as directories, tables, heap pages and client pages are never the null frame,
  // never a reserved one, and marked as taken.
  lemma OwnedFrames(s: Snapshot, reserved: set<nat>, f: nat)
    requires s.Sound(reserved) && f in s.owner
    ensures 0 < f < |s.ram| && f in s.taken && f !in reserved
  {
  }

  // No two directory slots share a table, and no slot refers to a frame with another use.
  lemma TablesAreExclusive(s: Snapshot, reserved: set<nat>, d: nat, i: nat, e: nat, j: nat)
    requires s.Sound(reserved) && s.IsDirectory(d) && s.IsDirectory(e) && i < ENTRIES - 1 && j < ENTRIES - 1
    ensures d < |s.ram| && e < |s.ram|
    ensures s.ram[d][i].frame == s.ram[e][j].frame != 0 ==> d == e && i == j
    ensures s.ram[d][i].frame in s.owner ==> s.owner[s.ram[d][i].frame].TableOf?
  {
    assert s.SlotSound(d, i) && s.SlotSound(e, j);
    if s.ram[d][i].frame in s.owner {
      OwnedFrames(s, reserved, s.ram[d][i].frame);
    }
  }

  // The heap's pages are backed by frames of their own, different ones for different pages.
  lemma HeapFramesDistinct(s: Snapshot, dir: nat, from: nat, to: nat, page: nat, other: nat)
    requires HeapMapped(s, dir, from, to) && page != other
    requires from <= page * PAGE_SIZE < to && from <= other * PAGE_SIZE < to
    ensures PageLookup(s.ram, dir, page).Some? && PageLookup(s.ram, dir, other).Some?
    ensures PageLookup(s.ram, dir, page).value.frame != PageLookup(s.ram, dir, other).value.frame
  {
    assert HeapPageAt(s, dir, page) && HeapPageAt(s, dir, other);
  }

  // What keeps the heap's pages mapped: the same lookups, and no heap page changing hands.
  lemma HeapStaysMapped(s: Snapshot, t: Snapshot, dir: nat, from: nat, to: nat)
    requires HeapMapped(s, dir, from, to) && t.IsDirectory(dir)
    requires forall f | f in s.owner && s.owner[f].HeapPage? :: f in t.owner && t.owner[f] == s.owner[f]
    requires forall page: nat | from <= page * PAGE_SIZE < to ::
               PageLookup(t.ram, dir, page) == PageLookup(s.ram, dir, page)
    ensures HeapMapped(t, dir, from, to)
  {
    forall page: nat | from <= page * PAGE_SIZE < to
      ensures HeapPageAt(t, dir, page)
    {
      assert HeapPageAt(s, dir, page);
    }
  }

  // Does a new table's initialisation for this entry run over pages of the heap? Beyond the slot it clears as many
  // pages of the next one as it left out, and behind the last ordinary slot as many slots from the first one on.
  predicate RunsIntoHeap(slot: nat, index: nat, top: nat) {
    var low := if slot < ENTRIES - 2 then (slot + 1) * SLOT_SIZE else 0;
    var high := if slot < ENTRIES - 2 then low + index * PAGE_SIZE else index * SLOT_SIZE;
    low < top && HEAP_BASE < high
  }

  lemma BelowHeap(linear: nat, top: nat)
    ensures linear < 0xCFC0_0000 ==>
              var slot, index := DirectoryIndex(linear), TableIndex(linear);
              && !(HEAP_BASE <= (slot * ENTRIES + index) * PAGE_SIZE < top) && !RunsIntoHeap(slot, index, top)
  {
  }

  // An entry that no page of the heap depends on.
  ghost predicate Considerate(s: Snapshot, p: Process, slot: nat, index: nat, kernelDir: nat, top: nat) {
    || p.pageDir != kernelDir
    || (s.Mappable(p, slot, index)
        && !(HEAP_BASE <= (slot * ENTRIES + index) * PAGE_SIZE < top)
        && (s.ram[p.pageDir][slot].frame != 0 || index == 0 || !RunsIntoHeap(slot, index, top)))
  }

  lemma MappingKeepsHeap(s: Snapshot, reserved: set<nat>, p: Process, slot: nat, index: nat, entry: Entry,
                         created: seq<nat>, t: Snapshot, dir: nat, top: nat)
    requires s.Sound(reserved) && HeapMapped(s, dir, HEAP_BASE, top) && top <= HEAP_LIMIT
    requires Considerate(s, p, slot, index, dir, top) && s.Settable(p, slot, index, entry)
    requires Sets(s, p, slot, index, entry, created, t)
    ensures HeapMapped(t, dir, HEAP_BASE, top) && SameHeapPages(s, t, dir, top) && Kept(s, {}, t)
  {
    SetKeepsFrames(s, reserved, p, slot, index, entry, created, t);
    forall page: nat | HEAP_BASE <= page * PAGE_SIZE < top
      ensures PageLookup(t.ram, dir, page) == PageLookup(s.ram, dir, page)
    {
      var k, i := page / ENTRIES % ENTRIES, page % ENTRIES;
      assert HeapPageAt(s, dir, page);
      HeapPageSlot(page, top);
      if slot == ENTRIES - 1 {
        SelfMapKeepsOthers(s, reserved, p, index, entry, created, t, dir, k, i);
      } else {
        LookupAfterSet(s, reserved, p, slot, index, entry, created, t, dir, k, i);
      }
      assert s.SlotSound(dir, k);
    }
    HeapStaysMapped(s, t, dir, HEAP_BASE, top);
  }

  lemma HeapPageSlot(page: nat, top: nat)
    requires page * PAGE_SIZE < top <= HEAP_LIMIT
    ensures page / ENTRIES % ENTRIES < ENTRIES - 1 && page == page / ENTRIES % ENTRIES * ENTRIES + page % ENTRIES
  {
    assert page / ENTRIES < ENTRIES - 1;
  }

  // A new directory is not part of any other one.
  lemma DirectoryKeepsHeap(s: Snapshot, reserved: set<nat>, fresh': nat, content: Table, dir: nat, top: nat)
    requires s.Sound(reserved) && HeapMapped(s, dir, HEAP_BASE, top) && top <= HEAP_LIMIT
    requires fresh' < |s.ram| && fresh' !in s.owner
    ensures var t := Snapshot(s.ram[fresh' := content], s.taken + {fresh'}, s.owner[fresh' := Directory]);
            HeapMapped(t, dir, HEAP_BASE, top) && SameHeapPages(s, t, dir, top)
  {
    var t := Snapshot(s.ram[fresh' := content], s.taken + {fresh'}, s.owner[fresh' := Directory]);
    forall page: nat | HEAP_BASE <= page * PAGE_SIZE < top
      ensures PageLookup(t.ram, dir, page) == PageLookup(s.ram, dir, page)
    {
      assert HeapPageAt(s, dir, page);
      HeapPageSlot(page, top);
      assert s.SlotSound(dir, page / ENTRIES % ENTRIES);
    }
    HeapStaysMapped(s, t, dir, HEAP_BASE, top);
  }

  datatype Op =
    | MakeDirectory(user: bool)
    | TakePage
    | GivePage(frame: nat)
    | Map(p: Process, linear: nat, physical: nat, present: bool)
    | Allocate(size: nat)
    | Release(address: nat)

  // ---------- What a run leaves alone ----------

  // The frames with their owners and contents, and the items of the heap.
  datatype View = View(frames: Snapshot, heap: Layout)

  ghost predicate SameHeapPages(s: Snapshot, t: Snapshot, dir: nat, top: nat) {
    forall page: nat | HEAP_BASE <= page * PAGE_SIZE < top ::
      PageLookup(t.ram, dir, page) == PageLookup(s.ram, dir, page)
  }

  ghost function GivenBack(ops: seq<Op>): set<nat> {
    set op | op in ops && op.GivePage? :: op.frame
  }

  // Are all allocations of multiples of 8 bytes?
  ghost predicate Rounded(ops: seq<Op>) {
    forall op | op in ops && op.Allocate? :: op.size % 8 == 0
  }

  // Every frame has kept its owner, and its content if it holds data, unless its client gave it back; the
  // heap's pages are mapped to the same frames; every block not released is still live; and items have
  // become no less, and no more, adjacent if all requests are multiples of 8.
  ghost predicate Undisturbed(v: View, dir: nat, ops: seq<Op>, w: View) {
    && v.heap.HasHeaders() && w.heap.HasHeaders() && v.heap.top <= w.heap.top
    && Kept(v.frames, GivenBack(ops), w.frames)
    && SameHeapPages(v.frames, w.frames, dir, v.heap.top)
    && (forall a | a in v.heap.Live() && Release(a + HEADER_SIZE) !in ops ::
          a in w.heap.Live() && w.heap.Live()[a] == v.heap.Live()[a])
    && (Rounded(ops) ==> (w.heap.Exact() <==> v.heap.Exact()))
  }

  // One operation, which writes item headers only.
  ghost predicate Step(v: View, dir: nat, op: Op, w: View) {
    && v.heap.Packed() && w.heap.Packed() && WritesHeadersOnly(v.heap, w.heap)
    && Undisturbed(v, dir, [op], w)
  }

  // The views before, between and after the operations of a run.
  ghost predicate Steps(trace: seq<View>, dir: nat, ops: seq<Op>) {
    |trace| == |ops| + 1 && forall n: nat | n < |ops| :: Step(trace[n], dir, ops[n], trace[n + 1])
  }

  // A change to the frames alone, by an operation that gives back at most the frames `given`.
  lemma FramesOnly(v: View, w: View, dir: nat, op: Op)
    requires v.heap.Packed() && w.heap == v.heap && (op.Allocate? ==> w == v)
    requires Kept(v.frames, if op.GivePage? then {op.frame} else {}, w.frames)
    requires SameHeapPages(v.frames, w.frames, dir, v.heap.top)
    ensures Step(v, dir, op, w)
  {
    assert op in [op];
  }

  lemma SplitStep(v: View, w: View, dir: nat, size: nat, address: nat)
    requires v.frames == w.frames && v.heap.top == w.heap.top && Allocated(v.heap, w.heap, size, address)
    requires v.heap.Packed() && w.heap.Packed()
    ensures Step(v, dir, Allocate(size), w)
  {
    assert Allocate(size) in [Allocate(size)];
  }

  lemma ReleaseStep(v: View, w: View, dir: nat, address: nat)
    requires v.heap.Packed() && w.heap.Packed() && WritesHeadersOnly(v.heap, w.heap)
    requires v.heap.top == w.heap.top && w.frames == v.frames && (w.heap.Exact() <==> v.heap.Exact())
    requires w.heap.Live() == v.heap.Live() || w.heap.Live() == v.heap.Live() - {address - HEADER_SIZE}
    ensures Step(v, dir, Release(address), w)
  {
    assert Release(address) in [Release(address)];
  }

  lemma GrowthStep(v: View, w: View, dir: nat, size: nat, address: nat)
    requires HeapMapped(v.frames, dir, HEAP_BASE, v.heap.top) && v.heap.top <= w.heap.top <= HEAP_LIMIT
    requires Grown(v.frames, dir, Start(HEAP_BASE, v.heap.top), w.heap.top, w.frames)
    requires Allocated(v.heap, w.heap, size, address) && v.heap.Packed() && w.heap.Packed()
    ensures Step(v, dir, Allocate(size), w)
  {
    forall page: nat | HEAP_BASE <= page * PAGE_SIZE < v.heap.top
      ensures PageLookup(w.frames.ram, dir, page) == PageLookup(v.frames.ram, dir, page)
    {
      HeapPageSlot(page, v.heap.top);
    }
    assert Allocate(size) in [Allocate(size)];
  }

  lemma OneMore(v: View, w: View, x: View, dir: nat, ops: seq<Op>, n: nat)
    requires n < |ops| && Undisturbed(v, dir, ops[..n], w) && Undisturbed(w, dir, [ops[n]], x)
    ensures Undisturbed(v, dir, ops[..n + 1], x)
  {
    assert ops[..n + 1] == ops[..n] + [ops[n]];
    assert GivenBack(ops[..n + 1]) == GivenBack(ops[..n]) + GivenBack([ops[n]]);
  }

  // What each operation leaves alone, a run leaves alone.
  lemma {:induction false} RunUndisturbed(trace: seq<View>, dir: nat, ops: seq<Op>, n: nat)
    requires Steps(trace, dir, ops) && n <= |ops| && trace[0].heap.HasHeaders()
    ensures Undisturbed(trace[0], dir, ops[..n], trace[n])
  {
    if 0 < n {
      RunUndisturbed(trace, dir, ops, n - 1);
      assert Step(trace[n - 1], dir, ops[n - 1], trace[n - 1 + 1]);
      OneMore(trace[0], trace[n - 1], trace[n], dir, ops, n - 1);
    }
  }

  // No header written in any step of a run overlaps the payload of a block that was live before the run and
  // is not released in it.
  lemma PayloadNeverWritten(trace: seq<View>, dir: nat, ops: seq<Op>, n: nat, a: nat, b: nat)
    requires Steps(trace, dir, ops) && n < |ops| && trace[0].heap.HasHeaders()
    requires var before, after := trace[n].heap.header, trace[n + 1].heap.header;
             a in after && (a !in before || before[a] != after[a])
    requires b in trace[0].heap.Live() && Release(b + HEADER_SIZE) !in ops
    ensures a + HEADER_SIZE <= b + HEADER_SIZE || b + HEADER_SIZE + trace[0].heap.Live()[b] <= a
  {
    RunUndisturbed(trace, dir, ops, n);
    RunUndisturbed(trace, dir, ops, n + 1);
    assert Step(trace[n], dir, ops[n], trace[n + 1]);
    PayloadsUntouched(trace[n].heap, trace[n + 1].heap, a, b);
  }

  // Over any run, every byte of a block that is not released stays live, at the same place in the same frame.
  // That frame stays the heap's, and neither making page tables nor growing the heap writes to it.
  lemma PayloadStays(v: View, dir: nat, reserved: set<nat>, ops: seq<Op>, w: View, a: nat, x: nat)
    requires v.frames.Sound(reserved) && v.heap.Structured(HEAP_BASE) && v.heap.top <= HEAP_LIMIT
    requires HeapMapped(v.frames, dir, HEAP_BASE, v.heap.top) && Undisturbed(v, dir, ops, w)
    requires a in v.heap.Live() && Release(a + HEADER_SIZE) !in ops
    requires a + HEADER_SIZE <= x < a + HEADER_SIZE + v.heap.Live()[a]
    ensures a in w.heap.Live() && x < a + HEADER_SIZE + w.heap.Live()[a]
    ensures x < TWO_32 && Walk(v.frames.ram, dir, x).Some? && Walk(w.frames.ram, dir, x) == Walk(v.frames.ram, dir, x)
    ensures var f := Walk(v.frames.ram, dir, x).value / PAGE_SIZE;
            && f in w.frames.owner && w.frames.owner[f] == HeapPage(x / PAGE_SIZE)
            && f < |v.frames.ram| == |w.frames.ram| && w.frames.ram[f] == v.frames.ram[f]
  {
    var i: nat :| i < |v.heap.items| && v.heap.items[i] == a;
    BelowTop(v.heap, i);
    Positive(v.heap, HEAP_BASE);
    var page := x / PAGE_SIZE;
    assert HEAP_BASE <= page * PAGE_SIZE <= x;
    HeapPageSlot(page, v.heap.top);
    IndicesOfPage(x);
    assert HeapPageAt(v.frames, dir, page);
    var frame := PageLookup(v.frames.ram, dir, page).value.frame;
    assert v.frames.Owned(frame, reserved);
  }

  // What the heap has handed out so far: the addresses, the sizes asked for, and how often it grew.
  datatype Tally = Tally(handed: seq<nat>, sizes: seq<nat>, growths: nat) {
    // With new regions linked or not, the tally says which items the list reaches and whether there are gaps.
    ghost predicate Of(s: Layout, links: bool) {
      && s.HasHeaders() && (forall a | a in s.Live() :: a + HEADER_SIZE in handed)
      && (s.Exact() <==> AllRounded())
      && (growths == 0 <==> s.items == []) && (s.linked == |s.items| <==> links || growths <= 1)
    }

    ghost predicate AllRounded() {
      forall k | 0 <= k < |sizes| :: sizes[k] % 8 == 0
    }

    function More(address: nat, size: nat, grew: bool): Tally {
      Tally(handed + [address], sizes + [size], if grew then growths + 1 else growths)
    }
  }

  lemma TallySplit(s: Layout, links: bool, tally: Tally, i: nat, size: nat, address: nat, t: Layout)
    requires tally.Of(s, links) && i < s.linked <= |s.items| && s.Fits(i, H.TotalSize(size))
    requires t == s.Split(i, H.TotalSize(size), size) && t.Packed() && Allocated(s, t, size, address)
    ensures tally.More(address, size, false).Of(t, links)
  {
    RoundedMore(tally, address, size, false);
  }

  lemma RoundedMore(tally: Tally, address: nat, size: nat, grew: bool)
    ensures tally.More(address, size, grew).AllRounded() <==> tally.AllRounded() && size % 8 == 0
  {
    var more := tally.More(address, size, grew);
    assert more.sizes[|tally.sizes|] == size;
    assert forall k | 0 <= k < |tally.sizes| :: more.sizes[k] == tally.sizes[k];
  }

  lemma TallyGrow(s: Layout, links: bool, tally: Tally, size: nat, address: nat, t: Layout)
    requires tally.Of(s, links) && s.Structured(HEAP_BASE) && (links ==> s.linked == |s.items|)
    requires t == H.GrowFor(s, size, links) && t.Packed() && Allocated(s, t, size, address)
    ensures tally.More(address, size, true).Of(t, links)
  {
    RoundedMore(tally, address, size, true);
    H.GrowReaches(s, size, links);
  }

  // Freeing leaves behind what the list does not reach.
  lemma TallyFreed(s: Layout, links: bool, tally: Tally, t: Layout)
    requires tally.Of(s, links) && t.Structured(HEAP_BASE) && s.linked <= |s.items|
    requires H.LiveWithin(s, t) && (t.Exact() <==> s.Exact()) && t.items[t.linked..] == s.items[s.linked..]
    requires t.items == [] <==> s.items == []
    ensures tally.Of(t, links)
  {
    assert |t.items[t.linked..]| == |s.items[s.linked..]|;
  }

  // The sizes that `ops` asked for are the only ones added.
  ghost predicate AskedBy(before: seq<nat>, after: seq<nat>, ops: seq<Op>) {
    before <= after && forall n: nat :: |before| <= n < |after| ==> Allocate(after[n]) in ops
  }

  lemma AskedMore(before: seq<nat>, mid: seq<nat>, after: seq<nat>, ops: seq<Op>, n: nat)
    requires n < |ops| && AskedBy(before, mid, ops[..n]) && AskedBy(mid, after, [ops[n]])
    ensures AskedBy(before, after, ops[..n + 1])
  {
    assert ops[..n + 1] == ops[..n] + [ops[n]];
  }

  lemma TraceMore(trace: seq<View>, dir: nat, ops: seq<Op>, n: nat, w: View)
    requires n < |ops| && Steps(trace, dir, ops[..n]) && Step(trace[n], dir, ops[n], w)
    ensures Steps(trace + [w], dir, ops[..n + 1])
  {
    var longer := trace + [w];
    forall k: nat | k < n + 1
      ensures Step(longer[k], dir, ops[..n + 1][k], longer[k + 1])
    {
      assert k < n ==> Step(trace[k], dir, ops[..n][k], trace[k + 1]);
    }
  }

  class KernelMemory {
    const heap: H.KernelHeap
    const users: R.FrameClients
    var tally: Tally

    ghost predicate Valid()
      reads this, heap, users, heap.spaces, heap.spaces.pages.bitmap
    {
      && users.spaces == heap.spaces && users.Valid() && heap.Valid()
      && tally.Of(heap.Now(), heap.links)
    }

    ghost function Look(): View
      reads heap, heap.spaces, heap.spaces.pages.bitmap
    {
      View(heap.spaces.State(), heap.Now())
    }

    ghost function Dir(): nat {
      heap.kernel.pageDir
    }

    // With a heap that has not grown yet.
    constructor (heap: H.KernelHeap, users: R.FrameClients)
      requires heap.Valid() && users.Valid() && users.spaces == heap.spaces && heap.Now() == H.EMPTY
      ensures Valid() && this.heap == heap && this.users == users && tally == Tally([], [], 0)
    {
      this.heap, this.users, tally := heap, users, Tally([], [], 0);
    }

    // 0 where the kernel is out of memory; then nothing has changed.
    method MakeDirectory(user: bool) returns (dir: nat)
      requires Valid()
      modifies users, heap.spaces, heap.spaces.pages.bitmap
      ensures Valid() && Step(old(Look()), Dir(), Op.MakeDirectory(user), Look())
      ensures dir == 0 ==> Look() == old(Look()) && heap.spaces.State().Exhausted()
      ensures dir != 0 ==> users.directories == old(users.directories) + {dir} && dir !in old(heap.spaces.State()).taken
    {
      ghost var v := Look();
      dir := users.MakeDirectory(user);
      if dir != 0 {
        DirectoryKeepsHeap(v.frames, heap.spaces.reserved, dir, heap.spaces.ram[dir], Dir(), heap.heapTop);
      }
      FramesOnly(v, Look(), Dir(), Op.MakeDirectory(user));
    }

    method TakePage() returns (frame: nat)
      requires Valid()
      modifies users, heap.spaces, heap.spaces.pages.bitmap
      ensures Valid() && Step(old(Look()), Dir(), Op.TakePage, Look())
      ensures frame == 0 ==> Look() == old(Look()) && heap.spaces.State().Exhausted()
      ensures frame != 0 ==> users.clients == old(users.clients) + {frame} && frame !in old(heap.spaces.State()).taken
    {
      ghost var v := Look();
      frame := users.TakePage();
      HeapStaysMapped(v.frames, heap.spaces.State(), Dir(), HEAP_BASE, heap.heapTop);
      FramesOnly(v, Look(), Dir(), Op.TakePage);
    }

    method GivePage(frame: nat)
      requires Valid()
      modifies users, heap.spaces, heap.spaces.pages.bitmap
      ensures Valid() && Step(old(Look()), Dir(), Op.GivePage(frame), Look())
      ensures users.clients == old(users.clients) - {frame}
      ensures heap.spaces.State().taken ==
              old(heap.spaces.State()).taken - (if frame in old(users.clients) then {frame} else {})
    {
      ghost var v := Look();
      users.GivePage(frame);
      HeapStaysMapped(v.frames, heap.spaces.State(), Dir(), HEAP_BASE, heap.heapTop);
      FramesOnly(v, Look(), Dir(), Op.GivePage(frame));
    }

    // May the entry be set with no harm to the heap?
    predicate Harmless(p: Process, linear: nat, frame: nat, present: bool)
      reads users, heap, heap.spaces
    {
      var slot, index := DirectoryIndex(PageAlign(linear)), TableIndex(PageAlign(linear));
      && users.spaces == heap.spaces && users.CanMap(p, linear, frame, present)
      && (p.pageDir == heap.kernel.pageDir ==>
            && slot < ENTRIES - 1
            && !(HEAP_BASE <= (slot * ENTRIES + index) * PAGE_SIZE < heap.heapTop)
            && (heap.spaces.ram[p.pageDir][slot].frame != 0 || index == 0
                || !RunsIntoHeap(slot, index, heap.heapTop)))
    }

    // Below the self-mapping slot, any entry of another directory, and well below the heap also of the kernel's.
    lemma OrdinaryHarmless(p: Process, linear: nat, frame: nat, present: bool)
      requires Valid() && p.pageDir in users.directories
      requires PageAlign(linear) < if p.pageDir == heap.kernel.pageDir then 0xCFC0_0000 else 0xFFC0_0000
      ensures Harmless(p, linear, frame, present)
    {
      users.KnownDirectory(p);
      R.OrdinaryAddress(PageAlign(linear));
      BelowHeap(PageAlign(linear), heap.heapTop);
    }

    // Sets an entry, for any physical page, whoever owns it, unless that harms the heap. `ok` is false where the
    // kernel panics.
    method MapPage(p: Process, linear: nat, physical: nat, present: bool) returns (ok: bool, ghost created: seq<nat>)
      requires Valid()
      modifies heap.spaces, heap.spaces.pages.bitmap
      ensures heap.spaces.Valid() && (!ok ==> heap.spaces.State().Exhausted())
      ensures ok ==> Valid() && Step(old(Look()), Dir(), Op.Map(p, linear, physical, present), Look())
      ensures ok && !old(Harmless(p, linear, PageAlign(physical) / PAGE_SIZE, present)) ==> Look() == old(Look())
      ensures ok && old(Harmless(p, linear, PageAlign(physical) / PAGE_SIZE, present)) ==>
                Sets(old(heap.spaces.State()), p, DirectoryIndex(PageAlign(linear)), TableIndex(PageAlign(linear)),
                     Entry(present, true, p.user, PageAlign(physical) / PAGE_SIZE), created, heap.spaces.State())
    {
      ok, created := true, [];
      ghost var v := Look();
      if Harmless(p, linear, PageAlign(physical) / PAGE_SIZE, present) {
        ghost var entry := Entry(present, true, p.user, PageAlign(physical) / PAGE_SIZE);
        users.CanSet(p, linear, entry);
        ok, created := users.Map(p, linear, physical, present);
        if ok {
          MappingKeepsHeap(v.frames, heap.spaces.reserved, p, DirectoryIndex(PageAlign(linear)),
                           TableIndex(PageAlign(linear)), entry, created, heap.spaces.State(), Dir(), heap.heapTop);
          assert heap.Now() == v.heap && heap.Backed();
        }
      }
      if ok {
        FramesOnly(v, Look(), Dir(), Op.Map(p, linear, physical, present));
      }
    }

    // Does the heap promise to serve a request of this size? If no listed item fits, growing must not overflow.
    ghost predicate Served(size: nat)
      requires heap.Now().HasHeaders() && heap.linked <= |heap.items|
      reads heap
    {
      && 0 < size <= H.MAX_REQUEST
      && (heap.Now().FirstFit(heap.linked, H.TotalSize(size)) ==> CanGrow(size))
    }

    predicate CanGrow(size: nat)
      reads heap
    {
      !H.Overflows(size) && Start(HEAP_BASE, heap.heapTop) + H.GrowthOf(H.TotalSize(size)) <= HEAP_LIMIT
    }

    // The address of a fresh block, 0 if the request is not served.
    method Allocate(size: nat) returns (ok: bool, address: nat)
      requires Valid()
      modifies this, heap, heap.spaces, heap.spaces.pages.bitmap
      ensures heap.spaces.Valid() && (!ok ==> heap.spaces.State().Exhausted())
      ensures ok ==> Valid() && Step(old(Look()), Dir(), Op.Allocate(size), Look())
      ensures ok ==> (address != 0 <==> old(Served(size)))
      // every request is served whose total neither wraps nor leaves 4 bytes of its last page, while the heap has room
      ensures ok && 0 < size <= 0xFFFF_FFF0 && (size + 7) / 8 * 8 % 4096 != 4080
              && (if old(heap.heapTop) == 0 then 0xD000_0000 else old(heap.heapTop))
                 + ((size + 7) / 8 * 8 + 12) / 4096 * 4096 + 4096 <= 0xFFC0_0000 ==>
                address != 0
      ensures ok && address == 0 ==> Look() == old(Look())
      ensures ok && address != 0 ==> Allocated(old(heap.Now()), heap.Now(), size, address)
      ensures ok ==> tally == if address == 0 then old(tally)
                              else old(tally).More(address, size, heap.heapTop != old(heap.heapTop))
    {
      if size <= H.MAX_REQUEST {
        H.RequestsExactly(size);
      }
      var top := heap.heapTop;
      ok, address := TryServe(size);
      if ok && address != 0 {
        ghost var w := Look();
        tally := tally.More(address, size, heap.heapTop != top);
        assert Look() == w;
      }
    }

    // The same, but for the tally.
    method TryServe(size: nat) returns (ok: bool, address: nat)
      requires Valid()
      modifies heap, heap.spaces, heap.spaces.pages.bitmap
      ensures heap.spaces.Valid() && (!ok ==> heap.spaces.State().Exhausted())
      ensures ok ==> users.Valid() && heap.Valid() && Step(old(Look()), Dir(), Op.Allocate(size), Look())
      ensures ok ==> (address != 0 <==> old(Served(size)))
      ensures ok && address == 0 ==> Look() == old(Look())
      ensures ok && address != 0 ==>
                && Allocated(old(heap.Now()), heap.Now(), size, address)
                && tally.More(address, size, heap.heapTop != old(heap.heapTop)).Of(heap.Now(), heap.links)
    {
      ok, address := true, 0;
      if 0 < size <= H.MAX_REQUEST {
        var item, tail; ghost var at;
        item, tail, at := heap.FirstFit(H.TotalSize(size));
        if item != 0 || CanGrow(size) {
          ok, address := Serve(size);
          return;
        }
      }
      FramesOnly(Look(), Look(), Dir(), Op.Allocate(size));
    }

    method Serve(size: nat) returns (ok: bool, address: nat)
      requires Valid() && Served(size)
      modifies heap, heap.spaces, heap.spaces.pages.bitmap
      ensures heap.spaces.Valid() && (!ok ==> heap.spaces.State().Exhausted())
      ensures ok ==> users.Valid() && heap.Valid()
      ensures ok ==> address != 0 && Allocated(old(heap.Now()), heap.Now(), size, address)
      ensures ok ==> Step(old(Look()), Dir(), Op.Allocate(size), Look())
      ensures ok ==> tally.More(address, size, heap.heapTop != old(heap.heapTop)).Of(heap.Now(), heap.links)
    {
      ghost var v, at := Look(), 0;
      ok, address, at := heap.Kmalloc(size);
      if ok {
        ghost var w := Look();
        R.KnownKept(v.frames, w.frames, users.directories, users.clients);
        if at < v.heap.linked {
          TallySplit(v.heap, heap.links, tally, at, size, address, w.heap);
          SplitStep(v, w, Dir(), size, address);
        } else {
          TallyGrow(v.heap, heap.links, tally, size, address, w.heap);
          GrowthStep(v, w, Dir(), size, address);
        }
      }
    }

    method Release(address: nat)
      requires Valid()
      modifies heap
      ensures Valid() && Step(old(Look()), Dir(), Op.Release(address), Look())
      ensures heap.spaces.State() == old(heap.spaces.State())
      ensures heap.Now().Live() == if H.Reaches(old(heap.Now()), address)
                                   then old(heap.Now()).Live() - {address - HEADER_SIZE} else old(heap.Now()).Live()
    {
      ghost var v := Look();
      if heap.heapTop != 0 {
        heap.Kfree(address);
        TallyFreed(v.heap, heap.links, tally, heap.Now());
      }
      ReleaseStep(v, Look(), Dir(), address);
    }

    // Any sequence of operations, up to the one at which the kernel panics for lack of memory. Requests that the
    // heap makes no promise for, and mappings that would harm it, are skipped.
    method Run(ops: seq<Op>) returns (ok: bool, ghost trace: seq<View>)
      requires Valid()
      modifies this, users, heap, heap.spaces, heap.spaces.pages.bitmap
      ensures heap.spaces.Valid() && (!ok ==> heap.spaces.State().Exhausted())
      ensures ok ==> Valid() && Undisturbed(old(Look()), Dir(), ops, Look())
      ensures ok ==> Steps(trace, Dir(), ops) && trace[0] == old(Look()) && trace[|ops|] == Look()
      ensures ok ==> AskedBy(old(tally).sizes, tally.sizes, ops)
      ensures !ok ==> forall f: nat | 0 < f < |heap.spaces.ram| :: f in heap.spaces.State().taken
    {
      ok, trace := true, [Look()];
      for n := 0 to |ops|
        invariant Valid() && Steps(trace, Dir(), ops[..n]) && trace[0] == old(Look()) && trace[n] == Look()
        invariant AskedBy(old(tally).sizes, tally.sizes, ops[..n])
      {
        ghost var sizes := tally.sizes;
        ok := Perform(ops[n]);
        if !ok {
          return;
        }
        AskedMore(old(tally).sizes, sizes, tally.sizes, ops, n);
        TraceMore(trace, Dir(), ops, n, Look());
        trace := trace + [Look()];
      }
      assert ops[..|ops|] == ops;
      RunUndisturbed(trace, Dir(), ops, |ops|);
    }

    method Perform(op: Op) returns (ok: bool)
      requires Valid()
      modifies this, users, heap, heap.spaces, heap.spaces.pages.bitmap
      ensures heap.spaces.Valid() && (!ok ==> heap.spaces.State().Exhausted())
      ensures ok ==> Valid() && Step(old(Look()), Dir(), op, Look())
      ensures ok ==> AskedBy(old(tally).sizes, tally.sizes, [op])
    {
      ok := true;
      match op {
        case MakeDirectory(user) =>
          var dir := MakeDirectory(user);
        case TakePage =>
          var frame := TakePage();
        case GivePage(frame) =>
          GivePage(frame);
        case Map(p, linear, physical, present) =>
          ghost var created;
          ok, created := MapPage(p, linear, physical, present);
        case Allocate(size) =>
          var address;
          ok, address := Allocate(size);
        case Release(address) =>
          Release(address);
      }
    }

    // After any run from an empty heap, freeing every block leaves one free item. It is the whole heap exactly if new
    // regions are linked or the heap grew once, and then spans it exactly if all requests served were multiples of 8.
    method RunThenFreeAll(ops: seq<Op>) returns (ok: bool)
      requires Valid() && heap.Now() == H.EMPTY && tally == Tally([], [], 0)
      modifies this, users, heap, heap.spaces, heap.spaces.pages.bitmap
      ensures ok ==> Valid() && (heap.heapTop == 0 <==> tally.growths == 0) && AskedBy([], tally.sizes, ops)
      ensures ok ==> forall n: nat | n < |tally.sizes| :: Op.Allocate(tally.sizes[n]) in ops
      ensures ok && heap.heapTop != 0 ==>
                && heap.linked == 1 && !heap.Now().Used(0)
                && (heap.items == [HEAP_BASE] <==> heap.links || tally.growths == 1)
      ensures ok && heap.items == [HEAP_BASE] ==>
                && HEAP_BASE in heap.header
                && (HEAP_BASE + HEADER_SIZE + heap.header[HEAP_BASE].size == heap.heapTop <==> tally.AllRounded())
    {
      ghost var trace;
      ok, trace := Run(ops);
      if ok && heap.heapTop != 0 {
        ghost var s := heap.Now();
        heap.FreeAll(tally.handed);
        TallyFreed(s, heap.links, tally, heap.Now());
      }
    }
  }
}
