/** The kernel heap: a first-fit list of items in address order, over pages that the heap's
    growth allocates and maps. */
module KernelHeap {
  import opened Machine
  import opened HeapLayout
  import opened HeapGrowth
  import opened FrameOwnership
  import opened PageTables
  import A = AddressSpaces

  // (size + 7) & ~7
  function Round8(size: nat): nat {
    (size + 7) / 8 * 8
  }

  // What an allocation takes from the heap, its header included, in 32-bit arithmetic.
  function TotalSize(size: nat): nat {
    ((size + 7) % TWO_32 / 8 * 8 + HEADER_SIZE) % TWO_32
  }

  // How far growing by `size` bytes moves the top.
  function GrowthOf(size: nat): nat {
    (size / PAGE_SIZE + 1) * PAGE_SIZE
  }

  // The size given to the free item after a block of `total` bytes in freshly added space, as a
  // 32-bit unsigned number.
  function Leftover(total: nat): nat {
    (PAGE_SIZE - (if total % PAGE_SIZE != 0 then total % PAGE_SIZE else total) - HEADER_SIZE) % TWO_32
  }

  // The heap before it first grows.
  const EMPTY: Layout := Layout(map[], [], 0, 0)

  class KernelHeap {
    const spaces: A.AddressSpaces
    const kernel: Process
    const links: bool  // is a new region linked after the list's old tail?
    var heapTop: nat   // 0 until the heap first grows
    var header: map<nat, Header>
    ghost var items: seq<nat>
    ghost var linked: nat

    ghost function Now(): Layout
      reads this
    {
      Layout(header, items, linked, heapTop)
    }

    ghost predicate Backed()
      reads this, spaces, spaces.pages.bitmap
    {
      && spaces.Valid()
      && heapTop % PAGE_SIZE == 0 && heapTop <= HEAP_LIMIT && (heapTop != 0 ==> HEAP_BASE < heapTop)
      && HeapMapped(spaces.State(), kernel.pageDir, HEAP_BASE, heapTop)
    }

    ghost predicate Valid()
      reads this, spaces, spaces.pages.bitmap
    {
      Backed() && Now().Valid(HEAP_BASE) && (links ==> linked == |items|)
    }

    constructor (spaces: A.AddressSpaces, kernel: Process, links: bool)
      requires spaces.Valid() && spaces.State().IsDirectory(kernel.pageDir)
      ensures Valid() && this.spaces == spaces && this.kernel == kernel && this.links == links
      ensures Now() == EMPTY
    {
      this.spaces, this.kernel, this.links := spaces, kernel, links;
      heapTop, header, items, linked := 0, map[], [], 0;
    }

    // One round of the growth that started from `s` at `from`: a frame of its own for the page at `top`,
    // mapped and zeroed.
    method AddPage(top: nat, ghost s: Snapshot, ghost from: nat) returns (ok: bool, newTop: nat)
      requires spaces.Valid() && HeapMapped(spaces.State(), kernel.pageDir, HEAP_BASE, top)
      requires from <= top && Grown(s, kernel.pageDir, from, top, spaces.State())
      requires HEAP_BASE <= top < HEAP_LIMIT && top % PAGE_SIZE == 0
      modifies spaces, spaces.pages.bitmap
      ensures spaces.Valid()
      ensures newTop == top + PAGE_SIZE && newTop % PAGE_SIZE == 0
      ensures !ok ==> spaces.State().Exhausted()
      ensures ok ==> Grown(s, kernel.pageDir, from, newTop, spaces.State())
      ensures ok ==> HeapMapped(spaces.State(), kernel.pageDir, HEAP_BASE, newTop)
    {
      newTop := top + PAGE_SIZE;
      ghost var t := spaces.State();
      ghost var created;
      var frame := spaces.AllocPage(HeapPage(top / PAGE_SIZE));
      if frame == 0 {
        return false, newTop;
      }
      HeapRoom(t, spaces.reserved, spaces.State(), kernel, top);
      ok, created := spaces.SetPageTableEntry(kernel, top, frame * PAGE_SIZE, true);
      if ok {
        ghost var u := spaces.State();
        PageAdded(t, spaces.reserved, kernel, top, frame, created, u);
        ghost var zeroed := Zeroed(u, frame);
        GrownTransitive(s, kernel.pageDir, from, top, newTop, t, zeroed);
        spaces.ClearMappedPage(kernel, top);
        assert spaces.State() == zeroed;
      }
    }

    // Grows the heap by enough whole pages; `ok` is false where the kernel panics for lack of memory.
    method MoreCore(size: nat) returns (ok: bool, prevTop: nat)
      requires Backed() && Start(HEAP_BASE, heapTop) + GrowthOf(size) <= HEAP_LIMIT
      modifies `heapTop, spaces, spaces.pages.bitmap
      ensures spaces.Valid() && (!ok ==> spaces.State().Exhausted())
      ensures ok ==> Backed() && prevTop == Start(HEAP_BASE, old(heapTop)) && heapTop == prevTop + GrowthOf(size)
      ensures ok ==> Grown(old(spaces.State()), kernel.pageDir, prevTop, heapTop, spaces.State())
    {
      ghost var s := spaces.State();
      var pages := size / PAGE_SIZE + 1;
      if heapTop == 0 {
        heapTop := HEAP_BASE;
      }
      prevTop := heapTop;
      ok := true;
      while 0 < pages
        invariant 0 <= pages && spaces.Valid() && prevTop <= heapTop && heapTop % PAGE_SIZE == 0
        invariant heapTop + pages * PAGE_SIZE == prevTop + GrowthOf(size)
        invariant HeapMapped(spaces.State(), kernel.pageDir, HEAP_BASE, heapTop)
        invariant Grown(s, kernel.pageDir, prevTop, heapTop, spaces.State())
      {
        var newTop;
        ok, newTop := AddPage(heapTop, s, prevTop);
        if !ok {
          return;
        }
        heapTop, pages := newTop, pages - 1;
      }
    }

    // The first free item that can be split, or 0; then `tail` is the list's last item, if any.
    method FirstFit(total: nat) returns (item: nat, tail: nat, ghost i: nat)
      requires Now().Structured(HEAP_BASE)
      ensures Now().FirstFit(i, total)
      ensures if i < linked then item == items[i] > 0 else item == 0
      ensures i == linked ==> tail == if items == [] then 0 else items[linked - 1]
    {
      Positive(Now(), HEAP_BASE);
      item, tail, i := 0, 0, 0;
      if heapTop != 0 {
        item := HEAP_BASE;
        while item != 0 && (header[item].used || header[item].size < total)
          invariant i <= linked && item == (if i < linked then items[i] else 0)
          invariant 0 < i ==> tail == items[i - 1]
          invariant forall k: nat | k < i :: !Now().Fits(k, total)
          decreases linked - i
        {
          assert header[items[i]].next == Now().Next(i);
          tail, item := item, header[item].next;
          i := i + 1;
        }
      }
    }

    // Allocates `size` bytes and returns the address of the payload, 0 for an empty request. The block
    // is cut from the first linked free item that can hold it and a further header; if there is none
    // (`at` == `linked`), from fresh space. `ok` is false where the kernel panics for lack of memory.
    method Kmalloc(size: nat) returns (ok: bool, address: nat, ghost at: nat)
      requires Valid() && size < TWO_32
      requires Now().FirstFit(linked, TotalSize(size)) ==>
                 Start(HEAP_BASE, heapTop) + GrowthOf(TotalSize(size)) <= HEAP_LIMIT
      modifies this, spaces, spaces.pages.bitmap
      ensures spaces.Valid() && (!ok ==> spaces.State().Exhausted())
      ensures size == 0 ==> ok && address == 0 && Now() == old(Now()) && spaces.State() == old(spaces.State())
      ensures 0 < size ==> old(Now()).FirstFit(at, TotalSize(size))
      ensures ok && 0 < size && at < old(linked) ==>
                && address == old(items)[at] + HEADER_SIZE
                && Now() == old(Now()).Split(at, TotalSize(size), size)
                && spaces.State() == old(spaces.State())
      ensures ok && 0 < size && at == old(linked) ==>
                && address == Start(HEAP_BASE, old(heapTop)) + HEADER_SIZE
                && Now() == GrowFor(old(Now()), size, links)
                && Grown(old(spaces.State()), kernel.pageDir, Start(HEAP_BASE, old(heapTop)), heapTop, spaces.State())
      // on the headers: the first listed item that is free and has `total` bytes is taken, an exactly fitting one
      // included, and the heap grows only if there is none
      ensures forall i: nat |
                && i < old(linked)
                && !old(header)[old(items)[i]].used && TotalSize(size) <= old(header)[old(items)[i]].size
                && (forall j | 0 <= j < i ::
                      old(header)[old(items)[j]].used || old(header)[old(items)[j]].size < TotalSize(size)) ::
                ok && 0 < size ==> address == old(items)[i] + 12 && heapTop == old(heapTop)
      ensures (forall j | 0 <= j < old(linked) ::
                 old(header)[old(items)[j]].used || old(header)[old(items)[j]].size < TotalSize(size)) ==>
                ok && 0 < size ==>
                  && address == (if old(heapTop) == 0 then 0xD000_0000 else old(heapTop)) + 12
                  && heapTop == address - 12 + (TotalSize(size) / 4096 + 1) * 4096
      ensures ok && 0 < size <= MAX_REQUEST ==> Allocated(old(Now()), Now(), size, address)
      ensures ok ==> (Valid() <==> size == 0 || (size <= MAX_REQUEST && !(at == old(linked) && Overflows(size))))
    {
      if size == 0 {
        return true, 0, 0;
      }
      var total := TotalSize(size);
      var item, tail;
      item, tail, at := FirstFit(total);
      FirstFitOnHeaders(Now(), at, total);
      ok := true;
      if item != 0 {
        address := TakeFree(item, at, size);
      } else {
        ok, address := TakeFresh(tail, size);
      }
    }

    // Cuts a block off the free item `i`.
    method TakeFree(item: nat, ghost i: nat, size: nat) returns (address: nat)
      requires Valid() && i < linked && item == items[i] && Now().Fits(i, TotalSize(size)) && size < TWO_32
      modifies `header, `items, `linked
      ensures address == item + HEADER_SIZE && Now() == old(Now()).Split(i, TotalSize(size), size)
      ensures Valid() <==> size <= MAX_REQUEST
      ensures size <= MAX_REQUEST ==> Allocated(old(Now()), Now(), size, address)
    {
      address := item + HEADER_SIZE;
      ghost var t := Now().Split(i, TotalSize(size), size);
      SplitFor(Now(), i, size, address);
      CutHeaders(item, TotalSize(size), size);
      items, linked := t.items, t.linked;
      assert Now() == t;
    }

    // Writes the headers of a block of `total` bytes and of the free rest behind it.
    method CutHeaders(item: nat, total: nat, size: nat)
      requires item in header && total <= header[item].size
      modifies `header
      ensures header == var was := old(header)[item];
                        old(header)[item + total := Header(was.next, was.size - total, false)]
                                   [item := Header(item + total, size, true)]
    {
      var rest: nat := item + total;
      var free := header[item];
      header := header[rest := Header(free.next, free.size - total, false)];
      header := header[item := Header(rest, size, true)];
    }

    // Grows the heap, and cuts a block off the fresh space.
    method TakeFresh(tail: nat, size: nat) returns (ok: bool, address: nat)
      requires Valid() && tail == (if items == [] then 0 else items[linked - 1])
      requires Start(HEAP_BASE, heapTop) + GrowthOf(TotalSize(size)) <= HEAP_LIMIT && size < TWO_32
      modifies this, spaces, spaces.pages.bitmap
      ensures spaces.Valid() && (!ok ==> spaces.State().Exhausted())
      ensures ok ==>
                && address == Start(HEAP_BASE, old(heapTop)) + HEADER_SIZE
                && Grown(old(spaces.State()), kernel.pageDir, Start(HEAP_BASE, old(heapTop)), heapTop, spaces.State())
                && Now() == GrowFor(old(Now()), size, links)
                && (Valid() <==> size <= MAX_REQUEST && !Overflows(size))
      ensures ok && size <= MAX_REQUEST ==> Allocated(old(Now()), Now(), size, address)
    {
      ghost var s := Now();
      TailBelowTop(s);
      RequestsExactly(size);
      var item;
      ok, item := MoreCore(TotalSize(size));
      address := item + HEADER_SIZE;
      if ok {
        CutFresh(item, tail, TotalSize(size), size, s);
        FreshTaken(s, size, address);
      }
    }

    lemma FreshTaken(s: Layout, size: nat, address: nat)
      requires s.Valid(HEAP_BASE) && (links ==> s.linked == |s.items|) && size < TWO_32
      requires address == Start(HEAP_BASE, s.top) + HEADER_SIZE
      requires Backed() && Now() == GrowFor(s, size, links)
      ensures Valid() <==> size <= MAX_REQUEST && !Overflows(size)
      ensures size <= MAX_REQUEST ==> Allocated(s, Now(), size, address)
    {
      GrowKeeps(s, size, links);
    }

    method CutFresh(item: nat, tail: nat, total: nat, size: nat, ghost s: Layout)
      requires s.Structured(HEAP_BASE) && (links ==> s.linked == |s.items|) && 0 < total
      requires Now() == s.(top := heapTop) && item == Start(HEAP_BASE, s.top)
      requires if items == [] then tail == 0 else 0 < tail == items[linked - 1] < item
      modifies `header, `items, `linked
      ensures Now() == Grow(s, HEAP_BASE, heapTop, total, size, Leftover(total), links)
    {
      var rest: nat := item + total;
      header := header[rest := Header(0, Leftover(total), false)];
      if links && tail != 0 {
        header := header[tail := header[tail].(next := item)];
      }
      header := header[item := Header(rest, size, true)];
      items, linked := items + [item, rest], if items == [] || links then linked + 2 else linked;
    }

    // Frees the block at `address`, if the list reaches its header, and merges free neighbours.
    method Kfree(address: nat)
      requires Valid() && (address != 0 ==> heapTop != 0)
      modifies `header, `items, `linked
      ensures Valid() && Freed(old(Now()), Now(), address)
      ensures Now().Live() == if (exists i: nat :: i < old(linked) && old(items)[i] + 12 == address)
                              then old(Now()).Live() - {address - 12} else old(Now()).Live()
      ensures Now().Weight(linked) == old(Now()).Weight(old(linked))
      ensures !Reaches(old(Now()), address) ==> Now() == old(Now())
    {
      if address == 0 {
        return;
      }
      var current;
      ghost var i;
      current, i := FindBlock(address);
      if current != 0 {
        ghost var before := Now();
        MarkFreeKeeps(before, HEAP_BASE, i);
        Reclaim(current, i);
        ReclaimFrees(before, i, Now());
      }
    }

    // The listed item `i` whose block is at the address, or 0.
    method FindBlock(address: nat) returns (current: nat, ghost i: nat)
      requires Valid() && heapTop != 0 && address != 0
      ensures current != 0 ==> i < linked && items[i] == current && current + 12 == address
      ensures current == 0 ==> forall k: nat | k < linked :: items[k] + 12 != address
    {
      Positive(Now(), HEAP_BASE);
      current, i := HEAP_BASE, 0;
      while current != 0 && current + HEADER_SIZE != address
        invariant i <= linked && current == (if i < linked then items[i] else 0)
        invariant forall k: nat | k < i :: items[k] + HEADER_SIZE != address
        decreases linked - i
      {
        assert header[items[i]].next == Now().Next(i);
        current := header[current].next;
        i := i + 1;
      }
    }

    // Frees the listed item `i`, and merges free neighbours.
    method Reclaim(current: nat, ghost i: nat)
      requires Now().Structured(HEAP_BASE) && i < linked && current == items[i]
      modifies `header, `items, `linked
      ensures old(Now()).MarkFree(i).Structured(HEAP_BASE) && Coalesced(old(Now()).MarkFree(i), HEAP_BASE, Now())
      ensures Now().Settled(linked)
    {
      MarkFreeKeeps(Now(), HEAP_BASE, i);
      header := header[current := header[current].(used := false)];
      Coalesce();
    }

    // Merges every run of free neighbours on the list.
    method Coalesce()
      requires Now().Structured(HEAP_BASE) && heapTop != 0
      modifies `header, `items, `linked
      ensures Coalesced(old(Now()), HEAP_BASE, Now()) && Now().Settled(linked)
    {
      ghost var i := 0;
      var current := HEAP_BASE;
      while current != 0
        invariant Coalesced(old(Now()), HEAP_BASE, Now()) && Now().Settled(i)
        invariant i <= linked && (if i < linked then current == items[i] > 0 else current == 0)
        decreases linked - i
      {
        MergeRun(current, i, old(Now()));
        current := header[current].next;
        i := i + 1;
      }
    }

    // Merges the free neighbour after item `i` into it.
    method MergeNext(current: nat, ghost i: nat, ghost s: Layout)
      requires s.Structured(HEAP_BASE) && Coalesced(s, HEAP_BASE, Now()) && Now().Settled(i)
      requires i + 1 < linked && current == items[i] && header[current].next == items[i + 1] && Now().FreePair(i)
      modifies `header, `items, `linked
      ensures Coalesced(s, HEAP_BASE, Now()) && Now().Settled(i) && linked == old(linked) - 1
      ensures current == items[i] && header[current].next == Now().Next(i)
    {
      MergeCoalesces(s, HEAP_BASE, Now(), i);
      ghost var t, was, behind := Now().Merge(i), header[current], header[header[current].next];
      assert t.header == header[current := Header(behind.next, was.size + HEADER_SIZE + behind.size, was.used)];
      JoinHeaders(current, header[current].next);
      items, linked := t.items, t.linked;
      assert Now() == t;
      assert header[items[i]].next == Now().Next(i);
    }

    method JoinHeaders(current: nat, next: nat)
      requires current in header && next in header
      modifies `header
      ensures header == var was, behind := old(header)[current], old(header)[next];
                        old(header)[current := Header(behind.next, was.size + HEADER_SIZE + behind.size, was.used)]
    {
      var size := header[current].size + HEADER_SIZE + header[next].size;
      header := header[current := header[current].(size := size)];
      header := header[current := header[current].(next := header[next].next)];
    }

    // Merges the free neighbours that follow item `i` into it.
    method MergeRun(current: nat, ghost i: nat, ghost s: Layout)
      requires s.Structured(HEAP_BASE) && Coalesced(s, HEAP_BASE, Now()) && Now().Settled(i)
      requires i < linked && current == items[i]
      modifies `header, `items, `linked
      ensures Coalesced(s, HEAP_BASE, Now()) && Now().Settled(i + 1)
      ensures i < linked <= old(linked) && current == items[i] && header[current].next == Now().Next(i)
      ensures i + 1 < linked ==> 0 < items[i + 1]
    {
      assert header[items[i]].next == Now().Next(i);
      while !header[current].used && header[current].next != 0 && !header[header[current].next].used
        invariant Coalesced(s, HEAP_BASE, Now()) && Now().Settled(i)
        invariant i < linked <= old(linked) && current == items[i] && header[current].next == Now().Next(i)
        decreases linked
      {
        MergeNext(current, i, s);
      }
      Positive(Now(), HEAP_BASE);
      SettledMore(Now(), i);
    }

    // Frees a list of blocks that includes all live ones, in whatever order. One free item remains of
    // all that the list reaches; it is the whole heap exactly if the list reached every item.
    method FreeAll(blocks: seq<nat>)
      requires Valid() && heapTop != 0
      requires forall a | a in Now().Live() :: a + HEADER_SIZE in blocks
      modifies `header, `items, `linked
      ensures Valid() && linked == 1 && !Now().Used(0)
      ensures LiveWithin(old(Now()), Now()) && (Now().Exact() <==> old(Now()).Exact())
      ensures |items| == 1 <==> old(linked) == |old(items)|
      ensures HEAP_BASE in header && header[HEAP_BASE].next == 0
      ensures |items| == 1 ==>
                items[0] == HEAP_BASE
                && (HEAP_BASE + HEADER_SIZE + header[HEAP_BASE].size == heapTop <==> old(Now()).Exact())
      ensures items[1..] == old(items)[old(linked)..]
    {
      AllAwaited(Now(), blocks);
      for n := 0 to |blocks|
        invariant Valid() && heapTop != 0 && Draining(old(Now()), Now(), blocks, n)
      {
        FreeNext(blocks, n, old(Now()));
      }
      NoneAwaited(Now(), blocks);
      assert |items| == linked + |items[linked..]|;
    }

    method FreeNext(blocks: seq<nat>, n: nat, ghost s: Layout)
      requires Valid() && heapTop != 0 && n < |blocks| && Draining(s, Now(), blocks, n)
      modifies `header, `items, `linked
      ensures Valid() && Draining(s, Now(), blocks, n + 1)
    {
      ghost var before := Now();
      Kfree(blocks[n]);
      DrainingNext(s, before, Now(), blocks, n);
    }
  }

  // From `s` to `t` the block at `address` is freed if the list reaches it, and free neighbours are merged: no
  // other block changes, no item moves, no space is lost, and gaps are neither opened nor closed.
  ghost predicate Freed(s: Layout, t: Layout, address: nat) {
    && s.Structured(HEAP_BASE) && t.Structured(HEAP_BASE)
    && t.Live() == (if Reaches(s, address) then s.Live() - {address - HEADER_SIZE} else s.Live())
    && (t.Exact() <==> s.Exact()) && t.Weight(t.linked) == s.Weight(s.linked)
    && t.items[t.linked..] == s.items[s.linked..] && (forall a | a in t.items[..t.linked] :: a in s.items[..s.linked])
    && WritesHeadersOnly(s, t)
  }

  lemma ReclaimFrees(s: Layout, i: nat, t: Layout)
    requires s.Structured(HEAP_BASE) && i < s.linked && s.MarkFree(i).Structured(HEAP_BASE)
    requires Coalesced(s.MarkFree(i), HEAP_BASE, t)
    ensures Freed(s, t, s.items[i] + 12)
    ensures t.Live() == s.Live() - {s.items[i]} && t.Weight(t.linked) == s.Weight(s.linked)
  {
    MarkFreeKeeps(s, HEAP_BASE, i);
    MarkFreeLive(s, i);
    MarkFreeWeight(s, i, s.linked);
  }

  // `t` is `s` after the first `n` blocks were freed.
  ghost predicate Draining(s: Layout, t: Layout, blocks: seq<nat>, n: nat) {
    && LiveWithin(s, t) && (t.Exact() <==> s.Exact()) && s.linked <= |s.items| && t.linked <= |t.items|
    && t.items[t.linked..] == s.items[s.linked..] && n <= |blocks| && Awaited(t, blocks[n..])
  }

  lemma DrainingNext(s: Layout, t: Layout, u: Layout, blocks: seq<nat>, n: nat)
    requires n < |blocks| && Draining(s, t, blocks, n) && Freed(t, u, blocks[n])
    ensures Draining(s, u, blocks, n + 1)
  {
    FreeOne(t, u, blocks, n);
  }

  lemma SettledMore(s: Layout, n: nat)
    requires s.HasHeaders() && s.linked <= |s.items| && s.Settled(n) && (n + 1 < s.linked ==> !s.FreePair(n))
    ensures s.Settled(n + 1)
  {
  }

  // The blocks live in `t` are live in `s`.
  ghost predicate LiveWithin(s: Layout, t: Layout) {
    s.HasHeaders() && t.HasHeaders() && forall a | a in t.Live() :: a in s.Live()
  }

  // Every linked block in use is among `blocks`.
  ghost predicate Awaited(s: Layout, blocks: seq<nat>)
    requires s.HasHeaders() && s.linked <= |s.items|
  {
    forall i: nat | i < s.linked && s.Used(i) :: s.items[i] + HEADER_SIZE in blocks
  }

  lemma AllAwaited(s: Layout, blocks: seq<nat>)
    requires s.Structured(HEAP_BASE) && forall a | a in s.Live() :: a + HEADER_SIZE in blocks
    ensures Awaited(s, blocks[0..])
  {
    assert blocks[0..] == blocks;
    assert forall i: nat | i < s.linked && s.Used(i) :: s.items[i] in s.Live();
  }

  lemma NoneAwaited(s: Layout, blocks: seq<nat>)
    requires s.Valid(HEAP_BASE) && s.items != [] && Awaited(s, blocks[|blocks|..])
    ensures s.linked == 1 && !s.Used(0)
    ensures s.header[HEAP_BASE].next == 0
    ensures |s.items| == 1 ==> (s.Exact() <==> HEAP_BASE + HEADER_SIZE + s.header[HEAP_BASE].size == s.top)
  {
    assert forall i: nat | i < s.linked :: !s.Used(i);
    AllFree(s, HEAP_BASE);
    assert s.header[s.items[0]].next == s.Next(0);
  }

  lemma FreeOne(s: Layout, t: Layout, blocks: seq<nat>, n: nat)
    requires n < |blocks| && Freed(s, t, blocks[n]) && Awaited(s, blocks[n..])
    ensures Awaited(t, blocks[n + 1..]) && LiveWithin(s, t)
  {
    forall i: nat | i < t.linked && t.Used(i)
      ensures t.items[i] + HEADER_SIZE in blocks[n + 1..]
    {
      assert t.items[i] in t.Live() && t.items[i] in t.items[..t.linked];
      StillAwaited(s, t.items[i], blocks, n);
    }
  }

  lemma StillAwaited(s: Layout, a: nat, blocks: seq<nat>, n: nat)
    requires s.HasHeaders() && s.linked <= |s.items| && n < |blocks| && Awaited(s, blocks[n..])
    requires a in s.items[..s.linked] && a in s.Live()
    requires Reaches(s, blocks[n]) ==> a != blocks[n] - HEADER_SIZE
    ensures a + HEADER_SIZE in blocks[n + 1..]
  {
    var k: nat :| k < s.linked && s.items[k] == a;
    assert s.Used(k);
    var j: nat :| n <= j < |blocks| && blocks[j] == a + HEADER_SIZE;
    assert blocks[n + 1..][j - n - 1] == a + HEADER_SIZE;
  }

  // Is there a listed item whose payload is at `address`?
  ghost predicate Reaches(s: Layout, address: nat)
    requires s.linked <= |s.items|
  {
    exists i: nat | i < s.linked :: s.items[i] + HEADER_SIZE == address
  }

  // The largest request whose rounded size, with its header, is still a 32-bit number.
  const MAX_REQUEST: nat := TWO_32 - 16

  // Up to there the arithmetic does not wrap; beyond it, the block would be smaller than the request.
  lemma RequestsExactly(size: nat)
    requires size < TWO_32
    ensures 0 < TotalSize(size)
    ensures size <= MAX_REQUEST <==> TotalSize(size) == Round8(size) + HEADER_SIZE
    ensures size <= MAX_REQUEST <==> size + HEADER_SIZE <= TotalSize(size)
  {
  }

  // The requests whose leftover header would not fit into the last page added for them.
  predicate Overflows(size: nat) {
    Round8(size) % PAGE_SIZE == PAGE_SIZE - 16
  }

  lemma TotalArithmetic(size: nat)
    requires size <= MAX_REQUEST
    ensures TotalSize(size) % PAGE_SIZE != 0 && size + HEADER_SIZE <= TotalSize(size)
    ensures size % 8 == 0 <==> size + HEADER_SIZE == TotalSize(size)
    ensures TotalSize(size) + HEADER_SIZE + Leftover(TotalSize(size)) <= GrowthOf(TotalSize(size)) <==> !Overflows(size)
    ensures TotalSize(size) + HEADER_SIZE + Leftover(TotalSize(size)) == GrowthOf(TotalSize(size)) <==> !Overflows(size)
  {
    RequestsExactly(size);
    GrowthArithmetic(size, Round8(size) + HEADER_SIZE);
  }

  lemma PagesOfTotal(n: nat)
    ensures var c, total := n % 512, 8 * n + HEADER_SIZE;
            && 8 * n % PAGE_SIZE == 8 * c
            && total / PAGE_SIZE == (if c == 511 then n / 512 + 1 else n / 512)
            && total % PAGE_SIZE == (if c == 511 then 4 else 8 * c + HEADER_SIZE)
  {
    var q, c := n / 512, n % 512;
    assert 8 * n + HEADER_SIZE == q * PAGE_SIZE + 8 * c + HEADER_SIZE;
  }

  lemma GrowthArithmetic(size: nat, total: nat)
    requires total == Round8(size) + HEADER_SIZE
    ensures total % PAGE_SIZE != 0 && (size % 8 == 0 <==> size + HEADER_SIZE == total)
    ensures total + HEADER_SIZE + Leftover(total) <= GrowthOf(total) <==> !Overflows(size)
    ensures total + HEADER_SIZE + Leftover(total) == GrowthOf(total) <==> !Overflows(size)
  {
    PagesOfTotal(Round8(size) / 8);
  }

  // A request of 4080 bytes on an empty heap gets a page whose last four bytes cannot hold the leftover's
  // header, and a request of 4 GB less 15 bytes is taken for one of no more than four bytes, header included.
  lemma DefectsAt()
    ensures Overflows(4080) && TotalSize(4080) == 4092 && GrowthOf(4092) == 4096 && Leftover(4092) == TWO_32 - 8
    ensures TotalSize(MAX_REQUEST + 1) == 4
  {
  }

  lemma TailBelowTop(s: Layout)
    requires s.Structured(HEAP_BASE)
    ensures s.items != [] ==> 0 < s.items[s.linked - 1] < s.top
  {
    Positive(s, HEAP_BASE);
    if s.items != [] {
      BelowTop(s, s.linked - 1);
    }
  }

  // The layout after growing for a request of `size` bytes.
  ghost function GrowFor(s: Layout, size: nat, link: bool): Layout
    requires s.Structured(HEAP_BASE) && (link ==> s.linked == |s.items|)
  {
    Grow(s, HEAP_BASE, Start(HEAP_BASE, s.top) + GrowthOf(TotalSize(size)),
         TotalSize(size), size, Leftover(TotalSize(size)), link)
  }

  // After growing, the list reaches every item exactly if the new region is linked or is the first.
  lemma GrowReaches(s: Layout, size: nat, link: bool)
    requires s.Structured(HEAP_BASE) && (link ==> s.linked == |s.items|)
    ensures var t := GrowFor(s, size, link);
            t.linked == |t.items| <==> link || s.items == []
  {
  }

  // A heap that grows a second time, as written: of its four items the list reaches two.
  lemma GrowReachesAt()
    ensures EMPTY.Structured(HEAP_BASE)
    ensures var once := GrowFor(EMPTY, 8, false);
            && once.linked == |once.items| == 2 && once.Structured(HEAP_BASE)
            && var twice := GrowFor(once, 8000, false);
               twice.linked == 2 && |twice.items| == 4
  {
    assert EMPTY.Valid(HEAP_BASE);
    GrowKeeps(EMPTY, 8, false);
  }

  lemma SplitFor(s: Layout, i: nat, size: nat, address: nat)
    requires s.Valid(HEAP_BASE) && i < s.linked && s.Fits(i, TotalSize(size)) && size < TWO_32
    requires address == s.items[i] + HEADER_SIZE
    ensures s.Split(i, TotalSize(size), size).Valid(HEAP_BASE) <==> size <= MAX_REQUEST
    ensures size <= MAX_REQUEST ==> Allocated(s, s.Split(i, TotalSize(size), size), size, address)
    ensures var t := s.Split(i, TotalSize(size), size); s.linked == |s.items| <==> t.linked == |t.items|
  {
    RequestsExactly(size);
    if size <= MAX_REQUEST {
      TotalArithmetic(size);
      SplitKeeps(s, HEAP_BASE, i, TotalSize(size), size);
    } else {
      SplitBroken(s, i, TotalSize(size), size);
    }
  }

  lemma GrowKeeps(s: Layout, size: nat, link: bool)
    requires s.Valid(HEAP_BASE) && (link ==> s.linked == |s.items|) && size < TWO_32
    ensures GrowFor(s, size, link).Valid(HEAP_BASE) <==> size <= MAX_REQUEST && !Overflows(size)
    ensures size <= MAX_REQUEST ==>
              Allocated(s, GrowFor(s, size, link), size, Start(HEAP_BASE, s.top) + HEADER_SIZE)
    // a list that reached every item does so still exactly if the new region is linked or is the first
    ensures s.linked == |s.items| ==>
              (GrowFor(s, size, link).linked == |GrowFor(s, size, link).items| <==> link || s.items == [])
  {
    var total := TotalSize(size);
    var newTop := Start(HEAP_BASE, s.top) + GrowthOf(total);
    RequestsExactly(size);
    if size <= MAX_REQUEST {
      TotalArithmetic(size);
      GrowPacked(s, HEAP_BASE, newTop, total, size, Leftover(total), link);
      GrowLinked(s, HEAP_BASE, newTop, total, size, Leftover(total), link);
      GrowLive(s, HEAP_BASE, newTop, total, size, Leftover(total), link);
      var t := GrowFor(s, size, link);
      assert t.items[|s.items|] == Start(HEAP_BASE, s.top) && t.items[|s.items| + 1] == Start(HEAP_BASE, s.top) + total;
    } else {
      GrowBroken(s, HEAP_BASE, newTop, total, size, Leftover(total), link);
    }
  }

  lemma HeapRoom(s: Snapshot, reserved: set<nat>, t: Snapshot, p: Process, top: nat)
    requires s.Sound(reserved) && HEAP_BASE <= top < HEAP_LIMIT && top % PAGE_SIZE == 0
    requires HeapMapped(s, p.pageDir, HEAP_BASE, top)
    requires t.ram == s.ram && t.IsDirectory(p.pageDir)
    ensures t.Mappable(p, DirectoryIndex(PageAlign(top)), TableIndex(PageAlign(top)))
  {
    FirstTouchAligned(s, reserved, p, top);
    AlignedAlready(top);
  }
}
