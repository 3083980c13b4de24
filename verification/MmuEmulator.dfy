/** The two-level page table emulator: a directory page and table pages, allocated one by one. */
module MmuEmulator {
  import opened Machine
  import opened Wrappers

  const FRAMES: nat := 0x10_0000     // a 20-bit frame number

  datatype Entry = Entry(present: bool, frame: nat)

  function DirectoryIndex(address: nat): nat {
    address / 0x40_0000
  }

  function TableIndex(address: nat): nat {
    address / PAGE_SIZE % ENTRIES
  }

  // (directory index, table index) and page number determine each other.
  lemma IndicesArePage(v: nat, w: nat)
    requires v < TWO_32 && w < TWO_32
    ensures DirectoryIndex(v) < ENTRIES && TableIndex(v) < ENTRIES
    ensures v / PAGE_SIZE == DirectoryIndex(v) * ENTRIES + TableIndex(v)
    ensures DirectoryIndex(v) == DirectoryIndex(w) && TableIndex(v) == TableIndex(w) <==> v / PAGE_SIZE == w / PAGE_SIZE
  {
    assert v / PAGE_SIZE / ENTRIES == DirectoryIndex(v);
    assert w / PAGE_SIZE / ENTRIES == DirectoryIndex(w);
  }

  // Every allocated page by its frame, read as entries.
  type Pages = map<nat, seq<Entry>>

  const EMPTY_PAGE: seq<Entry> := seq(ENTRIES, _ => Entry(false, 0))

  // Present directory slots refer to allocated tables, no two to the same one, none to the directory.
  ghost predicate Sound(pages: Pages, dir: nat) {
    && dir in pages
    && (forall f | f in pages :: 0 < f < FRAMES && |pages[f]| == ENTRIES)
    && (forall i: nat | i < ENTRIES && pages[dir][i].present :: IsTable(pages, dir, i))
    && (forall i: nat, j: nat | i < j < ENTRIES && pages[dir][i].present && pages[dir][j].present ::
          pages[dir][i].frame != pages[dir][j].frame)
  }

  ghost predicate IsTable(pages: Pages, dir: nat, i: nat)
    requires dir in pages && i < |pages[dir]|
  {
    pages[dir][i].frame in pages && pages[dir][i].frame != dir
  }

  // The frame that slot `d` and index `t` map to.
  ghost function Lookup(pages: Pages, dir: nat, d: nat, t: nat): Option<nat>
    requires Sound(pages, dir) && d < ENTRIES && t < ENTRIES
  {
    if pages[dir][d].present && pages[pages[dir][d].frame][t].present
    then Some(pages[pages[dir][d].frame][t].frame) else None
  }

  // The partial map from pages to frames that the two levels represent.
  ghost function ViewOf(pages: Pages, dir: nat): map<nat, nat>
    requires Sound(pages, dir)
  {
    map page: nat | page < FRAMES && Lookup(pages, dir, page / ENTRIES, page % ENTRIES).Some? ::
      Lookup(pages, dir, page / ENTRIES, page % ENTRIES).value
  }

  // Adding a page to memory, or as the table of an empty slot, maps nothing.
  lemma AddedPage(pages: Pages, dir: nat, f: nat)
    requires Sound(pages, dir) && 0 < f < FRAMES && f !in pages
    ensures Sound(pages[f := EMPTY_PAGE], dir) && ViewOf(pages[f := EMPTY_PAGE], dir) == ViewOf(pages, dir)
  {
    var p: Pages := pages[f := EMPTY_PAGE];
    assert forall d: nat, t: nat | d < ENTRIES && t < ENTRIES :: Lookup(p, dir, d, t) == Lookup(pages, dir, d, t);
  }

  lemma AddedTable(pages: Pages, dir: nat, d: nat, f: nat)
    requires Sound(pages, dir) && d < ENTRIES && !pages[dir][d].present && 0 < f < FRAMES && f !in pages
    ensures var p := pages[f := EMPTY_PAGE]; var q := p[dir := p[dir][d := Entry(true, f)]];
            Sound(q, dir) && ViewOf(q, dir) == ViewOf(pages, dir)
  {
    var p: Pages := pages[f := EMPTY_PAGE];
    var q: Pages := p[dir := p[dir][d := Entry(true, f)]];
    forall i: nat | i < ENTRIES && q[dir][i].present
      ensures IsTable(q, dir, i)
      ensures i != d ==> q[dir][i].frame != f
    {
      assert i != d ==> IsTable(pages, dir, i);
    }
    assert forall e: nat, t: nat | e < ENTRIES && t < ENTRIES :: Lookup(q, dir, e, t) == Lookup(pages, dir, e, t);
  }

  // Setting an entry of a present slot's table maps that page, and no other.
  lemma SetEntry(pages: Pages, dir: nat, d: nat, t: nat, frame: nat)
    requires Sound(pages, dir) && d < ENTRIES && t < ENTRIES && pages[dir][d].present
    ensures var table := pages[dir][d].frame;
            && table in pages && table != dir
            && var p := pages[table := pages[table][t := Entry(true, frame)]];
               Sound(p, dir) && ViewOf(p, dir) == ViewOf(pages, dir)[d * ENTRIES + t := frame]
  {
    assert IsTable(pages, dir, d);
    var table := pages[dir][d].frame;
    var p: Pages := pages[table := pages[table][t := Entry(true, frame)]];
    forall i: nat | i < ENTRIES && p[dir][i].present
      ensures IsTable(p, dir, i)
    {
      assert IsTable(pages, dir, i);
    }
    forall e: nat, u: nat | e < ENTRIES && u < ENTRIES
      ensures Lookup(p, dir, e, u) == if e == d && u == t then Some(frame) else Lookup(pages, dir, e, u)
    {
      assert pages[dir][e].present && e != d ==> pages[dir][e].frame != table;
    }
    forall page: nat | page < FRAMES
      ensures page / ENTRIES == d && page % ENTRIES == t <==> page == d * ENTRIES + t
    {
    }
  }

  class AddressSpace {
    const dir: nat
    var pages: Pages

    ghost predicate Valid()
      reads this
    {
      Sound(pages, dir)
    }

    ghost function View(): map<nat, nat>
      requires Valid()
      reads this
    {
      ViewOf(pages, dir)
    }

    constructor (dir: nat)
      requires 0 < dir < FRAMES
      ensures Valid() && this.dir == dir && View() == map[]
    {
      this.dir := dir;
      pages := map[dir := EMPTY_PAGE];
    }

    // A page of its own, zeroed; None where the program aborts for lack of memory.
    method AllocatePage() returns (r: Option<nat>)
      requires Valid()
      modifies this
      ensures r == None <==> forall f: nat | 0 < f < FRAMES :: f in old(pages)
      ensures r == None <==> forall f: nat | 0 < 4096 * f < 0x1_0000_0000 :: f in old(pages)
      ensures Valid() && View() == old(View())
      ensures r == None ==> pages == old(pages)
      ensures r.Some? ==> 0 < r.value < FRAMES && r.value !in old(pages) && pages == old(pages)[r.value := EMPTY_PAGE]
    {
      if f: nat :| 0 < f < FRAMES && f !in pages {
        AddedPage(pages, dir, f);
        pages := pages[f := EMPTY_PAGE];
        return Some(f);
      } else {
        return None;
      }
    }

    // Maps the page of a virtual address to the frame of a physical one; false where the program aborts.
    method Insert(virtual: nat, physical: nat) returns (ok: bool)
      requires Valid() && virtual < TWO_32 && physical < TWO_32
      modifies this
      ensures Valid()
      ensures View() == if ok then old(View())[virtual / PAGE_SIZE := physical / PAGE_SIZE] else old(View())
      ensures !ok ==> pages == old(pages) && forall f: nat | 0 < f < FRAMES :: f in pages
    {
      var d, t := DirectoryIndex(virtual), TableIndex(virtual);
      IndicesArePage(virtual, virtual);
      assert virtual / PAGE_SIZE == d * ENTRIES + t;
      if !pages[dir][d].present {
        ghost var before := pages;
        var page := AllocatePage();
        if page.None? {
          return false;
        }
        AddedTable(before, dir, d, page.value);
        pages := pages[dir := pages[dir][d := Entry(true, page.value)]];
      }
      var table := pages[dir][d].frame;
      SetEntry(pages, dir, d, t, physical / PAGE_SIZE);
      pages := pages[table := pages[table][t := Entry(true, physical / PAGE_SIZE)]];
      ok := true;
    }

    // The physical address of a mapped page; None where the program's assertion fails.
    method Get(virtual: nat) returns (r: Option<nat>)
      requires Valid() && virtual < TWO_32
      ensures r == if virtual / PAGE_SIZE in View() then Some(View()[virtual / PAGE_SIZE] * PAGE_SIZE) else None
    {
      var d, t := DirectoryIndex(virtual), TableIndex(virtual);
      IndicesArePage(virtual, virtual);
      assert virtual / PAGE_SIZE / ENTRIES == d;
      if !pages[dir][d].present {
        return None;
      }
      assert IsTable(pages, dir, d);
      var entry := pages[pages[dir][d].frame][t];
      r := if entry.present then Some(entry.frame * PAGE_SIZE) else None;
    }

    // Any sequence of inserts; it stops early where the program aborts.
    method InsertAll(mappings: seq<(nat, nat)>) returns (done: nat)
      requires Valid() && forall m | m in mappings :: m.0 < TWO_32 && m.1 < TWO_32
      modifies this
      ensures Valid() && done <= |mappings| && View() == Inserted(old(View()), mappings[..done])
      ensures done < |mappings| ==> forall f: nat | 0 < f < FRAMES :: f in pages
    {
      for n := 0 to |mappings|
        invariant Valid() && View() == Inserted(old(View()), mappings[..n])
      {
        var ok := Insert(mappings[n].0, mappings[n].1);
        if !ok {
          return n;
        }
        assert mappings[..n + 1][..n] == mappings[..n];
      }
      done := |mappings|;
    }
  }

  // The map after a sequence of inserts.
  ghost function Inserted(view: map<nat, nat>, mappings: seq<(nat, nat)>): map<nat, nat> {
    if mappings == [] then view
    else
      var last := mappings[|mappings| - 1];
      Inserted(view, mappings[..|mappings| - 1])[last.0 / PAGE_SIZE := last.1 / PAGE_SIZE]
  }

  // A page maps to the frame inserted for it last, and as before if none was.
  lemma {:induction false} LastInsertWins(view: map<nat, nat>, mappings: seq<(nat, nat)>, page: nat, n: nat)
    requires n <= |mappings| && forall i | n <= i < |mappings| :: mappings[i].0 / PAGE_SIZE != page
    requires 0 < n ==> mappings[n - 1].0 / PAGE_SIZE == page
    ensures var after := Inserted(view, mappings);
            if 0 < n then page in after && after[page] == mappings[n - 1].1 / PAGE_SIZE
            else (page in after <==> page in view) && (page in view ==> after[page] == view[page])
  {
    if n < |mappings| {
      LastInsertWins(view, mappings[..|mappings| - 1], page, n);
    }
  }
}
