/** Who owns each physical frame, and what making page tables on demand does to memory and to
    the owners, on values. */
module FrameOwnership {
  import opened Machine
  import opened Wrappers
  import opened PageTables
  import P = PhysicalPages

  // What a frame handed out by the page allocator serves as.
  datatype Owner = Directory | TableOf(dir: nat, slot: nat) | HeapPage(page: nat) | Client

  // `pageDir` is the frame of the process's page directory.
  datatype Process = Process(pageDir: nat, user: bool)

  datatype Snapshot = Snapshot(ram: Ram, taken: set<nat>, owner: map<nat, Owner>) {

    ghost predicate IsDirectory(dir: nat) {
      dir in owner && owner[dir] == Directory
    }

    // A slot is empty, or refers to the one table made for it.
    ghost predicate SlotSound(dir: nat, slot: nat) {
      && InRam(ram, dir, slot)
      && var pde := ram[dir][slot];
         if pde.frame == 0 then !pde.present
         else pde.present && pde.frame in owner && owner[pde.frame] == TableOf(dir, slot)
    }

    ghost predicate Owned(f: nat, reserved: set<nat>) {
      0 < f < |ram| && f in taken && f !in reserved
    }

    ghost predicate Sound(reserved: set<nat>) {
      && reserved <= taken
      && (forall f | f in owner :: Owned(f, reserved))
      && (forall dir: nat, slot: nat | IsDirectory(dir) && slot < ENTRIES - 1 :: SlotSound(dir, slot))
      && (forall dir | IsDirectory(dir) :: SelfMapped(ram, dir))
    }

    // No frame is left to hand out.
    ghost predicate Exhausted() {
      forall f: nat | 0 < f < |ram| :: f in taken
    }

    // Slots that may be given tables: all but the self-mapping one.
    ghost predicate Mappable(p: Process, slot: nat, index: nat) {
      IsDirectory(p.pageDir) && p.pageDir < |ram| && slot < ENTRIES - 1 && index < ENTRIES
    }

    // Through the self-mapping slot it is directory entry `index` that is set. May it be?
    ghost predicate DirectoryEntrySound(dir: nat, index: nat, entry: Entry) {
      if index == ENTRIES - 1 then entry.present && entry.frame == dir
      else if entry.frame == 0 then !entry.present
      else entry.present && entry.frame in owner && owner[entry.frame] == TableOf(dir, index)
    }

    // Entries that may be set.
    ghost predicate Settable(p: Process, slot: nat, index: nat, entry: Entry) {
      || Mappable(p, slot, index)
      || (IsDirectory(p.pageDir) && slot == ENTRIES - 1 && index < ENTRIES
          && DirectoryEntrySound(p.pageDir, index, entry))
    }

    // 1 while the slot has no table.
    ghost function Missing(dir: nat, slot: nat): nat {
      if dir < |ram| && slot < ENTRIES && ram[dir][slot].frame == 0 then 1 else 0
    }
  }

  // Every owned frame but the clients' pages in `given` has kept its owner, and its content too if it holds data.
  ghost predicate Kept(s: Snapshot, given: set<nat>, t: Snapshot) {
    && |t.ram| == |s.ram|
    && forall f | f in s.owner && !(f in given && s.owner[f].Client?) ::
         && f in t.owner && t.owner[f] == s.owner[f]
         && ((s.owner[f].HeapPage? || s.owner[f].Client?) && f < |s.ram| ==> t.ram[f] == s.ram[f])
  }

  lemma SlotInRam(s: Snapshot, reserved: set<nat>, dir: nat, slot: nat)
    requires s.Sound(reserved) && s.IsDirectory(dir) && slot < ENTRIES
    ensures InRam(s.ram, dir, slot)
  {
    assert SelfMapped(s.ram, dir);
    if slot < ENTRIES - 1 {
      assert s.SlotSound(dir, slot);
    }
  }

  lemma TakeKeeps(s: Snapshot, reserved: set<nat>, f: nat)
    requires s.Sound(reserved)
    ensures s.(taken := s.taken + {f}).Sound(reserved)
  {
    var t := s.(taken := s.taken + {f});
    forall d: nat, k: nat | t.IsDirectory(d) && k < ENTRIES - 1
      ensures t.SlotSound(d, k)
    {
      assert s.SlotSound(d, k);
    }
  }

  lemma InstallKeeps(s: Snapshot, reserved: set<nat>, p: Process, slot: nat, table: nat)
    requires s.Sound(reserved) && s.IsDirectory(p.pageDir) && slot < ENTRIES - 1
    requires s.Owned(table, reserved) && table !in s.owner
    ensures p.pageDir < |s.ram|
    ensures Snapshot(Install(s.ram, p.pageDir, slot, table, p.user), s.taken,
                     s.owner[table := TableOf(p.pageDir, slot)]).Sound(reserved)
  {
    SlotInRam(s, reserved, p.pageDir, slot);
    var t := Snapshot(Install(s.ram, p.pageDir, slot, table, p.user), s.taken,
                      s.owner[table := TableOf(p.pageDir, slot)]);
    forall d: nat, k: nat | t.IsDirectory(d) && k < ENTRIES - 1
      ensures t.SlotSound(d, k)
    {
      assert s.SlotSound(d, k);
    }
    forall d: nat | t.IsDirectory(d)
      ensures SelfMapped(t.ram, d)
    {
      assert SelfMapped(s.ram, d);
    }
  }

  // Writing to frames that are not directories.
  lemma WriteKeeps(s: Snapshot, reserved: set<nat>, frame: nat, content: Table)
    requires s.Sound(reserved) && frame < |s.ram| && !s.IsDirectory(frame)
    ensures s.(ram := s.ram[frame := content]).Sound(reserved)
  {
    var t := s.(ram := s.ram[frame := content]);
    forall d: nat, k: nat | t.IsDirectory(d) && k < ENTRIES - 1
      ensures t.SlotSound(d, k)
    {
      assert s.SlotSound(d, k);
    }
    forall d: nat | t.IsDirectory(d)
      ensures SelfMapped(t.ram, d)
    {
      assert SelfMapped(s.ram, d);
    }
  }

  lemma DirectoryKeeps(s: Snapshot, reserved: set<nat>, dir: nat, content: Table)
    requires s.Sound(reserved) && s.Owned(dir, reserved) && dir !in s.owner
    requires content[ENTRIES - 1].present && content[ENTRIES - 1].frame == dir
    requires forall slot: nat | slot < ENTRIES - 1 :: content[slot].frame == 0 && !content[slot].present
    ensures Snapshot(s.ram[dir := content], s.taken, s.owner[dir := Directory]).Sound(reserved)
  {
    var t := Snapshot(s.ram[dir := content], s.taken, s.owner[dir := Directory]);
    forall d: nat, k: nat | t.IsDirectory(d) && k < ENTRIES - 1
      ensures t.SlotSound(d, k)
    {
      if d != dir {
        assert s.SlotSound(d, k);
      }
    }
    forall d: nat | t.IsDirectory(d)
      ensures SelfMapped(t.ram, d)
    {
      if d != dir {
        assert SelfMapped(s.ram, d);
      }
    }
  }

  // A taken frame without an owner is given to the heap or to a client.
  lemma AssignKeeps(s: Snapshot, reserved: set<nat>, frame: nat, use: Owner)
    requires s.Sound(reserved) && s.Owned(frame, reserved) && frame !in s.owner && (use.Client? || use.HeapPage?)
    ensures s.(owner := s.owner[frame := use]).Sound(reserved)
  {
    var t := s.(owner := s.owner[frame := use]);
    forall d: nat, k: nat | t.IsDirectory(d) && k < ENTRIES - 1
      ensures t.SlotSound(d, k)
    {
      assert s.SlotSound(d, k);
    }
  }

  // Does a slot of another directory refer to the frame?
  ghost predicate Referred(s: Snapshot, f: nat) {
    exists d: nat, k: nat :: s.IsDirectory(d) && d != f && d < |s.ram| && k < ENTRIES - 1 && s.ram[d][k].frame == f
  }

  // Freeing a frame, whatever it served as, keeps the invariant unless it is reserved or still in use as a table.
  lemma FreeKeepsExactly(s: Snapshot, reserved: set<nat>, f: nat)
    requires s.Sound(reserved) && 0 < f
    ensures Snapshot(s.ram, s.taken - {f}, s.owner - {f}).Sound(reserved) <==> f !in reserved && !Referred(s, f)
  {
    var t := Snapshot(s.ram, s.taken - {f}, s.owner - {f});
    if t.Sound(reserved) {
      forall d: nat, k: nat | s.IsDirectory(d) && d != f && d < |s.ram| && k < ENTRIES - 1
        ensures s.ram[d][k].frame != f
      {
        assert t.IsDirectory(d);
        assert t.SlotSound(d, k);
      }
    }
    if f !in reserved && !Referred(s, f) {
      forall g | g in t.owner
        ensures t.Owned(g, reserved)
      {
        assert s.Owned(g, reserved);
      }
      forall d: nat, k: nat | t.IsDirectory(d) && k < ENTRIES - 1
        ensures t.SlotSound(d, k)
      {
        assert s.IsDirectory(d) && s.SlotSound(d, k);
      }
      forall d: nat | t.IsDirectory(d)
        ensures SelfMapped(t.ram, d)
      {
        assert s.IsDirectory(d);
      }
    }
  }

  // A client's page is never in use as a table.
  lemma ClientNotReferred(s: Snapshot, reserved: set<nat>, f: nat)
    requires s.Sound(reserved) && f in s.owner && s.owner[f] == Client
    ensures 0 < f < |s.ram| && f !in reserved && !Referred(s, f)
  {
    assert s.Owned(f, reserved);
    forall d: nat, k: nat | s.IsDirectory(d) && d < |s.ram| && k < ENTRIES - 1
      ensures s.ram[d][k].frame != f
    {
      assert s.SlotSound(d, k);
    }
  }

  // Through the self-mapping slot a request writes the directory itself: entry `k` is a table's, or at the
  // end the directory's own. That keeps the invariant exactly if the slot ends up empty or with its own table.
  lemma SelfMapWriteExactly(s: Snapshot, reserved: set<nat>, dir: nat, k: nat, entry: Entry)
    requires s.Sound(reserved) && s.IsDirectory(dir) && k < ENTRIES
    ensures InRam(s.ram, dir, ENTRIES - 1)
    ensures s.(ram := Write(s.ram, dir, ENTRIES - 1, k, entry)).Sound(reserved) <==>
            s.DirectoryEntrySound(dir, k, entry)
  {
    assert SelfMapped(s.ram, dir);
    var t := s.(ram := Write(s.ram, dir, ENTRIES - 1, k, entry));
    assert t.ram == s.ram[dir := s.ram[dir][k := entry]];
    forall d: nat, i: nat | t.IsDirectory(d) && i < ENTRIES - 1
      ensures !(d == dir && i == k) ==> t.SlotSound(d, i)
      ensures entry.frame in s.owner ==> s.Owned(entry.frame, reserved)
    {
      assert s.SlotSound(d, i);
    }
    forall d: nat | t.IsDirectory(d)
      ensures !(d == dir && k == ENTRIES - 1) ==> SelfMapped(t.ram, d)
    {
      assert SelfMapped(s.ram, d);
    }
    assert t.IsDirectory(dir);
    if t.Sound(reserved) {
      assert SelfMapped(t.ram, dir);
      assert k < ENTRIES - 1 ==> t.SlotSound(dir, k);
    } else if k < ENTRIES - 1 && entry.frame in s.owner {
      assert s.Owned(entry.frame, reserved);
    }
  }

  // ---------- Making tables on demand ----------

  ghost function Adopt(owner: map<nat, Owner>, dir: nat, slot: nat, created: seq<nat>): map<nat, Owner> {
    if |created| == 0 then owner
    else if |created| == 1 then owner[created[0] := TableOf(dir, slot)]
    else owner[created[0] := TableOf(dir, slot)][created[1] := TableOf(dir, slot + 1)]
  }

  // The frames were free, are distinct, and none is the null one.
  ghost predicate Fresh(s: Snapshot, created: seq<nat>) {
    && (forall k | 0 <= k < |created| :: 0 < created[k] < |s.ram| && created[k] !in s.taken)
    && (|created| == 2 ==> created[0] != created[1])
  }

  // `t` is `s` after `n` rounds of initialising the table for (slot, index), which made the
  // `created` tables: the slot's own, and the next one's once the rounds reach it if it is empty.
  ghost predicate Underway(s: Snapshot, p: Process, slot: nat, index: nat, created: seq<nat>, t: Snapshot, n: nat) {
    && InRam(s.ram, p.pageDir, slot + 1) && index < ENTRIES && p.pageDir in s.taken
    && s.IsDirectory(p.pageDir) && s.ram[p.pageDir][slot].frame == 0
    && |created| == (if index + n <= ENTRIES || s.ram[p.pageDir][slot + 1].frame != 0 then 1 else 2)
    && Fresh(s, created)
    && t == Snapshot(Initialising(s.ram, p.pageDir, slot, index, created, p.user, n),
                     s.taken + (set c | c in created), Adopt(s.owner, p.pageDir, slot, created))
  }

  // `t` is `s` after the entry (slot, index) was asked for: nothing is made if the slot has a table.
  ghost predicate Resolves(s: Snapshot, p: Process, slot: nat, index: nat, created: seq<nat>, t: Snapshot) {
    && InRam(s.ram, p.pageDir, slot) && index < ENTRIES
    && (if s.ram[p.pageDir][slot].frame != 0 then created == []
        else
          && InRam(s.ram, p.pageDir, slot + 1)
          && |created| == (if index == 0 || s.ram[p.pageDir][slot + 1].frame != 0 then 1 else 2))
    && Fresh(s, created)
    && t == Snapshot(Resolved(s.ram, p.pageDir, slot, index, created, p.user),
                     s.taken + (set c | c in created), Adopt(s.owner, p.pageDir, slot, created))
  }

  // `t` is `s` after the entry (slot, index) was set.
  ghost predicate Sets(s: Snapshot, p: Process, slot: nat, index: nat, entry: Entry, created: seq<nat>, t: Snapshot) {
    && InRam(s.ram, p.pageDir, slot) && index < ENTRIES && |created| <= 2 && Fresh(s, created)
    && (created != [] ==> InRam(s.ram, p.pageDir, slot + 1))
    && var resolved := Resolved(s.ram, p.pageDir, slot, index, created, p.user);
       var table := TableFrame(s.ram, p.pageDir, slot, created);
       && Resolves(s, p, slot, index, created, t.(ram := resolved))
       && t.ram == resolved[table := resolved[table][index := entry]]
  }

  // Unless they start at index 0 the rounds reach the next slot, which is the self-mapping one, or empty, or has
  // a table.
  ghost predicate NextSlotOpen(s: Snapshot, p: Process, slot: nat, index: nat) {
    0 < index ==>
      && InRam(s.ram, p.pageDir, slot + 1)
      && var next := s.ram[p.pageDir][slot + 1].frame;
         && (next == p.pageDir ==> slot == ENTRIES - 2)
         && (if next == 0 then InRam(s.ram, p.pageDir, slot + 2) else next in s.taken)
  }

  // Round `n` works on this slot and index.
  function RoundSlot(slot: nat, index: nat, n: nat): nat {
    if index + n < ENTRIES then slot else slot + 1
  }

  function RoundIndex(index: nat, n: nat): nat {
    if index + n < ENTRIES then index + n else index + n - ENTRIES
  }

  // The address of round `n`.
  lemma RoundAddress(linear: nat, n: nat)
    requires linear % PAGE_SIZE == 0 && n < ENTRIES && linear < TWO_32 && DirectoryIndex(linear) < ENTRIES - 1
    ensures var slot, index := DirectoryIndex(linear), TableIndex(linear); var page := linear + n * PAGE_SIZE;
            && page < TWO_32 && page % PAGE_SIZE == 0 && PageAlign(page) == page
            && DirectoryIndex(page) == RoundSlot(slot, index, n) && TableIndex(page) == RoundIndex(index, n)
  {
    var slot, index := DirectoryIndex(linear), TableIndex(linear);
    IndicesOfPage(linear);
    assert linear == slot * SLOT_SIZE + index * PAGE_SIZE;
    Decompose(RoundSlot(slot, index, n), RoundIndex(index, n), 0);
    AlignedAlready(linear + n * PAGE_SIZE);
  }

  lemma SlotOpens(s: Snapshot, reserved: set<nat>, p: Process, slot: nat, index: nat)
    requires s.Sound(reserved) && s.Mappable(p, slot, index) && s.ram[p.pageDir][slot].frame == 0
    ensures InRam(s.ram, p.pageDir, slot + 1) && NextSlotOpen(s, p, slot, index)
  {
    assert s.Owned(p.pageDir, reserved) && SelfMapped(s.ram, p.pageDir);
    SlotInRam(s, reserved, p.pageDir, slot + 1);
    if slot < ENTRIES - 2 {
      SlotInRam(s, reserved, p.pageDir, slot + 2);
      assert s.SlotSound(p.pageDir, slot + 1);
    }
  }

  lemma FirstRound(s: Snapshot, p: Process, slot: nat, index: nat, table: nat)
    requires InRam(s.ram, p.pageDir, slot + 1) && index < ENTRIES && p.pageDir in s.taken
    requires s.IsDirectory(p.pageDir) && s.ram[p.pageDir][slot].frame == 0 && Fresh(s, [table])
    ensures Underway(s, p, slot, index, [table],
                     Snapshot(Install(s.ram, p.pageDir, slot, table, p.user), s.taken + {table},
                              s.owner[table := TableOf(p.pageDir, slot)]), 0)
  {
    var installed := Install(s.ram, p.pageDir, slot, table, p.user);
    assert [table][0] == table;
    assert Cleared(installed[table], index, index, p.user) == installed[table];
  }

  // Each round may set its entry.
  lemma RoundSettable(s: Snapshot, p: Process, linear: nat, created: seq<nat>, t: Snapshot, n: nat)
    requires linear % PAGE_SIZE == 0 && linear < TWO_32 && DirectoryIndex(linear) < ENTRIES - 1 && n < ENTRIES
    requires Underway(s, p, DirectoryIndex(linear), TableIndex(linear), created, t, n)
    ensures var page := PageAlign(linear + n * PAGE_SIZE);
            t.Settable(p, DirectoryIndex(page), TableIndex(page), Entry(false, true, p.user, PageAlign(0) / PAGE_SIZE))
  {
    RoundAddress(linear, n);
  }

  // Rounds in the slot itself find its table, and the others are behind it.
  lemma RoundDecreases(s: Snapshot, p: Process, linear: nat, created: seq<nat>, t: Snapshot, n: nat)
    requires linear % PAGE_SIZE == 0 && linear < TWO_32 && DirectoryIndex(linear) < ENTRIES - 1 && n < ENTRIES
    requires Underway(s, p, DirectoryIndex(linear), TableIndex(linear), created, t, n)
    ensures var slot := DirectoryIndex(PageAlign(linear + n * PAGE_SIZE));
            && DirectoryIndex(linear) <= slot < ENTRIES
            && (slot == DirectoryIndex(linear) ==> t.Missing(p.pageDir, slot) == 0)
  {
    var slot, index := DirectoryIndex(linear), TableIndex(linear);
    RoundAddress(linear, n);
    if index + n < ENTRIES {
      assert created == [created[0]];
      RoundInside(s.ram, p.pageDir, slot, index, created[0], p.user, n);
    }
  }

  // Every slot of a directory is empty, has its own table, or is the self-mapping one.
  lemma DirectoryEntryOwner(s: Snapshot, reserved: set<nat>, dir: nat, slot: nat)
    requires s.Sound(reserved) && s.IsDirectory(dir) && slot < ENTRIES
    ensures dir < |s.ram| && 0 < dir
    ensures slot < ENTRIES - 1 ==> s.SlotSound(dir, slot)
    ensures slot == ENTRIES - 1 ==> s.ram[dir][slot].frame == dir
  {
    assert s.Owned(dir, reserved) && SelfMapped(s.ram, dir);
  }

  lemma NextRound(s: Snapshot, p: Process, linear: nat, created: seq<nat>, t: Snapshot, n: nat, made: seq<nat>,
                  u: Snapshot)
    requires linear % PAGE_SIZE == 0 && linear < TWO_32 && DirectoryIndex(linear) < ENTRIES - 1 && n < ENTRIES
    requires Underway(s, p, DirectoryIndex(linear), TableIndex(linear), created, t, n)
    requires NextSlotOpen(s, p, DirectoryIndex(linear), TableIndex(linear))
    requires Sets(t, p, DirectoryIndex(PageAlign(linear + n * PAGE_SIZE)),
                  TableIndex(PageAlign(linear + n * PAGE_SIZE)),
                  Entry(false, true, p.user, PageAlign(0) / PAGE_SIZE), made, u)
    ensures Underway(s, p, DirectoryIndex(linear), TableIndex(linear), created + made, u, n + 1)
  {
    RoundAddress(linear, n);
    NextRoundAt(s, p, DirectoryIndex(linear), TableIndex(linear), created, t, n, made, u);
  }

  lemma NextRoundAt(s: Snapshot, p: Process, slot: nat, index: nat, created: seq<nat>, t: Snapshot, n: nat,
                    made: seq<nat>, u: Snapshot)
    requires n < ENTRIES && Underway(s, p, slot, index, created, t, n) && NextSlotOpen(s, p, slot, index)
    requires Sets(t, p, RoundSlot(slot, index, n), RoundIndex(index, n), NotPresent(p.user), made, u)
    ensures Underway(s, p, slot, index, created + made, u, n + 1)
  {
    if index + n < ENTRIES {
      assert created == [created[0]];
      RoundInside(s.ram, p.pageDir, slot, index, created[0], p.user, n);
      assert created + made == created;
    } else if s.ram[p.pageDir][slot + 1].frame != 0 {
      assert created == [created[0]];
      RoundBeyond(s.ram, p.pageDir, slot, index, created[0], p.user, n);
      assert created + made == created;
    } else if index + n == ENTRIES {
      NextRoundCreates(s, p, slot, index, created, t, n, made, u);
    } else {
      RoundRepeating(s.ram, p.pageDir, slot, index, created, p.user, n);
      assert created + made == created;
    }
  }

  lemma LastRound(s: Snapshot, p: Process, slot: nat, index: nat, created: seq<nat>, t: Snapshot)
    requires Underway(s, p, slot, index, created, t, ENTRIES) && NextSlotOpen(s, p, slot, index)
    requires slot < ENTRIES - 1
    ensures Resolves(s, p, slot, index, created, t) && t.IsDirectory(p.pageDir)
    ensures created[0] != 0
  {
  }

  lemma NextRoundCreates(s: Snapshot, p: Process, slot: nat, index: nat, created: seq<nat>, t: Snapshot, n: nat,
                         made: seq<nat>, u: Snapshot)
    requires n < ENTRIES == index + n && Underway(s, p, slot, index, created, t, n) && NextSlotOpen(s, p, slot, index)
    requires Sets(t, p, slot + 1, 0, NotPresent(p.user), made, u) && s.ram[p.pageDir][slot + 1].frame == 0
    ensures Underway(s, p, slot, index, created + made, u, n + 1)
  {
    assert t.ram[p.pageDir][slot + 1] == s.ram[p.pageDir][slot + 1];
    var both := created + made;
    assert both[..1] == created && both[1..] == made && both == [created[0], made[0]];
    RoundCreating(s.ram, p.pageDir, slot, index, both, p.user, n);
  }

  // ---------- What a mapping does to every other page ----------

  // What any directory's slot `k` maps at index `i` after the entry (slot, index) was set.
  ghost function LookupAfter(s: Snapshot, p: Process, slot: nat, index: nat, entry: Entry, created: seq<nat>,
                             d: nat, k: nat, i: nat): Option<Entry>
    requires k < ENTRIES && i < ENTRIES && (created != [] ==> created[0] < |s.ram|)
  {
    if d == p.pageDir && created != [] && slot == ENTRIES - 2 && k < index then
      // the rounds beyond the slot have cleared these directory entries
      None
    else if d == p.pageDir && k == slot && i == index then
      (if entry.present then Some(entry) else None)
    else if d == p.pageDir && created != [] && k == slot then
      // below the index asked for, the new table still holds whatever its frame held
      (if i < index && s.ram[created[0]][i].present then Some(s.ram[created[0]][i]) else None)
    else if d == p.pageDir && created != [] && k == slot + 1 && i < index then
      None
    else LookupAt(s.ram, d, k, i)
  }

  lemma LookupAfterSet(s: Snapshot, reserved: set<nat>, p: Process, slot: nat, index: nat, entry: Entry,
                       created: seq<nat>, t: Snapshot, d: nat, k: nat, i: nat)
    requires s.Sound(reserved) && s.Mappable(p, slot, index) && s.IsDirectory(d) && k < ENTRIES - 1 && i < ENTRIES
    requires Sets(s, p, slot, index, entry, created, t)
    ensures LookupAt(t.ram, d, k, i) == LookupAfter(s, p, slot, index, entry, created, d, k, i)
  {
    var resolved := Resolved(s.ram, p.pageDir, slot, index, created, p.user);
    ResolvedSlots(s, reserved, p, slot, index, created, d, k);
    ResolvedSlots(s, reserved, p, slot, index, created, p.pageDir, slot);
    assert s.SlotSound(d, k) && s.SlotSound(p.pageDir, slot);
    DirectoryEntryOwner(s, reserved, p.pageDir, slot + 1);
    assert s.Owned(d, reserved) && s.Owned(p.pageDir, reserved);
    var table := resolved[d][k].frame;
    if table < |s.ram| && resolved[d][k].present {
      assert table == TableFrame(s.ram, p.pageDir, slot, created) ==> d == p.pageDir && k == slot;
      ResolvedTable(s, p, slot, index, created, table, i);
    }
  }

  // The directory entries once (slot, index) is resolved.
  lemma ResolvedSlots(s: Snapshot, reserved: set<nat>, p: Process, slot: nat, index: nat, created: seq<nat>, d: nat,
                      k: nat)
    requires s.Sound(reserved) && s.Mappable(p, slot, index) && s.IsDirectory(d) && k < ENTRIES - 1
    requires exists t :: Resolves(s, p, slot, index, created, t)
    ensures |Resolved(s.ram, p.pageDir, slot, index, created, p.user)| == |s.ram| && d < |s.ram|
    ensures Resolved(s.ram, p.pageDir, slot, index, created, p.user)[d][k] ==
            if d == p.pageDir && created != [] && slot == ENTRIES - 2 && k < index then NotPresent(p.user)
            else if d == p.pageDir && k == slot && 0 < |created| then Entry(true, true, p.user, created[0])
            else if d == p.pageDir && k == slot + 1 && 1 < |created| then Entry(true, true, p.user, created[1])
            else s.ram[d][k]
  {
    assert s.Owned(d, reserved);
    DirectoryEntryOwner(s, reserved, p.pageDir, slot + 1);
  }

  // The entries of the other frames once (slot, index) is resolved.
  lemma ResolvedTable(s: Snapshot, p: Process, slot: nat, index: nat, created: seq<nat>, table: nat, i: nat)
    requires exists t :: Resolves(s, p, slot, index, created, t)
    requires table < |s.ram| && table != p.pageDir && i < ENTRIES && p.pageDir in s.taken
    requires |created| == 1 && 0 < index ==> s.ram[p.pageDir][slot + 1].frame != created[0]
    ensures Resolved(s.ram, p.pageDir, slot, index, created, p.user)[table][i] ==
            if 0 < |created| && table == created[0] && index <= i then NotPresent(p.user)
            else if |created| == 1 && i < index && table == s.ram[p.pageDir][slot + 1].frame then NotPresent(p.user)
            else if 1 < |created| && table == created[1] then NotPresent(p.user)
            else s.ram[table][i]
  {
  }

  // Making tables and setting an entry takes no frame from its owner, and writes to no heap or client page.
  lemma SetKeepsFrames(s: Snapshot, reserved: set<nat>, p: Process, slot: nat, index: nat, entry: Entry,
                       created: seq<nat>, t: Snapshot)
    requires s.Sound(reserved) && s.Settable(p, slot, index, entry) && Sets(s, p, slot, index, entry, created, t)
    ensures Kept(s, {}, t)
  {
    DirectoryEntryOwner(s, reserved, p.pageDir, slot);
    if slot < ENTRIES - 1 {
      DirectoryEntryOwner(s, reserved, p.pageDir, slot + 1);
    }
    forall f | f in s.owner
      ensures f in t.owner && t.owner[f] == s.owner[f]
      ensures s.owner[f].HeapPage? || s.owner[f].Client? ==> f < |s.ram| && t.ram[f] == s.ram[f]
    {
      assert s.Owned(f, reserved);
    }
  }

  // Setting an entry through the self-mapping slot changes no mapping of any other directory.
  lemma SelfMapKeepsOthers(s: Snapshot, reserved: set<nat>, p: Process, index: nat, entry: Entry, created: seq<nat>,
                           t: Snapshot, d: nat, k: nat, i: nat)
    requires s.Sound(reserved) && s.IsDirectory(p.pageDir) && s.IsDirectory(d) && d != p.pageDir
    requires Sets(s, p, ENTRIES - 1, index, entry, created, t) && k < ENTRIES - 1 && i < ENTRIES
    ensures LookupAt(t.ram, d, k, i) == LookupAt(s.ram, d, k, i)
  {
    DirectoryEntryOwner(s, reserved, p.pageDir, ENTRIES - 1);
    assert s.SlotSound(d, k);
  }

  // Does every directory map every page but (slot, index) of `p` as before?
  ghost predicate SameElsewhere(s: Snapshot, p: Process, slot: nat, index: nat, t: Snapshot) {
    forall d: nat, k: nat, i: nat {:trigger LookupAt(t.ram, d, k, i)} |
      s.IsDirectory(d) && k < ENTRIES - 1 && i < ENTRIES && !(d == p.pageDir && k == slot && i == index) ::
      LookupAt(t.ram, d, k, i) == LookupAt(s.ram, d, k, i)
  }

  // Does frame `f` hold no present entry below `index`?
  ghost predicate Blank(ram: Ram, f: nat, index: nat)
    requires f < |ram| && index < ENTRIES
  {
    forall i: nat | i < index :: !ram[f][i].present
  }

  // Do slots [low, high) map nothing at indices below `index`?
  ghost predicate Unmapped(ram: Ram, dir: nat, low: nat, high: nat, index: nat)
    requires high <= ENTRIES && index <= ENTRIES
  {
    forall k: nat, i: nat | low <= k < high && i < index :: LookupAt(ram, dir, k, i).None?
  }

  // Initialising a new table away from its slot's start harms nothing if its frame `f` held no present entry
  // below the index, and nothing is mapped where the rounds beyond the slot clear: at the start of the next slot
  // or, behind the last ordinary one, in as many slots as there are such rounds. That slot's own last page is
  // in one of these, so then what the frame held makes no difference.
  ghost predicate Harmless(ram: Ram, f: nat, dir: nat, slot: nat, index: nat)
    requires f < |ram| && slot < ENTRIES - 1 && index < ENTRIES
  {
    if slot < ENTRIES - 2 then Blank(ram, f, index) && Unmapped(ram, dir, slot + 1, slot + 2, index)
    else (index < ENTRIES - 1 ==> Blank(ram, f, index)) && Unmapped(ram, dir, 0, index, ENTRIES)
  }

  // Setting one entry leaves all others alone unless it makes a table and initialising that is not harmless;
  // the table's frame is the one that is handed out next.
  lemma KeepsOthersExactly(s: Snapshot, reserved: set<nat>, p: Process, slot: nat, index: nat, entry: Entry,
                           created: seq<nat>, t: Snapshot, f: nat)
    requires s.Sound(reserved) && s.Mappable(p, slot, index) && Sets(s, p, slot, index, entry, created, t)
    requires P.NextFree(f, |s.ram|, s.taken)
    requires created != [] ==> P.NextFree(created[0], |s.ram|, s.taken)
    ensures SameElsewhere(s, p, slot, index, t) <==>
            s.ram[p.pageDir][slot].frame != 0 || Harmless(s.ram, f, p.pageDir, slot, index)
  {
    forall d: nat, k: nat, i: nat | s.IsDirectory(d) && k < ENTRIES - 1 && i < ENTRIES
      ensures LookupAt(t.ram, d, k, i) == LookupAfter(s, p, slot, index, entry, created, d, k, i)
    {
      LookupAfterSet(s, reserved, p, slot, index, entry, created, t, d, k, i);
    }
    assert s.SlotSound(p.pageDir, slot);
    if created != [] {
      P.NextFreeUnique(f, created[0], |s.ram|, s.taken);
      if SameElsewhere(s, p, slot, index, t) {
        SameIsHarmless(s, p, slot, index, entry, created, t);
      } else {
        var d: nat, k: nat, i: nat :|
          s.IsDirectory(d) && k < ENTRIES - 1 && i < ENTRIES && !(d == p.pageDir && k == slot && i == index)
          && LookupAt(t.ram, d, k, i) != LookupAt(s.ram, d, k, i);
        assert LookupAt(t.ram, d, k, i) == LookupAfter(s, p, slot, index, entry, created, d, k, i);
      }
    }
  }

  lemma SameIsHarmless(s: Snapshot, p: Process, slot: nat, index: nat, entry: Entry, created: seq<nat>, t: Snapshot)
    requires s.IsDirectory(p.pageDir) && slot < ENTRIES - 1 && index < ENTRIES && created != [] && created[0] < |s.ram|
    requires Unmapped(s.ram, p.pageDir, slot, slot + 1, ENTRIES) && SameElsewhere(s, p, slot, index, t)
    requires forall d: nat, k: nat, i: nat | s.IsDirectory(d) && k < ENTRIES - 1 && i < ENTRIES ::
               LookupAt(t.ram, d, k, i) == LookupAfter(s, p, slot, index, entry, created, d, k, i)
    ensures Harmless(s.ram, created[0], p.pageDir, slot, index)
  {
    var f := created[0];
    if slot < ENTRIES - 2 || index < ENTRIES - 1 {
      forall i: nat | i < index
        ensures !s.ram[f][i].present
      {
        assert LookupAt(t.ram, p.pageDir, slot, i) == LookupAt(s.ram, p.pageDir, slot, i);
      }
    }
    var low, high, below := if slot < ENTRIES - 2 then slot + 1 else 0, if slot < ENTRIES - 2 then slot + 2 else index,
                            if slot < ENTRIES - 2 then index else ENTRIES;
    forall k: nat, i: nat | low <= k < high && i < below
      ensures LookupAt(s.ram, p.pageDir, k, i).None?
    {
      if k != slot {
        assert LookupAt(t.ram, p.pageDir, k, i) == LookupAt(s.ram, p.pageDir, k, i);
      }
    }
  }

  // A table made for the first page of its slot is cleared completely, whatever its frame held.
  lemma AlignedCreation(s: Snapshot, reserved: set<nat>, p: Process, slot: nat, entry: Entry, created: seq<nat>,
                        t: Snapshot)
    requires s.Sound(reserved) && s.Mappable(p, slot, 0) && s.ram[p.pageDir][slot].frame == 0
    requires Sets(s, p, slot, 0, entry, created, t)
    ensures |created| == 1 && created[0] < |t.ram| == |s.ram|
    ensures t.ram[created[0]][0] == entry
    ensures forall i: nat | 0 < i < ENTRIES :: t.ram[created[0]][i] == NotPresent(p.user)
    ensures forall f: nat | f < |s.ram| && f != created[0] && f != p.pageDir :: t.ram[f] == s.ram[f]
  {
  }

  // ---------- One input each on which the above fails ----------

  // Frame 1 is a directory without tables, and frame 2, which is free, holds present entries.
  ghost function Littered(): Snapshot {
    var blank := Entry(false, false, false, 0);
    Snapshot([seq(ENTRIES, _ => blank),
              seq(ENTRIES, i => if i == ENTRIES - 1 then Entry(true, true, false, 1) else blank),
              seq(ENTRIES, _ => Entry(true, true, false, 0)),
              seq(ENTRIES, _ => blank)],
             {0, 1}, map[1 := Directory])
  }

  // Asked for its second page, slot 0 gets frame 2 for a table, and then maps its first page too.
  lemma KeepsOthersFailsAt(entry: Entry, created: seq<nat>, t: Snapshot)
    requires Sets(Littered(), Process(1, false), 0, 1, entry, created, t)
    requires created != [] ==> P.NextFree(created[0], 4, {0, 1})
    ensures Littered().Sound({0}) && Littered().Mappable(Process(1, false), 0, 1)
    ensures LookupAt(Littered().ram, 1, 0, 0).None? && LookupAt(t.ram, 1, 0, 0) == Some(Entry(true, true, false, 0))
  {
    var s := Littered();
    assert s.IsDirectory(1);
    assert P.NextFree(2, 4, {0, 1});
    P.NextFreeUnique(2, created[0], 4, {0, 1});
    LookupAfterSet(s, {0}, Process(1, false), 0, 1, entry, created, t, 1, 0, 0);
  }

  // Set through the self-mapping slot, a present entry for any frame that is not slot 0's table breaks the ownership.
  lemma SelfMapWriteFailsAt()
    ensures Littered().Sound({0}) && Littered().IsDirectory(1) && InRam(Littered().ram, 1, ENTRIES - 1)
    ensures !Littered().(ram := Write(Littered().ram, 1, ENTRIES - 1, 0, Entry(true, true, false, 2))).Sound({0})
  {
    var s := Littered();
    assert s.IsDirectory(1);
    SelfMapWriteExactly(s, {0}, 1, 0, Entry(true, true, false, 2));
  }
}
