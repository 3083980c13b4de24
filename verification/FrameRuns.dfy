/** Runs of everything that hands out frames, in any order: directories, page tables made on demand,
    pages of the heap, and pages of other clients. */
module FrameRuns {
  import opened Machine
  import opened Wrappers
  import opened PageTables
  import opened FrameOwnership
  import P = PhysicalPages
  import A = AddressSpaces

  datatype FrameOp =
    | MakeDirectory(user: bool)
    | TakePage
    | GivePage(frame: nat)
    | Map(p: Process, linear: nat, physical: nat, present: bool)
    | GrowPage(p: Process, linear: nat)

  ghost function GivenBack(ops: seq<FrameOp>): set<nat> {
    set op | op in ops && op.GivePage? :: op.frame
  }

  // The directories made and the pages clients hold.
  ghost predicate Known(s: Snapshot, directories: set<nat>, clients: set<nat>) {
    && (forall d | d in directories :: s.IsDirectory(d))
    && (forall f | f in clients :: f in s.owner && s.owner[f] == Client)
  }

  lemma KnownKept(s: Snapshot, t: Snapshot, directories: set<nat>, clients: set<nat>)
    requires Known(s, directories, clients) && Kept(s, {}, t)
    ensures Known(t, directories, clients)
  {
  }

  lemma OrdinaryAddress(linear: nat)
    ensures linear < 0xFFC0_0000 ==> DirectoryIndex(linear) < ENTRIES - 1 && TableIndex(linear) < ENTRIES
    ensures linear < 0xFF80_0000 ==> DirectoryIndex(linear) < ENTRIES - 2
    ensures linear < 0xFFFF_F000 && DirectoryIndex(linear) == ENTRIES - 1 ==> TableIndex(linear) < ENTRIES - 1
  {
  }

  lemma FrameAddress(frame: nat)
    requires frame < 0x10_0000
    ensures PageAlign(frame * PAGE_SIZE) / PAGE_SIZE == frame
  {
  }

  lemma KeptOneMore(s: Snapshot, t: Snapshot, u: Snapshot, ops: seq<FrameOp>, n: nat)
    requires n < |ops| && Kept(s, GivenBack(ops[..n]), t) && Kept(t, GivenBack([ops[n]]), u)
    ensures Kept(s, GivenBack(ops[..n + 1]), u)
  {
    assert ops[..n + 1] == ops[..n] + [ops[n]];
    assert GivenBack(ops[..n + 1]) == GivenBack(ops[..n]) + GivenBack([ops[n]]);
  }

  // Would initialising a table for this entry clear the slot's own directory entry?
  predicate OwnSlotCleared(ram: Ram, dir: nat, slot: nat, index: nat) {
    dir < |ram| && slot == ENTRIES - 2 && index == ENTRIES - 1 && ram[dir][slot].frame == 0
  }

  // A page of the heap: a fresh frame `f`, mapped where it was asked for and zeroed.
  lemma PageGrown(s: Snapshot, reserved: set<nat>, p: Process, slot: nat, index: nat, page: nat, f: nat,
                  created: seq<nat>, t: Snapshot)
    requires s.Sound(reserved) && f !in s.owner && 0 < f < |s.ram|
    requires var a := Snapshot(s.ram, s.taken + {f}, s.owner[f := HeapPage(page)]);
             && a.Sound(reserved) && a.Mappable(p, slot, index) && !OwnSlotCleared(a.ram, p.pageDir, slot, index)
             && Sets(a, p, slot, index, Entry(true, true, p.user, f), created, t)
    requires t.Sound(reserved)
    ensures LookupAt(t.ram, p.pageDir, slot, index) == Some(Entry(true, true, p.user, f))
    ensures f < |t.ram| && f in t.owner && t.owner[f] == HeapPage(page) && t.IsDirectory(p.pageDir)
    ensures Kept(s, {}, t.(ram := t.ram[f := seq(ENTRIES, _ => Entry(false, false, false, 0))]))
    ensures LookupAt(t.ram[f := seq(ENTRIES, _ => Entry(false, false, false, 0))], p.pageDir, slot, index)
            == Some(Entry(true, true, p.user, f))
  {
    var a := Snapshot(s.ram, s.taken + {f}, s.owner[f := HeapPage(page)]);
    SetKeepsFrames(a, reserved, p, slot, index, Entry(true, true, p.user, f), created, t);
    LookupAfterSet(a, reserved, p, slot, index, Entry(true, true, p.user, f), created, t, p.pageDir, slot, index);
    assert t.SlotSound(p.pageDir, slot);
  }

  class FrameClients {
    const spaces: A.AddressSpaces
    var directories: set<nat>
    var clients: set<nat>

    ghost predicate Valid()
      reads this, spaces, spaces.pages.bitmap
    {
      spaces.Valid() && Known(spaces.State(), directories, clients)
    }

    constructor (spaces: A.AddressSpaces)
      requires spaces.Valid() && spaces.owner == map[]
      ensures Valid() && this.spaces == spaces && directories == clients == {}
    {
      this.spaces := spaces;
      directories, clients := {}, {};
    }

    // 0 where the kernel is out of memory; then nothing has changed.
    method MakeDirectory(user: bool) returns (dir: nat)
      requires Valid()
      modifies this, spaces, spaces.pages.bitmap
      ensures Valid() && clients == old(clients) && Kept(old(spaces.State()), {}, spaces.State())
      ensures dir == 0 ==>
                directories == old(directories) && spaces.State() == old(spaces.State()) && spaces.State().Exhausted()
      ensures dir != 0 ==>
                && P.NextFree(dir, |spaces.ram|, old(spaces.State()).taken) && dir !in old(spaces.owner)
                && directories == old(directories) + {dir}
                && spaces.State() == Snapshot(old(spaces.ram)[dir := spaces.ram[dir]],
                                              old(spaces.State()).taken + {dir}, old(spaces.owner)[dir := Directory])
    {
      ghost var s := spaces.State();
      dir := spaces.CreateDirectory(user);
      assert dir in s.owner ==> s.Owned(dir, spaces.reserved);
      if dir != 0 {
        directories := directories + {dir};
      }
    }

    method TakePage() returns (frame: nat)
      requires Valid()
      modifies this, spaces, spaces.pages.bitmap
      ensures Valid() && directories == old(directories) && Kept(old(spaces.State()), {}, spaces.State())
      ensures frame == 0 ==>
                clients == old(clients) && spaces.State() == old(spaces.State()) && spaces.State().Exhausted()
      ensures frame != 0 ==>
                && P.NextFree(frame, |spaces.ram|, old(spaces.State()).taken) && clients == old(clients) + {frame}
                && spaces.State() == Snapshot(old(spaces.ram), old(spaces.State()).taken + {frame},
                                              old(spaces.owner)[frame := Client])
    {
      frame := spaces.AllocPage(Client);
      if frame != 0 {
        clients := clients + {frame};
      }
    }

    method GivePage(frame: nat)
      requires Valid()
      modifies this, spaces, spaces.pages.bitmap
      ensures Valid() && directories == old(directories) && clients == old(clients) - {frame}
      ensures Kept(old(spaces.State()), {frame}, spaces.State())
      ensures spaces.State() ==
              if frame in old(clients)
              then Snapshot(old(spaces.ram), old(spaces.State()).taken - {frame}, old(spaces.owner) - {frame})
              else old(spaces.State())
    {
      if frame in clients {
        ClientNotReferred(spaces.State(), spaces.reserved, frame);
        spaces.FreePage(frame);
        clients := clients - {frame};
      }
    }

    // May this process's entry for the address be set so? Through the self-mapping slot a directory entry may be
    // emptied or set to the table it has.
    predicate CanMap(p: Process, linear: nat, frame: nat, present: bool)
      reads this, spaces
    {
      var slot, index := DirectoryIndex(PageAlign(linear)), TableIndex(PageAlign(linear));
      && p.pageDir in directories && p.pageDir < |spaces.ram| && slot < ENTRIES && index < ENTRIES
      && (slot == ENTRIES - 1 ==>
            if frame == 0 then !present && index < ENTRIES - 1
            else present && frame == spaces.ram[p.pageDir][index].frame)
    }

    lemma CanSet(p: Process, linear: nat, entry: Entry)
      requires Valid() && CanMap(p, linear, entry.frame, entry.present)
      ensures spaces.State().Settable(p, DirectoryIndex(PageAlign(linear)), TableIndex(PageAlign(linear)), entry)
    {
      DirectoryEntryOwner(spaces.State(), spaces.reserved, p.pageDir, TableIndex(PageAlign(linear)));
      assert SelfMapped(spaces.ram, p.pageDir);
    }

    // Sets an entry, for any physical page, whoever owns it, wherever a table may be asked for: also where
    // initialising a new table runs into the next one, or into the directory. `ok` is false where the kernel panics.
    method Map(p: Process, linear: nat, physical: nat, present: bool) returns (ok: bool, ghost created: seq<nat>)
      requires Valid()
      modifies spaces, spaces.pages.bitmap
      ensures spaces.Valid() && (!ok ==> spaces.State().Exhausted())
      ensures ok ==> Valid() && Kept(old(spaces.State()), {}, spaces.State())
      ensures ok && !old(CanMap(p, linear, PageAlign(physical) / PAGE_SIZE, present)) ==>
                spaces.State() == old(spaces.State())
      ensures ok && old(CanMap(p, linear, PageAlign(physical) / PAGE_SIZE, present)) ==>
                Sets(old(spaces.State()), p, DirectoryIndex(PageAlign(linear)), TableIndex(PageAlign(linear)),
                     Entry(present, true, p.user, PageAlign(physical) / PAGE_SIZE), created, spaces.State())
      // every entry below the self-mapping slot is set, and through it every other slot may be emptied
      ensures ok && p.pageDir in directories && PageAlign(linear) < 0xFFC0_0000 ==>
                old(CanMap(p, linear, PageAlign(physical) / PAGE_SIZE, present))
      ensures ok && p.pageDir in directories && PageAlign(linear) < 0xFFFF_F000 && physical == 0 && !present ==>
                old(CanMap(p, linear, 0, false))
    {
      OrdinaryAddress(PageAlign(linear));
      if p.pageDir in directories {
        KnownDirectory(p);
      }
      ok, created := true, [];
      if CanMap(p, linear, PageAlign(physical) / PAGE_SIZE, present) {
        ghost var s, entry := spaces.State(), Entry(present, true, p.user, PageAlign(physical) / PAGE_SIZE);
        CanSet(p, linear, entry);
        ok, created := spaces.SetPageTableEntry(p, linear, physical, present);
        if ok {
          SetKeepsFrames(s, spaces.reserved, p, DirectoryIndex(PageAlign(linear)), TableIndex(PageAlign(linear)),
                         entry, created, spaces.State());
        }
      }
    }

    lemma KnownDirectory(p: Process)
      requires Valid() && p.pageDir in directories
      ensures p.pageDir < |spaces.ram|
    {
      assert spaces.State().Owned(p.pageDir, spaces.reserved);
    }

    // May any heap of this process be given a page at this address? Not where the page would not get mapped.
    predicate CanGrow(p: Process, linear: nat)
      reads this, spaces
    {
      var slot, index := DirectoryIndex(PageAlign(linear)), TableIndex(PageAlign(linear));
      && p.pageDir in directories && p.pageDir < |spaces.ram| && slot < ENTRIES - 1
      && !OwnSlotCleared(spaces.ram, p.pageDir, slot, index)
    }

    // One page of growth of any heap: a frame of its own, mapped and zeroed.
    method GrowPage(p: Process, linear: nat) returns (ok: bool, frame: nat)
      requires Valid()
      modifies spaces, spaces.pages.bitmap
      ensures spaces.Valid() && (!ok ==> spaces.State().Exhausted())
      ensures ok ==> Valid() && Kept(old(spaces.State()), {}, spaces.State())
      ensures ok && !old(CanGrow(p, linear)) ==> frame == 0 && spaces.State() == old(spaces.State())
      ensures ok && old(CanGrow(p, linear)) ==>
                && P.NextFree(frame, |spaces.ram|, old(spaces.State()).taken)
                && frame in spaces.owner && spaces.owner[frame] == HeapPage(PageAlign(linear) / PAGE_SIZE)
                && LookupAt(spaces.ram, p.pageDir, DirectoryIndex(PageAlign(linear)), TableIndex(PageAlign(linear)))
                   == Some(Entry(true, true, p.user, frame))
                && spaces.ram[frame] == seq(ENTRIES, _ => Entry(false, false, false, 0))
      // every page below the last two slots is added
      ensures ok && p.pageDir in directories && PageAlign(linear) < 0xFF80_0000 ==> old(CanGrow(p, linear))
    {
      OrdinaryAddress(PageAlign(linear));
      if p.pageDir in directories {
        KnownDirectory(p);
      }
      ok, frame := true, 0;
      if CanGrow(p, linear) {
        ghost var s := spaces.State();
        frame := spaces.AllocPage(HeapPage(PageAlign(linear) / PAGE_SIZE));
        if frame == 0 {
          return false, 0;
        }
        ok := MapGrown(p, linear, frame, s);
        if ok {
          KnownKept(s, spaces.State(), directories, clients);
        }
      }
    }

    // Maps the page just taken for the heap, and clears it.
    method MapGrown(p: Process, linear: nat, frame: nat, ghost s: Snapshot) returns (ok: bool)
      requires spaces.Valid() && s.Sound(spaces.reserved) && frame !in s.owner && 0 < frame < |s.ram|
      requires frame < 0x10_0000
      requires var page := PageAlign(linear) / PAGE_SIZE;
               spaces.State() == Snapshot(s.ram, s.taken + {frame}, s.owner[frame := HeapPage(page)])
      requires var slot, index := DirectoryIndex(PageAlign(linear)), TableIndex(PageAlign(linear));
               spaces.State().Mappable(p, slot, index) && !OwnSlotCleared(s.ram, p.pageDir, slot, index)
      modifies spaces, spaces.pages.bitmap
      ensures spaces.Valid() && (!ok ==> spaces.State().Exhausted())
      ensures ok ==> Kept(s, {}, spaces.State()) && frame in spaces.owner
                     && spaces.owner[frame] == HeapPage(PageAlign(linear) / PAGE_SIZE)
                     && LookupAt(spaces.ram, p.pageDir, DirectoryIndex(PageAlign(linear)),
                                 TableIndex(PageAlign(linear))) == Some(Entry(true, true, p.user, frame))
                     && spaces.ram[frame] == seq(ENTRIES, _ => Entry(false, false, false, 0))
    {
      FrameAddress(frame);
      ghost var created;
      ok, created := spaces.SetPageTableEntry(p, linear, frame * PAGE_SIZE, true);
      if ok {
        PageGrown(s, spaces.reserved, p, DirectoryIndex(PageAlign(linear)), TableIndex(PageAlign(linear)),
                  PageAlign(linear) / PAGE_SIZE, frame, created, spaces.State());
        spaces.ClearMappedPage(p, PageAlign(linear));
      }
    }

    // Any sequence of operations, up to the one at which the kernel panics for lack of memory.
    method Run(ops: seq<FrameOp>) returns (ok: bool)
      requires Valid()
      modifies this, spaces, spaces.pages.bitmap
      ensures spaces.Valid() && (!ok ==> spaces.State().Exhausted())
      ensures ok ==> Valid() && Kept(old(spaces.State()), GivenBack(ops), spaces.State())
      ensures forall f | f in spaces.owner ::
                0 < f < |spaces.ram| && f in spaces.State().taken && f !in spaces.reserved
      ensures ok ==> forall f | f in old(spaces.owner) && FrameOp.GivePage(f) !in ops ::
                       f in spaces.owner && spaces.owner[f] == old(spaces.owner)[f]
      ensures !ok ==> forall f: nat | 0 < f < |spaces.ram| :: f in spaces.State().taken
    {
      ok := true;
      for n := 0 to |ops|
        invariant Valid() && Kept(old(spaces.State()), GivenBack(ops[..n]), spaces.State())
      {
        ghost var t := spaces.State();
        ok := Perform(ops[n]);
        if !ok {
          return;
        }
        KeptOneMore(old(spaces.State()), t, spaces.State(), ops, n);
      }
      assert ops[..|ops|] == ops;
    }

    method Perform(op: FrameOp) returns (ok: bool)
      requires Valid()
      modifies this, spaces, spaces.pages.bitmap
      ensures spaces.Valid() && (!ok ==> spaces.State().Exhausted())
      ensures ok ==> Valid() && Kept(old(spaces.State()), GivenBack([op]), spaces.State())
    {
      ok := true;
      assert op in [op];
      match op {
        case MakeDirectory(user) =>
          var dir := MakeDirectory(user);
        case TakePage =>
          var frame := TakePage();
        case GivePage(frame) =>
          GivePage(frame);
        case Map(p, linear, physical, present) =>
          ghost var created;
          ok, created := Map(p, linear, physical, present);
        case GrowPage(p, linear) =>
          var frame;
          ok, frame := GrowPage(p, linear);
      }
    }
  }
}
