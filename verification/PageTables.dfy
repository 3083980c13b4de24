/** Two-level 32-bit paging: the indices a linear address is cut into, the processor's walk
    (Intel SDM volume 3A, section 4.3), and what writing entries does to it. */
module PageTables {
  import opened Machine
  import opened Wrappers

  const SLOT_SIZE: nat := 0x40_0000  // what one directory slot covers, 4 MB

  // A directory or table entry, without the flags that are always cleared.
  datatype Entry = Entry(present: bool, writable: bool, user: bool, frame: nat)

  type Table = s: seq<Entry> | |s| == ENTRIES witness seq(ENTRIES, _ => Entry(false, false, false, 0))

  // Physical memory, frame by frame, read as paging structures.
  type Ram = seq<Table>

  function DirectoryIndex(linear: nat): nat {
    linear / SLOT_SIZE % ENTRIES
  }

  function TableIndex(linear: nat): nat {
    linear / PAGE_SIZE % ENTRIES
  }

  function PageAlign(address: nat): nat {
    (address + PAGE_SIZE - 1) % TWO_32 / PAGE_SIZE * PAGE_SIZE
  }

  lemma AlignedAlready(address: nat)
    requires address % PAGE_SIZE == 0 && address + PAGE_SIZE <= TWO_32
    ensures PageAlign(address) == address
  {
  }

  // Addresses are rounded up to the next page, and in the last one to 0.
  lemma PageAlignExactly(address: nat)
    requires address < 0x1_0000_0000
    ensures PageAlign(address) % 4096 == 0
    ensures address <= 0xFFFF_F000 ==> address <= PageAlign(address) < address + 4096
    ensures 0xFFFF_F000 < address ==> PageAlign(address) == 0
  {
  }

  // (directory index, table index) and page number determine each other.
  lemma IndicesOfPage(linear: nat)
    requires linear < TWO_32
    ensures DirectoryIndex(linear) < ENTRIES && TableIndex(linear) < ENTRIES
    ensures linear / PAGE_SIZE == DirectoryIndex(linear) * ENTRIES + TableIndex(linear)
  {
  }

  lemma Decompose(slot: nat, index: nat, offset: nat)
    requires slot < ENTRIES && index < ENTRIES && offset < PAGE_SIZE
    ensures var linear := slot * SLOT_SIZE + index * PAGE_SIZE + offset;
            && linear < TWO_32 && linear % PAGE_SIZE == offset
            && DirectoryIndex(linear) == slot && TableIndex(linear) == index
  {
    var linear := slot * SLOT_SIZE + index * PAGE_SIZE + offset;
    assert linear / PAGE_SIZE == slot * ENTRIES + index;
  }

  // ---------- The walk ----------

  // The entry of the table that the directory's slot refers to.
  function LookupAt(ram: Ram, dir: nat, slot: nat, index: nat): Option<Entry>
    requires slot < ENTRIES && index < ENTRIES
  {
    if dir < |ram| && ram[dir][slot].present && ram[dir][slot].frame < |ram|
       && ram[ram[dir][slot].frame][index].present
    then Some(ram[ram[dir][slot].frame][index]) else None
  }

  function Walk(ram: Ram, dir: nat, linear: nat): Option<nat>
    requires linear < TWO_32
  {
    match LookupAt(ram, dir, DirectoryIndex(linear), TableIndex(linear))
    case Some(entry) => Some(entry.frame * PAGE_SIZE + linear % PAGE_SIZE)
    case None => None
  }

  function PdeAddress(linear: nat): nat
    requires linear < TWO_32
  {
    0xFFFF_F000 + linear / SLOT_SIZE * 4
  }

  function PteAddress(linear: nat): nat
    requires linear < TWO_32
  {
    0xFFC0_0000 + linear / PAGE_SIZE * 4
  }

  predicate SelfMapped(ram: Ram, dir: nat) {
    dir < |ram| && ram[dir][ENTRIES - 1].present && ram[dir][ENTRIES - 1].frame == dir
  }

  // Through the directory's last slot every entry of the paging structures has a linear address.
  lemma SelfMap(ram: Ram, dir: nat, linear: nat)
    requires SelfMapped(ram, dir) && linear < TWO_32
    ensures PdeAddress(linear) < TWO_32 && PteAddress(linear) < TWO_32
    ensures Walk(ram, dir, PdeAddress(linear)) == Some(dir * PAGE_SIZE + DirectoryIndex(linear) * 4)
    ensures Walk(ram, dir, PteAddress(linear)) ==
            var pde := ram[dir][DirectoryIndex(linear)];
            if pde.present then Some(pde.frame * PAGE_SIZE + TableIndex(linear) * 4) else None
  {
    var slot, index, offset := DirectoryIndex(linear), TableIndex(linear), linear % PAGE_SIZE;
    Decompose(slot, index, offset);
    Decompose(ENTRIES - 1, ENTRIES - 1, slot * 4);
    Decompose(ENTRIES - 1, slot, index * 4);
    assert linear / SLOT_SIZE == slot && linear / PAGE_SIZE == slot * ENTRIES + index;
  }

  // ---------- Writing entries ----------

  function NotPresent(user: bool): Entry {
    Entry(false, true, user, 0)
  }

  function Cleared(table: Table, low: nat, high: nat, user: bool): Table {
    var entries: seq<Entry> :=
      seq(ENTRIES, i requires 0 <= i < ENTRIES => if low <= i < high then NotPresent(user) else table[i]);
    entries
  }

  ghost predicate InRam(ram: Ram, dir: nat, slot: nat) {
    dir < |ram| && slot < ENTRIES && ram[dir][slot].frame < |ram|
  }

  ghost function Install(ram: Ram, dir: nat, slot: nat, table: nat, user: bool): Ram
    requires dir < |ram| && slot < ENTRIES
  {
    ram[dir := ram[dir][slot := Entry(true, true, user, table)]]
  }

  ghost function Clear(ram: Ram, table: nat, low: nat, high: nat, user: bool): Ram
    requires table < |ram|
  {
    ram[table := Cleared(ram[table], low, high, user)]
  }

  ghost function Write(ram: Ram, dir: nat, slot: nat, index: nat, entry: Entry): Ram
    requires InRam(ram, dir, slot) && index < ENTRIES
  {
    ram[ram[dir][slot].frame := ram[ram[dir][slot].frame][index := entry]]
  }

  // What the memory holds after the table-initialising loop for (slot, index) made `n` rounds.
  // It clears `n` entries from there on, so from the round that leaves the slot it works on
  // the next one, which gets a table of its own if it had none.
  ghost function Initialising(ram: Ram, dir: nat, slot: nat, index: nat, created: seq<nat>, user: bool, n: nat): Ram
    requires 0 < |created| <= 2 && (forall k | 0 <= k < |created| :: created[k] < |ram|)
    requires InRam(ram, dir, slot + 1) && index < ENTRIES
  {
    var own := Clear(Install(ram, dir, slot, created[0], user), created[0], index, index + n, user);
    if index + n <= ENTRIES then own
    else if |created| == 1 then Clear(own, ram[dir][slot + 1].frame, 0, index + n - ENTRIES, user)
    else Clear(Install(own, dir, slot + 1, created[1], user), created[1], 0, ENTRIES, user)
  }

  // The table an entry lies in: the one the slot had, or the first of those made for it.
  ghost function TableFrame(ram: Ram, dir: nat, slot: nat, created: seq<nat>): nat
    requires InRam(ram, dir, slot)
  {
    if created == [] then ram[dir][slot].frame else created[0]
  }

  // The memory after an entry was asked for and the `created` tables were made for it.
  ghost function Resolved(ram: Ram, dir: nat, slot: nat, index: nat, created: seq<nat>, user: bool): Ram
    requires |created| <= 2 && (forall k | 0 <= k < |created| :: created[k] < |ram|)
    requires index < ENTRIES && (created != [] ==> InRam(ram, dir, slot + 1))
  {
    if created == [] then ram else Initialising(ram, dir, slot, index, created, user, ENTRIES)
  }

  // One more round inside the slot itself.
  lemma RoundInside(ram: Ram, dir: nat, slot: nat, index: nat, table: nat, user: bool, n: nat)
    requires InRam(ram, dir, slot + 1) && table < |ram| && table != dir && index + n < ENTRIES
    ensures var now := Initialising(ram, dir, slot, index, [table], user, n);
            && InRam(now, dir, slot) && now[dir][slot].frame == table
            && Write(now, dir, slot, index + n, NotPresent(user))
               == Initialising(ram, dir, slot, index, [table], user, n + 1)
  {
    var now := Initialising(ram, dir, slot, index, [table], user, n);
    assert Cleared(ram[table], index, index + n, user)[index + n := NotPresent(user)]
        == Cleared(ram[table], index, index + n + 1, user);
    assert now[dir][slot].frame == table;
  }

  // One more round beyond the slot, where the next slot had a table. Behind the last ordinary slot that is the
  // directory itself, so there it is directory entries that are cleared.
  lemma RoundBeyond(ram: Ram, dir: nat, slot: nat, index: nat, table: nat, user: bool, n: nat)
    requires InRam(ram, dir, slot + 1) && table < |ram| && index < ENTRIES <= index + n && n < ENTRIES
    requires table != dir && ram[dir][slot + 1].frame != table
    requires ram[dir][slot + 1].frame == dir ==> slot == ENTRIES - 2
    ensures var now := Initialising(ram, dir, slot, index, [table], user, n);
            && InRam(now, dir, slot + 1) && now[dir][slot + 1].frame == ram[dir][slot + 1].frame
            && Write(now, dir, slot + 1, index + n - ENTRIES, NotPresent(user))
               == Initialising(ram, dir, slot, index, [table], user, n + 1)
  {
    var now := Initialising(ram, dir, slot, index, [table], user, n);
    var own := Install(ram, dir, slot, table, user);
    var next := ram[dir][slot + 1].frame;
    var over := index + n - ENTRIES;
    assert now[dir][slot + 1].frame == next;
    assert Cleared(own[next], 0, over, user)[over := NotPresent(user)] == Cleared(own[next], 0, over + 1, user);
    assert Cleared(own[next], 0, 0, user) == own[next];
    assert Cleared(ram[table], index, index + n, user) == Cleared(ram[table], index, index + n + 1, user);
  }

  // The first round beyond the slot, where the next slot had no table.
  lemma RoundCreating(ram: Ram, dir: nat, slot: nat, index: nat, created: seq<nat>, user: bool, n: nat)
    requires InRam(ram, dir, slot + 2) && InRam(ram, dir, slot + 1) && index < ENTRIES == index + n
    requires |created| == 2 && (forall k | 0 <= k < |created| :: created[k] < |ram| && created[k] != dir)
    requires created[0] != created[1]
    ensures var now := Initialising(ram, dir, slot, index, created[..1], user, n);
            && InRam(now, dir, slot + 2) && now[dir][slot + 1] == ram[dir][slot + 1]
            && var then' := Resolved(now, dir, slot + 1, 0, created[1..], user);
            && InRam(then', dir, slot + 1)
            && Write(then', dir, slot + 1, 0, NotPresent(user))
               == Initialising(ram, dir, slot, index, created, user, n + 1)
  {
    var now := Initialising(ram, dir, slot, index, created[..1], user, n);
    var then' := Resolved(now, dir, slot + 1, 0, created[1..], user);
    assert then'[dir][slot + 1].frame == created[1];
    assert Cleared(ram[created[0]], index, index + n, user) == Cleared(ram[created[0]], index, index + n + 1, user);
    var t := Cleared(ram[created[1]], 0, ENTRIES, user);
    assert t[0 := NotPresent(user)] == t;
  }

  // Further rounds beyond the slot change nothing: its new table is clear already.
  lemma RoundRepeating(ram: Ram, dir: nat, slot: nat, index: nat, created: seq<nat>, user: bool, n: nat)
    requires InRam(ram, dir, slot + 1) && index < ENTRIES < index + n < 2 * ENTRIES
    requires |created| == 2 && (forall k | 0 <= k < |created| :: created[k] < |ram| && created[k] != dir)
    requires created[0] != created[1]
    ensures var now := Initialising(ram, dir, slot, index, created, user, n);
            && InRam(now, dir, slot + 1) && now[dir][slot + 1].frame == created[1]
            && Write(now, dir, slot + 1, index + n - ENTRIES, NotPresent(user))
               == Initialising(ram, dir, slot, index, created, user, n + 1)
  {
    var now := Initialising(ram, dir, slot, index, created, user, n);
    assert now[dir][slot + 1].frame == created[1];
    assert Cleared(ram[created[0]], index, index + n, user) == Cleared(ram[created[0]], index, index + n + 1, user);
    var t := Cleared(ram[created[1]], 0, ENTRIES, user);
    assert t[index + n - ENTRIES := NotPresent(user)] == t;
  }
}
