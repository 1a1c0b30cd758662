/**
 The 4-level page tables of src/kern/mem/vmm.c as values.

 Physical memory is a map from frame number to a 512-entry table; only live
 tables are tracked.  `up` records, for every live table, the one place in the
 tree it hangs from.  Because `up` is a function of the frame, a table can never
 be shared by two places: that is the ownership argument the proofs rest on.
 */
module PageTables {
  import opened Basics

  type Frame = nat

  /** One table entry: the frame number (bits 12 and up) and the low 12 flag bits. */
  datatype Pte = Pte(frame: Frame, flags: nat)

  const ZERO := Pte(0, 0)
  const ENTRIES := 512
  const KERNEL_SLOT := 256

  /** A zeroed page (memset in alloctblpg). */
  function EmptyTable(): (t: seq<Pte>)
    ensures |t| == ENTRIES && forall i | 0 <= i < |t| :: t[i] == ZERO
  {
    seq(ENTRIES, i => ZERO)
  }

  predicate Present(e: Pte) { e.flags % 2 == 1 }

  predicate Huge(e: Pte) { e.flags / 128 % 2 == 1 }

  /** PAGE_PRESENT | PAGE_WRITE | PAGE_USER */
  function TableEntry(f: Frame): Pte { Pte(f, 7) }

  /** (phys & ~0xFFF) | flg | PAGE_PRESENT, for flg below 0x1000 */
  function LeafEntry(f: Frame, flags: nat): Pte
  {
    Pte(f, if flags % 2 == 1 then flags else flags + 1)
  }

  /** (phys & ~0x1FFFFF) | flg | PAGE_PRESENT | PAGE_HUGE, for flg below 0x1000 without HUGE */
  function HugeEntry(f: Frame, flags: nat): Pte
  {
    Pte(f / 512 * 512, (if flags % 2 == 1 then flags else flags + 1) + 128)
  }

  // ---------------------------------------------------------------- access rights

  const WRITE := 1   // the bit numbers of PAGE_WRITE and PAGE_USER
  const USER := 2

  /** Bit b of a number. */
  predicate Bit(flags: nat, b: nat) { if b == 0 then flags % 2 == 1 else Bit(flags / 2, b - 1) }

  /** A leaf has the flags asked for, and is present. */
  lemma LeafBits(f: Frame, flags: nat, b: nat)
    ensures LeafEntry(f, flags).frame == f && (Bit(LeafEntry(f, flags).flags, b) <==> b == 0 || Bit(flags, b))
  {
    assert flags % 2 == 0 ==> (flags + 1) / 2 == flags / 2;
  }

  /** A table entry lets everything through: present, writable, user, and no other bit. */
  lemma TableBits(f: Frame, b: nat)
    ensures TableEntry(f).frame == f && (Bit(TableEntry(f).flags, b) <==> b <= USER)
  {
    assert Bit(7, 0) && Bit(7, 1) && Bit(3, 1) && Bit(7, 2);
    if b > USER {
      NoBits(b - 3);
      assert Bit(7, b) == Bit(3, b - 1) == Bit(1, b - 2) == Bit(0, b - 3);
    }
  }

  lemma {:induction false} NoBits(b: nat)
    ensures !Bit(0, b)
  {
    if b > 0 { NoBits(b - 1); }
  }

  /** The four table indices of a virtual address. */
  datatype Path = Path(i4: nat, i3: nat, i2: nat, i1: nat)

  predicate ValidPath(p: Path)
  {
    p.i4 < ENTRIES && p.i3 < ENTRIES && p.i2 < ENTRIES && p.i1 < ENTRIES
  }

  function PathOf(virt: nat): (p: Path)
    ensures ValidPath(p)
  {
    Path(virt / 0x80_0000_0000 % 512, virt / 0x4000_0000 % 512, virt / 0x20_0000 % 512, virt / 0x1000 % 512)
  }

  /** Where a table hangs: an address-space root, a kernel-half PDPT shared by
      every root at one slot, or a child owned by exactly one parent entry. */
  datatype Pos = Root | Shared(slot: nat) | Child(level: nat, parent: Frame, idx: nat, zone: Zone)

  datatype Zone = Low(root: Frame) | High

  function Level(pos: Pos): nat
  {
    match pos
    case Root => 4
    case Shared(_) => 3
    case Child(level, _, _, _) => level
  }

  function ZoneOf(pos: Pos, f: Frame): Zone
  {
    match pos
    case Root => Low(f)
    case Shared(_) => High
    case Child(_, _, _, z) => z
  }

  /** The position of the table that entry i of table f points to. */
  function ChildPos(pos: Pos, f: Frame, i: nat): Pos
  {
    if pos.Root? && i >= KERNEL_SLOT then Shared(i)
    else if Level(pos) == 0 then pos
    else Child(Level(pos) - 1, f, i, ZoneOf(pos, f))
  }

  /** Live tables, their positions, the free frames, and the number of managed frames. */
  datatype Mem = Mem(tables: map<Frame, seq<Pte>>, up: map<Frame, Pos>, free: set<Frame>, limit: nat)

  function Entry(m: Mem, f: Frame, i: nat): Pte
  {
    if f in m.tables && i < |m.tables[f]| then m.tables[f][i] else ZERO
  }

  predicate IsRoot(m: Mem, f: Frame) { f in m.up && m.up[f].Root? }

  // ---------------------------------------------------------------- translation

  datatype Leaf = Unmapped | Page(pte: Pte) | HugePage(pte: Pte)

  /** The walk of vmm_get_phys. */
  function Walk(m: Mem, root: Frame, p: Path): Leaf
  {
    var e4 := Entry(m, root, p.i4);
    if !Present(e4) then Unmapped else
    var e3 := Entry(m, e4.frame, p.i3);
    if !Present(e3) then Unmapped else
    var e2 := Entry(m, e3.frame, p.i2);
    if !Present(e2) then Unmapped else
    if Huge(e2) then HugePage(e2) else
    var e1 := Entry(m, e2.frame, p.i1);
    if !Present(e1) then Unmapped else Page(e1)
  }

  /** The physical address a leaf gives for a virtual address; 0 when unmapped. */
  function PhysOf(leaf: Leaf, virt: nat): nat
  {
    match leaf
    case Unmapped => 0
    case Page(e) => e.frame * 0x1000 + virt % 0x1000
    case HugePage(e) => e.frame / 512 * 0x20_0000 + virt % 0x20_0000
  }

  function GetPhys(m: Mem, root: Frame, virt: nat): nat
  {
    PhysOf(Walk(m, root, PathOf(virt)), virt)
  }

  /** The level-1 table that the walk of p ends in, if there is one. */
  function LastTable(m: Mem, root: Frame, p: Path): (r: (bool, Frame))
  {
    var e4 := Entry(m, root, p.i4);
    if !Present(e4) then (false, 0) else
    var e3 := Entry(m, e4.frame, p.i3);
    if !Present(e3) then (false, 0) else
    var e2 := Entry(m, e3.frame, p.i2);
    if !Present(e2) || Huge(e2) then (false, 0) else (true, e2.frame)
  }

  // ---------------------------------------------------------------- invariant

  ghost predicate PointsTo(m: Mem, e: Pte, pos: Pos)
  {
    Present(e) && !Huge(e) && e.frame in m.up && m.up[e.frame] == pos
  }

  ghost predicate EntryOk(m: Mem, f: Frame, i: nat)
    requires f in m.up
  {
    var e := Entry(m, f, i);
    var pos := m.up[f];
    e == ZERO
    || (Level(pos) == 1 && Present(e))
    || (Level(pos) == 2 && ZoneOf(pos, f).High? && Present(e) && Huge(e))
    || (Level(pos) >= 2 && PointsTo(m, e, ChildPos(pos, f, i)) && (LowSlot(pos, i) ==> e == TableEntry(e.frame)))
  }

  /** Entry i of a table at pos leads into the lower half. */
  predicate LowSlot(pos: Pos, i: nat) { (pos.Root? && i < KERNEL_SLOT) || (pos.Child? && pos.zone.Low?) }

  ghost predicate HeldUp(m: Mem, g: Frame)
    requires g in m.up
  {
    match m.up[g]
    case Root => true
    case Shared(s) => KERNEL_SLOT <= s < ENTRIES
    case Child(level, parent, i, z) =>
      && 1 <= level <= 3
      && i < ENTRIES
      && parent in m.up
      && Level(m.up[parent]) == level + 1
      && ChildPos(m.up[parent], parent, i) == m.up[g]
      && Entry(m, parent, i).frame == g
      && PointsTo(m, Entry(m, parent, i), m.up[g])
  }

  /** Live tables form a forest: every non-zero entry points at a table that
      knows it hangs there, and every child is held up by its parent's entry. */
  ghost predicate Inv(m: Mem)
  {
    && m.tables.Keys == m.up.Keys
    && m.free !! m.up.Keys
    && (forall f | f in m.up || f in m.free :: f < m.limit)
    && (forall f | f in m.tables :: |m.tables[f]| == ENTRIES)
    && (forall f, i: nat | f in m.up && i < ENTRIES :: EntryOk(m, f, i))
    && (forall g {:trigger HeldUp(m, g)} | g in m.up :: HeldUp(m, g))
  }

  // ---------------------------------------------------------------- elementary steps

  /** Is f the root itself or one of its lower-half tables? */
  ghost predicate InZone(up: map<Frame, Pos>, f: Frame, root: Frame)
  {
    f in up && (f == root || (up[f].Child? && up[f].zone == Low(root)))
  }

  /** A fresh, zeroed table g hung below entry i of f (alloctblpg and the entry write). */
  function AddChild(m: Mem, f: Frame, i: nat, g: Frame): Mem
    requires f in m.tables && i < |m.tables[f]| && f in m.up && g != f
  {
    Mem(m.tables[g := EmptyTable()][f := m.tables[f][i := TableEntry(g)]],
        m.up[g := ChildPos(m.up[f], f, i)],
        m.free - {g}, m.limit)
  }

  ghost predicate CanAdd(m: Mem, f: Frame, i: nat, g: Frame)
  {
    Inv(m) && f in m.up && i < ENTRIES && 2 <= Level(m.up[f]) <= 4 && Entry(m, f, i) == ZERO && g in m.free
  }

  lemma AddChildInv(m: Mem, f: Frame, i: nat, g: Frame)
    requires CanAdd(m, f, i, g)
    ensures Inv(AddChild(m, f, i, g))
  {
    var m' := AddChild(m, f, i, g);
    forall h, j: nat | h in m'.up && j < ENTRIES
      ensures EntryOk(m', h, j)
    {
      if h != g {
        assert EntryOk(m, h, j);
      }
    }
    forall h | h in m'.up
      ensures HeldUp(m', h)
    {
      if h != g {
        assert HeldUp(m, h);
      } 
    }
  }

  /** The reverse step: an empty table g is unhooked from its parent and freed. */
  function RemoveChild(m: Mem, f: Frame, i: nat, g: Frame): Mem
    requires f in m.tables && i < |m.tables[f]|
  {
    Mem(m.tables[f := m.tables[f][i := ZERO]] - {g}, m.up - {g}, m.free + {g}, m.limit)
  }

  ghost predicate IsEmpty(m: Mem, g: Frame)
  {
    g in m.tables && forall i | 0 <= i < |m.tables[g]| :: m.tables[g][i] == ZERO
  }

  ghost predicate CanRemove(m: Mem, f: Frame, i: nat, g: Frame)
  {
    && Inv(m) && g in m.up && m.up[g].Child? && m.up[g].parent == f && m.up[g].idx == i
    && IsEmpty(m, g)
  }

  lemma RemoveChildInv(m: Mem, f: Frame, i: nat, g: Frame)
    requires CanRemove(m, f, i, g)
    ensures f in m.tables && i < |m.tables[f]| && f != g
    ensures Inv(RemoveChild(m, f, i, g))
  {
    assert HeldUp(m, g);
    var m' := RemoveChild(m, f, i, g);
    forall h, j: nat | h in m'.up && j < ENTRIES
      ensures EntryOk(m', h, j)
    {
      assert EntryOk(m, h, j);
    }
    forall h | h in m'.up
      ensures HeldUp(m', h)
    {
      assert HeldUp(m, h);
    }
  }

  /** Cutting off an empty table g at entry i of f changes no translation. */
  lemma PruneWalk(m: Mem, m': Mem, f: Frame, i: nat, g: Frame, root: Frame, p: Path)
    requires Inv(m) && IsRoot(m, root) && ValidPath(p)
    requires f in m.up && i < ENTRIES && 2 <= Level(m.up[f]) && Entry(m, f, i).frame == g && g in m.up && m.up[g] == ChildPos(m.up[f], f, i) && m.up[g].Child?
    requires IsEmpty(m, g) && Entry(m', f, i) == ZERO
    requires forall h, j: nat | h in m.up && h != g && j < ENTRIES && !(h == f && j == i) :: Entry(m', h, j) == Entry(m, h, j)
    ensures Walk(m', root, p) == Walk(m, root, p)
  {
    var e4 := Entry(m, root, p.i4);
    assert EntryOk(m, root, p.i4);
    if root == f && p.i4 == i {
      assert Entry(m, g, p.i3) == ZERO;
    } else if Present(e4) {
      assert e4.frame != g;
      var e3 := Entry(m, e4.frame, p.i3);
      assert EntryOk(m, e4.frame, p.i3);
      if e4.frame == f && p.i3 == i {
        assert Entry(m, g, p.i2) == ZERO;
      } else if Present(e3) {
        assert e3.frame != g;
        var e2 := Entry(m, e3.frame, p.i2);
        assert EntryOk(m, e3.frame, p.i2);
        if e3.frame == f && p.i2 == i {
          assert HeldUp(m, g);
          assert Entry(m, g, p.i1) == ZERO;
        } else if Present(e2) && !Huge(e2) {
          assert e2.frame != g && Level(m.up[e2.frame]) == 1;
        }
      }
    }
  }

  /** A walk never re-enters a root, so writes to another root, or to another slot, are not seen. */
  lemma WalkSkips(m: Mem, m': Mem, k: Frame, r: Frame, q: Path)
    requires Inv(m) && IsRoot(m, r) && IsRoot(m, k) && ValidPath(q)
    requires Entry(m', r, q.i4) == Entry(m, r, q.i4)
    requires forall h, j: nat | h in m.up && h != k && j < ENTRIES :: Entry(m', h, j) == Entry(m, h, j)
    ensures Walk(m', r, q) == Walk(m, r, q)
  {
    var e4 := Entry(m, r, q.i4);
    assert EntryOk(m, r, q.i4);
    if Present(e4) {
      assert EntryOk(m, e4.frame, q.i3);
      var e3 := Entry(m, e4.frame, q.i3);
      if Present(e3) {
        assert EntryOk(m, e3.frame, q.i2);
      }
    }
  }

  /** Hanging an empty table changes no translation, in any address space. */
  lemma AddChildWalk(m: Mem, f: Frame, i: nat, g: Frame, root: Frame, p: Path)
    requires CanAdd(m, f, i, g) && IsRoot(m, root) && ValidPath(p)
    ensures Walk(AddChild(m, f, i, g), root, p) == Walk(m, root, p)
  {
    var m' := AddChild(m, f, i, g);
    AddChildInv(m, f, i, g);
    if !m.up[f].Root? {
      PruneWalk(m', m, f, i, g, root, p);
    } else if root == f && p.i4 == i {
      assert Entry(m', g, p.i3) == ZERO;
    } else {
      WalkSkips(m, m', f, root, p);
    }
  }

  lemma RemoveChildWalk(m: Mem, f: Frame, i: nat, g: Frame, root: Frame, p: Path)
    requires CanRemove(m, f, i, g) && IsRoot(m, root) && ValidPath(p)
    ensures f in m.tables && i < |m.tables[f]|
    ensures Walk(RemoveChild(m, f, i, g), root, p) == Walk(m, root, p)
  {
    assert HeldUp(m, g);
    PruneWalk(m, RemoveChild(m, f, i, g), f, i, g, root, p);
  }

  /** A leaf entry written in place. */
  function WriteEntry(m: Mem, f: Frame, i: nat, e: Pte): Mem
    requires f in m.tables && i < |m.tables[f]|
  {
    m.(tables := m.tables[f := m.tables[f][i := e]])
  }

  lemma WriteLeafInv(m: Mem, f: Frame, i: nat, e: Pte)
    requires Inv(m) && f in m.up && i < ENTRIES && Level(m.up[f]) == 1 && (e == ZERO || Present(e))
    ensures Inv(WriteEntry(m, f, i, e))
  {
    var m' := WriteEntry(m, f, i, e);
    forall h, j: nat | h in m'.up && j < ENTRIES
      ensures EntryOk(m', h, j)
    {
      assert EntryOk(m, h, j);
    }
    forall h | h in m'.up
      ensures HeldUp(m', h)
    {
      assert HeldUp(m, h);
    }
  }

  /** Two walks that end in the same table took the same indices, and in the
      lower half they started from the same root. */
  lemma LastTableUnique(m: Mem, r1: Frame, p1: Path, r2: Frame, p2: Path)
    requires Inv(m) && IsRoot(m, r1) && IsRoot(m, r2) && ValidPath(p1) && ValidPath(p2)
    requires LastTable(m, r1, p1).0 && LastTable(m, r1, p1) == LastTable(m, r2, p2)
    ensures p1.i4 == p2.i4 && p1.i3 == p2.i3 && p1.i2 == p2.i2
    ensures Entry(m, r1, p1.i4) == Entry(m, r2, p2.i4) || Entry(m, r1, p1.i4).frame == Entry(m, r2, p2.i4).frame
    ensures p1.i4 < KERNEL_SLOT ==> r1 == r2
  {
    LastTablePos(m, r1, p1);
    LastTablePos(m, r2, p2);
  }

  /** The chain of positions behind a walk. */
  lemma LastTablePos(m: Mem, root: Frame, p: Path)
    requires Inv(m) && IsRoot(m, root) && ValidPath(p) && LastTable(m, root, p).0
    ensures
      var e4 := Entry(m, root, p.i4);
      var e3 := Entry(m, e4.frame, p.i3);
      var g := LastTable(m, root, p).1;
      && Present(e4) && Present(e3)
      && e4.frame in m.up && m.up[e4.frame] == ChildPos(Root, root, p.i4)
      && e3.frame in m.up && m.up[e3.frame] == ChildPos(m.up[e4.frame], e4.frame, p.i3)
      && g in m.up && m.up[g] == ChildPos(m.up[e3.frame], e3.frame, p.i2) && Level(m.up[g]) == 1
  {
    var e4 := Entry(m, root, p.i4);
    assert EntryOk(m, root, p.i4);
    var e3 := Entry(m, e4.frame, p.i3);
    assert EntryOk(m, e4.frame, p.i3);
    assert EntryOk(m, e3.frame, p.i2);
  }

  lemma WriteLeafWalk(m: Mem, f: Frame, i: nat, e: Pte, root: Frame, p: Path)
    requires Inv(m) && f in m.up && i < ENTRIES && Level(m.up[f]) == 1 && (e == ZERO || Present(e))
    requires IsRoot(m, root) && ValidPath(p)
    ensures LastTable(WriteEntry(m, f, i, e), root, p) == LastTable(m, root, p)
    ensures Walk(WriteEntry(m, f, i, e), root, p) ==
              if LastTable(m, root, p) == (true, f) && p.i1 == i then (if e == ZERO then Unmapped else Page(e))
              else Walk(m, root, p)
  {
    var e4 := Entry(m, root, p.i4);
    assert EntryOk(m, root, p.i4);
    if Present(e4) {
      assert EntryOk(m, e4.frame, p.i3);
      var e3 := Entry(m, e4.frame, p.i3);
      if Present(e3) {
        assert EntryOk(m, e3.frame, p.i2);
      }
    }
  }

  // ---------------------------------------------------------------- the operations

  /** The frame a single-frame pmm_falloc picks: the lowest free one. */
  ghost function Lowest(s: set<Frame>): (r: Frame)
    requires s != {}
    ensures r in s && forall x | x in s :: r <= x
  {
    var x :| x in s;
    if s == {x} then x else
      assert s - {x} != {} && forall z | z in s :: z == x || z in s - {x};
      var y := Lowest(s - {x});
      if x < y then x else y
  }

  const LOW_FRAMES := 0x10_0000   // frames below 4 GiB, whose addresses fit in 32 bits

  /** pmm_falloc(1) yields a frame: the lowest free one must not be frame 0, which reads as NULL, nor
      lie above 4 GiB, where the 32-bit address would name another frame. */
  ghost predicate Takable(free: set<Frame>) { free != {} && 0 < Lowest(free) < LOW_FRAMES }

  /** No free frame lies below 4 GiB. */
  ghost predicate NoneLow(free: set<Frame>) { forall f | f in free :: f >= LOW_FRAMES }

  /** How many free frames lie below 4 GiB. */
  ghost function LowCount(free: set<Frame>): nat { |set f | f in free && f < LOW_FRAMES| }

  lemma LowCountLess(free: set<Frame>, x: Frame)
    ensures LowCount(free - {x}) + 1 >= LowCount(free)
  {
    var a, b := set f | f in free && f < LOW_FRAMES, set f | f in free - {x} && f < LOW_FRAMES;
    assert a <= b + {x};
    assert |b + {x}| <= |b| + 1;
    Smaller(a, b + {x});
  }

  lemma Smaller(a: set<Frame>, b: set<Frame>)
    requires a <= b
    ensures |a| <= |b|
  {
    assert b == a + (b - a);
  }

  lemma LowCountTakable(free: set<Frame>)
    requires 0 !in free && LowCount(free) >= 1
    ensures Takable(free)
  {
    var low := set f | f in free && f < LOW_FRAMES;
    assert low != {};
    var f :| f in low;
  }

  /** One level of vmm_map_page: follow entry i of f, hanging a fresh table if it is absent. */
  ghost function Descend(m: Mem, f: Frame, i: nat): Option<(Mem, Frame)>
    requires Inv(m) && f in m.up && i < ENTRIES
  {
    var e := Entry(m, f, i);
    if Present(e) then Some((m, e.frame))
    else if !Takable(m.free) then None
    else Some((AddChild(m, f, i, Lowest(m.free)), Lowest(m.free)))
  }

  ghost predicate CanDescend(m: Mem, f: Frame, i: nat)
  {
    Inv(m) && f in m.up && i < ENTRIES && 2 <= Level(m.up[f]) <= 4 && !Huge(Entry(m, f, i))
  }

  /** What every step of a mapping keeps: translations, ownership of old tables, and the frame pool. */
  ghost predicate Extends(m: Mem, m': Mem)
  {
    && Inv(m') && m'.limit == m.limit
    && (forall h | h in m.up :: h in m'.up && m'.up[h] == m.up[h])
    && (forall h | h in m'.up && h !in m.up :: !m'.up[h].Root?)
    && m'.free <= m.free
    && m'.up.Keys + m'.free == m.up.Keys + m.free
  }

  ghost predicate SameWalks(m: Mem, m': Mem)
  {
    forall r, q | IsRoot(m, r) && ValidPath(q) :: Walk(m', r, q) == Walk(m, r, q)
  }

  lemma DescendOk(m: Mem, f: Frame, i: nat)
    requires CanDescend(m, f, i) && Descend(m, f, i).Some?
    ensures
      var (m', g) := Descend(m, f, i).value;
      && Extends(m, m') && SameWalks(m, m')
      && g in m'.up && m'.up[g] == ChildPos(m.up[f], f, i)
      && PointsTo(m', Entry(m', f, i), m'.up[g]) && Entry(m', f, i).frame == g
      && (Present(Entry(m, f, i)) || IsEmpty(m', g))
      && (forall h, j: nat | h in m.up && j < ENTRIES && !(h == f && j == i) :: Entry(m', h, j) == Entry(m, h, j))
  {
    assert EntryOk(m, f, i);
    if !Present(Entry(m, f, i)) {
      var g := Lowest(m.free);
      AddChildInv(m, f, i, g);
      forall r, q | IsRoot(m, r) && ValidPath(q)
        ensures Walk(AddChild(m, f, i, g), r, q) == Walk(m, r, q)
      {
        AddChildWalk(m, f, i, g, r, q);
      }
    }
  }

  /** A PML4 entry of the kernel half copied into another root. */
  lemma CopySlotInv(m: Mem, k: Frame, i: nat, e: Pte)
    requires Inv(m) && IsRoot(m, k) && KERNEL_SLOT <= i < ENTRIES && PointsTo(m, e, Shared(i))
    ensures Inv(WriteEntry(m, k, i, e))
    ensures forall r, q | IsRoot(m, r) && ValidPath(q) && !(r == k && q.i4 == i) ::
              Walk(WriteEntry(m, k, i, e), r, q) == Walk(m, r, q)
    ensures Entry(m, k, i) == ZERO && IsEmpty(m, e.frame) ==> SameWalks(m, WriteEntry(m, k, i, e))
  {
    var m' := WriteEntry(m, k, i, e);
    forall h, j: nat | h in m'.up && j < ENTRIES
      ensures EntryOk(m', h, j)
    {
      assert EntryOk(m, h, j);
    }
    forall h | h in m'.up
      ensures HeldUp(m', h)
    {
      assert HeldUp(m, h);
    }
    forall r, q | IsRoot(m, r) && ValidPath(q) && !(r == k && q.i4 == i)
      ensures Walk(m', r, q) == Walk(m, r, q)
    {
      WalkSkips(m, m', k, r, q);
    }
  }
}
