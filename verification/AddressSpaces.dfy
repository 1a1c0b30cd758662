/**
 Whole address-space lifetimes over the page tables: vmm_casp, anonymous maps
 and unmaps, vmm_dasp, and the invariant that each of them keeps.
 */
module AddressSpaces {
  import opened Basics
  import opened PageTables
  import opened PageMapping

  const HEAP_FIRST := 288   // PML4_IDX(HEAP_START)
  const HEAP_LAST := 352    // PML4_IDX(HEAP_END)

  /** `data` records, for each frame lent to an anonymous mapping, the one leaf that maps it. */
  datatype World = World(mem: Mem, data: map<Frame, (Frame, nat)>, kernel: Frame)

  // ---------------------------------------------------------------- what a step leaves alone

  function LeafAt(m: Mem, g: Frame, i: nat): Pte
  {
    if g in m.up && Level(m.up[g]) == 1 then Entry(m, g, i) else ZERO
  }

  ghost predicate SameLeaves(m: Mem, m': Mem)
  {
    forall g, i: nat | i < ENTRIES :: LeafAt(m', g, i) == LeafAt(m, g, i)
  }

  /** Kernel-half PML4 entries of all roots are untouched. */
  ghost predicate SameTops(m: Mem, m': Mem)
  {
    && (forall r | IsRoot(m, r) :: IsRoot(m', r))
    && (forall r, s: nat | IsRoot(m, r) && KERNEL_SLOT <= s < ENTRIES :: Entry(m', r, s) == Entry(m, r, s))
  }

  /** Tables outside the lower half of root are the same ones, with the same contents. */
  ghost predicate Apart(tables: map<Frame, seq<Pte>>, up: map<Frame, Pos>, tables': map<Frame, seq<Pte>>, up': map<Frame, Pos>, root: Frame)
  {
    && (forall h | h in up && !InZone(up, h, root) ::
          h in up' && !InZone(up', h, root) && h in tables && h in tables' && tables'[h] == tables[h] && up'[h] == up[h])
    && (forall h | h in up' && !InZone(up', h, root) :: h in up && !InZone(up, h, root))
  }

  /** Only the lower-half tables of root differ. */
  ghost predicate OnlyInside(m: Mem, m': Mem, root: Frame)
  {
    && Apart(m.tables, m.up, m'.tables, m'.up, root)
    && m'.up.Keys + m'.free == m.up.Keys + m.free
    && m'.limit == m.limit
  }

  ghost predicate Gentle(m: Mem, m': Mem, root: Frame, low: bool)
  {
    SameLeaves(m, m') && SameTops(m, m') && (low ==> OnlyInside(m, m', root))
  }

  lemma GentleTrans(a: Mem, b: Mem, c: Mem, root: Frame, low: bool)
    requires Gentle(a, b, root, low) && Gentle(b, c, root, low)
    ensures Gentle(a, c, root, low)
  {
    forall g, i: nat | i < ENTRIES
      ensures LeafAt(c, g, i) == LeafAt(a, g, i)
    {
      assert LeafAt(b, g, i) == LeafAt(a, g, i);
    }
    forall r, s: nat | IsRoot(a, r) && KERNEL_SLOT <= s < ENTRIES
      ensures Entry(c, r, s) == Entry(a, r, s)
    {
      assert Entry(b, r, s) == Entry(a, r, s);
    }
  }

  lemma DescendGentle(m: Mem, f: Frame, i: nat, root: Frame, low: bool)
    requires CanDescend(m, f, i) && Descend(m, f, i).Some?
    requires IsRoot(m, root) && (low ==> InZone(m.up, f, root) && ChildPos(m.up[f], f, i).Child?)
    requires m.up[f].Root? ==> i < KERNEL_SLOT || Present(Entry(m, f, i))
    ensures Gentle(m, Descend(m, f, i).value.0, root, low)
  {
    DescendOk(m, f, i);
  }

  lemma RemoveGentle(m: Mem, f: Frame, i: nat, g: Frame, root: Frame)
    requires CanRemove(m, f, i, g) && m.up[g].zone == Low(root)
    ensures f in m.tables && i < |m.tables[f]|
    ensures Gentle(m, RemoveChild(m, f, i, g), root, true)
  {
    RemoveChildInv(m, f, i, g);
    assert HeldUp(m, g);
  }

  lemma MapTablesGentle(m: Mem, kernel: Frame, root: Frame, p: Path)
    requires Mappable(m, kernel, root, p) && MapTables(m, kernel, root, p).Some?
    requires p.i4 < KERNEL_SLOT || Present(Entry(m, root, p.i4))
    ensures Gentle(m, MapTables(m, kernel, root, p).value.0, root, p.i4 < KERNEL_SLOT)
  {
    var m3, g3, m2, g2, m1, g1 := MapTrace(m, kernel, root, p);
    var low := p.i4 < KERNEL_SLOT;
    assert EntryOk(m, root, p.i4);
    DescendOk(m, root, p.i4);
    DescendGentle(m, root, p.i4, root, low);
    DescendOk(m3, g3, p.i3);
    DescendGentle(m3, g3, p.i3, root, low);
    DescendGentle(m2, g2, p.i2, root, low);
    GentleTrans(m, m3, m2, root, low);
    GentleTrans(m, m2, m1, root, low);
  }

  lemma ReclaimGentle(m: Mem, root: Frame, p: Path)
    requires Inv(m) && IsRoot(m, root) && ValidPath(p) && p.i4 < KERNEL_SLOT && LastTable(m, root, p).0
    ensures Gentle(m, Reclaim(m, root, p), root, true)
  {
    LastTablePos(m, root, p);
    var g3 := Entry(m, root, p.i4).frame;
    var g2 := Entry(m, g3, p.i3).frame;
    var g1 := LastTable(m, root, p).1;
    if IsEmpty(m, g1) {
      RemoveChildInv(m, g2, p.i2, g1);
      RemoveGentle(m, g2, p.i2, g1, root);
      var m2 := RemoveChild(m, g2, p.i2, g1);
      if IsEmpty(m2, g2) {
        RemoveChildInv(m2, g3, p.i3, g2);
        RemoveGentle(m2, g3, p.i3, g2, root);
        var m3 := RemoveChild(m2, g3, p.i3, g2);
        GentleTrans(m, m2, m3, root, true);
        if IsEmpty(m3, g3) {
          RemoveGentle(m3, root, p.i4, g3, root);
          GentleTrans(m, m3, RemoveChild(m3, root, p.i4, g3), root, true);
        }
      }
    }
  }

  // ---------------------------------------------------------------- the invariant over worlds

  ghost predicate DataHeld(w: World, d: Frame)
    requires d in w.data
  {
    var (g, i) := w.data[d];
    i < ENTRIES && LeafAt(w.mem, g, i) != ZERO && LeafAt(w.mem, g, i).frame == d
  }

  /** Is g a lower-half table of a user address space? */
  ghost predicate UserTable(w: World, g: Frame)
  {
    g in w.mem.up && w.mem.up[g].Child? && w.mem.up[g].zone.Low? && w.mem.up[g].zone.root != w.kernel
  }

  ghost predicate LeafLent(w: World, g: Frame, i: nat)
  {
    var e := LeafAt(w.mem, g, i);
    e == ZERO || (e.frame in w.data && w.data[e.frame] == (g, i))
  }

  /** Lent frames are neither free nor tables, each is mapped by exactly its recorded
      leaf, and user mappings map only lent frames. */
  ghost predicate DataInv(w: World)
  {
    && w.data.Keys !! w.mem.free
    && w.data.Keys !! w.mem.up.Keys
    && (forall d | d in w.data :: d < w.mem.limit && DataHeld(w, d))
    && (forall g, i: nat | UserTable(w, g) && i < ENTRIES :: LeafLent(w, g, i))
  }

  /** All roots hold the kernel's own PDPTs in every HEAP slot. */
  ghost predicate HeapShared(m: Mem, kernel: Frame)
  {
    forall r, s: nat | IsRoot(m, r) && HEAP_FIRST <= s < HEAP_LAST :: Present(Entry(m, r, s)) && Entry(m, r, s) == Entry(m, kernel, s)
  }

  /** Every managed frame this model accounts for. */
  ghost function Pool(w: World): set<Frame>
  {
    w.mem.free + w.mem.up.Keys + w.data.Keys
  }

  /** Frame 0 is never in play: the allocator cannot hand it out. */
  ghost predicate WorldInv(w: World)
  {
    Inv(w.mem) && Lean(w.mem) && IsRoot(w.mem, w.kernel) && DataInv(w) && HeapShared(w.mem, w.kernel) && 0 !in Pool(w)
  }

  // ---------------------------------------------------------------- operations

  /** pmm_falloc(1) */
  ghost function TakeFrame(m: Mem): Mem
    requires Takable(m.free)
  {
    m.(free := m.free - {Lowest(m.free)})
  }

  /** vmm_casp: a fresh root whose kernel half is copied from the kernel's root. */
  ghost function NewRoot(m: Mem, kernel: Frame): Mem
    requires Inv(m) && IsRoot(m, kernel) && Takable(m.free)
  {
    var g := Lowest(m.free);
    var t := EmptyTable()[..KERNEL_SLOT] + m.tables[kernel][KERNEL_SLOT..];
    m.(tables := m.tables[g := t], up := m.up[g := Root], free := m.free - {g})
  }

  ghost function NewSpace(w: World): World
    requires Inv(w.mem) && IsRoot(w.mem, w.kernel) && Takable(w.mem.free)
  {
    w.(mem := NewRoot(w.mem, w.kernel))
  }

  ghost predicate InHeap(p: Path) { HEAP_FIRST <= p.i4 < HEAP_LAST }

  /** An anonymous page may be mapped in a user lower half, or in the kernel heap through any root. */
  ghost predicate MapEnabled(w: World, root: Frame, p: Path, flags: nat)
  {
    && IsRoot(w.mem, root) && ValidPath(p) && Walk(w.mem, root, p) == Unmapped && flags < 0x1000
    && ((p.i4 < KERNEL_SLOT && root != w.kernel) || InHeap(p))
  }

  /** MAP_ANYPHYS mapping of one page: take a frame, then vmm_map_page. */
  ghost function MapAnon(w: World, root: Frame, p: Path, flags: nat): Option<World>
    requires WorldInv(w) && MapEnabled(w, root, p, flags)
  {
    if !Takable(w.mem.free) then None else
    MapAnonReady(w, root, p, flags);
    var d := Lowest(w.mem.free);
    var r := MapPage(TakeFrame(w.mem), w.kernel, root, p, LeafEntry(d, flags));
    if r.None? then None else
    Some(World(r.value, w.data[d := (LastTable(r.value, root, p).1, p.i1)], w.kernel))
  }

  lemma MapAnonReady(w: World, root: Frame, p: Path, flags: nat)
    requires WorldInv(w) && MapEnabled(w, root, p, flags) && Takable(w.mem.free)
    ensures Mappable(TakeFrame(w.mem), w.kernel, root, p) && Lean(TakeFrame(w.mem))
    ensures Gentle(w.mem, TakeFrame(w.mem), root, false) && Walk(TakeFrame(w.mem), root, p) == Unmapped
  {
    var m1 := TakeFrame(w.mem);
    SameTablesInv(w.mem, m1);
    forall g | g in m1.up && m1.up[g].Child? && m1.up[g].zone.Low?
      ensures !IsEmpty(m1, g)
    {
      assert !IsEmpty(w.mem, g);
    }
  }

  /** The new page is mapped by the lent frame, and no other page of the space has changed. */
  lemma MapAnonWalks(w: World, root: Frame, p: Path, flags: nat)
    requires WorldInv(w) && MapEnabled(w, root, p, flags) && MapAnon(w, root, p, flags).Some?
    ensures
      var w' := MapAnon(w, root, p, flags).value;
      && IsRoot(w'.mem, root) && UnmapEnabled(w', root, p) && Walk(w'.mem, root, p).Page?
      && (forall q | ValidPath(q) && q != p :: Walk(w'.mem, root, q) == Walk(w.mem, root, q))
  {
    hide MapPage, LastTable, Lean, HeapShared, EntryOk, HeldUp, Walk, Gentle;
    MapAnonReady(w, root, p, flags);
    MapPageRefines(TakeFrame(w.mem), w.kernel, root, p, LeafEntry(Lowest(w.mem.free), flags));
    forall q | ValidPath(q)
      ensures Walk(TakeFrame(w.mem), root, q) == Walk(w.mem, root, q)
    {
      SameTablesWalk(w.mem, TakeFrame(w.mem), root, q);
    }
  }

  lemma SameTablesWalk(m: Mem, m': Mem, root: Frame, q: Path)
    requires m'.tables == m.tables
    ensures Walk(m', root, q) == Walk(m, root, q)
  {
  }

  lemma UnmapAnonWalks(w: World, root: Frame, p: Path)
    requires WorldInv(w) && UnmapEnabled(w, root, p)
    ensures IsRoot(UnmapAnon(w, root, p).mem, root) && Walk(UnmapAnon(w, root, p).mem, root, p) == Unmapped
    ensures forall q | ValidPath(q) && q != p :: Walk(UnmapAnon(w, root, p).mem, root, q) == Walk(w.mem, root, q)
  {
    hide LastTable, Lean, HeapShared;
    UnmapReady(w, root, p);
    UnmapPageRefines(w.mem, root, p, false);
  }

  ghost predicate UnmapEnabled(w: World, root: Frame, p: Path)
  {
    && IsRoot(w.mem, root) && ValidPath(p) && Walk(w.mem, root, p).Page?
    && Walk(w.mem, root, p).pte.frame in w.data
    && w.data[Walk(w.mem, root, p).pte.frame] == (LastTable(w.mem, root, p).1, p.i1)
  }

  /** Every page mapped in a user's lower half holds a lent frame, so it may be unmapped. */
  lemma UserPageLent(w: World, root: Frame, p: Path)
    requires WorldInv(w) && IsRoot(w.mem, root) && root != w.kernel && ValidPath(p) && p.i4 < KERNEL_SLOT
    requires Walk(w.mem, root, p).Page?
    ensures UnmapEnabled(w, root, p)
  {
    LastTablePos(w.mem, root, p);
    var g := LastTable(w.mem, root, p).1;
    assert UserTable(w, g) && LeafLent(w, g, p.i1);
  }

  /** Frame-freeing unmap of one mapped page. */
  ghost function UnmapAnon(w: World, root: Frame, p: Path): World
    requires WorldInv(w) && UnmapEnabled(w, root, p)
  {
    World(UnmapPage(w.mem, root, p, false), w.data - {Walk(w.mem, root, p).pte.frame}, w.kernel)
  }

  /** Some leaf of the lower half of root maps frame f. */
  ghost predicate MappedBelow(m: Mem, root: Frame, f: Frame)
  {
    exists g: Frame, i: nat {:trigger LeafAt(m, g, i)} :: InZone(m.up, g, root) && i < ENTRIES && LeafAt(m, g, i) != ZERO && LeafAt(m, g, i).frame == f
  }

  /** No leaf of the lower half of root maps a live table. */
  ghost predicate Sealed(m: Mem, root: Frame)
  {
    forall f | MappedBelow(m, root, f) :: f !in m.up
  }

  /** vmm_dasp in closed form: root, its lower-half tables and every managed frame mapped there are freed. */
  ghost function CloseMem(m: Mem, root: Frame): Mem
  {
    Mem(m.tables - Inside(m, root), m.up - Inside(m, root), m.free + Inside(m, root) + MappedFrames(m, root), m.limit)
  }

  ghost function Inside(m: Mem, root: Frame): set<Frame> { set h | h in m.up && InZone(m.up, h, root) }

  ghost function MappedFrames(m: Mem, root: Frame): set<Frame> { set f: Frame | f < m.limit && MappedBelow(m, root, f) }

  /** The same where each mapped frame is a lent one. */
  ghost function Close(w: World, root: Frame): World
  {
    var m := w.mem;
    var inside := set h | h in m.up && InZone(m.up, h, root);
    var lent := set d | d in w.data && InZone(m.up, w.data[d].0, root);
    World(Mem(m.tables - inside, m.up - inside, m.free + inside + lent, m.limit), w.data - lent, w.kernel)
  }

  // ---------------------------------------------------------------- every operation keeps the invariant

  /** Which leaves, PML4 entries and tables a single mapping touches. */
  lemma MapTouches(m: Mem, kernel: Frame, root: Frame, p: Path, leaf: Pte, m': Mem)
    requires Mappable(m, kernel, root, p) && Present(leaf) && MapPage(m, kernel, root, p, leaf) == Some(m')
    requires p.i4 < KERNEL_SLOT || Present(Entry(m, root, p.i4))
    requires Walk(m, root, p) == Unmapped
    ensures Extends(m, m') && SameTops(m, m')
    ensures p.i4 < KERNEL_SLOT ==> OnlyInside(m, m', root)
    ensures
      var g := LastTable(m', root, p).1;
      && LeafAt(m', g, p.i1) == leaf && LeafAt(m, g, p.i1) == ZERO
      && g in m'.up && ZoneOf(m'.up[g], g) == (if p.i4 < KERNEL_SLOT then Low(root) else High)
      && (forall h: Frame, j: nat | j < ENTRIES && !(h == g && j == p.i1) :: LeafAt(m', h, j) == LeafAt(m, h, j))
  {
    MapTablesOk(m, kernel, root, p);
    MapTablesGentle(m, kernel, root, p);
    var (m2, g) := MapTables(m, kernel, root, p).value;
    assert m' == WriteEntry(m2, g, p.i1, leaf);
    assert Walk(m2, root, p) == Unmapped;
    LeafTouches(m, m2, root, p, g, leaf);
  }

  lemma LeafTouches(m: Mem, m2: Mem, root: Frame, p: Path, g: Frame, leaf: Pte)
    requires Inv(m) && IsRoot(m, root) && ValidPath(p) && Present(leaf)
    requires Extends(m, m2) && LastTable(m2, root, p) == (true, g) && Gentle(m, m2, root, p.i4 < KERNEL_SLOT)
    requires Walk(m2, root, p) == Unmapped
    ensures g in m2.tables && |m2.tables[g]| == ENTRIES
    ensures
      var m' := WriteEntry(m2, g, p.i1, leaf);
      && Extends(m, m') && SameTops(m, m')
      && (p.i4 < KERNEL_SLOT ==> OnlyInside(m, m', root))
      && LastTable(m', root, p) == (true, g)
      && LeafAt(m', g, p.i1) == leaf && LeafAt(m, g, p.i1) == ZERO
      && ZoneOf(m'.up[g], g) == (if p.i4 < KERNEL_SLOT then Low(root) else High)
      && (forall h: Frame, j: nat | j < ENTRIES && !(h == g && j == p.i1) :: LeafAt(m', h, j) == LeafAt(m, h, j))
  {
    LastTablePos(m2, root, p);
    WriteLeafInv(m2, g, p.i1, leaf);
    WriteLeafWalk(m2, g, p.i1, leaf, root, p);
    var m' := WriteEntry(m2, g, p.i1, leaf);
    forall h: Frame, j: nat | j < ENTRIES && !(h == g && j == p.i1)
      ensures LeafAt(m', h, j) == LeafAt(m, h, j)
    {
      assert LeafAt(m2, h, j) == LeafAt(m, h, j);
    }
    assert LeafAt(m2, g, p.i1) == ZERO by {
      assert EntryOk(m2, g, p.i1);
    }
    assert LeafAt(m, g, p.i1) == ZERO;
    forall r, s: nat | IsRoot(m, r) && KERNEL_SLOT <= s < ENTRIES
      ensures Entry(m', r, s) == Entry(m, r, s)
    {
      assert Entry(m2, r, s) == Entry(m, r, s);
    }
  }

  lemma MapAnonInv(w: World, root: Frame, p: Path, flags: nat)
    requires WorldInv(w) && MapEnabled(w, root, p, flags) && MapAnon(w, root, p, flags).Some?
    ensures WorldInv(MapAnon(w, root, p, flags).value)
  {
    hide EntryOk, HeldUp, MapPage, Walk, LastTable, IsEmpty;
    var w' := MapAnon(w, root, p, flags).value;
    var d, m1 := Lowest(w.mem.free), TakeFrame(w.mem);
    MapAnonReady(w, root, p, flags);
    MapPageLean(m1, w.kernel, root, p, LeafEntry(d, flags));
    assert p.i4 < KERNEL_SLOT || Present(Entry(m1, root, p.i4)) by {
      assert InHeap(p) ==> Present(Entry(w.mem, root, p.i4));
    }
    MapTouches(m1, w.kernel, root, p, LeafEntry(d, flags), w'.mem);
    DataAfterMap(w, w', d, LastTable(w'.mem, root, p).1, p.i1);
    HeapAfter(w.mem, w'.mem, w.kernel);
  }

  /** One new leaf maps one newly lent frame. */
  lemma DataAfterMap(w: World, w': World, d: Frame, g: Frame, i: nat)
    requires Inv(w.mem) && DataInv(w) && d in w.mem.free && i < ENTRIES && w'.kernel == w.kernel
    requires w'.data == w.data[d := (g, i)] && Extends(w.mem.(free := w.mem.free - {d}), w'.mem)
    requires LeafAt(w.mem, g, i) == ZERO && LeafAt(w'.mem, g, i) != ZERO && LeafAt(w'.mem, g, i).frame == d
    requires forall h: Frame, j: nat | j < ENTRIES && !(h == g && j == i) :: LeafAt(w'.mem, h, j) == LeafAt(w.mem, h, j)
    ensures DataInv(w')
  {
    forall x | x in w'.data
      ensures x < w'.mem.limit && DataHeld(w', x)
    {
      if x != d {
        assert DataHeld(w, x);
        assert LeafAt(w'.mem, w.data[x].0, w.data[x].1) == LeafAt(w.mem, w.data[x].0, w.data[x].1);
      }
    }
    forall h, j: nat | UserTable(w', h) && j < ENTRIES
      ensures LeafLent(w', h, j)
    {
      if !(h == g && j == i) && LeafAt(w.mem, h, j) != ZERO {
        assert UserTable(w, h);
        assert LeafLent(w, h, j);
      }
    }
  }

  /** The heap slots of all roots are as they were. */
  lemma HeapAfter(m: Mem, m': Mem, kernel: Frame)
    requires HeapShared(m, kernel) && IsRoot(m, kernel) && IsRoot(m', kernel) && (forall r | IsRoot(m', r) :: IsRoot(m, r))
    requires forall r, s: nat | IsRoot(m', r) && HEAP_FIRST <= s < HEAP_LAST :: Entry(m', r, s) == Entry(m, r, s)
    ensures HeapShared(m', kernel)
  {
    forall r, s: nat | IsRoot(m', r) && HEAP_FIRST <= s < HEAP_LAST
      ensures Present(Entry(m', r, s)) && Entry(m', r, s) == Entry(m', kernel, s)
    {
      assert Entry(m, r, s) == Entry(m, kernel, s);
      assert Entry(m', r, s) == Entry(m, r, s);
      assert Entry(m', kernel, s) == Entry(m, kernel, s);
    }
  }

  // ---------------------------------------------------------------- unmapping

  lemma UnmapTouches(m: Mem, root: Frame, p: Path, m': Mem)
    requires Unmappable(m, root, p, false) && LastTable(m, root, p).0 && m' == UnmapPage(m, root, p, false)
    requires Entry(m, LastTable(m, root, p).1, p.i1).frame < m.limit
    ensures
      var g := LastTable(m, root, p).1;
      var d := Entry(m, g, p.i1).frame;
      && SameTops(m, m')
      && (forall h: Frame, j: nat | j < ENTRIES :: LeafAt(m', h, j) == if h == g && j == p.i1 then ZERO else LeafAt(m, h, j))
      && (p.i4 < KERNEL_SLOT ==> OnlyInside(m.(free := m.free + {d}), m', root))
      && m'.up.Keys + m'.free == m.up.Keys + m.free + {d}
  {
    var g := LastTable(m, root, p).1;
    var d := Entry(m, g, p.i1).frame;
    LastTablePos(m, root, p);
    ClearLeafOk(m, g, p.i1, false);
    ClearLeafWalk(m, g, p.i1, false, root, p);
    var m1 := ClearLeaf(m, g, p.i1, false);
    ClearTouches(m, g, p.i1, root);
    if p.i4 < KERNEL_SLOT {
      assert InZone(m.up, g, root);
      ReclaimGentle(m1, root, p);
      InsideTrans(m.(free := m.free + {d}), m1, m', root);
      forall r, s: nat | IsRoot(m, r) && KERNEL_SLOT <= s < ENTRIES
        ensures Entry(m', r, s) == Entry(m, r, s)
      {
        assert Entry(m1, r, s) == Entry(m, r, s);
      }
    }
    forall h: Frame, j: nat | j < ENTRIES
      ensures LeafAt(m', h, j) == if h == g && j == p.i1 then ZERO else LeafAt(m, h, j)
    {
      assert LeafAt(m', h, j) == LeafAt(m1, h, j);
    }
  }

  lemma ClearTouches(m: Mem, g: Frame, i: nat, root: Frame)
    requires Inv(m) && g in m.up && Level(m.up[g]) == 1 && i < ENTRIES && Entry(m, g, i).frame < m.limit
    ensures
      var m1 := ClearLeaf(m, g, i, false);
      var d := Entry(m, g, i).frame;
      && m1.up == m.up && m1.free == m.free + {d} && SameTops(m, m1)
      && (InZone(m.up, g, root) ==> OnlyInside(m.(free := m.free + {d}), m1, root))
      && (forall h: Frame, j: nat | j < ENTRIES :: LeafAt(m1, h, j) == if h == g && j == i then ZERO else LeafAt(m, h, j))
  {
  }

  lemma InsideTrans(a: Mem, b: Mem, c: Mem, root: Frame)
    requires OnlyInside(a, b, root) && OnlyInside(b, c, root)
    ensures OnlyInside(a, c, root)
  {
  }

  lemma UnmapReady(w: World, root: Frame, p: Path)
    requires WorldInv(w) && UnmapEnabled(w, root, p)
    ensures Unmappable(w.mem, root, p, false) && LastTable(w.mem, root, p).0
    ensures
      var g := LastTable(w.mem, root, p).1;
      var d := Walk(w.mem, root, p).pte.frame;
      Entry(w.mem, g, p.i1).frame == d && d < w.mem.limit && d !in w.mem.up && LeafAt(w.mem, g, p.i1).frame == d
  {
    LastTablePos(w.mem, root, p);
  }

  lemma UnmapAnonInv(w: World, root: Frame, p: Path)
    requires WorldInv(w) && UnmapEnabled(w, root, p)
    ensures WorldInv(UnmapAnon(w, root, p))
  {
    var w' := UnmapAnon(w, root, p);
    var d := Walk(w.mem, root, p).pte.frame;
    UnmapReady(w, root, p);
    UnmapPageRefines(w.mem, root, p, false);
    UnmapPageLean(w.mem, root, p, false);
    UnmapTouches(w.mem, root, p, w'.mem);
    DataAfterUnmap(w, w', d, LastTable(w.mem, root, p).1, p.i1);
    HeapAfter(w.mem, w'.mem, w.kernel);
  }

  lemma DataAfterUnmap(w: World, w': World, d: Frame, g: Frame, i: nat)
    requires DataInv(w) && d in w.data && w.data[d] == (g, i) && i < ENTRIES && w'.kernel == w.kernel
    requires w'.data == w.data - {d} && w'.mem.limit == w.mem.limit && Inv(w'.mem)
    requires w'.mem.up.Keys + w'.mem.free == w.mem.up.Keys + w.mem.free + {d}
    requires forall h | h in w'.mem.up :: h in w.mem.up && w'.mem.up[h] == w.mem.up[h]
    requires forall h: Frame, j: nat | j < ENTRIES :: LeafAt(w'.mem, h, j) == if h == g && j == i then ZERO else LeafAt(w.mem, h, j)
    ensures DataInv(w')
  {
    forall x | x in w'.data
      ensures x < w'.mem.limit && DataHeld(w', x) && x !in w'.mem.free && x !in w'.mem.up
    {
      assert DataHeld(w, x) && DataHeld(w, d);
      assert LeafAt(w'.mem, w.data[x].0, w.data[x].1) == LeafAt(w.mem, w.data[x].0, w.data[x].1);
      assert x !in w.mem.up.Keys + w.mem.free + {d};
    }
    forall h, j: nat | UserTable(w', h) && j < ENTRIES
      ensures LeafLent(w', h, j)
    {
      assert UserTable(w, h) && LeafLent(w, h, j) && DataHeld(w, d);
    }
  }

  // ---------------------------------------------------------------- creating and destroying spaces

  lemma NewRootInv(m: Mem, kernel: Frame)
    requires Inv(m) && IsRoot(m, kernel) && Takable(m.free)
    ensures Inv(NewRoot(m, kernel))
    ensures HeapShared(m, kernel) ==> HeapShared(NewRoot(m, kernel), kernel)
  {
    var m' := NewRoot(m, kernel);
    var g := Lowest(m.free);
    forall f, i: nat | f in m'.up && i < ENTRIES
      ensures EntryOk(m', f, i)
    {
      if f != g {
        assert EntryOk(m, f, i);
      } else if i >= KERNEL_SLOT {
        assert EntryOk(m, kernel, i);
      }
    }
    forall f | f in m'.up
      ensures HeldUp(m', f)
    {
      if f != g {
        assert HeldUp(m, f);
      }
    }
    if HeapShared(m, kernel) { NewRootHeap(m, kernel); }
  }

  lemma NewRootHeap(m: Mem, kernel: Frame)
    requires Inv(m) && IsRoot(m, kernel) && Takable(m.free) && HeapShared(m, kernel)
    ensures HeapShared(NewRoot(m, kernel), kernel)
  {
    var m' := NewRoot(m, kernel);
    var g := Lowest(m.free);
    forall r, s: nat | IsRoot(m', r) && HEAP_FIRST <= s < HEAP_LAST
      ensures Present(Entry(m', r, s)) && Entry(m', r, s) == Entry(m', kernel, s)
    {
      assert Present(Entry(m, kernel, s));
      if r != g {
        assert Entry(m, r, s) == Entry(m, kernel, s);
      }
    }
  }

  /** A new space sees the whole kernel half as the kernel does and nothing in its lower half; no other space
      sees a change. */
  lemma NewRootWalks(m: Mem, kernel: Frame, r: Frame, q: Path)
    requires Inv(m) && IsRoot(m, kernel) && Takable(m.free) && ValidPath(q)
    ensures
      var m', g := NewRoot(m, kernel), Lowest(m.free);
      && Walk(m', g, q) == (if q.i4 < KERNEL_SLOT then Unmapped else Walk(m, kernel, q))
      && (IsRoot(m, r) ==> r != g && Walk(m', r, q) == Walk(m, r, q))
  {
    var m', g := NewRoot(m, kernel), Lowest(m.free);
    OldWalk(m, m', g, kernel, q);
    if IsRoot(m, r) { OldWalk(m, m', g, r, q); }
    assert q.i4 >= KERNEL_SLOT ==> Entry(m', g, q.i4) == Entry(m, kernel, q.i4) == Entry(m', kernel, q.i4);
    assert q.i4 < KERNEL_SLOT ==> Entry(m', g, q.i4) == ZERO;
  }

  /** A walk never meets a table that is not live. */
  lemma OldWalk(m: Mem, m': Mem, g: Frame, r: Frame, q: Path)
    requires Inv(m) && IsRoot(m, r) && ValidPath(q) && g !in m.up
    requires forall h | h in m.up :: h in m'.tables && m'.tables[h] == m.tables[h]
    ensures Walk(m', r, q) == Walk(m, r, q)
  {
    hide HeldUp;
    var e4 := Entry(m, r, q.i4);
    assert EntryOk(m, r, q.i4) && Entry(m', r, q.i4) == e4;
    if Present(e4) {
      var e3 := Entry(m, e4.frame, q.i3);
      assert EntryOk(m, e4.frame, q.i3) && Entry(m', e4.frame, q.i3) == e3;
      if Present(e3) {
        var e2 := Entry(m, e3.frame, q.i2);
        assert EntryOk(m, e3.frame, q.i2) && Entry(m', e3.frame, q.i2) == e2;
      }
    }
  }

  /** No remaining space sees a change when another is destroyed. */
  lemma CloseWalks(m: Mem, root: Frame, r: Frame, q: Path)
    requires Inv(m) && IsRoot(m, root) && Sealed(m, root) && IsRoot(m, r) && r != root && ValidPath(q)
    ensures IsRoot(CloseMem(m, root), r) && Walk(CloseMem(m, root), r, q) == Walk(m, r, q)
  {
    hide HeldUp, MappedBelow;
    var m' := CloseMem(m, root);
    var e4 := Entry(m, r, q.i4);
    assert EntryOk(m, r, q.i4) && Entry(m', r, q.i4) == e4;
    if Present(e4) {
      var e3 := Entry(m, e4.frame, q.i3);
      assert EntryOk(m, e4.frame, q.i3) && Entry(m', e4.frame, q.i3) == e3;
      if Present(e3) {
        var e2 := Entry(m, e3.frame, q.i2);
        assert EntryOk(m, e3.frame, q.i2) && Entry(m', e3.frame, q.i2) == e2;
      }
    }
  }

  lemma NewSpaceInv(w: World)
    requires WorldInv(w) && Takable(w.mem.free)
    ensures WorldInv(NewSpace(w))
  {
    var m, m' := w.mem, NewSpace(w).mem;
    NewRootInv(m, w.kernel);
    forall f | f in m'.up && m'.up[f].Child? && m'.up[f].zone.Low?
      ensures !IsEmpty(m', f)
    {
      assert !IsEmpty(m, f);
    }
    NewSpaceData(w);
  }

  lemma NewSpaceData(w: World)
    requires WorldInv(w) && Takable(w.mem.free)
    ensures DataInv(NewSpace(w))
  {
    var w' := NewSpace(w);
    forall g: Frame, i: nat | i < ENTRIES
      ensures LeafAt(w'.mem, g, i) == LeafAt(w.mem, g, i)
    {
    }
    forall d | d in w'.data
      ensures DataHeld(w', d)
    {
      assert DataHeld(w, d);
    }
    forall g, i: nat | UserTable(w', g) && i < ENTRIES
      ensures LeafLent(w', g, i)
    {
      assert UserTable(w, g) && LeafLent(w, g, i);
    }
  }

  /** Nothing outside a lower half hangs below it, so cutting it off leaves a forest. */
  lemma CloseMemInv(m: Mem, kernel: Frame, root: Frame)
    requires Inv(m) && IsRoot(m, root) && IsRoot(m, kernel) && root != kernel && Sealed(m, root)
    ensures Inv(CloseMem(m, root)) && IsRoot(CloseMem(m, root), kernel)
    ensures HeapShared(m, kernel) ==> HeapShared(CloseMem(m, root), kernel)
  {
    var m' := CloseMem(m, root);
    forall f, i: nat | f in m'.up && i < ENTRIES
      ensures EntryOk(m', f, i)
    {
      assert EntryOk(m, f, i);
      assert Entry(m', f, i) == Entry(m, f, i);
    }
    forall f | f in m'.up
      ensures HeldUp(m', f)
    {
      assert HeldUp(m, f);
      if m.up[f].Child? {
        assert Entry(m', m.up[f].parent, m.up[f].idx) == Entry(m, m.up[f].parent, m.up[f].idx);
      }
    }
    if HeapShared(m, kernel) { HeapAfter(m, m', kernel); }
  }

  /** In a world of lent frames the two closed forms agree. */
  lemma CloseIsMem(w: World, root: Frame)
    requires Inv(w.mem) && DataInv(w) && IsRoot(w.mem, root) && root != w.kernel
    ensures Sealed(w.mem, root) && Close(w, root).mem == CloseMem(w.mem, root)
  {
    var m := w.mem;
    forall f
      ensures MappedBelow(m, root, f) <==> f in w.data && InZone(m.up, w.data[f].0, root)
    {
      if MappedBelow(m, root, f) {
        var g: Frame, i: nat :| InZone(m.up, g, root) && i < ENTRIES && LeafAt(m, g, i) != ZERO && LeafAt(m, g, i).frame == f;
        assert UserTable(w, g) && LeafLent(w, g, i);
      }
      if f in w.data { assert DataHeld(w, f); }
    }
  }

  lemma CloseInv(w: World, root: Frame)
    requires WorldInv(w) && IsRoot(w.mem, root) && root != w.kernel
    ensures WorldInv(Close(w, root))
  {
    var m, m' := w.mem, Close(w, root).mem;
    CloseIsMem(w, root);
    CloseMemInv(m, w.kernel, root);
    forall f | f in m'.up && m'.up[f].Child? && m'.up[f].zone.Low?
      ensures !IsEmpty(m', f)
    {
      assert !IsEmpty(m, f);
    }
    CloseData(w, root);
  }

  lemma CloseData(w: World, root: Frame)
    requires WorldInv(w) && IsRoot(w.mem, root) && root != w.kernel
    ensures DataInv(Close(w, root))
  {
    var w' := Close(w, root);
    forall d | d in w'.data
      ensures d < w'.mem.limit && DataHeld(w', d) && d !in w'.mem.free && d !in w'.mem.up
    {
      assert DataHeld(w, d);
      assert !InZone(w.mem.up, w.data[d].0, root);
    }
    forall g, i: nat | UserTable(w', g) && i < ENTRIES
      ensures LeafLent(w', g, i)
    {
      assert UserTable(w, g) && LeafLent(w, g, i);
    }
  }

  /** Destroying a space that was just created undoes its creation. */
  lemma CloseUndoesNew(w: World)
    requires WorldInv(w) && Takable(w.mem.free)
    ensures Close(NewSpace(w), Lowest(w.mem.free)) == w
  {
    var w' := NewSpace(w);
    var g := Lowest(w.mem.free);
    forall h | h in w'.mem.up
      ensures InZone(w'.mem.up, h, g) <==> h == g
    {
      if h != g {
        ZoneRootLive(w.mem, h);
      }
    }
    forall d | d in w.data
      ensures w.data[d].0 != g
    {
      assert DataHeld(w, d);
    }
    var c := Close(w', g);
    assert c.mem.tables == w.mem.tables;
    assert c.mem.up == w.mem.up;
    assert c.mem.free == w.mem.free;
    assert c.data == w.data;
  }

  /** The zone of a lower-half table names a live root. */
  lemma {:induction false} ZoneRootLive(m: Mem, h: Frame)
    requires Inv(m) && h in m.up
    ensures m.up[h].Child? && m.up[h].zone.Low? ==> IsRoot(m, m.up[h].zone.root)
    decreases 4 - (if Level(m.up[h]) <= 4 then Level(m.up[h]) else 4)
  {
    assert HeldUp(m, h);
    if m.up[h].Child? {
      assert HeldUp(m, m.up[h].parent);
      if m.up[h].level < 3 {
        ZoneRootLive(m, m.up[h].parent);
      }
    }
  }

  // ---------------------------------------------------------------- work in a space is invisible once it is closed

  /** The frames lent outside the lower half of root, with their leaves, are the same. */
  ghost predicate LentApart(w: World, w': World, root: Frame)
  {
    && (forall d | d in w.data && !InZone(w.mem.up, w.data[d].0, root) ::
          d in w'.data && w'.data[d] == w.data[d] && !InZone(w'.mem.up, w'.data[d].0, root))
    && (forall d | d in w'.data && !InZone(w'.mem.up, w'.data[d].0, root) ::
          d in w.data && !InZone(w.mem.up, w.data[d].0, root))
  }

  /** Worlds that agree outside the lower half of root and on the pool look the same once root is closed. */
  lemma CloseSame(w: World, w': World, root: Frame)
    requires w.mem.tables.Keys == w.mem.up.Keys && w'.mem.tables.Keys == w'.mem.up.Keys
    requires DataInv(w) && DataInv(w') && w.mem.free !! w.mem.up.Keys && w'.mem.free !! w'.mem.up.Keys
    requires w'.kernel == w.kernel && w'.mem.limit == w.mem.limit && Pool(w') == Pool(w)
    requires Apart(w.mem.tables, w.mem.up, w'.mem.tables, w'.mem.up, root) && LentApart(w, w', root)
    ensures Close(w', root) == Close(w, root)
  {
    hide DataInv, InZone;
    var c, c' := Close(w, root), Close(w', root);
    assert c'.mem.up == c.mem.up && c'.mem.tables == c.mem.tables by { hide LentApart; }
    assert c'.data == c.data by { hide Apart; }
    ClosePool(w, root);
    ClosePool(w', root);
  }

  lemma ClosePool(w: World, root: Frame)
    requires DataInv(w) && w.mem.free !! w.mem.up.Keys
    ensures Close(w, root).mem.free == Pool(w) - Close(w, root).mem.up.Keys - Close(w, root).data.Keys
  {
  }

  lemma MapAnonClosed(w: World, root: Frame, p: Path, flags: nat)
    requires WorldInv(w) && MapEnabled(w, root, p, flags) && MapAnon(w, root, p, flags).Some? && p.i4 < KERNEL_SLOT
    ensures Close(MapAnon(w, root, p, flags).value, root) == Close(w, root)
  {
    hide MapPage, Mappable, Walk, LastTable, Lean, HeapShared, Close, LentApart, Apart;
    var w' := MapAnon(w, root, p, flags).value;
    var d, m1 := Lowest(w.mem.free), TakeFrame(w.mem);
    MapAnonReady(w, root, p, flags);
    MapAnonInv(w, root, p, flags);
    MapTouches(m1, w.kernel, root, p, LeafEntry(d, flags), w'.mem);
    LentAfterMap(w, w', root, d, (LastTable(w'.mem, root, p).1, p.i1));
    assert Pool(w') == Pool(w);
    CloseSame(w, w', root);
  }

  lemma LentAfterMap(w: World, w': World, root: Frame, d: Frame, leaf: (Frame, nat))
    requires DataInv(w) && d !in w.data && w'.data == w.data[d := leaf] && InZone(w'.mem.up, leaf.0, root)
    requires forall h | h in w.mem.up :: h in w'.mem.up && w'.mem.up[h] == w.mem.up[h]
    ensures LentApart(w, w', root)
  {
    forall x | x in w.data
      ensures InZone(w'.mem.up, w.data[x].0, root) <==> InZone(w.mem.up, w.data[x].0, root)
    {
      assert DataHeld(w, x);
    }
  }

  lemma UnmapAnonClosed(w: World, root: Frame, p: Path)
    requires WorldInv(w) && UnmapEnabled(w, root, p) && p.i4 < KERNEL_SLOT
    ensures Close(UnmapAnon(w, root, p), root) == Close(w, root)
  {
    hide UnmapPage, Unmappable, DataInv, Lean, HeapShared, Close, LentApart, Apart;
    var w' := UnmapAnon(w, root, p);
    var d := Walk(w.mem, root, p).pte.frame;
    UnmapReady(w, root, p);
    UnmapAnonInv(w, root, p);
    UnmapPageRefines(w.mem, root, p, false);
    UnmapTouches(w.mem, root, p, w'.mem);
    LastTablePos(w.mem, root, p);
    LentAfterUnmap(w, w', root, d);
    assert Pool(w') == Pool(w);
    CloseSame(w, w', root);
  }

  lemma LentAfterUnmap(w: World, w': World, root: Frame, d: Frame)
    requires DataInv(w) && DataInv(w') && d in w.data && w'.data == w.data - {d} && InZone(w.mem.up, w.data[d].0, root)
    requires forall h | h in w'.mem.up :: h in w.mem.up && w'.mem.up[h] == w.mem.up[h]
    ensures LentApart(w, w', root)
  {
    forall x | x in w'.data
      ensures InZone(w'.mem.up, w.data[x].0, root) <==> InZone(w.mem.up, w.data[x].0, root)
    {
      assert DataHeld(w', x);
    }
  }
}
