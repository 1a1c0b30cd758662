/**
 vmm_map_page and vmm_unmap_page as functions of the table forest, and the
 proof that they refine updates of a flat map from page to frame.
 */
module PageMapping {
  import opened Basics
  import opened PageTables

  // ---------------------------------------------------------------- vmm_map_page

  /** The PML4 level: an absent kernel-half slot is also written into the kernel's own root. */
  ghost function DescendTop(m: Mem, kernel: Frame, root: Frame, i4: nat): Option<(Mem, Frame)>
    requires Inv(m) && IsRoot(m, root) && IsRoot(m, kernel) && i4 < ENTRIES
  {
    var d := Descend(m, root, i4);
    if d.None? || Present(Entry(m, root, i4)) || root == kernel || i4 < KERNEL_SLOT then d
    else
      assert kernel in d.value.0.tables;
      Some((WriteEntry(d.value.0, kernel, i4, Entry(d.value.0, root, i4)), d.value.1))
  }

  /** The table chain vmm_map_page builds: the new memory and the level-1 table. */
  ghost function MapTables(m: Mem, kernel: Frame, root: Frame, p: Path): Option<(Mem, Frame)>
    requires Mappable(m, kernel, root, p)
  {
    MapTablesReady(m, kernel, root, p);
    var d3 := DescendTop(m, kernel, root, p.i4);
    if d3.None? then None else
    var d2 := Descend(d3.value.0, d3.value.1, p.i3);
    if d2.None? then None else
    Descend(d2.value.0, d2.value.1, p.i2)
  }

  ghost predicate Mappable(m: Mem, kernel: Frame, root: Frame, p: Path)
  {
    && Inv(m) && IsRoot(m, root) && IsRoot(m, kernel) && ValidPath(p)
    && !Walk(m, root, p).HugePage?
  }

  /** What the PML4 step keeps.  Only the kernel's own view of that one slot can change. */
  lemma DescendTopOk(m: Mem, kernel: Frame, root: Frame, i4: nat)
    requires Inv(m) && IsRoot(m, root) && IsRoot(m, kernel) && i4 < ENTRIES
    requires DescendTop(m, kernel, root, i4).Some?
    ensures
      var (m', g) := DescendTop(m, kernel, root, i4).value;
      && Extends(m, m')
      && (forall r, q | IsRoot(m, r) && ValidPath(q) && !(r == kernel && r != root && q.i4 == i4 && i4 >= KERNEL_SLOT && Entry(m, root, i4) == ZERO) ::
            Walk(m', r, q) == Walk(m, r, q))
      && (i4 < KERNEL_SLOT || Present(Entry(m, root, i4)) || Entry(m, kernel, i4) == ZERO ==> SameWalks(m, m'))
      && g in m'.up && m'.up[g] == ChildPos(Root, root, i4)
      && Entry(m', root, i4).frame == g && PointsTo(m', Entry(m', root, i4), m'.up[g])
      && (Present(Entry(m, root, i4)) || IsEmpty(m', g))
  {
    assert EntryOk(m, root, i4);
    DescendOk(m, root, i4);
    var (m1, g) := Descend(m, root, i4).value;
    if !Present(Entry(m, root, i4)) && root != kernel && i4 >= KERNEL_SLOT {
      CopySlotInv(m1, kernel, i4, Entry(m1, root, i4));
    }
  }

  lemma MapTablesReady(m: Mem, kernel: Frame, root: Frame, p: Path)
    requires Mappable(m, kernel, root, p)
    ensures
      var d3 := DescendTop(m, kernel, root, p.i4);
      d3.Some? ==>
        && CanDescend(d3.value.0, d3.value.1, p.i3)
        && var d2 := Descend(d3.value.0, d3.value.1, p.i3);
          d2.Some? ==> CanDescend(d2.value.0, d2.value.1, p.i2)
  {
    var d3 := DescendTop(m, kernel, root, p.i4);
    if d3.Some? {
      DescendTopOk(m, kernel, root, p.i4);
      var (m3, g3) := d3.value;
      assert EntryOk(m3, g3, p.i3);
      assert Walk(m3, root, p) == Walk(m, root, p);
      var d2 := Descend(m3, g3, p.i3);
      if d2.Some? {
        DescendOk(m3, g3, p.i3);
        var (m2, g2) := d2.value;
        assert EntryOk(m2, g2, p.i2);
      }
    }
  }

  /** True of the one view that map_page may spoil: the kernel root's own slot, when
      another root lacked that slot (the code overwrites pml4[slot] in any case). */
  ghost predicate SlotClobbered(m: Mem, kernel: Frame, root: Frame, i4: nat)
  {
    root != kernel && i4 >= KERNEL_SLOT && Entry(m, root, i4) == ZERO && Entry(m, kernel, i4) != ZERO
  }

  lemma MapTablesOk(m: Mem, kernel: Frame, root: Frame, p: Path)
    requires Mappable(m, kernel, root, p) && MapTables(m, kernel, root, p).Some?
    ensures
      var (m', g) := MapTables(m, kernel, root, p).value;
      && Extends(m, m')
      && LastTable(m', root, p) == (true, g) && g in m'.up && Level(m'.up[g]) == 1
      && (forall r, q | IsRoot(m, r) && ValidPath(q) && !(r == kernel && q.i4 == p.i4 && SlotClobbered(m, kernel, root, p.i4)) ::
            Walk(m', r, q) == Walk(m, r, q))
  {
    hide Walk, HeldUp, Descend, DescendTop;
    MapTablesReady(m, kernel, root, p);
    DescendTopOk(m, kernel, root, p.i4);
    var (m3, g3) := DescendTop(m, kernel, root, p.i4).value;
    DescendOk(m3, g3, p.i3);
    var (m2, g2) := Descend(m3, g3, p.i3).value;
    DescendOk(m2, g2, p.i2);
    var (m1, g1) := Descend(m2, g2, p.i2).value;
    assert LastTable(m1, root, p) == (true, g1) by {
      assert Entry(m1, root, p.i4) == Entry(m3, root, p.i4);
      assert Entry(m1, g3, p.i3) == Entry(m2, g3, p.i3);
    }
    ExtendsTrans(m3, m2, m1);
    ExtendsTrans(m, m3, m1);
    forall r, q | IsRoot(m, r) && ValidPath(q) && !(r == kernel && q.i4 == p.i4 && SlotClobbered(m, kernel, root, p.i4))
      ensures Walk(m1, r, q) == Walk(m, r, q)
    {
      assert EntryOk(m, root, p.i4);
      assert Walk(m3, r, q) == Walk(m, r, q);
      assert Walk(m2, r, q) == Walk(m3, r, q);
    }
  }

  lemma ExtendsTrans(a: Mem, b: Mem, c: Mem)
    requires Extends(a, b) && Extends(b, c)
    ensures Extends(a, c)
  {
  }

  /** vmm_map_page; None when a table could not be allocated. */
  ghost function MapPage(m: Mem, kernel: Frame, root: Frame, p: Path, leaf: Pte): Option<Mem>
    requires Mappable(m, kernel, root, p)
  {
    var d := MapTables(m, kernel, root, p);
    if d.None? then None else
    MapTablesOk(m, kernel, root, p);
    Some(WriteEntry(d.value.0, d.value.1, p.i1, leaf))
  }

  /** Every table entry that a map changes is present, writable and user. */
  lemma NewTablesOpen(m: Mem, kernel: Frame, root: Frame, p: Path, leaf: Pte, f: Frame, i: nat)
    requires Mappable(m, kernel, root, p) && MapPage(m, kernel, root, p, leaf).Some? && i < ENTRIES
    ensures
      var m' := MapPage(m, kernel, root, p, leaf).value;
      f in m'.up && Level(m'.up[f]) >= 2 ==> Entry(m', f, i) == Entry(m, f, i) || Entry(m', f, i) == TableEntry(Entry(m', f, i).frame)
  {
    hide Walk, LastTable, EntryOk, HeldUp;
    MapTablesOk(m, kernel, root, p);
    var m3, g3, m2, g2, m1, g1 := MapTrace(m, kernel, root, p);
    TopOpen(m, kernel, root, p.i4, f, i);
    DescendOpen(m3, g3, p.i3, f, i);
    DescendOpen(m2, g2, p.i2, f, i);
  }

  lemma DescendOpen(m: Mem, g: Frame, j: nat, f: Frame, i: nat)
    requires CanDescend(m, g, j) && Descend(m, g, j).Some?
    ensures
      var e := Entry(Descend(m, g, j).value.0, f, i);
      e == Entry(m, f, i) || e == TableEntry(e.frame) || (e == ZERO && f !in m.up)
  {
  }

  lemma TopOpen(m: Mem, kernel: Frame, root: Frame, i4: nat, f: Frame, i: nat)
    requires Inv(m) && IsRoot(m, root) && IsRoot(m, kernel) && i4 < ENTRIES && DescendTop(m, kernel, root, i4).Some?
    ensures
      var e := Entry(DescendTop(m, kernel, root, i4).value.0, f, i);
      e == Entry(m, f, i) || e == TableEntry(e.frame) || (e == ZERO && f !in m.up)
  {
    hide HeldUp;
    assert EntryOk(m, root, i4);
  }

  /** Bit b is set at every level of the walk of p, which ends in a page: what the processor asks for a write
      (bit 1) or an access from user mode (bit 2), section 4.6 of the Intel SDM. */
  ghost predicate Allows(m: Mem, root: Frame, p: Path, b: nat)
  {
    var e4 := Entry(m, root, p.i4);
    var e3 := Entry(m, e4.frame, p.i3);
    var e2 := Entry(m, e3.frame, p.i2);
    Walk(m, root, p).Page? && Bit(e4.flags, b) && Bit(e3.flags, b) && Bit(e2.flags, b) && Bit(Walk(m, root, p).pte.flags, b)
  }

  /** In a lower half the leaf alone decides. */
  lemma LeafDecides(m: Mem, root: Frame, p: Path, b: nat)
    requires Inv(m) && IsRoot(m, root) && ValidPath(p) && p.i4 < KERNEL_SLOT && Walk(m, root, p).Page? && b <= USER
    ensures Allows(m, root, p, b) <==> Bit(Walk(m, root, p).pte.flags, b)
  {
    hide HeldUp, Bit;
    var e4 := Entry(m, root, p.i4);
    assert EntryOk(m, root, p.i4);
    var e3 := Entry(m, e4.frame, p.i3);
    assert EntryOk(m, e4.frame, p.i3);
    var e2 := Entry(m, e3.frame, p.i2);
    assert EntryOk(m, e3.frame, p.i2);
    TableBits(e4.frame, b);
    TableBits(e3.frame, b);
    TableBits(e2.frame, b);
  }

  /** The rights of a page just mapped are those asked for: its leaf has exactly the bits of flags, and is
      present.  In a lower half it may be written, or used in user mode, exactly as flags says. */
  lemma MapRights(m: Mem, kernel: Frame, root: Frame, p: Path, f: Frame, flags: nat)
    requires Mappable(m, kernel, root, p) && MapPage(m, kernel, root, p, LeafEntry(f, flags)).Some?
    ensures
      var m' := MapPage(m, kernel, root, p, LeafEntry(f, flags)).value;
      && Walk(m', root, p).Page? && Walk(m', root, p).pte.frame == f
      && (forall b: nat :: Bit(Walk(m', root, p).pte.flags, b) <==> b == 0 || Bit(flags, b))
      && (p.i4 < KERNEL_SLOT ==> (Allows(m', root, p, WRITE) <==> Bit(flags, WRITE)) && (Allows(m', root, p, USER) <==> Bit(flags, USER)))
  {
    hide Walk, Bit, MapPage, Allows;
    var m' := MapPage(m, kernel, root, p, LeafEntry(f, flags)).value;
    MapPageRefines(m, kernel, root, p, LeafEntry(f, flags));
    forall b: nat
      ensures Bit(LeafEntry(f, flags).flags, b) <==> b == 0 || Bit(flags, b)
    {
      LeafBits(f, flags, b);
    }
    if p.i4 < KERNEL_SLOT {
      LeafDecides(m', root, p, WRITE);
      LeafDecides(m', root, p, USER);
    }
  }

  /** Two roots reach the page of p through the same level-1 table. */
  ghost predicate SeesPage(m: Mem, root: Frame, r: Frame, p: Path)
  {
    LastTable(m, r, p).0 && LastTable(m, r, p) == LastTable(m, root, p)
  }

  /** Mapping is a single-point update of the flat page map, in every address
      space at once: the page gets the new leaf wherever its table is shared, and no
      other page of any space moves (but for the clobbered kernel slot). */
  lemma MapPageRefines(m: Mem, kernel: Frame, root: Frame, p: Path, leaf: Pte)
    requires Mappable(m, kernel, root, p) && Present(leaf) && MapPage(m, kernel, root, p, leaf).Some?
    ensures
      var m' := MapPage(m, kernel, root, p, leaf).value;
      && Extends(m, m')
      && Walk(m', root, p) == Page(leaf)
      && (forall q | ValidPath(q) && q != p :: Walk(m', root, q) == Walk(m, root, q))
      && (forall r, q | IsRoot(m, r) && ValidPath(q) && !(r == kernel && q.i4 == p.i4 && SlotClobbered(m, kernel, root, p.i4)) ::
            Walk(m', r, q) == if q == p && SeesPage(m', root, r, p) then Page(leaf) else Walk(m, r, q))
      && (p.i4 < KERNEL_SLOT ==> forall r | IsRoot(m, r) && r != root :: !SeesPage(m', root, r, p))
  {
    MapTablesOk(m, kernel, root, p);
    var (m1, g) := MapTables(m, kernel, root, p).value;
    var m' := MapPage(m, kernel, root, p, leaf).value;
    WriteLeafInv(m1, g, p.i1, leaf);
    forall r, q | IsRoot(m, r) && ValidPath(q)
      ensures LastTable(m', r, q) == LastTable(m1, r, q)
      ensures Walk(m', r, q) == if q == p && SeesPage(m', root, r, p) then Page(leaf) else Walk(m1, r, q)
      ensures p.i4 < KERNEL_SLOT && r != root ==> !SeesPage(m', root, r, p)
    {
      WriteLeafWalk(m1, g, p.i1, leaf, r, q);
      WriteLeafWalk(m1, g, p.i1, leaf, r, p);
      WriteLeafWalk(m1, g, p.i1, leaf, root, p);
      if LastTable(m1, r, q) == (true, g) {
        LastTableUnique(m1, root, p, r, q);
      }
      if LastTable(m1, r, p) == (true, g) {
        LastTableUnique(m1, root, p, r, p);
      }
    }
  }

  // ---------------------------------------------------------------- addresses

  /** Two virtual addresses use the same indices exactly when they agree on bits 12..47. */
  lemma PathOfSamePage(v: nat, w: nat)
    ensures PathOf(v) == PathOf(w) <==> v / 0x1000 % 0x10_0000_0000 == w / 0x1000 % 0x10_0000_0000
  {
    PathOfDigits(v);
    PathOfDigits(w);
    if v / 0x1000 % 0x10_0000_0000 == w / 0x1000 % 0x10_0000_0000 {
      DigitsUnique(PathOf(v), PathOf(w));
    }
  }

  lemma DigitsUnique(p: Path, q: Path)
    requires ValidPath(p) && ValidPath(q)
    requires ((p.i4 * 0x200 + p.i3) * 0x200 + p.i2) * 0x200 + p.i1 == ((q.i4 * 0x200 + q.i3) * 0x200 + q.i2) * 0x200 + q.i1
    ensures p == q
  {
    LastDigit((p.i4 * 0x200 + p.i3) * 0x200 + p.i2, p.i1, (q.i4 * 0x200 + q.i3) * 0x200 + q.i2, q.i1);
    LastDigit(p.i4 * 0x200 + p.i3, p.i2, q.i4 * 0x200 + q.i3, q.i2);
    LastDigit(p.i4, p.i3, q.i4, q.i3);
  }

  lemma LastDigit(a: nat, i: nat, b: nat, j: nat)
    requires i < 0x200 && j < 0x200 && a * 0x200 + i == b * 0x200 + j
    ensures a == b && i == j
  {
  }

  lemma PathOfDigits(v: nat)
    ensures
      var p := PathOf(v);
      v / 0x1000 % 0x10_0000_0000 == ((p.i4 * 0x200 + p.i3) * 0x200 + p.i2) * 0x200 + p.i1
  {
    var n := v / 0x1000;
    PageNumbers(v);
    var a, b, c := n / 0x200, n / 0x200 / 0x200, n / 0x200 / 0x200 / 0x200;
    assert n == a * 0x200 + n % 0x200 && a == b * 0x200 + a % 0x200 && b == c * 0x200 + b % 0x200;
    Remainder(n, c / 0x200, ((c % 0x200 * 0x200 + b % 0x200) * 0x200 + a % 0x200) * 0x200 + n % 0x200);
  }

  lemma PageNumbers(v: nat)
    ensures v / 0x20_0000 == v / 0x1000 / 0x200
    ensures v / 0x4000_0000 == v / 0x1000 / 0x200 / 0x200
    ensures v / 0x80_0000_0000 == v / 0x1000 / 0x200 / 0x200 / 0x200
  {
  }

  lemma Remainder(n: nat, d: nat, r: nat)
    requires n == d * 0x10_0000_0000 + r && r < 0x10_0000_0000
    ensures n % 0x10_0000_0000 == r
  {
  }

  /** vmm_get_phys after vmm_map_page, by address: the new frame plus the offset on
      the mapped page, and the old answer everywhere else. */
  lemma GetPhysAfterMap(m: Mem, kernel: Frame, root: Frame, virt: nat, phys: nat, flags: nat)
    requires Mappable(m, kernel, root, PathOf(virt)) && flags < 0x1000
    requires MapPage(m, kernel, root, PathOf(virt), LeafEntry(phys / 0x1000, flags)).Some?
    ensures
      var m' := MapPage(m, kernel, root, PathOf(virt), LeafEntry(phys / 0x1000, flags)).value;
      forall w: nat ::
        GetPhys(m', root, w) ==
          if w / 0x1000 % 0x10_0000_0000 == virt / 0x1000 % 0x10_0000_0000
          then phys / 0x1000 * 0x1000 + w % 0x1000
          else GetPhys(m, root, w)
  {
    MapPageRefines(m, kernel, root, PathOf(virt), LeafEntry(phys / 0x1000, flags));
    forall w: nat
      ensures PathOf(w) == PathOf(virt) <==> w / 0x1000 % 0x10_0000_0000 == virt / 0x1000 % 0x10_0000_0000
    {
      PathOfSamePage(w, virt);
    }
  }

  // ---------------------------------------------------------------- vmm_unmap_page

  /** Clear a leaf and, unless KEEPPHYS, hand its frame to pmm_ffree, which ignores unmanaged frames. */
  ghost function ClearLeaf(m: Mem, g: Frame, i: nat, keep: bool): Mem
    requires g in m.tables && i < |m.tables[g]|
  {
    var m1 := WriteEntry(m, g, i, ZERO);
    var f := Entry(m, g, i).frame;
    if keep || f >= m.limit then m1 else m1.(free := m1.free + {f})
  }

  /** Free the tables of a path bottom-up while they are empty (lower half only). */
  ghost function Reclaim(m: Mem, root: Frame, p: Path): Mem
    requires Inv(m) && IsRoot(m, root) && ValidPath(p) && p.i4 < KERNEL_SLOT && LastTable(m, root, p).0
  {
    LastTablePos(m, root, p);
    var g3 := Entry(m, root, p.i4).frame;
    var g2 := Entry(m, g3, p.i3).frame;
    var g1 := LastTable(m, root, p).1;
    if !IsEmpty(m, g1) then m else
    RemoveChildInv(m, g2, p.i2, g1);
    var m2 := RemoveChild(m, g2, p.i2, g1);
    if !IsEmpty(m2, g2) then m2 else
    RemoveChildInv(m2, g3, p.i3, g2);
    var m3 := RemoveChild(m2, g3, p.i3, g2);
    if !IsEmpty(m3, g3) then m3 else
    RemoveChildInv(m3, root, p.i4, g3);
    RemoveChild(m3, root, p.i4, g3)
  }

  ghost predicate Unmappable(m: Mem, root: Frame, p: Path, keep: bool)
  {
    && Inv(m) && IsRoot(m, root) && ValidPath(p) && !Walk(m, root, p).HugePage?
    && (!keep && LastTable(m, root, p).0 ==> Entry(m, LastTable(m, root, p).1, p.i1).frame !in m.up)
  }

  ghost function UnmapPage(m: Mem, root: Frame, p: Path, keep: bool): Mem
    requires Unmappable(m, root, p, keep)
  {
    var (found, g) := LastTable(m, root, p);
    if !found then m else
    LastTablePos(m, root, p);
    ClearLeafOk(m, g, p.i1, keep);
    ClearLeafWalk(m, g, p.i1, keep, root, p);
    var m1 := ClearLeaf(m, g, p.i1, keep);
    if p.i4 >= KERNEL_SLOT then m1 else Reclaim(m1, root, p)
  }

  lemma ClearLeafOk(m: Mem, g: Frame, i: nat, keep: bool)
    requires Inv(m) && g in m.up && i < ENTRIES && Level(m.up[g]) == 1
    requires keep || Entry(m, g, i).frame !in m.up
    ensures Inv(ClearLeaf(m, g, i, keep))
  {
    WriteLeafInv(m, g, i, ZERO);
    var m1 := WriteEntry(m, g, i, ZERO);
    var m' := ClearLeaf(m, g, i, keep);
    SameTablesInv(m1, m');
  }

  /** Inv speaks of the free set only through disjointness and the frame limit. */
  lemma SameTablesInv(m: Mem, m': Mem)
    requires Inv(m) && m'.tables == m.tables && m'.up == m.up && m'.limit == m.limit
    requires m'.free !! m.up.Keys && forall f | f in m'.free :: f < m.limit
    ensures Inv(m')
  {
    forall h, j: nat | h in m'.up && j < ENTRIES
      ensures EntryOk(m', h, j)
    {
      assert EntryOk(m, h, j);
    }
    forall h | h in m'.up
      ensures HeldUp(m', h)
    {
      assert HeldUp(m, h);
    }
  }

  lemma ClearLeafWalk(m: Mem, g: Frame, i: nat, keep: bool, root: Frame, p: Path)
    requires Inv(m) && g in m.up && i < ENTRIES && Level(m.up[g]) == 1
    requires IsRoot(m, root) && ValidPath(p)
    ensures LastTable(ClearLeaf(m, g, i, keep), root, p) == LastTable(m, root, p)
    ensures Walk(ClearLeaf(m, g, i, keep), root, p) ==
              if LastTable(m, root, p) == (true, g) && p.i1 == i then Unmapped else Walk(m, root, p)
  {
    WriteLeafWalk(m, g, i, ZERO, root, p);
  }

  /** m' has lost only lower-half tables of root, whose frames are free again. */
  ghost predicate Shrinks(m: Mem, m': Mem, root: Frame)
  {
    && SameWalks(m, m') && m'.limit == m.limit
    && (forall h | h in m'.up :: h in m.up && m'.up[h] == m.up[h])
    && (forall h | h in m.up && h !in m'.up :: m.up[h].Child? && m.up[h].zone == Low(root))
    && m'.up.Keys + m'.free == m.up.Keys + m.free
  }

  lemma ShrinksTrans(a: Mem, b: Mem, c: Mem, root: Frame)
    requires Shrinks(a, b, root) && Shrinks(b, c, root)
    ensures Shrinks(a, c, root)
  {
    forall r, q | IsRoot(a, r) && ValidPath(q)
      ensures Walk(c, r, q) == Walk(a, r, q)
    {
      assert IsRoot(b, r);
      assert Walk(b, r, q) == Walk(a, r, q);
    }
  }

  lemma RemoveOk(m: Mem, f: Frame, i: nat, g: Frame, root: Frame)
    requires CanRemove(m, f, i, g) && m.up[g].zone == Low(root)
    ensures f in m.tables && i < |m.tables[f]| && f != g
    ensures Inv(RemoveChild(m, f, i, g)) && Shrinks(m, RemoveChild(m, f, i, g), root)
  {
    RemoveChildInv(m, f, i, g);
    forall r, q | IsRoot(m, r) && ValidPath(q)
      ensures Walk(RemoveChild(m, f, i, g), r, q) == Walk(m, r, q)
    {
      RemoveChildWalk(m, f, i, g, r, q);
    }
  }

  /** Reclaiming changes no translation and only returns frames to the pool. */
  lemma ReclaimOk(m: Mem, root: Frame, p: Path)
    requires Inv(m) && IsRoot(m, root) && ValidPath(p) && p.i4 < KERNEL_SLOT && LastTable(m, root, p).0
    ensures Inv(Reclaim(m, root, p)) && Shrinks(m, Reclaim(m, root, p), root)
  {
    LastTablePos(m, root, p);
    var g3 := Entry(m, root, p.i4).frame;
    var g2 := Entry(m, g3, p.i3).frame;
    var g1 := LastTable(m, root, p).1;
    if IsEmpty(m, g1) {
      RemoveOk(m, g2, p.i2, g1, root);
      var m2 := RemoveChild(m, g2, p.i2, g1);
      if IsEmpty(m2, g2) {
        RemoveOk(m2, g3, p.i3, g2, root);
        var m3 := RemoveChild(m2, g3, p.i3, g2);
        ShrinksTrans(m, m2, m3, root);
        if IsEmpty(m3, g3) {
          RemoveOk(m3, root, p.i4, g3, root);
          ShrinksTrans(m, m3, RemoveChild(m3, root, p.i4, g3), root);
        }
      }
    }
  }

  lemma NoTableNoPage(m: Mem, root: Frame, p: Path)
    requires !LastTable(m, root, p).0 && !Walk(m, root, p).HugePage?
    ensures Walk(m, root, p) == Unmapped
  {
  }

  /** Unmapping is the matching single-point update: the page disappears wherever its
      table is shared, and no other page of any address space moves. */
  lemma UnmapPageRefines(m: Mem, root: Frame, p: Path, keep: bool)
    requires Unmappable(m, root, p, keep)
    ensures
      var m' := UnmapPage(m, root, p, keep);
      && Inv(m') && m'.limit == m.limit
      && Walk(m', root, p) == Unmapped
      && (forall r, q | IsRoot(m, r) && ValidPath(q) ::
            Walk(m', r, q) == if q == p && SeesPage(m, root, r, p) then Unmapped else Walk(m, r, q))
      && (forall h | h in m'.up :: h in m.up && m'.up[h] == m.up[h])
      && (forall h | h in m.up && h !in m'.up :: m.up[h].Child? && m.up[h].zone == Low(root))
  {
    hide EntryOk, HeldUp, Walk, Reclaim;
    var (found, g) := LastTable(m, root, p);
    if !found {
      NoTableNoPage(m, root, p);
    } else {
      LastTablePos(m, root, p);
      ClearLeafOk(m, g, p.i1, keep);
      ClearLeafWalk(m, g, p.i1, keep, root, p);
      var m1 := ClearLeaf(m, g, p.i1, keep);
      forall r, q | IsRoot(m, r) && ValidPath(q)
        ensures Walk(m1, r, q) == if q == p && SeesPage(m, root, r, p) then Unmapped else Walk(m, r, q)
      {
        ClearLeafWalk(m, g, p.i1, keep, r, q);
        if LastTable(m, r, q) == (true, g) {
          LastTableUnique(m, root, p, r, q);
        }
      }
      if p.i4 < KERNEL_SLOT {
        ReclaimOk(m1, root, p);
      }
    }
  }

  /** vmm_get_phys after vmm_unmap_page, by address. */
  lemma GetPhysAfterUnmap(m: Mem, root: Frame, virt: nat, keep: bool)
    requires Unmappable(m, root, PathOf(virt), keep)
    ensures
      var m' := UnmapPage(m, root, PathOf(virt), keep);
      forall w: nat ::
        GetPhys(m', root, w) ==
          if w / 0x1000 % 0x10_0000_0000 == virt / 0x1000 % 0x10_0000_0000 then 0
          else GetPhys(m, root, w)
  {
    var p := PathOf(virt);
    UnmapPageRefines(m, root, p, keep);
    forall w: nat
      ensures PathOf(w) == p <==> w / 0x1000 % 0x10_0000_0000 == virt / 0x1000 % 0x10_0000_0000
    {
      PathOfSamePage(w, virt);
    }
  }

  // ---------------------------------------------------------------- no empty tables

  /** No non-root table of the lower half is empty. */
  ghost predicate Lean(m: Mem)
  {
    forall g | g in m.up && m.up[g].Child? && m.up[g].zone.Low? :: !IsEmpty(m, g)
  }

  ghost predicate LeanBut(m: Mem, f: Frame)
  {
    forall g | g in m.up && g != f && m.up[g].Child? && m.up[g].zone.Low? :: !IsEmpty(m, g)
  }

  lemma NotEmpty(m: Mem, g: Frame, i: nat)
    requires g in m.tables && i < |m.tables[g]| && Entry(m, g, i) != ZERO
    ensures !IsEmpty(m, g)
  {
  }

  lemma DescendLean(m: Mem, f: Frame, i: nat)
    requires CanDescend(m, f, i) && Descend(m, f, i).Some? && LeanBut(m, f)
    ensures LeanBut(Descend(m, f, i).value.0, Descend(m, f, i).value.1)
  {
    DescendOk(m, f, i);
    assert EntryOk(m, f, i);
    var (m', g) := Descend(m, f, i).value;
    NotEmpty(m', f, i);
    forall h | h in m'.up && h != g && m'.up[h].Child? && m'.up[h].zone.Low?
      ensures !IsEmpty(m', h)
    {
      if h != f {
        assert h in m.up && !IsEmpty(m, h);
        var j :| 0 <= j < |m.tables[h]| && m.tables[h][j] != ZERO;
        assert Entry(m', h, j) == Entry(m, h, j);
        NotEmpty(m', h, j);
      }
    }
  }

  /** Writing a present entry into f leaves no table empty that was not empty, except possibly f's gain. */
  lemma WriteLean(m: Mem, f: Frame, i: nat, e: Pte)
    requires f in m.tables && i < |m.tables[f]| && e != ZERO && LeanBut(m, f)
    ensures Lean(WriteEntry(m, f, i, e))
  {
    var m' := WriteEntry(m, f, i, e);
    NotEmpty(m', f, i);
    forall g | g in m'.up && g != f && m'.up[g].Child? && m'.up[g].zone.Low?
      ensures !IsEmpty(m', g)
    {
      assert !IsEmpty(m, g);
    }
  }

  lemma DescendTopLean(m: Mem, kernel: Frame, root: Frame, i4: nat)
    requires Inv(m) && IsRoot(m, root) && IsRoot(m, kernel) && i4 < ENTRIES
    requires DescendTop(m, kernel, root, i4).Some? && Lean(m)
    ensures LeanBut(DescendTop(m, kernel, root, i4).value.0, DescendTop(m, kernel, root, i4).value.1)
  {
    assert EntryOk(m, root, i4);
    DescendLean(m, root, i4);
    var (n3, h3) := Descend(m, root, i4).value;
    var (m3, g3) := DescendTop(m, kernel, root, i4).value;
    forall g | g in m3.up && g != g3 && m3.up[g].Child? && m3.up[g].zone.Low?
      ensures !IsEmpty(m3, g)
    {
      assert !IsEmpty(n3, g);
    }
  }

  lemma MapTablesLean(m: Mem, kernel: Frame, root: Frame, p: Path)
    requires Mappable(m, kernel, root, p) && MapTables(m, kernel, root, p).Some? && Lean(m)
    ensures LeanBut(MapTables(m, kernel, root, p).value.0, MapTables(m, kernel, root, p).value.1)
  {
    MapTablesReady(m, kernel, root, p);
    DescendTopLean(m, kernel, root, p.i4);
    var (m3, g3) := DescendTop(m, kernel, root, p.i4).value;
    DescendLean(m3, g3, p.i3);
    var (m2, g2) := Descend(m3, g3, p.i3).value;
    DescendLean(m2, g2, p.i2);
  }

  lemma MapPageLean(m: Mem, kernel: Frame, root: Frame, p: Path, leaf: Pte)
    requires Mappable(m, kernel, root, p) && Present(leaf) && MapPage(m, kernel, root, p, leaf).Some? && Lean(m)
    ensures Lean(MapPage(m, kernel, root, p, leaf).value)
  {
    MapTablesOk(m, kernel, root, p);
    MapTablesLean(m, kernel, root, p);
    WriteLean(MapTables(m, kernel, root, p).value.0, MapTables(m, kernel, root, p).value.1, p.i1, leaf);
  }

  lemma RemoveLean(m: Mem, f: Frame, i: nat, g: Frame)
    requires CanRemove(m, f, i, g) && LeanBut(m, g)
    ensures f in m.tables && i < |m.tables[f]|
    ensures LeanBut(RemoveChild(m, f, i, g), f)
  {
    RemoveChildInv(m, f, i, g);
    var m' := RemoveChild(m, f, i, g);
    forall h | h in m'.up && h != f && m'.up[h].Child? && m'.up[h].zone.Low?
      ensures !IsEmpty(m', h)
    {
      assert !IsEmpty(m, h);
    }
  }

  lemma UnmapPageLean(m: Mem, root: Frame, p: Path, keep: bool)
    requires Unmappable(m, root, p, keep) && Lean(m)
    ensures Lean(UnmapPage(m, root, p, keep))
  {
    var (found, g1) := LastTable(m, root, p);
    if found {
      LastTablePos(m, root, p);
      ClearLeafOk(m, g1, p.i1, keep);
      ClearLeafWalk(m, g1, p.i1, keep, root, p);
      var m1 := ClearLeaf(m, g1, p.i1, keep);
      assert LeanBut(m1, g1) by {
        forall h | h in m1.up && h != g1 && m1.up[h].Child? && m1.up[h].zone.Low?
          ensures !IsEmpty(m1, h)
        {
          assert !IsEmpty(m, h);
        }
      }
      if p.i4 < KERNEL_SLOT {
        ReclaimLean(m1, root, p);
      }
    }
  }

  lemma ReclaimLean(m: Mem, root: Frame, p: Path)
    requires Inv(m) && IsRoot(m, root) && ValidPath(p) && p.i4 < KERNEL_SLOT && LastTable(m, root, p).0
    requires LeanBut(m, LastTable(m, root, p).1)
    ensures Lean(Reclaim(m, root, p))
  {
    LastTablePos(m, root, p);
    var g3 := Entry(m, root, p.i4).frame;
    var g2 := Entry(m, g3, p.i3).frame;
    var g1 := LastTable(m, root, p).1;
    if IsEmpty(m, g1) {
      RemoveOk(m, g2, p.i2, g1, root);
      RemoveLean(m, g2, p.i2, g1);
      var m2 := RemoveChild(m, g2, p.i2, g1);
      if IsEmpty(m2, g2) {
        RemoveOk(m2, g3, p.i3, g2, root);
        RemoveLean(m2, g3, p.i3, g2);
        var m3 := RemoveChild(m2, g3, p.i3, g2);
        if IsEmpty(m3, g3) {
          RemoveOk(m3, root, p.i4, g3, root);
          RemoveLean(m3, root, p.i4, g3);
        }
      }
    }
  }

  // ---------------------------------------------------------------- map then unmap

  lemma RemoveUndoesAdd(m: Mem, f: Frame, i: nat, g: Frame)
    requires CanAdd(m, f, i, g)
    ensures RemoveChild(AddChild(m, f, i, g), f, i, g) == m
  {
    var m' := RemoveChild(AddChild(m, f, i, g), f, i, g);
    assert m'.tables[f] == m.tables[f];
    assert m'.tables == m.tables;
    assert m'.up == m.up;
    assert m'.free == m.free;
  }

  /** At one level, either nothing was added, or the table added is empty and removing it goes back. */
  ghost predicate Undone(m: Mem, m': Mem, f: Frame, i: nat, g: Frame, had: bool)
  {
    if had then m' == m
    else IsEmpty(m', g) && f in m'.tables && i < |m'.tables[f]| && RemoveChild(m', f, i, g) == m
  }

  lemma DescendUndone(m: Mem, f: Frame, i: nat)
    requires CanDescend(m, f, i) && Descend(m, f, i).Some?
    ensures Undone(m, Descend(m, f, i).value.0, f, i, Descend(m, f, i).value.1, Present(Entry(m, f, i)))
  {
    assert EntryOk(m, f, i);
    if !Present(Entry(m, f, i)) {
      RemoveUndoesAdd(m, f, i, Lowest(m.free));
    }
  }

  lemma ReclaimChain(m: Mem, m3: Mem, m2: Mem, m1: Mem, root: Frame, p: Path, g3: Frame, g2: Frame, g1: Frame, a4: bool, a3: bool, a2: bool)
    requires Inv(m1) && IsRoot(m1, root) && ValidPath(p) && p.i4 < KERNEL_SLOT
    requires LastTable(m1, root, p) == (true, g1) && Entry(m1, root, p.i4).frame == g3 && Entry(m1, g3, p.i3).frame == g2
    requires Undone(m, m3, root, p.i4, g3, a4) && Undone(m3, m2, g3, p.i3, g2, a3) && Undone(m2, m1, g2, p.i2, g1, a2)
    requires (a2 ==> a3) && (a3 ==> a4)
    requires (a4 ==> !IsEmpty(m, g3)) && (a3 ==> !IsEmpty(m, g2)) && (a2 ==> !IsEmpty(m, g1))
    ensures Reclaim(m1, root, p) == m
  {
    LastTablePos(m1, root, p);
  }

  /** The intermediate memories and tables of a mapping, with the entries that link them. */
  lemma MapTrace(m: Mem, kernel: Frame, root: Frame, p: Path)
    returns (m3: Mem, g3: Frame, m2: Mem, g2: Frame, m1: Mem, g1: Frame)
    requires Mappable(m, kernel, root, p) && MapTables(m, kernel, root, p).Some?
    ensures DescendTop(m, kernel, root, p.i4) == Some((m3, g3))
    ensures CanDescend(m3, g3, p.i3) && Descend(m3, g3, p.i3) == Some((m2, g2))
    ensures CanDescend(m2, g2, p.i2) && Descend(m2, g2, p.i2) == Some((m1, g1))
    ensures MapTables(m, kernel, root, p) == Some((m1, g1))
    ensures Entry(m1, root, p.i4).frame == g3 && Entry(m1, g3, p.i3).frame == g2
    ensures Present(Entry(m2, g2, p.i2)) ==> Present(Entry(m3, g3, p.i3))
    ensures Present(Entry(m3, g3, p.i3)) ==> Present(Entry(m, root, p.i4))
    ensures forall r | IsRoot(m, r) :: Entry(m1, r, p.i4) == Entry(m3, r, p.i4)
  {
    hide EntryOk, HeldUp, Inv, Walk, Descend, DescendTop;
    MapTablesReady(m, kernel, root, p);
    DescendTopOk(m, kernel, root, p.i4);
    m3, g3 := DescendTop(m, kernel, root, p.i4).value.0, DescendTop(m, kernel, root, p.i4).value.1;
    DescendOk(m3, g3, p.i3);
    m2, g2 := Descend(m3, g3, p.i3).value.0, Descend(m3, g3, p.i3).value.1;
    DescendOk(m2, g2, p.i2);
    m1, g1 := Descend(m2, g2, p.i2).value.0, Descend(m2, g2, p.i2).value.1;
    assert Entry(m1, root, p.i4) == Entry(m2, root, p.i4) == Entry(m3, root, p.i4);
    assert Entry(m1, g3, p.i3) == Entry(m2, g3, p.i3);
  }

  lemma ReclaimUndoesMapTables(m: Mem, kernel: Frame, root: Frame, p: Path)
    requires Mappable(m, kernel, root, p) && MapTables(m, kernel, root, p).Some?
    requires Lean(m) && p.i4 < KERNEL_SLOT
    ensures
      var m1 := MapTables(m, kernel, root, p).value.0;
      Inv(m1) && IsRoot(m1, root) && LastTable(m1, root, p).0 && Reclaim(m1, root, p) == m
  {
    var m3, g3, m2, g2, m1, g1 := MapTrace(m, kernel, root, p);
    MapTablesOk(m, kernel, root, p);
    assert EntryOk(m, root, p.i4);
    DescendUndone(m, root, p.i4);
    DescendUndone(m3, g3, p.i3);
    DescendUndone(m2, g2, p.i2);
    LastTablePos(m1, root, p);
    var a4, a3, a2 := Present(Entry(m, root, p.i4)), Present(Entry(m3, g3, p.i3)), Present(Entry(m2, g2, p.i2));
    assert (a4 ==> g3 in m.up) && (a3 ==> g2 in m.up) && (a2 ==> g1 in m.up);
    ReclaimChain(m, m3, m2, m1, root, p, g3, g2, g1, a4, a3, a2);
  }

  /** Mapping an unmapped lower-half page and unmapping it with UNMAP_KEEPPHYS
      restores the page tables and the frame bitmap exactly. */
  lemma MapThenUnmap(m: Mem, kernel: Frame, root: Frame, p: Path, leaf: Pte)
    requires Mappable(m, kernel, root, p) && Present(leaf) && MapPage(m, kernel, root, p, leaf).Some?
    requires Lean(m) && p.i4 < KERNEL_SLOT && Walk(m, root, p) == Unmapped
    ensures
      var m' := MapPage(m, kernel, root, p, leaf).value;
      Unmappable(m', root, p, true) && UnmapPage(m', root, p, true) == m
  {
    MapTablesOk(m, kernel, root, p);
    ReclaimUndoesMapTables(m, kernel, root, p);
    var (m1, g) := MapTables(m, kernel, root, p).value;
    WriteLeafInv(m1, g, p.i1, leaf);
    WriteLeafWalk(m1, g, p.i1, leaf, root, p);
    assert EntryOk(m1, g, p.i1);
    assert Walk(m1, root, p) == Unmapped;
    ClearUndoesWrite(m1, g, p.i1, leaf);
  }

  lemma ClearUndoesWrite(m: Mem, g: Frame, i: nat, leaf: Pte)
    requires g in m.tables && i < |m.tables[g]| && Entry(m, g, i) == ZERO
    ensures ClearLeaf(WriteEntry(m, g, i, leaf), g, i, true) == m
  {
    var m' := WriteEntry(m, g, i, leaf);
    assert m'.tables[g][i := ZERO] == m.tables[g];
    assert m'.tables[g := m.tables[g]] == m.tables;
  }

  // ---------------------------------------------------------------- exact limits

  /** A kernel-half mapping made through `root` is seen by another address space exactly
      when both already shared the PML4 slot, or, if root lacked the slot, only by the
      kernel's own root.  Slots that vmm_init did not populate are therefore not coherent. */
  lemma UpperMapVisible(m: Mem, kernel: Frame, root: Frame, p: Path, leaf: Pte, r: Frame)
    requires Mappable(m, kernel, root, p) && Present(leaf) && MapPage(m, kernel, root, p, leaf).Some?
    requires p.i4 >= KERNEL_SLOT && IsRoot(m, r) && r != root
    ensures
      var m' := MapPage(m, kernel, root, p, leaf).value;
      SeesPage(m', root, r, p) <==>
        if Present(Entry(m, root, p.i4))
        then Present(Entry(m, r, p.i4)) && Entry(m, r, p.i4).frame == Entry(m, root, p.i4).frame
        else r == kernel
  {
    hide Walk, EntryOk, HeldUp, LastTable, MapTables;
    MapTablesOk(m, kernel, root, p);
    MapTops(m, kernel, root, p);
    var (m1, g) := MapTables(m, kernel, root, p).value;
    WriteLeafWalk(m1, g, p.i1, leaf, root, p);
    WriteLeafWalk(m1, g, p.i1, leaf, r, p);
    SeesByTop(m1, root, r, p);
    TopEntry(m, r, p.i4);
    TopEntry(m, root, p.i4);
  }

  lemma TopEntry(m: Mem, r: Frame, i: nat)
    requires Inv(m) && IsRoot(m, r) && i < ENTRIES
    ensures Entry(m, r, i) == ZERO || (Present(Entry(m, r, i)) && Entry(m, r, i).frame in m.up)
  {
    assert EntryOk(m, r, i);
  }

  /** Two roots see the same page table exactly when their PML4 slots hold the same table. */
  lemma SeesByTop(m: Mem, root: Frame, r: Frame, p: Path)
    requires Inv(m) && IsRoot(m, root) && IsRoot(m, r) && ValidPath(p) && LastTable(m, root, p).0
    ensures SeesPage(m, root, r, p) <==> Present(Entry(m, r, p.i4)) && Entry(m, r, p.i4).frame == Entry(m, root, p.i4).frame
  {
    if SeesPage(m, root, r, p) {
      LastTableUnique(m, root, p, r, p);
    }
  }

  /** The PML4 entries of all roots after the table chain is built. */
  lemma MapTops(m: Mem, kernel: Frame, root: Frame, p: Path)
    requires Mappable(m, kernel, root, p) && MapTables(m, kernel, root, p).Some?
    ensures
      var m1 := MapTables(m, kernel, root, p).value.0;
      && (forall r | IsRoot(m, r) && r != root && !(r == kernel && p.i4 >= KERNEL_SLOT && Entry(m, root, p.i4) == ZERO) ::
            Entry(m1, r, p.i4) == Entry(m, r, p.i4))
      && (root != kernel && p.i4 >= KERNEL_SLOT && Entry(m, root, p.i4) == ZERO ==>
            Entry(m1, kernel, p.i4) == Entry(m1, root, p.i4))
      && (Entry(m, root, p.i4) == ZERO ==> Present(Entry(m1, root, p.i4)) && Entry(m1, root, p.i4).frame !in m.up)
      && (Entry(m, root, p.i4) != ZERO ==> Entry(m1, root, p.i4) == Entry(m, root, p.i4))
  {
    var m3, g3, m2, g2, m1, g1 := MapTrace(m, kernel, root, p);
    assert EntryOk(m, root, p.i4);
    DescendOk(m, root, p.i4);
  }

  /** The other slots stay as they are. */
  lemma MapOtherTops(m: Mem, kernel: Frame, root: Frame, p: Path, r: Frame, s: nat)
    requires Mappable(m, kernel, root, p) && MapTables(m, kernel, root, p).Some?
    requires IsRoot(m, r) && s < ENTRIES && s != p.i4
    ensures Entry(MapTables(m, kernel, root, p).value.0, r, s) == Entry(m, r, s)
  {
    hide Walk, EntryOk, HeldUp, Descend, DescendTop, MapTables;
    var m3, g3, m2, g2, m1, g1 := MapTrace(m, kernel, root, p);
    DescendTopOk(m, kernel, root, p.i4);
    DescendTopOther(m, kernel, root, p.i4, r, s);
    DescendOk(m3, g3, p.i3);
    assert Entry(m2, r, s) == Entry(m3, r, s);
    DescendOk(m2, g2, p.i2);
  }

  lemma DescendTopOther(m: Mem, kernel: Frame, root: Frame, i4: nat, r: Frame, s: nat)
    requires Inv(m) && IsRoot(m, root) && IsRoot(m, kernel) && i4 < ENTRIES && DescendTop(m, kernel, root, i4).Some?
    requires IsRoot(m, r) && s < ENTRIES && s != i4
    ensures Entry(DescendTop(m, kernel, root, i4).value.0, r, s) == Entry(m, r, s)
  {
    hide HeldUp, Walk;
    assert EntryOk(m, root, i4);
    DescendOk(m, root, i4);
  }

  /** Unmapping without KEEPPHYS a page that is not mapped frees frame 0 exactly when
      the page's level-1 table exists (and frame 0 is managed); the code frees the
      frame number of whatever entry it finds, and an absent entry reads as frame 0. */
  lemma UnmapOfUnmapped(m: Mem, root: Frame, p: Path)
    requires Unmappable(m, root, p, false) && Walk(m, root, p) == Unmapped && 0 !in m.free && 0 !in m.up && 0 < m.limit
    ensures 0 in UnmapPage(m, root, p, false).free <==> LastTable(m, root, p).0
  {
    var (found, g) := LastTable(m, root, p);
    if found {
      LastTablePos(m, root, p);
      assert EntryOk(m, g, p.i1);
      ClearLeafOk(m, g, p.i1, false);
      ClearLeafWalk(m, g, p.i1, false, root, p);
      var m1 := ClearLeaf(m, g, p.i1, false);
      assert 0 in m1.free;
      if p.i4 < KERNEL_SLOT {
        ReclaimOk(m1, root, p);
        assert 0 in m1.up.Keys + m1.free;
      }
    }
  }
}
