/**
 The steps of vmm_dasp (src/kern/mem/vmm.c), each invisible in the closed form
 of the address space being destroyed.
 */
module AddressSpaceClose {
  import opened Basics
  import opened PageTables
  import opened PageMapping
  import opened AddressSpaces

  ghost predicate LowTable(m: Mem, g: Frame, level: nat, root: Frame)
  {
    g in m.up && m.up[g].Child? && m.up[g].level == level && m.up[g].zone == Low(root)
  }

  /** Freeing one mapped frame and clearing its leaf. */
  lemma DropLeafClosed(m: Mem, g: Frame, i: nat, root: Frame)
    requires Inv(m) && Sealed(m, root) && LowTable(m, g, 1, root) && i < ENTRIES && Entry(m, g, i) != ZERO
    ensures g in m.tables && i < |m.tables[g]|
    ensures
      var m' := ClearLeaf(m, g, i, false);
      Inv(m') && Sealed(m', root) && CloseMem(m', root) == CloseMem(m, root)
  {
    hide EntryOk, HeldUp, MappedBelow;
    var m' := ClearLeaf(m, g, i, false);
    var d := Entry(m, g, i).frame;
    LeafMaps(m, g, i, root);
    ClearLeafOk(m, g, i, false);
    forall h: Frame, j: nat | j < ENTRIES
      ensures LeafAt(m', h, j) == if h == g && j == i then ZERO else LeafAt(m, h, j)
    {
    }
    forall f
      ensures MappedBelow(m', root, f) ==> MappedBelow(m, root, f)
      ensures MappedBelow(m, root, f) ==> f == d || MappedBelow(m', root, f)
    {
      MappedKept(m, m', root, f, g, i);
    }
    assert CloseMem(m', root).free == CloseMem(m, root).free;
    assert CloseMem(m', root).tables == CloseMem(m, root).tables;
  }

  lemma LeafMaps(m: Mem, g: Frame, i: nat, root: Frame)
    requires LowTable(m, g, 1, root) && i < ENTRIES && Entry(m, g, i) != ZERO
    ensures MappedBelow(m, root, Entry(m, g, i).frame)
  {
    assert LeafAt(m, g, i) != ZERO;
  }

  lemma MappedKept(m: Mem, m': Mem, root: Frame, f: Frame, g: Frame, i: nat)
    requires m'.up == m.up && i < ENTRIES
    requires forall h: Frame, j: nat | j < ENTRIES :: LeafAt(m', h, j) == if h == g && j == i then ZERO else LeafAt(m, h, j)
    ensures MappedBelow(m', root, f) ==> MappedBelow(m, root, f)
    ensures MappedBelow(m, root, f) ==> f == LeafAt(m, g, i).frame || MappedBelow(m', root, f)
  {
    if MappedBelow(m', root, f) {
      var h: Frame, j: nat :| InZone(m'.up, h, root) && j < ENTRIES && LeafAt(m', h, j) != ZERO && LeafAt(m', h, j).frame == f;
      assert LeafAt(m, h, j) == LeafAt(m', h, j);
    }
    if MappedBelow(m, root, f) {
      var h: Frame, j: nat :| InZone(m.up, h, root) && j < ENTRIES && LeafAt(m, h, j) != ZERO && LeafAt(m, h, j).frame == f;
      assert LeafAt(m', h, j) == if h == g && j == i then ZERO else LeafAt(m, h, j);
    }
  }

  /** Freeing an emptied table. */
  lemma DropTableClosed(m: Mem, f: Frame, i: nat, g: Frame, root: Frame)
    requires Inv(m) && Sealed(m, root) && CanRemove(m, f, i, g) && m.up[g].zone == Low(root)
    ensures f in m.tables && i < |m.tables[f]|
    ensures
      var m' := RemoveChild(m, f, i, g);
      Inv(m') && Sealed(m', root) && CloseMem(m', root) == CloseMem(m, root)
  {
    hide EntryOk, HeldUp, MappedBelow;
    RemoveChildInv(m, f, i, g);
    RemoveGentle(m, f, i, g, root);
    var m' := RemoveChild(m, f, i, g);
    forall d
      ensures MappedBelow(m', root, d) <==> MappedBelow(m, root, d)
    {
      MappedSame(m, m', root, d);
    }
    ParentInside(m, f, i, g, root);
    assert MappedFrames(m', root) == MappedFrames(m, root);
    CloseAfterDrop(m, f, i, g, root);
  }

  lemma CloseAfterDrop(m: Mem, f: Frame, i: nat, g: Frame, root: Frame)
    requires f in m.tables && i < |m.tables[f]| && f != g && m.tables.Keys == m.up.Keys
    requires InZone(m.up, f, root) && InZone(m.up, g, root) && g != root && MappedFrames(RemoveChild(m, f, i, g), root) == MappedFrames(m, root)
    ensures CloseMem(RemoveChild(m, f, i, g), root) == CloseMem(m, root)
  {
    hide MappedFrames;
    var m' := RemoveChild(m, f, i, g);
    assert Inside(m', root) == Inside(m, root) - {g};
    assert m'.tables - Inside(m', root) == m.tables - Inside(m, root);
    assert m'.up - Inside(m', root) == m.up - Inside(m, root);
    assert m'.free + Inside(m', root) == m.free + Inside(m, root);
  }

  lemma ParentInside(m: Mem, f: Frame, i: nat, g: Frame, root: Frame)
    requires CanRemove(m, f, i, g) && m.up[g].zone == Low(root)
    ensures InZone(m.up, f, root) && InZone(m.up, g, root) && g != root && f != g
  {
    assert HeldUp(m, g);
    ZoneRootLive(m, g);
  }

  lemma MappedSame(m: Mem, m': Mem, root: Frame, d: Frame)
    requires SameLeaves(m, m') && (forall h | h in m'.up :: h in m.up && m'.up[h] == m.up[h])
    ensures MappedBelow(m', root, d) ==> MappedBelow(m, root, d)
    ensures MappedBelow(m, root, d) ==> MappedBelow(m', root, d)
  {
    if MappedBelow(m', root, d) {
      var h: Frame, j: nat :| InZone(m'.up, h, root) && j < ENTRIES && LeafAt(m', h, j) != ZERO && LeafAt(m', h, j).frame == d;
      assert LeafAt(m, h, j) == LeafAt(m', h, j);
    }
    if MappedBelow(m, root, d) {
      var h: Frame, j: nat :| InZone(m.up, h, root) && j < ENTRIES && LeafAt(m, h, j) != ZERO && LeafAt(m, h, j).frame == d;
      assert LeafAt(m', h, j) == LeafAt(m, h, j);
    }
  }

  /** Every lower-half table hangs, through its ancestors, from an entry of its root. */
  lemma {:induction false} ZoneTop(m: Mem, h: Frame) returns (i: nat)
    requires Inv(m) && h in m.up && m.up[h].Child? && m.up[h].zone.Low?
    ensures i < KERNEL_SLOT && Entry(m, m.up[h].zone.root, i) != ZERO
    decreases 4 - (if m.up[h].level <= 4 then m.up[h].level else 4)
  {
    assert HeldUp(m, h);
    assert HeldUp(m, m.up[h].parent);
    if m.up[h].level == 3 {
      i := m.up[h].idx;
    } else {
      i := ZoneTop(m, m.up[h].parent);
    }
  }

  ghost predicate LowHalfClear(m: Mem, root: Frame, n: nat)
  {
    forall i: nat | i < n :: Entry(m, root, i) == ZERO
  }

  /** Once the lower half of the root is clear, only the root itself is left to free. */
  lemma DropRootCloses(m: Mem, root: Frame)
    requires Inv(m) && IsRoot(m, root) && LowHalfClear(m, root, KERNEL_SLOT)
    ensures root < m.limit && CloseMem(m, root) == m.(tables := m.tables - {root}, up := m.up - {root}, free := m.free + {root})
  {
    forall h | h in m.up
      ensures InZone(m.up, h, root) <==> h == root
    {
      if h != root && InZone(m.up, h, root) {
        var _ := ZoneTop(m, h);
        assert false;
      }
    }
    assert Inside(m, root) == {root} && MappedFrames(m, root) == {};
  }
}
