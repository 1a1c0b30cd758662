/**
 The kernel half of every address space (src/kern/mem/vmm.c:252-260): whatever is
 mapped or unmapped, through whichever root, all live roots agree on the kernel heap.
 */
module KernelHalf {
  import opened Basics
  import opened Layout
  import opened PageTables
  import opened PageMapping
  import opened AddressSpaces

  /** One call into vmm.c, or any other use of the frame allocator. */
  datatype Move =
    | Create
    | MapAny(root: Frame, path: Path, leaf: Pte)
    | UnmapAny(root: Frame, path: Path, keep: bool)
    | Destroy(root: Frame)
    | Frames(free: set<Frame>)

  /** Any page of any root may be mapped, remapped or unmapped.  A space may be destroyed unless it is the
      kernel's, or a page of it maps a table. */
  ghost predicate Legal(m: Mem, kernel: Frame, mv: Move)
  {
    match mv
    case Create => Takable(m.free)
    case MapAny(root, p, leaf) => Mappable(m, kernel, root, p) && Present(leaf) && MapPage(m, kernel, root, p, leaf).Some?
    case UnmapAny(root, p, keep) => Unmappable(m, root, p, keep)
    case Destroy(root) => IsRoot(m, root) && root != kernel && Sealed(m, root)
    case Frames(free) => free !! m.up.Keys && forall f | f in free :: f < m.limit
  }

  ghost predicate KernelInv(m: Mem, kernel: Frame)
  {
    Inv(m) && IsRoot(m, kernel) && HeapShared(m, kernel)
  }

  ghost function Next(m: Mem, kernel: Frame, mv: Move): Mem
    requires KernelInv(m, kernel) && Legal(m, kernel, mv)
  {
    match mv
    case Create => NewRoot(m, kernel)
    case MapAny(root, p, leaf) => MapPage(m, kernel, root, p, leaf).value
    case UnmapAny(root, p, keep) => UnmapPage(m, root, p, keep)
    case Destroy(root) => CloseMem(m, root)
    case Frames(free) => m.(free := free)
  }

  ghost predicate Moves(m: Mem, kernel: Frame, mvs: seq<Move>, m': Mem)
    decreases |mvs|
  {
    if mvs == [] then m' == m
    else KernelInv(m, kernel) && Legal(m, kernel, mvs[0]) && Moves(Next(m, kernel, mvs[0]), kernel, mvs[1..], m')
  }

  lemma NextInv(m: Mem, kernel: Frame, mv: Move)
    requires KernelInv(m, kernel) && Legal(m, kernel, mv)
    ensures KernelInv(Next(m, kernel, mv), kernel)
  {
    hide HeapShared, Inv, MapPage, UnmapPage, CloseMem, Mappable, Unmappable, Sealed;
    match mv
    case Create => NewRootInv(m, kernel);
    case MapAny(root, p, leaf) => MapHeap(m, kernel, root, p, leaf);
    case UnmapAny(root, p, keep) => UnmapHeap(m, kernel, root, p, keep);
    case Destroy(root) => CloseMemInv(m, kernel, root);
    case Frames(free) =>
      SameTablesInv(m, m.(free := free));
      SameHeap(m, m.(free := free), kernel);
  }

  lemma SameHeap(m: Mem, m': Mem, kernel: Frame)
    requires HeapShared(m, kernel) && IsRoot(m, kernel) && m'.tables == m.tables && m'.up == m.up
    ensures HeapShared(m', kernel)
  {
    HeapAfter(m, m', kernel);
  }

  /** No heap slot is absent in any root, so no map ever writes one. */
  lemma MapHeap(m: Mem, kernel: Frame, root: Frame, p: Path, leaf: Pte)
    requires KernelInv(m, kernel) && Mappable(m, kernel, root, p) && Present(leaf) && MapPage(m, kernel, root, p, leaf).Some?
    ensures KernelInv(MapPage(m, kernel, root, p, leaf).value, kernel)
  {
    hide Walk, LastTable, HeapShared;
    var m' := MapPage(m, kernel, root, p, leaf).value;
    MapPageRefines(m, kernel, root, p, leaf);
    forall r, s: nat | IsRoot(m', r) && HEAP_FIRST <= s < HEAP_LAST
      ensures Entry(m', r, s) == Entry(m, r, s)
    {
      MapHeapSlot(m, kernel, root, p, leaf, r, s);
    }
    HeapAfter(m, m', kernel);
  }

  lemma MapHeapSlot(m: Mem, kernel: Frame, root: Frame, p: Path, leaf: Pte, r: Frame, s: nat)
    requires KernelInv(m, kernel) && Mappable(m, kernel, root, p) && MapPage(m, kernel, root, p, leaf).Some?
    requires IsRoot(m, r) && HEAP_FIRST <= s < HEAP_LAST
    ensures Entry(MapPage(m, kernel, root, p, leaf).value, r, s) == Entry(m, r, s)
  {
    hide Walk, LastTable, Inv;
    MapTablesOk(m, kernel, root, p);
    assert Present(Entry(m, root, s));
    if s == p.i4 {
      MapTops(m, kernel, root, p);
    } else {
      MapOtherTops(m, kernel, root, p, r, s);
    }
  }

  lemma UnmapHeap(m: Mem, kernel: Frame, root: Frame, p: Path, keep: bool)
    requires KernelInv(m, kernel) && Unmappable(m, root, p, keep)
    ensures KernelInv(UnmapPage(m, root, p, keep), kernel)
  {
    hide Walk, HeapShared;
    var m' := UnmapPage(m, root, p, keep);
    UnmapPageRefines(m, root, p, keep);
    UnmapTops(m, root, p, keep);
    HeapAfter(m, m', kernel);
  }

  /** Unmapping never touches a kernel-half PML4 entry. */
  lemma UnmapTops(m: Mem, root: Frame, p: Path, keep: bool)
    requires Unmappable(m, root, p, keep)
    ensures SameTops(m, UnmapPage(m, root, p, keep))
  {
    hide Walk;
    var (found, g) := LastTable(m, root, p);
    if found {
      LastTablePos(m, root, p);
      ClearLeafOk(m, g, p.i1, keep);
      ClearLeafWalk(m, g, p.i1, keep, root, p);
      var m1 := ClearLeaf(m, g, p.i1, keep);
      assert SameTops(m, m1);
      if p.i4 < KERNEL_SLOT {
        ReclaimGentle(m1, root, p);
        TopsTrans(m, m1, UnmapPage(m, root, p, keep));
      }
    }
  }

  lemma TopsTrans(a: Mem, b: Mem, c: Mem)
    requires SameTops(a, b) && SameTops(b, c)
    ensures SameTops(a, c)
  {
    forall r, s: nat | IsRoot(a, r) && KERNEL_SLOT <= s < ENTRIES
      ensures Entry(c, r, s) == Entry(a, r, s)
    {
      assert Entry(b, r, s) == Entry(a, r, s);
    }
  }

  lemma {:induction false} MovesInv(m: Mem, kernel: Frame, mvs: seq<Move>, m': Mem)
    requires KernelInv(m, kernel) && Moves(m, kernel, mvs, m')
    ensures KernelInv(m', kernel)
    decreases |mvs|
  {
    hide KernelInv, Legal, Next;
    if mvs != [] {
      NextInv(m, kernel, mvs[0]);
      MovesInv(Next(m, kernel, mvs[0]), kernel, mvs[1..], m');
    }
  }

  /** After any run at all, all live address spaces translate every heap address identically. */
  lemma HeapCoherent(m: Mem, kernel: Frame, mvs: seq<Move>, m': Mem, r1: Frame, r2: Frame, virt: nat)
    requires KernelInv(m, kernel) && Moves(m, kernel, mvs, m')
    requires IsRoot(m', r1) && IsRoot(m', r2) && HEAP_START <= virt < HEAP_END
    ensures GetPhys(m', r1, virt) == GetPhys(m', r2, virt)
  {
    MovesInv(m, kernel, mvs, m');
    SameHeapView(m', kernel, r1, r2, virt);
  }

  lemma SameHeapView(m: Mem, kernel: Frame, r1: Frame, r2: Frame, virt: nat)
    requires KernelInv(m, kernel) && IsRoot(m, r1) && IsRoot(m, r2) && HEAP_START <= virt < HEAP_END
    ensures GetPhys(m, r1, virt) == GetPhys(m, r2, virt)
  {
    hide PathOf, Inv;
    HeapSlots(virt);
    var s := PathOf(virt).i4;
    assert Entry(m, r1, s) == Entry(m, kernel, s) == Entry(m, r2, s);
  }

  lemma HeapSlots(virt: nat)
    ensures HEAP_START <= virt < HEAP_END ==> HEAP_FIRST <= PathOf(virt).i4 < HEAP_LAST
  {
    if HEAP_START <= virt < HEAP_END {
      var n := virt / 0x80_0000_0000;
      assert 0x1FF_FF20 <= n < 0x1FF_FF60;
      assert n == 0xFFFF * 512 + (n - 0x1FF_FE00);
    }
  }

  /** A heap page mapped through any root after any run is at once mapped in every live address space. */
  lemma HeapMapSeenByAll(m: Mem, kernel: Frame, mvs: seq<Move>, m': Mem, root: Frame, virt: nat, phys: nat, flags: nat, r: Frame)
    requires KernelInv(m, kernel) && Moves(m, kernel, mvs, m') && HEAP_START <= virt < HEAP_END && flags < 0x1000
    requires Legal(m', kernel, MapAny(root, PathOf(virt), LeafEntry(phys / 0x1000, flags))) && IsRoot(m', r)
    ensures GetPhys(MapPage(m', kernel, root, PathOf(virt), LeafEntry(phys / 0x1000, flags)).value, r, virt)
              == phys / 0x1000 * 0x1000 + virt % 0x1000
  {
    hide PathOf, Walk, GetPhys, LastTable;
    var leaf := LeafEntry(phys / 0x1000, flags);
    MovesInv(m, kernel, mvs, m');
    MapHeap(m', kernel, root, PathOf(virt), leaf);
    GetPhysAfterMap(m', kernel, root, virt, phys, flags);
    MapPageRefines(m', kernel, root, PathOf(virt), leaf);
    SameHeapView(MapPage(m', kernel, root, PathOf(virt), leaf).value, kernel, root, r, virt);
  }
}
