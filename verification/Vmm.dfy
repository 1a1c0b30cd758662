/**
 src/kern/mem/vmm.c in its own imperative form: page-table entries written in
 place over the bitmap frame allocator, proved against the value-level functions.
 */
module Vmm {
  import opened Basics
  import opened Layout
  import opened PageTables
  import opened PageMapping
  import opened AddressSpaces
  import opened AddressSpaceClose
  import opened DirectMap
  import opened Pmm

  /** Bytes covered by the direct map, and its number of 2 MiB pages. */
  function Span(memHigh: nat): nat { if memHigh < 0x1_0000_0000 then 0x1_0000_0000 else memHigh }

  function DirectPages(span: nat): nat { (span + 0x1F_FFFF) / 0x20_0000 }

  const MMIO_SLOT := 272   // PML4_IDX(MMIO_START)

  /** Kernel-half slots that neither the direct map nor the kernel image uses. */
  predicate OtherSlot(s: nat) { KERNEL_SLOT <= s < ENTRIES && !(HHDM_FIRST <= s < HHDM_LAST) && s != 511 }

  predicate HeapSlot(s: nat) { HEAP_FIRST <= s < HEAP_LAST }

  function ImagePages(klen: nat): nat { (klen + 0xFFF) / 0x1000 }

  /** More frames than vmm_init ever takes. */
  function StartUpFrames(span: nat, klen: nat): nat { 1 + 2 * DirectPages(span) + 3 * ImagePages(klen) + 3 + 64 }

  /** One thing a process does to its address space. */
  datatype Step = MapIt(virt: nat, flags: nat) | UnmapIt(virt: nat)

  class PageTableManager {
    const pmm: FrameAllocator
    var tables: map<Frame, seq<Pte>>
    var pml4: Frame
    ghost var up: map<Frame, Pos>
    ghost var data: map<Frame, (Frame, nat)>

    ghost function State(): Mem
      reads this, pmm, pmm.bitmap
      requires pmm.Valid()
    {
      Mem(tables, up, pmm.Free(), pmm.nframes)
    }

    ghost function Worlds(): World
      reads this, pmm, pmm.bitmap
      requires pmm.Valid()
    {
      World(State(), data, pml4)
    }

    /** Frame 0 doubles as NULL, so no table is there. */
    ghost predicate Valid()
      reads this, pmm, pmm.bitmap
    {
      pmm.Valid() && Inv(State()) && IsRoot(State(), pml4) && 0 !in up
    }

    /** Before vmm_init: only the kernel-half tables the bootloader left behind. */
    ghost predicate Booted()
      reads this, pmm, pmm.bitmap
    {
      && pmm.Valid() && Inv(State()) && 0 !in up && data == map[]
      && (forall h | h in up :: up[h].Shared? || (up[h].Child? && up[h].zone.High?))
    }

    /** Frames only move from free to tables, or are lost, and of those below 4 GiB at most k. */
    twostate predicate Consumes(k: nat)
      reads this, pmm, pmm.bitmap
      requires old(pmm.Valid()) && pmm.Valid()
    {
      && pmm.Free() <= old(pmm.Free()) && LowCount(pmm.Free()) + k >= LowCount(old(pmm.Free()))
      && up.Keys <= old(up.Keys) + (old(pmm.Free()) - pmm.Free())
    }

    /** The kernel's top-level slots apart from those of the direct map and of the kernel image are as they were. */
    twostate predicate SlotsKept()
      reads this, pmm, pmm.bitmap
      requires old(pmm.Valid()) && pmm.Valid()
    {
      pml4 == old(pml4) && forall s: nat | OtherSlot(s) :: Entry(State(), pml4, s) == old(Entry(State(), pml4, s))
    }

    constructor (pmm: FrameAllocator, bootTables: map<Frame, seq<Pte>>, ghost bootUp: map<Frame, Pos>)
      requires pmm.Valid() && 0 !in bootUp
      requires Inv(Mem(bootTables, bootUp, pmm.Free(), pmm.nframes))
      requires forall h | h in bootUp :: bootUp[h].Shared? || (bootUp[h].Child? && bootUp[h].zone.High?)
      ensures Booted() && this.pmm == pmm && State() == Mem(bootTables, bootUp, pmm.Free(), pmm.nframes)
    {
      this.pmm := pmm;
      tables, up, pml4, data := bootTables, bootUp, 0, map[];
    }

    /** pmm_falloc(1), as a frame number.  It is 0 when there is no free frame, when the lowest is
        frame 0, and where the model stops because the lowest lies above 4 GiB: the code would then go
        on with another frame.  In the last two cases the frame stays marked as used. */
    method TakeFrame() returns (f: Frame)
      requires pmm.Valid()
      modifies pmm.bitmap
      ensures pmm.Valid() && pmm.Free() <= old(pmm.Free())
      ensures f != 0 <==> Takable(old(pmm.Free()))
      ensures pmm.Free() == if old(pmm.Free()) == {} then {} else old(pmm.Free()) - {Lowest(old(pmm.Free()))}
      ensures f != 0 ==> f == Lowest(old(pmm.Free()))
      ensures f == 0 && 0 !in old(pmm.Free()) ==> NoneLow(pmm.Free())
    {
      ghost var free := pmm.Free();
      var addr, found, start := pmm.Falloc(1);
      f := if start < LOW_FRAMES then addr / FRAME_SIZE else 0;
      if found {
        assert start in free;
        assert FrameRange(start, 1) == {start};
        forall x | x in free
          ensures start <= x
        {
          if x < start { assert RunFree(free, x, 1); }
        }
      } else {
        forall x: nat
          ensures x !in free
        {
          assert !RunFree(free, x, 1);
        }
      }
    }

    /** pmm_ffree of one frame. */
    method FreeFrame(f: Frame)
      requires pmm.Valid()
      modifies pmm.bitmap
      ensures pmm.Valid()
      ensures pmm.Free() == if f < pmm.nframes then old(pmm.Free()) + {f} else old(pmm.Free())
    {
      pmm.Ffree(f * FRAME_SIZE, 1);
      assert FrameRange(f, 1) == {f};
    }

    /** vmm_get_phys */
    method TranslateAddress(root: Frame, virt: nat) returns (phys: nat)
      requires Valid() && IsRoot(State(), root)
      ensures phys == GetPhys(State(), root, virt)
    {
      hide PathOf, HeldUp;
      var p := PathOf(virt);
      ghost var m := State();
      assert EntryOk(m, root, p.i4);
      var e4 := tables[root][p.i4];
      if !Present(e4) { return 0; }
      assert EntryOk(m, e4.frame, p.i3);
      var e3 := tables[e4.frame][p.i3];
      if !Present(e3) { return 0; }
      assert EntryOk(m, e3.frame, p.i2);
      var e2 := tables[e3.frame][p.i2];
      if !Present(e2) { return 0; }
      if Huge(e2) { return e2.frame / 512 * 0x20_0000 + virt % 0x20_0000; }
      var e1 := tables[e2.frame][p.i1];
      if !Present(e1) { return 0; }
      return e1.frame * 0x1000 + virt % 0x1000;
    }

    lemma SlotReady(m: Mem, f: Frame, i: nat)
      requires CanDescend(m, f, i)
      ensures f in m.tables && |m.tables[f]| == ENTRIES && Entry(m, f, i) == m.tables[f][i] && m.free !! m.up.Keys
      ensures Present(Entry(m, f, i)) ==> Entry(m, f, i).frame in m.up
      ensures !Present(Entry(m, f, i)) ==> Entry(m, f, i) == ZERO
    {
      assert EntryOk(m, f, i);
    }

    lemma FreeApart(m: Mem)
      requires Inv(m)
      ensures m.free !! m.up.Keys
    {
    }

    lemma FewerFree(m: Mem, m': Mem)
      requires Inv(m) && m' == m.(free := m'.free) && m'.free <= m.free
      ensures Inv(m')
    {
      SameTablesInv(m, m');
    }

    /** One level of vmm_map_page: follow entry i of table f, allocating the table below if absent. */
    method NextTable(f: Frame, i: nat) returns (g: Frame)
      requires Valid() && CanDescend(State(), f, i)
      modifies this, pmm.bitmap
      ensures Valid() && pml4 == old(pml4) && data == old(data)
      ensures g == 0 <==> Descend(old(State()), f, i).None?
      ensures g != 0 ==> Descend(old(State()), f, i) == Some((State(), g))
      ensures Consumes(1) && (g == 0 && 0 !in old(pmm.Free()) ==> NoneLow(pmm.Free()))
      ensures 0 !in old(pmm.Free()) && LowCount(old(pmm.Free())) >= 1 ==> g != 0
    {
      hide Inv, EntryOk, HeldUp, FrameAllocator.Free, Lowest;
      ghost var m := State();
      SlotReady(m, f, i);
      var e := tables[f][i];
      if Present(e) {
        g := e.frame;
      } else {
        if pmm.Free() != {} { LowCountLess(pmm.Free(), Lowest(pmm.Free())); }
        if 0 !in pmm.Free() && LowCount(pmm.Free()) >= 1 { LowCountTakable(pmm.Free()); }
        g := TakeFrame();
        if g != 0 {
          AddChildInv(m, f, i, g);
          tables := tables[g := EmptyTable()];
          tables := tables[f := tables[f][i := TableEntry(g)]];
          up := up[g := ChildPos(up[f], f, i)];
          assert State() == AddChild(m, f, i, g);
        } else {
          FewerFree(m, State());
        }
      }
    }

    /** The PML4 level of vmm_map_page, with the write-through of new kernel-half slots to pml4. */
    method TopTable(root: Frame, i4: nat) returns (g: Frame)
      requires Valid() && IsRoot(State(), root) && i4 < ENTRIES
      modifies this, pmm.bitmap
      ensures Valid() && pml4 == old(pml4) && data == old(data)
      ensures g == 0 <==> DescendTop(old(State()), pml4, root, i4).None?
      ensures g != 0 ==> DescendTop(old(State()), pml4, root, i4) == Some((State(), g))
      ensures Consumes(1) && (g == 0 && 0 !in old(pmm.Free()) ==> NoneLow(pmm.Free()))
      ensures 0 !in old(pmm.Free()) && LowCount(old(pmm.Free())) >= 1 ==> g != 0
    {
      hide Walk, SameWalks, HeldUp, EntryOk, Inv, Descend, FrameAllocator.Free;
      ghost var m := State();
      TopReady(m, root, i4);
      var had := Present(tables[root][i4]);
      g := NextTable(root, i4);
      if g != 0 {
        DescendTopOk(m, pml4, root, i4);
        if !had && pml4 != root && i4 >= KERNEL_SLOT {
          DescendTopRoots(m, pml4, root, i4);
          SetEntry(pml4, i4, tables[root][i4]);
        }
      }
    }

    lemma TopReady(m: Mem, root: Frame, i4: nat)
      requires Inv(m) && IsRoot(m, root) && i4 < ENTRIES
      ensures CanDescend(m, root, i4) && root in m.tables && |m.tables[root]| == ENTRIES && Entry(m, root, i4) == m.tables[root][i4]
    {
      assert EntryOk(m, root, i4);
    }

    lemma DescendTopRoots(m: Mem, kernel: Frame, root: Frame, i4: nat)
      requires Inv(m) && IsRoot(m, root) && IsRoot(m, kernel) && i4 < ENTRIES && Descend(m, root, i4).Some?
      ensures
        var m' := Descend(m, root, i4).value.0;
        && root in m'.tables && |m'.tables[root]| == ENTRIES
        && kernel in m'.tables && |m'.tables[kernel]| == ENTRIES
    {
    }

    /** The table chain of vmm_map_page for one path; 0 when a table page could not be allocated. */
    method PathTables(root: Frame, p: Path) returns (g: Frame)
      requires Valid() && Mappable(State(), pml4, root, p)
      modifies this, pmm.bitmap
      ensures Valid() && pml4 == old(pml4) && data == old(data)
      ensures g == 0 <==> MapTables(old(State()), pml4, root, p).None?
      ensures g != 0 ==> MapTables(old(State()), pml4, root, p) == Some((State(), g))
      ensures Consumes(3) && (g == 0 && 0 !in old(pmm.Free()) ==> NoneLow(pmm.Free()))
      ensures 0 !in old(pmm.Free()) && LowCount(old(pmm.Free())) >= 3 ==> g != 0
    {
      hide Descend, DescendTop, Inv, Walk, LowCount, FrameAllocator.Free, CanDescend, IsRoot;
      ghost var m := State();
      MapTablesReady(m, pml4, root, p);
      var g3 := TopTable(root, p.i4);
      if g3 == 0 { return 0; }
      var g2 := NextTable(g3, p.i3);
      if g2 == 0 { return 0; }
      g := NextTable(g2, p.i2);
    }

    /** vmm_map_page; false when a table page could not be allocated. */
    method MapAt(root: Frame, virt: nat, phys: nat, flags: nat) returns (ok: bool)
      requires Valid() && Mappable(State(), pml4, root, PathOf(virt)) && flags < 0x1000
      modifies this, pmm.bitmap
      ensures Valid() && pml4 == old(pml4) && data == old(data)
      ensures ok <==> MapPage(old(State()), pml4, root, PathOf(virt), LeafEntry(phys / 0x1000, flags)).Some?
      ensures ok ==> MapPage(old(State()), pml4, root, PathOf(virt), LeafEntry(phys / 0x1000, flags)) == Some(State())
      ensures ok ==> Rights(root, virt, phys, flags)
      ensures Consumes(3) && (!ok && 0 !in old(pmm.Free()) ==> NoneLow(pmm.Free()))
      ensures 0 !in old(pmm.Free()) && LowCount(old(pmm.Free())) >= 3 ==> ok
    {
      hide MapTables, Mappable, Walk, PathOf, EntryOk, HeldUp, LastTable, FrameAllocator.Free, Bit, Allows;
      ghost var m := State();
      var p := PathOf(virt);
      var g := PathTables(root, p);
      if g == 0 { return false; }
      MapTablesOk(m, pml4, root, p);
      WriteLeafInv(State(), g, p.i1, LeafEntry(phys / 0x1000, flags));
      SetEntry(g, p.i1, LeafEntry(phys / 0x1000, flags));
      MapRights(m, pml4, root, p, phys / 0x1000, flags);
      ok := true;
    }

    /** The page of virt is mapped to phys with the bits of flags and the present bit, and in a lower half it may
        be written, or used in user mode, exactly as flags says. */
    ghost predicate Rights(root: Frame, virt: nat, phys: nat, flags: nat)
      reads this, pmm, pmm.bitmap
      requires pmm.Valid()
    {
      var p := PathOf(virt);
      var leaf := Walk(State(), root, p);
      && leaf.Page? && leaf.pte.frame == phys / 0x1000 && (forall b: nat :: Bit(leaf.pte.flags, b) <==> b == 0 || Bit(flags, b))
      && (p.i4 < KERNEL_SLOT ==> (Allows(State(), root, p, WRITE) <==> Bit(flags, WRITE)) && (Allows(State(), root, p, USER) <==> Bit(flags, USER)))
    }

    method SetEntry(f: Frame, i: nat, e: Pte)
      requires pmm.Valid() && f in tables && i < |tables[f]|
      modifies `tables
      ensures State() == WriteEntry(old(State()), f, i, e)
    {
      tables := tables[f := tables[f][i := e]];
    }

    /** is_table_empty */
    method TableEmpty(f: Frame) returns (empty: bool)
      requires f in tables && |tables[f]| == ENTRIES
      ensures empty <==> forall i | 0 <= i < |tables[f]| :: tables[f][i] == ZERO
    {
      for i := 0 to ENTRIES
        invariant forall j | 0 <= j < i :: tables[f][j] == ZERO
      {
        if tables[f][i] != ZERO { return false; }
      }
      return true;
    }

    /** Unhook table g from entry i of f and free its frame, if g is empty. */
    method DropIfEmpty(f: Frame, i: nat, g: Frame) returns (dropped: bool)
      requires pmm.Valid() && Inv(State()) && g in up && up[g].Child? && up[g].parent == f && up[g].idx == i
      modifies this, pmm.bitmap
      ensures pmm.Valid() && Inv(State()) && pml4 == old(pml4) && data == old(data)
      ensures dropped <==> IsEmpty(old(State()), g)
      ensures f in old(tables) && i < |old(tables)[f]| && f != g
      ensures State() == if dropped then RemoveChild(old(State()), f, i, g) else old(State())
    {
      hide EntryOk, FrameAllocator.Free;
      ghost var m := State();
      assert HeldUp(m, g);
      dropped := TableEmpty(g);
      if dropped {
        RemoveChildInv(m, f, i, g);
        FreeFrame(g);
        tables := tables[f := tables[f][i := ZERO]];
        tables := tables - {g};
        up := up - {g};
      }
    }

    /** Clear leaf i of table g and free the frame it held, unless keep. */
    method DropLeaf(g: Frame, i: nat, keep: bool)
      requires pmm.Valid() && g in tables && i < |tables[g]|
      modifies `tables, pmm.bitmap
      ensures pmm.Valid() && State() == ClearLeaf(old(State()), g, i, keep)
    {
      var f := tables[g][i].frame;
      tables := tables[g := tables[g][i := ZERO]];
      if !keep { FreeFrame(f); }
    }

    /** The bottom-up reclaim at the end of vmm_unmap_page. */
    method ReclaimPath(root: Frame, p: Path)
      requires pmm.Valid() && Inv(State()) && IsRoot(State(), root) && ValidPath(p) && p.i4 < KERNEL_SLOT && LastTable(State(), root, p).0
      modifies this, pmm.bitmap
      ensures pmm.Valid() && pml4 == old(pml4) && data == old(data)
      ensures State() == Reclaim(old(State()), root, p)
    {
      hide EntryOk, HeldUp, FrameAllocator.Free;
      LastTablePos(State(), root, p);
      var g3 := tables[root][p.i4].frame;
      var g2 := tables[g3][p.i3].frame;
      var g1 := tables[g2][p.i2].frame;
      var dropped := DropIfEmpty(g2, p.i2, g1);
      if dropped {
        dropped := DropIfEmpty(g3, p.i3, g2);
        if dropped {
          dropped := DropIfEmpty(root, p.i4, g3);
        }
      }
    }

    /** vmm_unmap_page */
    method UnmapAt(root: Frame, virt: nat, keep: bool)
      requires Valid() && Unmappable(State(), root, PathOf(virt), keep)
      modifies this, pmm.bitmap
      ensures Valid() && pml4 == old(pml4) && data == old(data)
      ensures State() == UnmapPage(old(State()), root, PathOf(virt), keep)
    {
      hide PathOf, HeldUp, FrameAllocator.Free;
      ghost var m := State();
      var p := PathOf(virt);
      UnmapPageRefines(m, root, p, keep);
      assert EntryOk(m, root, p.i4);
      var e4 := tables[root][p.i4];
      if !Present(e4) { return; }
      assert EntryOk(m, e4.frame, p.i3);
      var e3 := tables[e4.frame][p.i3];
      if !Present(e3) { return; }
      assert EntryOk(m, e3.frame, p.i2);
      var e2 := tables[e3.frame][p.i2];
      if !Present(e2) { return; }
      UnmapLeaf(root, p, e2.frame, keep);
    }

    /** The rest of vmm_unmap_page, once the level-1 table g is found. */
    method UnmapLeaf(root: Frame, p: Path, g: Frame, keep: bool)
      requires pmm.Valid() && Unmappable(State(), root, p, keep) && LastTable(State(), root, p) == (true, g)
      modifies this, pmm.bitmap
      ensures pmm.Valid() && pml4 == old(pml4) && data == old(data)
      ensures State() == UnmapPage(old(State()), root, p, keep)
    {
      hide EntryOk, HeldUp, FrameAllocator.Free, Reclaim, Walk, LastTable;
      ghost var m := State();
      LastTablePos(m, root, p);
      ClearLeafOk(m, g, p.i1, keep);
      ClearLeafWalk(m, g, p.i1, keep, root, p);
      DropLeaf(g, p.i1, keep);
      if p.i4 < KERNEL_SLOT {
        ReclaimPath(root, p);
      }
    }

    /** vmm_casp; 0 when there is no frame for the root. */
    method CreateSpace() returns (root: Frame)
      requires Valid()
      modifies this, pmm.bitmap
      ensures Valid() && pml4 == old(pml4) && data == old(data)
      ensures root != 0 <==> Takable(old(pmm.Free()))
      ensures root != 0 ==> Worlds() == NewSpace(old(Worlds())) && root == Lowest(old(pmm.Free()))
      ensures root == 0 ==> tables == old(tables) && up == old(up)
      ensures root != 0 ==> forall q | ValidPath(q) :: Walk(State(), root, q) == if q.i4 < KERNEL_SLOT then Unmapped else old(Walk(State(), pml4, q))
      ensures root != 0 ==> forall virt: nat | PathOf(virt).i4 >= KERNEL_SLOT :: GetPhys(State(), root, virt) == old(GetPhys(State(), pml4, virt))
      ensures root != 0 ==> forall r, q | old(IsRoot(State(), r)) && ValidPath(q) :: r != root && Walk(State(), r, q) == old(Walk(State(), r, q))
      ensures old(WorldInv(Worlds())) && root != 0 ==> WorldInv(Worlds())
    {
      hide EntryOk, HeldUp, FrameAllocator.Free, Inv, WorldInv, Walk, PathOf;
      ghost var w := Worlds();
      root := TakeFrame();
      if root == 0 {
        FewerFree(w.mem, State());
        return;
      }
      NewRootInv(w.mem, pml4);
      forall r, q | ValidPath(q)
        ensures Walk(NewRoot(w.mem, pml4), root, q) == if q.i4 < KERNEL_SLOT then Unmapped else Walk(w.mem, pml4, q)
        ensures IsRoot(w.mem, r) ==> r != root && Walk(NewRoot(w.mem, pml4), r, q) == Walk(w.mem, r, q)
      {
        NewRootWalks(w.mem, pml4, r, q);
      }
      if WorldInv(w) { NewSpaceInv(w); }
      WholeTable(w.mem, pml4);
      ghost var kernelHalf := tables[pml4][KERNEL_SLOT..];
      var t := EmptyTable();
      for i := KERNEL_SLOT to ENTRIES
        invariant |t| == ENTRIES && t[..i] == EmptyTable()[..KERNEL_SLOT] + kernelHalf[..i - KERNEL_SLOT]
      {
        t := t[i := tables[pml4][i]];
      }
      assert t == t[..ENTRIES] && kernelHalf[..ENTRIES - KERNEL_SLOT] == kernelHalf;
      tables := tables[root := t];
      up := up[root := Root];
    }

    lemma WholeTable(m: Mem, f: Frame)
      requires Inv(m) && f in m.up
      ensures f in m.tables && |m.tables[f]| == ENTRIES
    {
    }

    /** MAP_ANYPHYS of one page (vmm_map_pages): take a frame and map it.  When a table
        page is missing the frame is not given back. */
    method MapAnonAt(root: Frame, virt: nat, flags: nat) returns (ok: bool)
      requires Valid() && WorldInv(Worlds()) && MapEnabled(Worlds(), root, PathOf(virt), flags)
      modifies this, pmm.bitmap
      ensures Valid() && pml4 == old(pml4)
      ensures ok <==> MapAnon(old(Worlds()), root, PathOf(virt), flags).Some?
      ensures ok ==> MapAnon(old(Worlds()), root, PathOf(virt), flags) == Some(Worlds()) && WorldInv(Worlds())
      ensures ok ==> Rights(root, virt, Lowest(old(pmm.Free())) * 0x1000, flags)
      ensures !ok ==> data == old(data) && Consumes(4) && (old(pmm.Free()) != {} ==> Lowest(old(pmm.Free())) !in pmm.Free() + up.Keys)
    {
      hide PathOf, EntryOk, HeldUp, FrameAllocator.Free, MapPage, Walk, LastTable, DataInv, HeapShared, Lean, Mappable, Gentle, LowCount, Lowest, Inv, Pool;
      ghost var w := Worlds();
      ghost var p := PathOf(virt);
      if w.mem.free != {} { LowCountLess(w.mem.free, Lowest(w.mem.free)); }
      FreeApart(w.mem);
      var d := TakeFrame();
      if d == 0 {
        FewerFree(w.mem, State());
        return false;
      }
      MapAnonReady(w, root, p, flags);
      assert State() == AddressSpaces.TakeFrame(w.mem);
      ok := MapAt(root, virt, d * 0x1000, flags);
      if ok {
        data := data[d := (LastTable(State(), root, p).1, p.i1)];
        MapAnonInv(w, root, p, flags);
      }
    }

    /** Frame-freeing unmap of one anonymous page. */
    method UnmapAnonAt(root: Frame, virt: nat)
      requires Valid() && WorldInv(Worlds()) && UnmapEnabled(Worlds(), root, PathOf(virt))
      modifies this, pmm.bitmap
      ensures Valid() && pml4 == old(pml4) && Worlds() == UnmapAnon(old(Worlds()), root, PathOf(virt)) && WorldInv(Worlds())
    {
      hide PathOf, EntryOk, HeldUp, FrameAllocator.Free, UnmapPage, DataInv, HeapShared, Lean;
      ghost var w := Worlds();
      ghost var p := PathOf(virt);
      UnmapReady(w, root, p);
      UnmapAnonInv(w, root, p);
      UnmapAt(root, virt, false);
      data := data - {Walk(w.mem, root, p).pte.frame};
    }

    // -------------------------------------------------------------- vmm_dasp

    /** What every stage of vmm_dasp keeps: nothing that stays visible has changed, and the
        tables of level above `level`, other than f, are untouched. */
    twostate predicate Closing(root: Frame, level: nat, f: Frame)
      reads this, pmm, pmm.bitmap
      requires old(pmm.Valid()) && pmm.Valid()
    {
      && Inv(State()) && Sealed(State(), root) && pml4 == old(pml4) && data == old(data)
      && CloseMem(State(), root) == CloseMem(old(State()), root)
      && (forall h | h in old(up) && Level(old(up)[h]) > level ::
            h in up && up[h] == old(up)[h] && (h != f && h in old(tables) ==> h in tables && tables[h] == old(tables)[h]))
    }

    /** The position and emptiness of the entry i of a lower-half table. */
    lemma LowEntry(m: Mem, f: Frame, i: nat, level: nat, root: Frame)
      requires Inv(m) && i < ENTRIES && 1 <= level <= 4
      requires if level == 4 then f == root && IsRoot(m, f) && i < KERNEL_SLOT else LowTable(m, f, level, root)
      ensures f in m.tables && |m.tables[f]| == ENTRIES
      ensures m.tables[f][i] == ZERO || Present(m.tables[f][i])
      ensures
        var g := m.tables[f][i].frame;
        Present(m.tables[f][i]) && level > 1 ==>
          LowTable(m, g, level - 1, root) && m.up[g].parent == f && m.up[g].idx == i && Level(m.up[f]) == level
    {
      assert EntryOk(m, f, i);
    }

    /** One leaf of the innermost loop of vmm_dasp. */
    method FreeLeafAt(pt: Frame, i: nat, ghost root: Frame)
      requires pmm.Valid() && Inv(State()) && Sealed(State(), root) && LowTable(State(), pt, 1, root) && i < ENTRIES
      modifies this, pmm.bitmap
      ensures pmm.Valid() && Closing(root, 0, pt) && LowTable(State(), pt, 1, root)
      ensures pt in old(tables) && pt in tables && i < |old(tables)[pt]| && tables[pt] == old(tables)[pt][i := ZERO]
    {
      hide FrameAllocator.Free, CloseMem, Inv, Sealed;
      ghost var m := State();
      LowEntry(m, pt, i, 1, root);
      if Present(tables[pt][i]) {
        DropLeafClosed(m, pt, i, root);
        DropLeaf(pt, i, false);
      }
    }

    /** The innermost loop of vmm_dasp: free every frame mapped by the page table pt. */
    method FreeLeaves(pt: Frame, ghost root: Frame)
      requires pmm.Valid() && Inv(State()) && Sealed(State(), root) && LowTable(State(), pt, 1, root)
      modifies this, pmm.bitmap
      ensures pmm.Valid() && Closing(root, 0, pt) && IsEmpty(State(), pt)
    {
      hide FrameAllocator.Free, CloseMem, Inv, Sealed;
      LowEntry(State(), pt, 0, 1, root);
      for i := 0 to ENTRIES
        invariant pmm.Valid() && Closing(root, 0, pt) && LowTable(State(), pt, 1, root)
        invariant pt in tables && |tables[pt]| == ENTRIES && forall j | 0 <= j < i :: tables[pt][j] == ZERO
      {
        FreeLeafAt(pt, i, root);
      }
    }

    /** Free the emptied table g below entry i of f. */
    method DropTable(f: Frame, i: nat, g: Frame, level: nat, ghost root: Frame)
      requires pmm.Valid() && Sealed(State(), root) && CanRemove(State(), f, i, g) && up[g].zone == Low(root)
      requires level == up[g].level
      modifies this, pmm.bitmap
      ensures pmm.Valid() && Closing(root, level, f)
      ensures f in old(tables) && f in tables && i < |old(tables)[f]| && tables[f] == old(tables)[f][i := ZERO]
    {
      hide FrameAllocator.Free, CloseMem, EntryOk, Sealed, IsEmpty;
      ghost var m := State();
      DropTableClosed(m, f, i, g, root);
      assert HeldUp(m, g);
      FreeFrame(g);
      tables := tables[f := tables[f][i := ZERO]];
      tables := tables - {g};
      up := up - {g};
      assert State() == RemoveChild(m, f, i, g);
    }

    /** The pd loop of vmm_dasp. */
    method FreeDirectory(pd: Frame, ghost root: Frame)
      requires pmm.Valid() && Inv(State()) && Sealed(State(), root) && LowTable(State(), pd, 2, root)
      modifies this, pmm.bitmap
      ensures pmm.Valid() && Closing(root, 1, pd) && IsEmpty(State(), pd)
    {
      hide FrameAllocator.Free, CloseMem, Inv, Sealed;
      LowEntry(State(), pd, 0, 2, root);
      for i := 0 to ENTRIES
        invariant pmm.Valid() && Closing(root, 1, pd) && LowTable(State(), pd, 2, root)
        invariant pd in tables && |tables[pd]| == ENTRIES && forall j | 0 <= j < i :: tables[pd][j] == ZERO
      {
        LowEntry(State(), pd, i, 2, root);
        var e := tables[pd][i];
        if Present(e) {
          FreeLeaves(e.frame, root);
          DropTable(pd, i, e.frame, 1, root);
        }
      }
    }

    /** The pdpt loop of vmm_dasp. */
    method FreePointers(pdpt: Frame, ghost root: Frame)
      requires pmm.Valid() && Inv(State()) && Sealed(State(), root) && LowTable(State(), pdpt, 3, root)
      modifies this, pmm.bitmap
      ensures pmm.Valid() && Closing(root, 2, pdpt) && IsEmpty(State(), pdpt)
    {
      hide FrameAllocator.Free, CloseMem, Inv, Sealed;
      LowEntry(State(), pdpt, 0, 3, root);
      for i := 0 to ENTRIES
        invariant pmm.Valid() && Closing(root, 2, pdpt) && LowTable(State(), pdpt, 3, root)
        invariant pdpt in tables && |tables[pdpt]| == ENTRIES && forall j | 0 <= j < i :: tables[pdpt][j] == ZERO
      {
        LowEntry(State(), pdpt, i, 3, root);
        var e := tables[pdpt][i];
        if Present(e) {
          FreeDirectory(e.frame, root);
          DropTable(pdpt, i, e.frame, 2, root);
        }
      }
    }

    /** The PML4 loop of vmm_dasp. */
    method FreeLowHalf(root: Frame)
      requires pmm.Valid() && Inv(State()) && Sealed(State(), root) && IsRoot(State(), root)
      modifies this, pmm.bitmap
      ensures pmm.Valid() && Closing(root, 3, root) && IsRoot(State(), root) && LowHalfClear(State(), root, KERNEL_SLOT)
    {
      hide FrameAllocator.Free, CloseMem, Inv, Sealed;
      LowEntry(State(), root, 0, 4, root);
      for i := 0 to KERNEL_SLOT
        invariant pmm.Valid() && Closing(root, 3, root) && IsRoot(State(), root)
        invariant root in tables && |tables[root]| == ENTRIES && forall j | 0 <= j < i :: tables[root][j] == ZERO
      {
        LowEntry(State(), root, i, 4, root);
        var e := tables[root][i];
        if Present(e) {
          FreePointers(e.frame, root);
          DropTable(root, i, e.frame, 3, root);
        }
      }
    }

    /** The loops of vmm_dasp and the freeing of the root. */
    method TearDown(root: Frame)
      requires Valid() && IsRoot(State(), root) && root != pml4 && Sealed(State(), root)
      modifies this, pmm.bitmap
      ensures pmm.Valid() && pml4 == old(pml4) && data == old(data) && State() == CloseMem(old(State()), root)
    {
      hide FrameAllocator.Free, CloseMem, Sealed, Inv, LowHalfClear;
      FreeLowHalf(root);
      DropRootCloses(State(), root);
      FreeFrame(root);
      tables := tables - {root};
      up := up - {root};
    }

    /** vmm_dasp: exactly the closed form, so everything the space owned or mapped is free again and
        nothing else has moved; in a world of lent frames their ledger follows. */
    method DestroySpace(root: Frame)
      requires Valid() && IsRoot(State(), root) && root != pml4 && Sealed(State(), root)
      modifies this, pmm.bitmap
      ensures Valid() && pml4 == old(pml4) && State() == CloseMem(old(State()), root)
      ensures forall r, q | old(IsRoot(State(), r)) && r != root && ValidPath(q) :: IsRoot(State(), r) && Walk(State(), r, q) == old(Walk(State(), r, q))
      ensures old(WorldInv(Worlds())) ==> Worlds() == Close(old(Worlds()), root) && WorldInv(Worlds())
    {
      hide FrameAllocator.Free, Close, DataInv, EntryOk, HeldUp, HeapShared, Lean, CloseMem, Sealed, Inv, WorldInv, LowHalfClear, Walk;
      ghost var w := Worlds();
      CloseMemInv(w.mem, pml4, root);
      forall r, q | IsRoot(w.mem, r) && r != root && ValidPath(q)
        ensures IsRoot(CloseMem(w.mem, root), r) && Walk(CloseMem(w.mem, root), r, q) == Walk(w.mem, r, q)
      {
        CloseWalks(w.mem, root, r, q);
      }
      CloseKeeps(w.mem, root);
      TearDown(root);
      if WorldInv(w) {
        AllLent(w, root);
        CloseInv(w, root);
      }
      data := Close(w, root).data;
      assert Close(w, root).kernel == pml4 by { CloseKernel(w, root); }
    }

    lemma CloseKeeps(m: Mem, root: Frame)
      ensures CloseMem(m, root).up.Keys <= m.up.Keys
    {
    }

    lemma CloseKernel(w: World, root: Frame)
      ensures Close(w, root).kernel == w.kernel
    {
    }

    /** A whole life: create a space, map and unmap anonymous pages of its lower half in any order, and destroy
        it, whatever is still mapped.  A map of a mapped page and an unmap of an unmapped one are passed over.
        If the frames suffice, tables, lent frames and the bitmap end as they began. */
    method OneLife(steps: seq<Step>) returns (ok: bool)
      requires Valid() && WorldInv(Worlds())
      requires forall i | 0 <= i < |steps| :: PathOf(steps[i].virt).i4 < KERNEL_SLOT && (steps[i].MapIt? ==> steps[i].flags < 0x1000)
      modifies this, pmm.bitmap
      ensures Valid() && pml4 == old(pml4)
      ensures ok ==> Worlds() == old(Worlds())
    {
      hide PathOf, WorldInv, Close, NewSpace, Inv, Walk, FrameAllocator.Free;
      ghost var w := Worlds();
      var root := CreateSpace();
      if root == 0 { return false; }
      CloseUndoesNew(w);
      FreshSpace(w, root);
      var mapped: set<Path> := {};
      for i := 0 to |steps|
        invariant Valid() && pml4 == old(pml4) && WorldInv(Worlds()) && IsRoot(State(), root) && root != pml4
        invariant Close(Worlds(), root) == w && MappedAre(root, mapped)
      {
        var p := PathOf(steps[i].virt);
        if steps[i].MapIt? && p !in mapped {
          ok := MapInLife(root, steps[i].virt, steps[i].flags, mapped);
          if !ok { return; }
          mapped := mapped + {p};
        } else if steps[i].UnmapIt? && p in mapped {
          UnmapInLife(root, steps[i].virt, mapped);
          mapped := mapped - {p};
        }
      }
      AllLent(Worlds(), root);
      DestroySpace(root);
      ok := true;
    }

    /** Exactly the pages in `mapped` are mapped in the lower half of root. */
    ghost predicate MappedAre(root: Frame, mapped: set<Path>)
      reads this, pmm, pmm.bitmap
      requires pmm.Valid()
    {
      forall q | ValidPath(q) && q.i4 < KERNEL_SLOT ::
        if q in mapped then Walk(State(), root, q).Page? else Walk(State(), root, q) == Unmapped
    }

    method MapInLife(root: Frame, virt: nat, flags: nat, ghost mapped: set<Path>) returns (ok: bool)
      requires Valid() && WorldInv(Worlds()) && IsRoot(State(), root) && root != pml4
      requires PathOf(virt).i4 < KERNEL_SLOT && flags < 0x1000 && MappedAre(root, mapped) && PathOf(virt) !in mapped
      modifies this, pmm.bitmap
      ensures Valid() && pml4 == old(pml4)
      ensures ok ==> WorldInv(Worlds()) && IsRoot(State(), root) && Close(Worlds(), root) == Close(old(Worlds()), root)
      ensures ok ==> MappedAre(root, mapped + {PathOf(virt)})
    {
      hide PathOf, WorldInv, Close, MapAnon, Inv, Walk, FrameAllocator.Free;
      ghost var w, p := Worlds(), PathOf(virt);
      ok := MapAnonAt(root, virt, flags);
      if !ok { return; }
      MapAnonClosed(w, root, p, flags);
      MapAnonWalks(w, root, p, flags);
    }

    method UnmapInLife(root: Frame, virt: nat, ghost mapped: set<Path>)
      requires Valid() && WorldInv(Worlds()) && IsRoot(State(), root) && root != pml4
      requires PathOf(virt).i4 < KERNEL_SLOT && MappedAre(root, mapped) && PathOf(virt) in mapped
      modifies this, pmm.bitmap
      ensures Valid() && pml4 == old(pml4) && WorldInv(Worlds()) && IsRoot(State(), root)
      ensures Close(Worlds(), root) == Close(old(Worlds()), root) && MappedAre(root, mapped - {PathOf(virt)})
    {
      hide PathOf, WorldInv, Close, UnmapAnon, Inv, Walk, FrameAllocator.Free, UnmapEnabled;
      ghost var w, p := Worlds(), PathOf(virt);
      UserPageLent(w, root, p);
      UnmapAnonClosed(w, root, p);
      UnmapAnonWalks(w, root, p);
      UnmapAnonAt(root, virt);
    }

    /** Nothing is mapped in the lower half of a fresh space. */
    lemma FreshSpace(w: World, root: Frame)
      requires WorldInv(w) && Takable(w.mem.free) && root == Lowest(w.mem.free)
      ensures IsRoot(NewSpace(w).mem, root) && root != w.kernel
      ensures forall q | ValidPath(q) && q.i4 < KERNEL_SLOT :: Walk(NewSpace(w).mem, root, q) == Unmapped
    {
    }

    lemma AllLent(w: World, root: Frame)
      requires WorldInv(w) && IsRoot(w.mem, root) && root != w.kernel
      ensures Sealed(w.mem, root) && Close(w, root).mem == CloseMem(w.mem, root)
    {
      CloseIsMem(w, root);
    }

    // -------------------------------------------------------------- vmm_init

    /** vmm_map_huge_page; false when a table page could not be allocated. */
    method MapHugeAt(root: Frame, p: Path, e: Pte) returns (ok: bool)
      requires Valid() && IsRoot(State(), root) && ValidPath(p) && p.i4 >= KERNEL_SLOT
      requires NoTable(State(), root, p) && Present(e) && Huge(e)
      modifies this, pmm.bitmap
      ensures Valid() && pml4 == old(pml4) && data == old(data)
      ensures ok ==> MapHuge(old(State()), root, p, e) == Some(State())
      ensures ok && root == pml4 && !OtherSlot(p.i4) ==> SlotsKept()
      ensures Consumes(2) && (!ok && 0 !in old(pmm.Free()) ==> NoneLow(pmm.Free()))
      ensures 0 !in old(pmm.Free()) && LowCount(old(pmm.Free())) >= 2 ==> ok
    {
      hide Walk, EntryOk, HeldUp, Descend, FrameAllocator.Free, LastTable, Huge, Present, Inv, CanDescend, NoTable;
      ghost var m := State();
      HugeTablesReady(m, root, p);
      var g3 := NextTable(root, p.i4);
      if g3 == 0 { return false; }
      var g2 := NextTable(g3, p.i3);
      if g2 == 0 { return false; }
      HugeTablesOk(m, root, p);
      MapHugeRefines(m, root, p, e);
      forall s: nat | s < ENTRIES && s != p.i4
        ensures Entry(MapHuge(m, root, p, e).value, root, s) == Entry(m, root, s)
      {
        HugeOtherTops(m, root, p, e, s);
      }
      WholeTable(State(), g2);
      SetEntry(g2, p.i2, e);
      ok := true;
    }

    /** The direct-map loop: 2 MiB pages over max(mem_high, 4 GiB). */
    method BuildDirectMap(tpmem: nat) returns (ok: bool)
      requires Valid() && Sole(State(), pml4) && NoHugeElsewhere(State(), pml4) && DirectUpto(State(), pml4, 0)
      requires tpmem <= 0x800_0000_0000
      modifies this, pmm.bitmap
      ensures Valid() && pml4 == old(pml4) && data == old(data)
      ensures ok ==> SlotsKept()
      ensures ok ==> Sole(State(), pml4) && NoHugeElsewhere(State(), pml4) && DirectWalks(State(), pml4, DirectPages(tpmem))
      ensures ok ==> forall h | h in old(up) :: h in up && up[h] == old(up)[h]
      ensures Consumes(2 * DirectPages(tpmem)) && (!ok && 0 !in old(pmm.Free()) ==> NoneLow(pmm.Free()))
      ensures 0 !in old(pmm.Free()) && LowCount(old(pmm.Free())) >= 2 * DirectPages(tpmem) ==> ok
    {
      hide Walk, Inv, Lean, PathOf, FrameAllocator.Free, MapHuge;
      var i, n := 0, 0;
      while i < tpmem
        invariant i == n * 0x20_0000 && n <= DirectPages(tpmem)
        invariant Consumes(2 * n)
        invariant SlotsKept()
        invariant Valid() && pml4 == old(pml4) && data == old(data)
        invariant Sole(State(), pml4) && NoHugeElsewhere(State(), pml4) && DirectUpto(State(), pml4, n)
        invariant forall h | h in old(up) :: h in up && up[h] == old(up)[h]
      {
        HhdmPath(i);
        ghost var m := State();
        var p := PathOf(HHDM_START + i);
        assert NoTable(m, pml4, p);
        ok := MapHugeAt(pml4, p, DirectEntry(n));
        if !ok { return; }
        MapHugeSole(m, pml4, p, DirectEntry(n));
        MapHugeRefines(m, pml4, p, DirectEntry(n));
        DirectStep(m, pml4, p);
        i, n := i + 0x20_0000, n + 1;
      }
      ok := true;
    }

    lemma MapOtherSlots(m: Mem, root: Frame, p: Path, leaf: Pte)
      requires Mappable(m, root, root, p) && MapPage(m, root, root, p, leaf).Some?
      ensures forall s: nat | s < ENTRIES && s != p.i4 :: Entry(MapPage(m, root, root, p, leaf).value, root, s) == Entry(m, root, s)
    {
      hide Walk, MapTables, LastTable;
      MapTablesOk(m, root, root, p);
      forall s: nat | s < ENTRIES && s != p.i4
        ensures Entry(MapPage(m, root, root, p, leaf).value, root, s) == Entry(m, root, s)
      {
        MapOtherTops(m, root, root, p, root, s);
      }
    }

    /** Map one kernel page during start-up. */
    method MapBootPage(virt: nat, phys: nat, ghost n: nat) returns (ok: bool)
      requires Valid() && Sole(State(), pml4) && NoHugeElsewhere(State(), pml4) && DirectWalks(State(), pml4, n)
      requires !InHhdm(PathOf(virt))
      modifies this, pmm.bitmap
      ensures Valid() && pml4 == old(pml4) && data == old(data)
      ensures ok && !OtherSlot(PathOf(virt).i4) ==> SlotsKept()
      ensures ok ==> Sole(State(), pml4) && NoHugeElsewhere(State(), pml4) && DirectWalks(State(), pml4, n)
      ensures ok ==> forall h | h in old(up) :: h in up && up[h] == old(up)[h]
      ensures ok ==> Walk(State(), pml4, PathOf(virt)) == Page(KernelLeaf(phys))
      ensures ok ==> forall w: nat | w / 0x1000 == virt / 0x1000 :: GetPhys(State(), pml4, w) == phys / 0x1000 * 0x1000 + w % 0x1000
      ensures ok ==> forall q | ValidPath(q) && q != PathOf(virt) :: Walk(State(), pml4, q) == old(Walk(State(), pml4, q))
      ensures Consumes(3) && (!ok && 0 !in old(pmm.Free()) ==> NoneLow(pmm.Free()))
      ensures 0 !in old(pmm.Free()) && LowCount(old(pmm.Free())) >= 3 ==> ok
    {
      hide Walk, Inv, Lean, PathOf, FrameAllocator.Free, MapPage, GetPhys;
      ghost var m := State();
      MapPageSole(m, pml4, PathOf(virt), LeafEntry(phys / 0x1000, 2), n);
      ok := MapAt(pml4, virt, phys, 2);
      if ok {
        GetPhysAfterMap(m, pml4, pml4, virt, phys, 2);
        MapOtherSlots(m, pml4, PathOf(virt), LeafEntry(phys / 0x1000, 2));
        MapPageRefines(m, pml4, pml4, PathOf(virt), LeafEntry(phys / 0x1000, 2));
      }
    }

    /** Fill absent kernel-half slots from the bootloader's PML4. */
    method CopyBootSlots(boot: seq<Pte>, ghost n: nat, ghost klen: nat)
      requires Valid() && Sole(State(), pml4) && DirectWalks(State(), pml4, n) && BootSlots(State(), boot, n, klen)
      requires forall i: nat | Filled(i, n, klen) :: Entry(State(), pml4, i) != ZERO
      modifies `tables
      ensures Valid() && Sole(State(), pml4) && DirectWalks(State(), pml4, n) && Keeps(old(State()), State(), pml4)
      ensures forall s: nat | KERNEL_SLOT <= s < ENTRIES :: Entry(State(), pml4, s) == if old(Entry(State(), pml4, s)) == ZERO then boot[s] else old(Entry(State(), pml4, s))
    {
      hide Walk, Lean, FrameAllocator.Free, EntryOk, HeldUp;
      for i := KERNEL_SLOT to ENTRIES
        invariant Valid() && Sole(State(), pml4) && DirectWalks(State(), pml4, n) && BootSlots(State(), boot, n, klen)
        invariant forall j: nat | i <= j < ENTRIES :: Entry(State(), pml4, j) == old(Entry(State(), pml4, j))
        invariant forall s: nat | KERNEL_SLOT <= s < i :: Entry(State(), pml4, s) == if old(Entry(State(), pml4, s)) == ZERO then boot[s] else old(Entry(State(), pml4, s))
        invariant Keeps(old(State()), State(), pml4)
      {
        if tables[pml4][i] == ZERO && boot[i] != ZERO {
          ghost var m := State();
          assert Entry(m, pml4, i) == ZERO;
          CopyBootSole(m, pml4, i, boot[i], n);
          SetEntry(pml4, i, boot[i]);
        }
      }
    }

    /** A heap slot that was absent holds a table that lets everything through; all other slots are as they were. */
    static predicate Populated(before: Pte, after: Pte, s: nat)
    {
      if HeapSlot(s) && !Present(before) then after == TableEntry(after.frame) else after == before
    }

    /** Pre-populate the PDPTs of the HEAP slots. */
    method PopulateHeap(ghost n: nat) returns (ok: bool)
      requires Valid() && Sole(State(), pml4) && DirectWalks(State(), pml4, n)
      modifies this, pmm.bitmap
      ensures Valid() && pml4 == old(pml4) && data == old(data)
      ensures ok ==> forall s: nat | KERNEL_SLOT <= s < ENTRIES :: Populated(old(Entry(State(), pml4, s)), Entry(State(), pml4, s), s)
      ensures ok ==> Sole(State(), pml4) && DirectWalks(State(), pml4, n) && Keeps(old(State()), State(), pml4)
      ensures Consumes(64) && (!ok && 0 !in old(pmm.Free()) ==> NoneLow(pmm.Free()))
      ensures 0 !in old(pmm.Free()) && LowCount(old(pmm.Free())) >= 64 ==> ok
      ensures ok ==> forall s: nat | HEAP_FIRST <= s < HEAP_LAST :: Present(Entry(State(), pml4, s))
    {
      hide Walk, Inv, Lean, FrameAllocator.Free, Descend;
      for i := HEAP_FIRST to HEAP_LAST
        invariant Valid() && pml4 == old(pml4) && data == old(data) && Sole(State(), pml4) && DirectWalks(State(), pml4, n)
        invariant forall s: nat | HEAP_FIRST <= s < i :: Present(Entry(State(), pml4, s))
        invariant Consumes(i - HEAP_FIRST)
        invariant forall s: nat | KERNEL_SLOT <= s < ENTRIES :: if s < i then Populated(old(Entry(State(), pml4, s)), Entry(State(), pml4, s), s) else Entry(State(), pml4, s) == old(Entry(State(), pml4, s))
        invariant Keeps(old(State()), State(), pml4)
      {
        ghost var m := State();
        TopReady(m, pml4, i);
        var g := NextTable(pml4, i);
        if g == 0 { return false; }
        PopulateSole(m, pml4, i, n);
      }
      ok := true;
    }

    /** vmm_init.  Unless the frames below 4 GiB run out, HHDM_START + p translates to p for every p below
        max(mem_high, 4 GiB), the kernel image and the trampoline page are mapped where the bootloader
        put them, and the invariant of all later runs holds. */
    method Init(boot: seq<Pte>, kphys: nat, klen: nat) returns (ok: bool)
      requires Booted() && pmm.memHigh <= 0x800_0000_0000 && klen <= 0x4000_0000
      requires BootSlots(State(), boot, DirectPages(Span(pmm.memHigh)), klen)
      modifies this, pmm.bitmap
      ensures ok ==> Valid() && WorldInv(Worlds()) && DirectMapped(Span(pmm.memHigh))
      ensures ok ==> KernelUpto(State(), pml4, kphys, klen) && Walk(State(), pml4, PathOf(0x8000)) == Page(KernelLeaf(0x8000)) && GetPhys(State(), pml4, 0x8000) == 0x8000
      ensures pmm.Valid() && (!ok && 0 !in old(pmm.Free()) ==> NoneLow(pmm.Free()))
      ensures 0 !in old(pmm.Free()) && LowCount(old(pmm.Free())) >= StartUpFrames(Span(pmm.memHigh), klen) ==> ok
      ensures ok ==> pmm.Free() <= old(pmm.Free()) && forall s: nat | OtherSlot(s) :: Populated(boot[s], Entry(State(), pml4, s), s)
      ensures ok ==> LowCount(pmm.Free()) + StartUpFrames(Span(pmm.memHigh), klen) >= LowCount(old(pmm.Free()))
    {
      hide Walk, Lean, FrameAllocator.Free, EntryOk, HeldUp, PathOf, GetPhys, KernelUpto, WorldInv, DirectUpto, Filled, Lowest, LowCount;
      ghost var m0 := State();
      if m0.free != {} { LowCountLess(m0.free, Lowest(m0.free)); }
      if 0 !in m0.free && LowCount(m0.free) >= 1 { LowCountTakable(m0.free); }
      var root := TakeFrame();
      if root == 0 { return false; }
      FirstRoot(m0, root);
      tables := tables[root := EmptyTable()];
      up := up[root := Root];
      pml4 := root;
      BootSlotsKept(m0, State(), boot, DirectPages(Span(pmm.memHigh)), klen);
      ok := FillKernelHalf(boot, kphys, klen, Span(pmm.memHigh));
    }

    /** The direct map, then the kernel image. */
    method MapMemory(kphys: nat, klen: nat, tpmem: nat) returns (ok: bool)
      requires Valid() && Sole(State(), pml4) && NoHugeElsewhere(State(), pml4) && DirectUpto(State(), pml4, 0)
      requires tpmem <= 0x800_0000_0000 && klen <= 0x4000_0000
      modifies this, pmm.bitmap
      ensures Valid() && pml4 == old(pml4) && data == old(data)
      ensures ok ==> SlotsKept() && Sole(State(), pml4) && DirectWalks(State(), pml4, DirectPages(tpmem))
      ensures ok ==> forall h | h in old(up) :: h in up && up[h] == old(up)[h]
      ensures ok ==> KernelUpto(State(), pml4, kphys, klen)
      ensures ok ==> Walk(State(), pml4, PathOf(0x8000)) == Page(KernelLeaf(0x8000)) && GetPhys(State(), pml4, 0x8000) == 0x8000
      ensures Consumes(2 * DirectPages(tpmem) + 3 * ImagePages(klen) + 3) && (!ok && 0 !in old(pmm.Free()) ==> NoneLow(pmm.Free()))
      ensures 0 !in old(pmm.Free()) && LowCount(old(pmm.Free())) >= 2 * DirectPages(tpmem) + 3 * ImagePages(klen) + 3 ==> ok
    {
      hide Walk, Lean, FrameAllocator.Free, PathOf, GetPhys, KernelUpto, Inv, DirectUpto, LowCount, DirectPages, ImagePages, DirectWalks, Sole, NoHugeElsewhere;
      ok := BuildDirectMap(tpmem);
      if !ok { return; }
      ok := MapKernelImage(kphys, klen, DirectPages(tpmem));
    }

    /** vmm_init after the PML4 is allocated. */
    method FillKernelHalf(boot: seq<Pte>, kphys: nat, klen: nat, tpmem: nat) returns (ok: bool)
      requires Valid() && Sole(State(), pml4) && NoHugeElsewhere(State(), pml4) && DirectUpto(State(), pml4, 0)
      requires data == map[] && 0 !in pmm.Free() && forall s: nat | s < ENTRIES :: Entry(State(), pml4, s) == ZERO
      requires tpmem <= 0x800_0000_0000 && klen <= 0x4000_0000 && BootSlots(State(), boot, DirectPages(tpmem), klen)
      modifies this, pmm.bitmap
      ensures Valid() && Consumes(StartUpFrames(tpmem, klen) - 1) && (!ok ==> NoneLow(pmm.Free()))
      ensures LowCount(old(pmm.Free())) >= StartUpFrames(tpmem, klen) - 1 ==> ok
      ensures ok ==> pml4 == old(pml4) && forall s: nat | OtherSlot(s) :: Populated(boot[s], Entry(State(), pml4, s), s)
      ensures ok ==> WorldInv(Worlds()) && DirectMapped(tpmem)
      ensures ok ==> KernelUpto(State(), pml4, kphys, klen) && Walk(State(), pml4, PathOf(0x8000)) == Page(KernelLeaf(0x8000)) && GetPhys(State(), pml4, 0x8000) == 0x8000
    {
      hide Walk, Lean, FrameAllocator.Free, EntryOk, HeldUp, PathOf, GetPhys, KernelUpto, Inv, DirectUpto, LowCount, DirectPages, ImagePages, Filled, DirectWalks, Sole, NoHugeElsewhere;
      ghost var m0, n := State(), DirectPages(tpmem);
      ok := MapMemory(kphys, klen, tpmem);
      if !ok { return; }
      BootSlotsKept(m0, State(), boot, n, klen);
      ghost var m1 := State();
      forall i: nat | Filled(i, n, klen)
        ensures Entry(m1, pml4, i) != ZERO
      {
        FilledPresent(m1, pml4, kphys, i, n, klen);
      }
      CopyBootSlots(boot, n, klen);
      ghost var m2 := State();
      ok := PopulateHeap(n);
      if ok {
        KernelKept(m1, m2, pml4, kphys, klen);
        KernelKept(m2, State(), pml4, kphys, klen);
        SameGetPhys(m1, m2, pml4, 0x8000);
        SameGetPhys(m2, State(), pml4, 0x8000);
        PagesCover(tpmem);
        StartUpWorld(tpmem, n);
      }
    }

    /** The kernel text and data pages, then the SMP trampoline page. */
    method MapKernelImage(kphys: nat, klen: nat, ghost n: nat) returns (ok: bool)
      requires Valid() && Sole(State(), pml4) && NoHugeElsewhere(State(), pml4) && DirectWalks(State(), pml4, n) && klen <= 0x4000_0000
      modifies this, pmm.bitmap
      ensures Valid() && pml4 == old(pml4) && data == old(data)
      ensures ok ==> SlotsKept()
      ensures ok ==> Sole(State(), pml4) && DirectWalks(State(), pml4, n)
      ensures ok ==> forall h | h in old(up) :: h in up && up[h] == old(up)[h]
      ensures ok ==> KernelUpto(State(), pml4, kphys, klen)
      ensures ok ==> Walk(State(), pml4, PathOf(0x8000)) == Page(KernelLeaf(0x8000)) && GetPhys(State(), pml4, 0x8000) == 0x8000
      ensures Consumes(3 * ImagePages(klen) + 3) && (!ok && 0 !in old(pmm.Free()) ==> NoneLow(pmm.Free()))
      ensures 0 !in old(pmm.Free()) && LowCount(old(pmm.Free())) >= 3 * ImagePages(klen) + 3 ==> ok
    {
      hide Walk, Inv, Lean, FrameAllocator.Free, PathOf, GetPhys, DirectWalks, NoHugeElsewhere, KernelAt, LowCount, Sole;
      var i := 0;
      while i < klen
        invariant i % 4096 == 0 && i <= klen + 4095 && KernelUpto(State(), pml4, kphys, i)
        invariant Consumes(3 * (i / 4096))
        invariant SlotsKept()
        invariant Valid() && pml4 == old(pml4) && data == old(data)
        invariant Sole(State(), pml4) && NoHugeElsewhere(State(), pml4) && DirectWalks(State(), pml4, n)
        invariant forall h | h in old(up) :: h in up && up[h] == old(up)[h]
      {
        KernelPath(i);
        ghost var m := State();
        ok := MapBootPage(KERN_START + i, kphys + i, n);
        if !ok { return; }
        KernelStep(m, State(), pml4, kphys, i);
        i := i + 4096;
      }
      TrampolinePath();
      ghost var m := State();
      ok := MapBootPage(0x8000, 0x8000, n);
      if ok { KernelAfterTrampoline(m, State(), kphys, klen); }
    }

    lemma KernelAfterTrampoline(m: Mem, m': Mem, kphys: nat, klen: nat)
      requires KernelUpto(m, pml4, kphys, klen) && klen <= 0x4000_0000
      requires forall q | ValidPath(q) && q != PathOf(0x8000) :: Walk(m', pml4, q) == Walk(m, pml4, q)
      ensures KernelUpto(m', pml4, kphys, klen)
    {
      hide Walk, GetPhys, PathOf;
      TrampolinePath();
      forall j: nat | j < klen
        ensures KernelAt(m', pml4, kphys, j)
      {
        assert KernelAt(m, pml4, kphys, j);
        KernelPath(j);
        SameGetPhys(m, m', pml4, KERN_START + j);
      }
    }

    lemma TrampolinePath()
      ensures PathOf(0x8000).i4 == 0
    {
    }

    lemma PagesCover(span: nat)
      ensures span <= DirectPages(span) * 0x20_0000
    {
    }

    lemma StartUpWorld(tpmem: nat, n: nat)
      requires Valid() && Sole(State(), pml4) && DirectWalks(State(), pml4, n) && data == map[] && 0 !in pmm.Free()
      requires forall s: nat | HEAP_FIRST <= s < HEAP_LAST :: Present(Entry(State(), pml4, s))
      requires tpmem <= n * 0x20_0000 && tpmem <= 0x800_0000_0000
      ensures WorldInv(Worlds()) && DirectMapped(tpmem)
    {
      var w := Worlds();
      forall g | g in w.mem.up
        ensures !UserTable(w, g)
      {
        ZoneRootLive(w.mem, g);
      }
      forall r, s: nat | IsRoot(w.mem, r) && HEAP_FIRST <= s < HEAP_LAST
        ensures Present(Entry(w.mem, r, s)) && Entry(w.mem, r, s) == Entry(w.mem, w.kernel, s)
      {
        assert r == pml4;
      }
      forall p: nat | p < tpmem
        ensures DirectAt(p)
      {
        DirectMeaning(State(), pml4, n, p);
      }
    }

    ghost predicate DirectMapped(size: nat)
      reads this, pmm, pmm.bitmap
      requires pmm.Valid()
    {
      forall p: nat {:trigger DirectAt(p)} | p < size :: DirectAt(p)
    }

    /** HHDM_START + p translates to p, by a present, writable 2 MiB leaf that is not for user mode. */
    ghost predicate DirectAt(p: nat)
      reads this, pmm, pmm.bitmap
      requires pmm.Valid()
    {
      && GetPhys(State(), pml4, Hhdm(p)) == p
      && Walk(State(), pml4, PathOf(Hhdm(p))).HugePage? && Walk(State(), pml4, PathOf(Hhdm(p))).pte.flags == 0x83
    }
  }
}
