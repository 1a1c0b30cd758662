/**
 Inputs at which the code does not do what its comments or its callers expect, each reached from start-up
 by the code's own operations; the exact conditions are proved in the modules imported here.
 */
module Counterexamples {
  import opened Basics
  import opened Layout
  import opened PageTables
  import opened PageMapping
  import AddressSpaces
  import DirectMap
  import Vmm
  import Pmm
  import RegionModel
  import ProcessModel
  import Processes
  import VirtqueueModel
  import VirtqueueRuns
  import Virtqueue
  import BlockCache
  import Cpio
  import Unpacking
  import UserStack

  // ---------------------------------------------------------------- a machine that has just started

  lemma {:induction false} RangeSize(start: nat, cnt: nat)
    ensures |Pmm.FrameRange(start, cnt)| == cnt
    decreases cnt
  {
    if cnt > 0 { RangeSize(start, cnt - 1); }
  }

  lemma ManyLow(free: set<Frame>, start: nat, cnt: nat)
    requires Pmm.FrameRange(start, cnt) <= free && start + cnt <= LOW_FRAMES
    ensures LowCount(free) >= cnt
  {
    RangeSize(start, cnt);
    Smaller(Pmm.FrameRange(start, cnt), set f | f in free && f < LOW_FRAMES);
  }

  /** 256 MiB of memory from 1 MiB on, and a bootloader that left nothing in the kernel half. */
  method StartUp() returns (v: Vmm.PageTableManager)
    ensures fresh(v) && fresh(v.pmm.bitmap) && v.Valid() && AddressSpaces.WorldInv(v.Worlds())
    ensures Entry(v.State(), v.pml4, Vmm.MMIO_SLOT) == ZERO && 0 !in v.pmm.Free() && LowCount(v.pmm.Free()) >= 100
  {
    hide AddressSpaces.WorldInv, Pmm.FrameAllocator.Free, LowCount, Inv;
    var a := StartUpFrames();
    EmptyTables(a.Free(), a.nframes);
    v := new Vmm.PageTableManager(a, map[], map[]);
    var ok := v.Init(seq(ENTRIES, _ => ZERO), 0x20_0000, 0x1000);
  }

  lemma EmptyTables(free: set<Frame>, limit: nat)
    requires forall f | f in free :: f < limit
    ensures Inv(Mem(map[], map[], free, limit))
  {
  }

  method StartUpFrames() returns (a: Pmm.FrameAllocator)
    ensures fresh(a) && fresh(a.bitmap) && a.Valid() && a.memHigh == 0x1010_0000
    ensures 0 !in a.Free() && LowCount(a.Free()) >= 5000 && forall f | f in a.Free() :: f < a.nframes
  {
    hide LowCount;
    var e := Pmm.MemEntry(0x10_0000, 0x1000_0000, true);
    OneEntry(e);
    var p, home := Pmm.Init([e]);
    assert Pmm.HoldsBitmap([e][0], Pmm.BitmapBytes(0x1_0100));
    a := p;
    forall f: nat
      ensures Pmm.UsableFrame([e], f) <==> 0x100 <= f < 0x1_0100
    {
      UsableOne(e, f);
    }
    assert Pmm.FrameRange(0x200, 5000) <= a.Free();
    ManyLow(a.Free(), 0x200, 5000);
  }

  lemma OneEntry(e: Pmm.MemEntry)
    ensures Pmm.MaxEnd([e]) == e.base + e.length
  {
    assert [e][..0] == [];
  }

  lemma UsableOne(e: Pmm.MemEntry, f: nat)
    ensures Pmm.UsableFrame([e], f) <==> Pmm.Covers(e, f)
  {
    assert [e][0] == e;
  }

  // ---------------------------------------------------------------- page tables

  /** A second address space, then a page mapped at MMIO_START through the kernel's: only the kernel sees it. */
  method MmioNotShared() returns (kernelSees: nat, otherSees: nat)
    ensures kernelSees == 0xFEE0_0000 && otherSees == 0
  {
    hide AddressSpaces.WorldInv, Pmm.FrameAllocator.Free, LowCount, Inv, PathOf, MapPage, Lowest, Walk;
    var v := StartUp();
    LowCountTakable(v.pmm.Free());
    LowCountLess(v.pmm.Free(), Lowest(v.pmm.Free()));
    ghost var w := v.Worlds();
    var root := v.CreateSpace();
    NewRootKernel(w.mem, v.pml4, root);
    ghost var m, p, leaf := v.State(), PathOf(MMIO_START), LeafEntry(0xFEE00, 2);
    MmioSlot();
    SlotUnmapped(m, v.pml4, p);
    SlotUnmapped(m, root, p);
    var ok := v.MapAt(v.pml4, MMIO_START, 0xFEE0_0000, 2);
    MapPageRefines(m, v.pml4, v.pml4, p, leaf);
    UpperMapVisible(m, v.pml4, v.pml4, p, leaf, root);
    kernelSees := v.TranslateAddress(v.pml4, MMIO_START);
    otherSees := v.TranslateAddress(root, MMIO_START);
  }

  /** A new root has the kernel's slots, and the kernel's table is untouched. */
  lemma NewRootKernel(m: Mem, kernel: Frame, root: Frame)
    requires Inv(m) && IsRoot(m, kernel) && Takable(m.free) && root == Lowest(m.free)
    ensures
      var m' := AddressSpaces.NewRoot(m, kernel);
      && IsRoot(m', root) && IsRoot(m', kernel) && root != kernel && m'.free == m.free - {root}
      && Entry(m', kernel, Vmm.MMIO_SLOT) == Entry(m', root, Vmm.MMIO_SLOT) == Entry(m, kernel, Vmm.MMIO_SLOT)
  {
  }

  lemma MmioSlot()
    ensures PathOf(MMIO_START).i4 == Vmm.MMIO_SLOT && MMIO_START % 0x1000 == 0
  {
  }

  lemma SlotUnmapped(m: Mem, root: Frame, p: Path)
    requires Entry(m, root, p.i4) == ZERO
    ensures Walk(m, root, p) == Unmapped && !LastTable(m, root, p).0
  {
  }

  /** One page mapped in a new address space, and its neighbour, which was never mapped, unmapped: frame 0
      becomes free. */
  method FreesFrameZero() returns (v: Vmm.PageTableManager)
    ensures v.pmm.Valid() && 0 in v.pmm.Free()
  {
    hide AddressSpaces.WorldInv, Pmm.FrameAllocator.Free, LowCount, Inv, PathOf, MapPage, UnmapPage, Lowest, Walk, LastTable;
    v := StartUp();
    LowCountTakable(v.pmm.Free());
    LowCountLess(v.pmm.Free(), Lowest(v.pmm.Free()));
    ghost var w := v.Worlds();
    var root := v.CreateSpace();
    NewRootKernel(w.mem, v.pml4, root);
    v.FreshSpace(w, root);
    ghost var m, p, q, leaf := v.State(), PathOf(0x40_0000), PathOf(0x40_1000), LeafEntry(7, 2);
    TwoPages();
    var ok := v.MapAt(root, 0x40_0000, 0x7000, 2);
    MapPageRefines(m, v.pml4, root, p, leaf);
    NeighbourTable(v.State(), root, p, q);
    SomeFrames(v.State(), root);
    UnmapOfUnmapped(v.State(), root, q);
    v.UnmapAt(root, 0x40_1000, false);
  }

  lemma SomeFrames(m: Mem, root: Frame)
    requires Inv(m) && IsRoot(m, root)
    ensures root < m.limit
  {
  }

  lemma TwoPages()
    ensures PathOf(0x40_0000) == Path(0, 0, 2, 0) && PathOf(0x40_1000) == Path(0, 0, 2, 1)
  {
  }

  lemma NeighbourTable(m: Mem, root: Frame, p: Path, q: Path)
    requires Walk(m, root, p).Page? && Walk(m, root, q) == Unmapped && q == p.(i1 := q.i1)
    requires Inv(m) && IsRoot(m, root) && ValidPath(q) && 0 !in m.up
    ensures LastTable(m, root, q).0 && Unmappable(m, root, q, false)
  {
    LastTablePos(m, root, q);
    assert EntryOk(m, LastTable(m, root, q).1, q.i1);
  }

  // ---------------------------------------------------------------- frames

  /** One free frame below 4 GiB and one 4 GiB above it: two allocations return the same address. */
  method HighFrameAddress() returns (first: nat, second: nat)
    ensures first == second == 0x12_1000
  {
    hide Pmm.MaxEnd;
    var low, high := Pmm.MemEntry(0x10_0000, 0x2_2000, true), Pmm.MemEntry(0x1_0012_1000, 0x1000, true);
    TwoEntries(low, high);
    var p, home := Pmm.Init([low, high]);
    assert Pmm.HoldsBitmap([low, high][0], Pmm.BitmapBytes(0x10_0122));
    var a := p;
    Pmm.AlignedBitmapReserved([low, high], 0, 0x10_0122);
    forall f: nat
      ensures f in a.Free() <==> f == 0x121 || f == 0x10_0121
    {
      UsableTwo(low, high, f);
    }
    assert a.Free() == {0x121, 0x10_0121};
    first := TakeLowest(a, 0x121);
    assert a.Free() == {0x10_0121};
    second := TakeLowest(a, 0x10_0121);
  }

  method TakeLowest(a: Pmm.FrameAllocator, ghost low: nat) returns (addr: nat)
    requires a.Valid() && a.nframes + 7 < Pmm.U32 && low in a.Free() && forall f | f in a.Free() :: low <= f
    modifies a.bitmap
    ensures a.Valid() && a.Free() == old(a.Free()) - {low} && addr == low * Pmm.FRAME_SIZE % Pmm.U32
  {
    hide Pmm.FrameAllocator.Free, Pmm.LowestRun;
    OnlyRun(a.Free(), low);
    ghost var found: bool;
    var start;
    addr, found, start := a.Falloc(1);
    assert Pmm.FrameRange(low, 1) == {low};
  }

  lemma TwoEntries(e: Pmm.MemEntry, f: Pmm.MemEntry)
    ensures Pmm.MaxEnd([e, f]) == if f.base + f.length > e.base + e.length then f.base + f.length else e.base + e.length
  {
    assert [e, f][..1] == [e];
    OneEntry(e);
  }

  lemma UsableTwo(e: Pmm.MemEntry, g: Pmm.MemEntry, f: nat)
    ensures Pmm.UsableFrame([e, g], f) <==> Pmm.Covers(e, f) || Pmm.Covers(g, f)
  {
    assert [e, g][0] == e && [e, g][1] == g;
  }

  /** The lowest free frame is the run a search for one frame finds. */
  lemma OnlyRun(free: set<nat>, low: nat)
    requires low in free && forall f | f in free :: low <= f
    ensures Pmm.LowestRun(free, low, 1) && Pmm.RunFree(free, low, 1)
    ensures forall s: nat | Pmm.LowestRun(free, s, 1) :: s == low
  {
    assert Pmm.RunFree(free, low, 1);
    forall s: nat | s < low
      ensures !Pmm.RunFree(free, s, 1)
    {
      assert s !in free;
    }
    forall s: nat | Pmm.LowestRun(free, s, 1)
      ensures s == low
    {
      Pmm.LowestRunUnique(free, s, low, 1);
    }
  }

  // ---------------------------------------------------------------- elsewhere

  /** From the initial region list: take three pages, give back the middle one. */
  lemma HeapReleaseLoses()
    ensures
      var rs := RegionModel.Take([RegionModel.Region(HEAP_START, (HEAP_END - HEAP_START) / RegionModel.PAGE, true)], 3);
      && RegionModel.Tiles(rs, HEAP_START, HEAP_END)
      && !RegionModel.Tiles(RegionModel.Release(rs, HEAP_START + RegionModel.PAGE, 1), HEAP_START, HEAP_END)
  {
    var n := (HEAP_END - HEAP_START) / RegionModel.PAGE;
    var rs := RegionModel.Take([RegionModel.Region(HEAP_START, n, true)], 3);
    assert rs == [RegionModel.Region(HEAP_START, 3, false), RegionModel.Region(HEAP_START + 3 * RegionModel.PAGE, n - 3, true)];
    RegionModel.ReleaseTiles(rs, HEAP_START + RegionModel.PAGE, 1, HEAP_START, HEAP_END);
  }

  /** Three live processes, 1 and 2 both children of init: 2 waits for 1, 1 exits, and 2 stays blocked. */
  lemma WaiterStays()
    ensures
      var t: ProcessModel.Table := seq(ProcessModel.MAX, i => ProcessModel.Proc(i < 3, false, 0, false, ProcessModel.WAIT_ANY, 0, 0, 0, 0));
      var s := ProcessModel.State(t, seq(ProcessModel.MAX, i => if i == 0 then 0 else 1), seq(ProcessModel.MAX, i => -1));
      && ProcessModel.Inv(s) && ProcessModel.Enabled(s, ProcessModel.Wait(2, 1))
      && var s1 := ProcessModel.Apply(s, ProcessModel.Wait(2, 1));
      && ProcessModel.Enabled(s1, ProcessModel.End(1, true))
      && ProcessModel.Apply(s1, ProcessModel.End(1, true)).t[2].blocked
  {
    hide ProcessModel.Ended;
    var t: ProcessModel.Table := seq(ProcessModel.MAX, i => ProcessModel.Proc(i < 3, false, 0, false, ProcessModel.WAIT_ANY, 0, 0, 0, 0));
    ProcessModel.WokenExactly(ProcessModel.Parked(t, 2, 1), 1, true, 2);
  }

  /** A single argument "a": the initial stack pointer is not a multiple of 16. */
  lemma MisalignedStack()
    ensures UserStack.Size([[97]], []) <= UserStack.USTACK && (USER_END - UserStack.Size([[97]], [])) % 16 != 0
  {
    assert [[97]] + [] == [[97 as Byte]];
    assert |UserStack.Blob([[97 as Byte]])| == 2;
    UserStack.FinalAlignment([[97]], []);
  }

  /** A queue of four descriptors and one block request that the device has not even looked at: if the poll gives
      up now, the request's descriptors become free while the device holds them. */
  method TimeoutFreesBusy() returns (q: Virtqueue.SplitQueue, d0: int)
    ensures q.Valid() && 0 <= d0 && d0 in q.chains && q.lastUsed == q.usedIdx
    ensures VirtqueueRuns.FreeAtDevice(VirtqueueModel.FreeAll(q.Q(), q.chains[d0]))
  {
    hide VirtqueueModel.OwnersOk, VirtqueueModel.FreeListOk, VirtqueueModel.AvailOk, VirtqueueModel.UsedOk, VirtqueueModel.StagesOk, VirtqueueModel.PendingOk, VirtqueueRuns.FreeAtDevice;
    q := new Virtqueue.SplitQueue(4, VirtqueueModel.Elem(0, 0));
    d0 := q.BlkSubmit(0x1000, true);
    VirtqueueModel.PollExact(q.Q());
    VirtqueueRuns.FreeEarly(q.Q(), d0);
  }

  /** From an empty table: init, and its only child, dead. */
  method OneDeadChild() returns (t: Processes.ProcessTable)
    ensures t.Valid() && fresh(t) && fresh(t.procs)
    ensures ProcessModel.Live(t.procs[..], 0) && !t.procs[0].blocked && ProcessModel.DeadChild(t.procs[..], 0, 1)
  {
    hide ProcessModel.Inv;
    t := new Processes.ProcessTable();
    var init := t.NewProcess(0, true, true);
    var child := t.NewProcess(0, true, true);
    t.EndProc(1, true);
  }

  /** Init waits for any child twice, with one dead child: both waits return that child. */
  method ReapedTwice() returns (first: int, second: int)
    ensures first == second == 1
  {
    hide ProcessModel.Inv, ProcessModel.Apply, ProcessModel.FirstDead;
    var t := OneDeadChild();
    first := t.WaitForAny(0);
    assert first == 1 && ProcessModel.DeadChild(t.procs[..], 0, 1);
    second := t.WaitForAny(0);
  }

  /** A file named by one accented letter: the import stops with an error behind it. */
  lemma AccentedNameFails(data: Bytes)
    requires |data| < Cpio.WORD
    ensures
      var x := Unpacking.Item([[0xC3, 0xA9]], 0x81A4, data);
      !Cpio.Parse(Cpio.Pack(0, Unpacking.Members([x]))).ok
  {
    hide Cpio.Parse, Cpio.Pack;
    var x := Unpacking.Item([[0xC3, 0xA9]], 0x81A4, data);
    var ms := Unpacking.Members([x]);
    assert |ms| == 2 && ms[0] == Cpio.Record(0x41ED, [46], []) && ms[1] == Cpio.Record(0x81A4, [0xC3, 0xA9], data);
    Cpio.AsciiFits([46]);
    assert Cpio.Chars([0xC3, 0xA9]) == 1 by { assert [0xC3, 0xA9][1..] == [0xA9] && [0xA9][1..] == []; }
    Cpio.DerailedArchive(0, ms, 1);
  }

  /** A symbolic link to "bin": the import stops with an error behind it. */
  lemma SymbolicLinkFails()
    ensures !Cpio.Parse(Cpio.Pack(0, [Cpio.Record(0xA1FF, [115, 104], [98, 105, 110])])).ok
  {
    hide Cpio.Parse, Cpio.Pack;
    Cpio.AsciiFits([115, 104]);
    Cpio.DerailedArchive(0, [Cpio.Record(0xA1FF, [115, 104], [98, 105, 110])], 0);
  }
}
