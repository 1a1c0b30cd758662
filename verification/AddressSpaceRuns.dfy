/**
 Theorems about every run of address-space operations (src/kern/mem/vmm.c):
 no frame is lost or owned twice, and a space that is created, used and destroyed leaves no trace.
 */
module AddressSpaceRuns {
  import opened Basics
  import opened PageTables
  import opened PageMapping
  import opened AddressSpaces

  datatype Op =
    | Create
    | MapOp(root: Frame, path: Path, flags: nat)
    | UnmapOp(root: Frame, path: Path)
    | Destroy(root: Frame)

  ghost predicate Enabled(w: World, op: Op)
    requires WorldInv(w)
  {
    match op
    case Create => Takable(w.mem.free)
    case MapOp(root, p, flags) => MapEnabled(w, root, p, flags) && MapAnon(w, root, p, flags).Some?
    case UnmapOp(root, p) => UnmapEnabled(w, root, p)
    case Destroy(root) => IsRoot(w.mem, root) && root != w.kernel
  }

  ghost function Apply(w: World, op: Op): World
    requires WorldInv(w) && Enabled(w, op)
  {
    match op
    case Create => NewSpace(w)
    case MapOp(root, p, flags) => MapAnon(w, root, p, flags).value
    case UnmapOp(root, p) => UnmapAnon(w, root, p)
    case Destroy(root) => Close(w, root)
  }

  /** w' is reached from w by the operations ops, each enabled when it is taken. */
  ghost predicate Runs(w: World, ops: seq<Op>, w': World)
    decreases |ops|
  {
    if ops == [] then w' == w
    else WorldInv(w) && Enabled(w, ops[0]) && Runs(Apply(w, ops[0]), ops[1..], w')
  }

  lemma ApplyInv(w: World, op: Op)
    requires WorldInv(w) && Enabled(w, op)
    ensures WorldInv(Apply(w, op))
  {
    match op
    case Create => NewSpaceInv(w);
    case MapOp(root, p, flags) => MapAnonInv(w, root, p, flags);
    case UnmapOp(root, p) => UnmapAnonInv(w, root, p);
    case Destroy(root) => CloseInv(w, root);
  }

  lemma ApplyPool(w: World, op: Op)
    requires WorldInv(w) && Enabled(w, op)
    ensures Pool(Apply(w, op)) == Pool(w) && Apply(w, op).kernel == w.kernel
  {
    match op
    case Create =>
    case MapOp(root, p, flags) => MapPool(w, root, p, flags);
    case UnmapOp(root, p) => UnmapPool(w, root, p);
    case Destroy(root) => ClosePool(w, root);
  }

  lemma MapPool(w: World, root: Frame, p: Path, flags: nat)
    requires WorldInv(w) && MapEnabled(w, root, p, flags) && MapAnon(w, root, p, flags).Some?
    ensures Pool(MapAnon(w, root, p, flags).value) == Pool(w)
  {
    hide MapPage, Mappable, Walk, LastTable, Lean, HeapShared;
    MapAnonReady(w, root, p, flags);
    var d := Lowest(w.mem.free);
    MapPageRefines(TakeFrame(w.mem), w.kernel, root, p, LeafEntry(d, flags));
  }

  lemma UnmapPool(w: World, root: Frame, p: Path)
    requires WorldInv(w) && UnmapEnabled(w, root, p)
    ensures Pool(UnmapAnon(w, root, p)) == Pool(w)
  {
    hide UnmapPage, Unmappable, Lean, HeapShared;
    UnmapReady(w, root, p);
    UnmapTouches(w.mem, root, p, UnmapAnon(w, root, p).mem);
  }

  /** Every run keeps the invariant and the pool: no frame is lost, and none is
      at once free, a table and lent. */
  lemma {:induction false} RunConserves(w: World, ops: seq<Op>, w': World)
    requires WorldInv(w) && Runs(w, ops, w')
    ensures WorldInv(w') && Pool(w') == Pool(w) && w'.kernel == w.kernel
    ensures w'.mem.free == Pool(w) - w'.mem.up.Keys - w'.data.Keys
    decreases |ops|
  {
    if ops != [] {
      ApplyInv(w, ops[0]);
      ApplyPool(w, ops[0]);
      RunConserves(Apply(w, ops[0]), ops[1..], w');
    }
  }

  /** Is op a lower-half operation on root? */
  predicate WithinSpace(op: Op, root: Frame)
  {
    match op
    case MapOp(r, p, _) => r == root && p.i4 < KERNEL_SLOT
    case UnmapOp(r, p) => r == root && p.i4 < KERNEL_SLOT
    case _ => false
  }

  lemma {:induction false} BodyInvisible(w: World, ops: seq<Op>, w': World, root: Frame)
    requires WorldInv(w) && Runs(w, ops, w')
    requires forall i | 0 <= i < |ops| :: WithinSpace(ops[i], root)
    ensures Close(w', root) == Close(w, root)
    decreases |ops|
  {
    hide WorldInv, MapAnon, UnmapAnon, Close, UnmapEnabled, MapEnabled;
    if ops != [] {
      assert WithinSpace(ops[0], root);
      ApplyInv(w, ops[0]);
      match ops[0] {
        case MapOp(_, p, flags) => MapAnonClosed(w, root, p, flags);
        case UnmapOp(_, p) => UnmapAnonClosed(w, root, p);
      }
      BodyInvisible(Apply(w, ops[0]), ops[1..], w', root);
    }
  }

  /** vmm_casp, any lower-half maps and unmaps, then vmm_dasp: page tables, lent
      frames and the frame bitmap end exactly as they began. */
  lemma LifetimeLeavesNoTrace(w: World, body: seq<Op>, w': World)
    requires WorldInv(w) && Takable(w.mem.free)
    requires forall i | 0 <= i < |body| :: WithinSpace(body[i], Lowest(w.mem.free))
    requires Runs(w, [Create] + body + [Destroy(Lowest(w.mem.free))], w')
    ensures w' == w
  {
    hide Inv, Lean, DataInv, HeapShared, Pool, NewSpace, Close;
    var root := Lowest(w.mem.free);
    var ops := [Create] + body + [Destroy(root)];
    assert ops[1..] == body + [Destroy(root)];
    NewSpaceInv(w);
    var w1 := SplitRun(NewSpace(w), body, [Destroy(root)], w');
    assert [Destroy(root)][1..] == [];
    BodyInvisible(NewSpace(w), body, w1, root);
    CloseUndoesNew(w);
  }

  lemma {:induction false} SplitRun(w: World, a: seq<Op>, b: seq<Op>, w': World) returns (mid: World)
    requires Runs(w, a + b, w')
    ensures Runs(w, a, mid) && Runs(mid, b, w')
    decreases |a|
  {
    hide WorldInv, Enabled, Apply;
    if a == [] {
      assert a + b == b;
      mid := w;
    } else {
      assert (a + b)[0] == a[0] && (a + b)[1..] == a[1..] + b;
      mid := SplitRun(Apply(w, a[0]), a[1..], b, w');
    }
  }
}
