/**
 The region list of src/kern/mem/vmm.c as a linked list in a fixed pool of nodes.
 */
module Regions {

  import opened Basics
  import opened Layout
  import opened RegionModel

  /** struct vmm_region; next is an index into the pool, -1 for NULL. */
  datatype Node = Node(base: nat, pages: nat, free: bool, next: int)

  function RegionOf(n: Node): Region { Region(n.base, n.pages, n.free) }

  ghost predicate InPool(ns: seq<Node>, order: seq<nat>)
  {
    |ns| == MAX_NODES && Distinct(order) && forall k | 0 <= k < |order| :: order[k] < MAX_NODES
  }

  ghost predicate NextOk(ns: seq<Node>, order: seq<nat>, tail: int, k: int)
    requires InPool(ns, order) && 0 <= k < |order|
  {
    ns[order[k]].next == if k + 1 < |order| then order[k + 1] else tail
  }

  /** Following next from order[0] visits the nodes of `order`; the last one points at `tail`. */
  ghost predicate Linked(ns: seq<Node>, order: seq<nat>, tail: int)
  {
    && InPool(ns, order) && order != []
    && forall k {:trigger NextOk(ns, order, tail, k)} | 0 <= k < |order| :: NextOk(ns, order, tail, k)
  }

  ghost function RegionsOf(ns: seq<Node>, order: seq<nat>): seq<Region>
    requires InPool(ns, order)
  {
    seq(|order|, k requires 0 <= k < |order| => RegionOf(ns[order[k]]))
  }

  predicate Empty(n: Node) { n.base == 0 && n.pages == 0 && !n.free }

  ghost predicate Clean(ns: seq<Node>, order: seq<nat>)
  {
    forall i: nat | i < |ns| && i !in order :: Empty(ns[i])
  }

  // ---------------------------------------------------------------- list surgery

  ghost function Inserted(order: seq<nat>, k: nat, m: nat): seq<nat>
    requires k < |order|
  {
    order[..k + 1] + [m] + order[k + 1..]
  }

  /** Node k becomes a, and a new node m after it b. */
  ghost function InsertedNodes(ns: seq<Node>, cur: nat, m: nat, a: Region, b: Region): seq<Node>
    requires cur < |ns| && m < |ns|
  {
    ns[m := Node(b.base, b.pages, b.free, ns[cur].next)][cur := Node(a.base, a.pages, a.free, m)]
  }

  lemma InsertedInPool(ns: seq<Node>, order: seq<nat>, k: nat, m: nat)
    requires InPool(ns, order) && k < |order| && m < MAX_NODES && m !in order
    ensures InPool(ns, Inserted(order, k, m))
    ensures forall j | 0 <= j < |order| + 1 :: Inserted(order, k, m)[j] == if j <= k then order[j] else if j == k + 1 then m else order[j - 1]
  {
  }

  lemma InsertLinks(ns: seq<Node>, order: seq<nat>, k: nat, m: nat, a: Region, b: Region)
    requires Linked(ns, order, -1) && k < |order| && m < MAX_NODES && m !in order
    ensures Linked(InsertedNodes(ns, order[k], m, a, b), Inserted(order, k, m), -1)
  {
    var ns', o := InsertedNodes(ns, order[k], m, a, b), Inserted(order, k, m);
    InsertedInPool(ns, order, k, m);
    forall j | 0 <= j < |o|
      ensures NextOk(ns', o, -1, j)
    {
      if j > k { assert NextOk(ns, order, -1, j - 1); }
      if j < k { assert order[j] in order && NextOk(ns, order, -1, j); }
    }
  }

  lemma InsertRegions(ns: seq<Node>, order: seq<nat>, k: nat, m: nat, a: Region, b: Region)
    requires Linked(ns, order, -1) && k < |order| && m < MAX_NODES && m !in order
    requires Linked(InsertedNodes(ns, order[k], m, a, b), Inserted(order, k, m), -1)
    ensures RegionsOf(InsertedNodes(ns, order[k], m, a, b), Inserted(order, k, m)) == Replace(RegionsOf(ns, order), k, [a, b])
  {
    var ns', o := InsertedNodes(ns, order[k], m, a, b), Inserted(order, k, m);
    var rs, rs' := RegionsOf(ns, order), RegionsOf(ns', o);
    forall j | 0 <= j < |rs'|
      ensures rs'[j] == Replace(rs, k, [a, b])[j]
    {
      ReplaceElem(rs, k, [a, b], j);
    }
  }

  lemma InsertLinked(ns: seq<Node>, order: seq<nat>, k: nat, m: nat, a: Region, b: Region)
    requires Linked(ns, order, -1) && k < |order| && m < MAX_NODES && m !in order
    ensures Linked(InsertedNodes(ns, order[k], m, a, b), Inserted(order, k, m), -1)
    ensures RegionsOf(InsertedNodes(ns, order[k], m, a, b), Inserted(order, k, m)) == Replace(RegionsOf(ns, order), k, [a, b])
    ensures Clean(ns, order) ==> Clean(InsertedNodes(ns, order[k], m, a, b), Inserted(order, k, m))
  {
    hide RegionsOf;
    var ns', o := InsertedNodes(ns, order[k], m, a, b), Inserted(order, k, m);
    InsertedInPool(ns, order, k, m);
    InsertLinks(ns, order, k, m, a, b);
    InsertRegions(ns, order, k, m, a, b);
    forall i: nat | i in order
      ensures i in o
    {
      var j :| 0 <= j < |order| && order[j] == i;
      assert o[if j <= k then j else j + 1] == i;
    }
  }

  ghost function Dropped(order: seq<nat>, k: nat): seq<nat>
    requires k + 1 < |order|
  {
    order[..k + 1] + order[k + 2..]
  }

  /** Node cur takes over the pages and the link of its successor nxt, which is emptied. */
  ghost function MergedNodes(ns: seq<Node>, cur: nat, nxt: nat): seq<Node>
    requires cur < |ns| && nxt < |ns|
  {
    ns[cur := ns[cur].(pages := ns[cur].pages + ns[nxt].pages, next := ns[nxt].next)][nxt := Node(0, 0, false, -1)]
  }

  lemma MergeLinks(ns: seq<Node>, order: seq<nat>, tail: int, k: nat)
    requires Linked(ns, order, tail) && k + 1 < |order|
    ensures Linked(MergedNodes(ns, order[k], order[k + 1]), Dropped(order, k), tail)
    ensures forall j | 0 <= j < |order| - 1 :: Dropped(order, k)[j] == order[if j <= k then j else j + 1]
  {
    var ns', o := MergedNodes(ns, order[k], order[k + 1]), Dropped(order, k);
    assert InPool(ns', o);
    forall j | 0 <= j < |o|
      ensures NextOk(ns', o, tail, j)
    {
      assert NextOk(ns, order, tail, if j < k then j else j + 1);
    }
  }

  lemma MergeLinked(ns: seq<Node>, order: seq<nat>, tail: int, k: nat)
    requires Linked(ns, order, tail) && k + 1 < |order|
    ensures Linked(MergedNodes(ns, order[k], order[k + 1]), Dropped(order, k), tail)
    ensures
      var rs := RegionsOf(ns, order);
      RegionsOf(MergedNodes(ns, order[k], order[k + 1]), Dropped(order, k)) == rs[..k] + [rs[k].(pages := rs[k].pages + rs[k + 1].pages)] + rs[k + 2..]
    ensures Clean(ns, order) ==> Clean(MergedNodes(ns, order[k], order[k + 1]), Dropped(order, k))
  {
    var ns', o := MergedNodes(ns, order[k], order[k + 1]), Dropped(order, k);
    MergeLinks(ns, order, tail, k);
    forall i: nat | i in order && i != order[k + 1]
      ensures i in o
    {
      var j :| 0 <= j < |order| && order[j] == i;
      assert o[if j <= k then j else j - 1] == i;
    }
  }

  /** An index is outside the list exactly when the pool is not full. */
  lemma Spare(ns: seq<Node>, order: seq<nat>, m: nat)
    requires InPool(ns, order) && m < MAX_NODES && m !in order
    ensures |order| < MAX_NODES
  {
    Pigeonhole(order + [m], MAX_NODES);
  }

  lemma InPoolOf(ns: seq<Node>, order: seq<nat>, tail: int)
    requires Linked(ns, order, tail)
    ensures InPool(ns, order) && order != [] && |RegionsOf(ns, order)| == |order| <= MAX_NODES == |ns|
  {
    Pigeonhole(order, MAX_NODES);
  }

  lemma NodeAt(ns: seq<Node>, order: seq<nat>, tail: int, k: nat)
    requires Linked(ns, order, tail) && k < |order|
    ensures order[k] < MAX_NODES == |ns| && InPool(ns, order) && |RegionsOf(ns, order)| == |order|
    ensures ns[order[k]].next == if k + 1 < |order| then order[k + 1] else tail
    ensures RegionsOf(ns, order)[k] == RegionOf(ns[order[k]])
  {
    assert NextOk(ns, order, tail, k);
  }

  lemma TakeAt(rs: seq<Region>, n: nat, k: nat)
    requires k < |rs| && FirstFit(rs, n) == k
    ensures CanTake(rs, n) <==> !(rs[k].pages > n && |rs| >= MAX_NODES)
    ensures CanTake(rs, n) ==> Take(rs, n) == Replace(rs, k, Pieces(rs[k], n))
    ensures !CanTake(rs, n) ==> Take(rs, n) == rs
  {
  }

  lemma TakeNone(rs: seq<Region>, n: nat)
    requires FirstFit(rs, n) == |rs|
    ensures !CanTake(rs, n) && Take(rs, n) == rs
  {
  }

  lemma FreedAt(rs: seq<Region>, at: nat, n: nat, k: nat)
    requires k < |rs| && Holder(rs, at, n) == k
    ensures FromMiddle(rs, at, n) <==> Middle(rs[k], at, n)
    ensures !FromMiddle(rs, at, n) ==> Freed(rs, at, n) == if !Whole(rs[k], at, n) && |rs| >= MAX_NODES then rs else Replace(rs, k, FreePieces(rs[k], at, n))
  {
  }

  lemma FreedNone(rs: seq<Region>, at: nat, n: nat)
    requires Holder(rs, at, n) == |rs|
    ensures !FromMiddle(rs, at, n) && Freed(rs, at, n) == rs
  {
  }

  /** Cutting the list after node k and linking m, pointing at itself, behind it. */
  lemma LoopLinked(ns: seq<Node>, order: seq<nat>, k: nat, m: nat, c: Node, x: Node)
    requires Linked(ns, order, -1) && k < |order| && m < MAX_NODES && m !in order && c.next == m && x.next == m
    ensures
      var ns', o := ns[m := x][order[k] := c], order[..k + 1] + [m];
      Linked(ns', o, m) && RegionsOf(ns', o) == RegionsOf(ns, order)[..k] + [RegionOf(c), RegionOf(x)]
  {
    var ns', o := ns[m := x][order[k] := c], order[..k + 1] + [m];
    forall j | 0 <= j <= k
      ensures o[j] == order[j] && o[j] != m
    {
      assert order[j] in order;
    }
    assert InPool(ns', o);
    forall j | 0 <= j < |o|
      ensures NextOk(ns', o, m, j)
    {
      if j < k { assert NextOk(ns, order, -1, j); }
    }
  }

  ghost predicate FreeAfterUsed(rs: seq<Region>)
  {
    |rs| >= 2 && rs[|rs| - 1].free && !rs[|rs| - 2].free
  }

  lemma LastFree(rs: seq<Region>)
    ensures FreeAfterUsed(rs) ==> |rs| >= 2 && rs[|rs| - 1].free
  {
  }

  /** Region k and its successor as one. */
  function Joined(rs: seq<Region>, k: nat): seq<Region>
    requires k + 1 < |rs|
  {
    rs[..k] + [rs[k].(pages := rs[k].pages + rs[k + 1].pages)] + rs[k + 2..]
  }

  /** The list when the regions from k on are still to be merged. */
  ghost function MergedFrom(rs: seq<Region>, k: nat): seq<Region>
    requires k <= |rs|
  {
    rs[..k] + Coalesce(rs[k..])
  }

  lemma MergedFromStart(rs: seq<Region>)
    ensures MergedFrom(rs, 0) == Coalesce(rs)
  {
    assert rs[..0] == [] && rs[0..] == rs;
  }

  lemma MergeBefore(rs: seq<Region>, k: nat)
    requires FreeAfterUsed(rs) && k + 1 < |rs| && rs[k].free && rs[k + 1].free
    ensures k + 2 < |rs| && FreeAfterUsed(Joined(rs, k))
  {
  }

  lemma SelfLinked(ns: seq<Node>, order: seq<nat>)
    requires order != [] && Linked(ns, order, order[|order| - 1])
    ensures
      var curr := order[|order| - 1];
      && Linked(MergedNodes(ns, curr, curr), order, -1)
      && RegionsOf(MergedNodes(ns, curr, curr), order) == EmptyLast(RegionsOf(ns, order))
  {
    var n := |order| - 1;
    var ns' := MergedNodes(ns, order[n], order[n]);
    forall j | 0 <= j < |order|
      ensures NextOk(ns', order, -1, j)
    {
      assert NextOk(ns, order, order[n], j);
    }
    var rs, rs' := RegionsOf(ns, order), RegionsOf(ns', order);
    assert forall j | 0 <= j < n :: rs'[j] == rs[j];
  }

  /** One turn of the merging loop at position k. */
  lemma CoalesceStep(rs: seq<Region>, k: nat)
    requires k < |rs|
    ensures k + 1 == |rs| ==> MergedFrom(rs, k) == rs
    ensures k + 1 < |rs| && !(rs[k].free && rs[k + 1].free) ==> MergedFrom(rs, k) == MergedFrom(rs, k + 1)
    ensures k + 1 < |rs| && rs[k].free && rs[k + 1].free ==> k <= |Joined(rs, k)| && MergedFrom(rs, k) == MergedFrom(Joined(rs, k), k)
  {
    if k + 1 < |rs| {
      assert rs[k..][1..] == rs[k + 1..] && rs[k..][2..] == rs[k + 2..];
      var m := [rs[k].(pages := rs[k].pages + rs[k + 1].pages)];
      var rs' := rs[..k] + m + rs[k + 2..];
      assert rs'[..k] == rs[..k] && rs'[k..] == m + rs[k + 2..];
    }
  }

  // ---------------------------------------------------------------- the list

  class RegionList {
    const nodes: array<Node>
    var head: int
    ghost var order: seq<nat>

    ghost predicate Shape(tail: int)
      reads this, nodes
    {
      Linked(nodes[..], order, tail) && head == order[0]
    }

    ghost function List(): seq<Region>
      reads this, nodes
      requires InPool(nodes[..], order)
    {
      RegionsOf(nodes[..], order)
    }

    /** The list tiles the heap, merged, and nodes outside it are empty. */
    ghost predicate Valid()
      reads this, nodes
    {
      Shape(-1) && Clean(nodes[..], order) && ListOk(List())
    }

    /** vmm_init: one free region, the whole heap. */
    constructor ()
      ensures Valid() && fresh(nodes) && List() == [Region(HEAP_START, (HEAP_END - HEAP_START) / PAGE, true)]
    {
      nodes := new Node[MAX_NODES](i => Node(0, 0, false, -1));
      head, order := 0, [0];
      new;
      nodes[0] := Node(HEAP_START, (HEAP_END - HEAP_START) / PAGE, true, -1);
      assert List() == [Region(HEAP_START, (HEAP_END - HEAP_START) / PAGE, true)];
    }

    /** allocvmmr: a node that is not in the list, unless all are. */
    method AllocNode() returns (i: int)
      requires Valid()
      ensures i == -1 <==> |order| == MAX_NODES
      ensures i != -1 ==> 0 <= i < MAX_NODES && i !in order && forall m: nat | m < i :: m in order
    {
      hide ListOk;
      ListedNotEmpty();
      for j: int := 0 to MAX_NODES
        invariant forall m: nat | m < j :: m in order
      {
        if nodes[j].base == 0 && nodes[j].pages == 0 && !nodes[j].free {
          Spare(nodes[..], order, j);
          return j;
        }
      }
      Covering(order, MAX_NODES);
      Pigeonhole(order, MAX_NODES);
      i := -1;
    }

    lemma ListedNotEmpty()
      requires Valid()
      ensures forall i | 0 <= i < MAX_NODES && i in order :: !Empty(nodes[i])
    {
      forall i | 0 <= i < MAX_NODES && i in order
        ensures !Empty(nodes[i])
      {
        var k :| 0 <= k < |order| && order[k] == i;
        TilesOrder(List(), HEAP_START, HEAP_END, k);
        assert List()[k] == RegionOf(nodes[i]);
      }
    }

    /** The current node becomes a, and the new node m, linked after it, b. */
    method PutAfter(cur: nat, m: nat, a: Region, b: Region, ghost k: nat)
      requires Shape(-1) && Clean(nodes[..], order) && k < |order| && cur == order[k] && m < MAX_NODES && m !in order
      modifies this`order, nodes
      ensures Shape(-1) && Clean(nodes[..], order) && List() == Replace(old(List()), k, [a, b])
      ensures |order| == |old(order)| + 1
    {
      hide Linked, InPool, RegionsOf, Clean, EmptyLast;
      InPoolOf(nodes[..], order, -1);
      InsertLinked(nodes[..], order, k, m, a, b);
      ghost var ns := InsertedNodes(nodes[..], cur, m, a, b);
      assert m != cur;
      nodes[m] := Node(b.base, b.pages, b.free, nodes[cur].next);
      nodes[cur] := Node(a.base, a.pages, a.free, m);
      assert nodes[..] == ns;
      order := Inserted(order, k, m);
    }

    method SetFree(cur: nat, free: bool, ghost k: nat)
      requires Shape(-1) && Clean(nodes[..], order) && k < |order| && cur == order[k]
      modifies nodes
      ensures Shape(-1) && Clean(nodes[..], order) && List() == Replace(old(List()), k, [old(List())[k].(free := free)])
    {
      ghost var ns := nodes[..];
      nodes[cur] := nodes[cur].(free := free);
      forall j | 0 <= j < |order|
        ensures NextOk(nodes[..], order, -1, j)
      {
        assert NextOk(ns, order, -1, j);
      }
      assert cur in order;
    }

    /** vmm_ffreer for the kernel: 0 when nothing fits or no node is left for the remainder. */
    method TakePages(n: nat) returns (at: nat)
      requires Valid()
      modifies this`order, nodes
      ensures Valid() && List() == Take(old(List()), n)
      ensures at == if CanTake(old(List()), n) then old(List())[FirstFit(old(List()), n)].base else 0
    {
      hide Linked, InPool, RegionsOf, Clean, ListOk, FirstFit, Take;
      InPoolOf(nodes[..], order, -1);
      ghost var rs := List();
      var curr := head;
      ghost var k := 0;
      while curr != -1
        invariant order == old(order) && nodes[..] == old(nodes[..]) && Valid() && InPool(nodes[..], order) && List() == rs
        invariant 0 <= k <= |order| && curr == if k < |order| then order[k] else -1
        invariant forall j | 0 <= j < k :: !FitsIn(rs[j], n)
        decreases |order| - k
      {
        NodeAt(nodes[..], order, -1, k);
        if nodes[curr].free && nodes[curr].pages >= n {
          assert FirstFit(rs, n) == k;
          TakeAt(rs, n, k);
          StepOk(rs, Op.TakePages(n));
          at := nodes[curr].base;
          if nodes[curr].pages > n {
            var m := AllocNode();
            if m == -1 { return 0; }
            PutAfter(curr, m, Region(at, n, false), Region(at + n * PAGE, nodes[curr].pages - n, true), k);
          } else {
            SetFree(curr, false, k);
          }
          return;
        }
        curr := nodes[curr].next;
        k := k + 1;
      }
      assert FirstFit(rs, n) == |rs|;
      TakeNone(rs, n);
      at := 0;
    }

    /** Absorb the successor of node k, which may be the node itself at the end of a looped list. */
    method Absorb(curr: nat, ghost k: nat, ghost tail: int)
      requires Shape(tail) && k < |order| && curr == order[k] && (k + 1 == |order| ==> tail == curr)
      modifies this`order, nodes
      ensures k + 1 < |old(order)| ==> Shape(tail) && order == Dropped(old(order), k)
      ensures k + 1 < |old(order)| && old(Clean(nodes[..], order)) ==> Clean(nodes[..], order)
      ensures k + 1 < |old(order)| ==>
                List() == Joined(old(List()), k)
      ensures k + 1 == |old(order)| ==> Shape(-1) && order == old(order) && List() == EmptyLast(old(List()))
    {
      hide Linked, InPool, RegionsOf, Clean, EmptyLast;
      ghost var ns := nodes[..];
      InPoolOf(ns, order, tail);
      NodeAt(ns, order, tail, k);
      ghost var nxt' := if k + 1 < |order| then order[k + 1] else curr;
      var nxt := nodes[curr].next;
      nodes[curr] := nodes[curr].(pages := nodes[curr].pages + nodes[nxt].pages, next := nodes[nxt].next);
      nodes[nxt] := Node(0, 0, false, -1);
      assert nodes[..] == MergedNodes(ns, curr, nxt');
      if k + 1 < |order| {
        MergeLinked(ns, order, tail, k);
        order := Dropped(order, k);
      } else {
        SelfLinked(ns, order);
      }
    }

    /** The last node points at itself, is free, and follows a node in use. */
    ghost predicate Looped(tail: int)
      reads this, nodes
      requires Shape(tail)
    {
      tail == order[|order| - 1] && FreeAfterUsed(List())
    }

    /** The merging loop of vmm_unmap_pages.  Run on a list whose last node points at itself, it empties
        that node and ends the list there. */
    method MergeList(ghost tail: int)
      requires Shape(tail) && (tail == -1 || Looped(tail))
      modifies this`order, nodes
      ensures Shape(-1) && List() == if tail == -1 then Coalesce(old(List())) else EmptyLast(Coalesce(old(List())))
      ensures tail == -1 && old(Clean(nodes[..], order)) ==> Clean(nodes[..], order)
    {
      hide Linked, InPool, RegionsOf, Clean, Coalesce, EmptyLast, FreeAfterUsed, Joined, MergedFrom;
      InPoolOf(nodes[..], order, tail);
      ghost var rs := List();
      var curr := head;
      ghost var k, t := 0, tail;
      NodeAt(nodes[..], order, t, k);
      MergedFromStart(rs);
      while curr != -1 && nodes[curr].next != -1
        invariant Shape(t) && InPool(nodes[..], order) && (t == -1 || Looped(t))
        invariant 0 <= k < |order| == |List()| && curr == order[k] < nodes.Length && (t == tail || (t == -1 && k + 1 == |order|))
        invariant if t == tail then Coalesce(rs) == MergedFrom(List(), k) else List() == EmptyLast(Coalesce(rs))
        invariant tail == -1 && old(Clean(nodes[..], order)) ==> Clean(nodes[..], order)
        decreases |order| - k, t
      {
        NodeAt(nodes[..], order, t, k);
        if k + 1 < |order| { NodeAt(nodes[..], order, t, k + 1); }
        LastFree(List());
        CoalesceStep(List(), k);
        if nodes[curr].free && nodes[nodes[curr].next].free {
          ghost var last := k + 1 == |order|;
          if !last && t != -1 { MergeBefore(List(), k); }
          Absorb(curr, k, t);
          if last { t := -1; }
        } else {
          curr := nodes[curr].next;
          k := k + 1;
        }
        InPoolOf(nodes[..], order, t);
        NodeAt(nodes[..], order, t, k);
      }
      NodeAt(nodes[..], order, t, k);
      CoalesceStep(List(), k);
    }

    /** Release from inside node k: both nodes asked for are the same, so the last write leaves it
        pointing at itself. */
    method CutMiddle(curr: nat, at: nat, n: nat, ghost k: nat) returns (ghost tail: int)
      requires Valid() && k < |order| && curr == order[k] && Holds(List()[k], at, n) && Middle(List()[k], at, n)
      modifies this`order, nodes
      ensures old(|order|) == MAX_NODES ==> tail == -1 && Valid() && List() == old(List())
      ensures old(|order|) < MAX_NODES ==> tail >= 0 && Shape(tail) && Looped(tail)
      ensures old(|order|) < MAX_NODES ==>
                List() == old(List())[..k] + [old(List())[k].(pages := (at - old(List())[k].base) / PAGE), Region(at, n, true)]
    {
      hide ListOk;
      ghost var ns, rs := nodes[..], List();
      InPoolOf(ns, order, -1);
      var mid := AllocNode();
      var trail := AllocNode();
      tail := -1;
      if mid != -1 && trail != -1 {
        var end := nodes[curr].base + nodes[curr].pages * PAGE;
        nodes[trail] := Node(at + n * PAGE, (end - (at + n * PAGE)) / PAGE, false, nodes[curr].next);
        nodes[mid] := Node(at, n, true, trail);
        nodes[curr] := nodes[curr].(pages := (at - nodes[curr].base) / PAGE, next := mid);
        tail := mid;
        LoopLinked(ns, order, k, mid, nodes[curr], nodes[mid]);
        assert nodes[..] == ns[mid := nodes[mid]][curr := nodes[curr]];
        order := order[..k + 1] + [mid];
      }
    }

    /** The search in vmm_unmap_pages: the first region that holds the pages gives them up. */
    method GiveUp(at: nat, n: nat) returns (ghost tail: int)
      requires Valid()
      modifies this`order, nodes
      ensures tail == -1 <==> !(FromMiddle(old(List()), at, n) && |old(List())| < MAX_NODES)
      ensures tail == -1 ==> Shape(-1) && Clean(nodes[..], order)
      ensures tail == -1 ==> List() == if FromMiddle(old(List()), at, n) then old(List()) else Freed(old(List()), at, n)
      ensures tail != -1 ==> Shape(tail) && Looped(tail)
      ensures tail != -1 ==>
                var rs, i := old(List()), Holder(old(List()), at, n);
                List() == rs[..i] + [rs[i].(pages := (at - rs[i].base) / PAGE), Region(at, n, true)]
    {
      hide Linked, InPool, RegionsOf, Clean, ListOk, Holder, Freed;
      InPoolOf(nodes[..], order, -1);
      ghost var rs := List();
      tail := -1;
      if Holder(rs, at, n) == |rs| { FreedNone(rs, at, n); }
      var curr := head;
      ghost var k := 0;
      while curr != -1
        invariant order == old(order) && nodes[..] == old(nodes[..]) && Valid() && InPool(nodes[..], order) && List() == rs
        invariant 0 <= k <= |order| && curr == if k < |order| then order[k] else -1
        invariant forall j | 0 <= j < k :: !Holds(rs[j], at, n)
        decreases |order| - k
      {
        NodeAt(nodes[..], order, -1, k);
        var r := nodes[curr];
        var end, freeEnd := r.base + r.pages * PAGE, at + n * PAGE;
        if !r.free && at >= r.base && freeEnd <= end {
          assert Holder(rs, at, n) == k;
          FreedAt(rs, at, n, k);
          if at == r.base && freeEnd == end {
            SetFree(curr, true, k);
          } else if at == r.base {
            var left := AllocNode();
            if left != -1 { PutAfter(curr, left, Region(r.base, n, true), Region(freeEnd, r.pages - n, false), k); }
          } else if freeEnd == end {
            var left := AllocNode();
            if left != -1 { PutAfter(curr, left, Region(r.base, r.pages - n, false), Region(at, n, true), k); }
          } else {
            tail := CutMiddle(curr, at, n, k);
          }
          return;
        }
        curr := nodes[curr].next;
        k := k + 1;
      }
    }

    /** vmm_unmap_pages after the pages are unmapped.  The list stays a merged tiling of the heap exactly
        when the pages are not strictly inside a region, or no node is left. */
    method ReleasePages(at: nat, n: nat)
      requires Valid()
      modifies this`order, nodes
      ensures Shape(-1) && List() == if HEAP_START <= at < HEAP_END then Release(old(List()), at, n) else old(List())
      ensures Valid() <==> !(HEAP_START <= at < HEAP_END && FromMiddle(old(List()), at, n) && |old(List())| < MAX_NODES)
    {
      hide Linked, InPool, RegionsOf, Clean, ListOk, Holder, Coalesce, FromMiddle, EmptyLast, Freed;
      if at < HEAP_START || at >= HEAP_END { return; }
      InPoolOf(nodes[..], order, -1);
      ReleaseOk(List(), at, n);
      ghost var tail := GiveUp(at, n);
      MergeList(tail);
    }
  }
}
