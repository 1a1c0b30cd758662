/**
 The geometry of the boundary-tag heap (src/kern/mem/liballoc.c): blocks tile
 host runs, linked left and right, each starting with a 48-byte tag.
 */
module BoundaryTags {

  const TAG := 48          // sizeof(struct boundary_tag)
  const PAGE := 4096       // l_pageSize
  const MIN_PAGES := 16    // l_pageCount
  const NULL := 0

  /** The size fields and split links of a tag; `home` is the host run it was cut from. */
  datatype Block = Block(realSize: nat, size: nat, left: int, right: int, home: int)

  type Blocks = map<int, Block>

  /** Pages of each outstanding host run, by address. */
  type Runs = map<int, nat>

  function RunEnd(runs: Runs, h: int): int
    requires h in runs
  {
    h + runs[h] * PAGE
  }

  ghost predicate BlockOk(b: Blocks, runs: Runs, t: int)
    requires t in b
  {
    var k := b[t];
    && t > 0 && k.realSize >= TAG
    && k.home in runs && k.home <= t && t + k.realSize <= RunEnd(runs, k.home)
    && (k.left == NULL <==> t == k.home)
    && (k.right == NULL <==> t + k.realSize == RunEnd(runs, k.home))
    && (k.left != NULL ==> k.left in b && b[k.left].right == t)
    && (k.right != NULL ==> k.right == t + k.realSize && k.right in b && b[k.right].left == t && b[k.right].home == k.home)
  }

  ghost predicate RunOk(b: Blocks, runs: Runs, h: int)
    requires h in runs
  {
    h > 0 && runs[h] >= MIN_PAGES && h in b && b[h].home == h
  }

  ghost predicate Apart(b: Blocks, t: int, u: int)
    requires t in b
  {
    t < u ==> t + b[t].realSize <= u
  }

  ghost predicate RunsApart(runs: Runs, h: int, k: int)
    requires h in runs
  {
    h < k ==> RunEnd(runs, h) <= k
  }

  /** Blocks tile their runs: neighbours are linked both ways, the ends meet the run's
      ends, and no two blocks overlap. */
  ghost predicate Tiled(b: Blocks, runs: Runs)
  {
    && (forall t {:trigger BlockOk(b, runs, t)} | t in b :: BlockOk(b, runs, t))
    && (forall h {:trigger RunOk(b, runs, h)} | h in runs :: RunOk(b, runs, h))
    && (forall t, u {:trigger Apart(b, t, u)} | t in b && u in b :: Apart(b, t, u))
    && (forall h, k {:trigger RunsApart(runs, h, k)} | h in runs && k in runs :: RunsApart(runs, h, k))
  }

  // ---------------------------------------------------------------- steps

  /** split_tag: cut block t after `size` user bytes. */
  function Split(b: Blocks, t: int, size: nat): Blocks
    requires t in b && b[t].realSize >= size + 2 * TAG
  {
    var k := b[t];
    var n := t + TAG + size;
    var b1 := b[t := k.(realSize := TAG + size, right := n)][n := Block(k.realSize - TAG - size, 0, t, k.right, k.home)];
    if k.right != NULL && k.right in b then b1[k.right := b[k.right].(left := n)] else b1
  }

  lemma SplitTiled(b: Blocks, runs: Runs, t: int, size: nat)
    requires Tiled(b, runs) && t in b && b[t].realSize >= size + 2 * TAG
    ensures t + TAG + size !in b
    ensures Tiled(Split(b, t, size), runs)
  {
    hide Split, BlockOk, RunOk;
    SplitFresh(b, runs, t, size);
    var b' := Split(b, t, size);
    forall u, v | u in b' && v in b'
      ensures Apart(b', u, v)
    {
      SplitApart(b, runs, t, size, u, v);
    }
    forall u | u in b'
      ensures BlockOk(b', runs, u)
    {
      SplitBlock(b, runs, t, size, u);
    }
    forall h | h in runs
      ensures RunOk(b', runs, h)
    {
      SplitRun(b, runs, t, size, h);
    }
  }

  lemma SplitFresh(b: Blocks, runs: Runs, t: int, size: nat)
    requires Tiled(b, runs) && t in b && b[t].realSize >= size + 2 * TAG
    ensures t + TAG + size !in b
  {
    assert t + TAG + size in b ==> Apart(b, t, t + TAG + size);
  }

  lemma SplitRun(b: Blocks, runs: Runs, t: int, size: nat, h: int)
    requires Tiled(b, runs) && t in b && b[t].realSize >= size + 2 * TAG && t + TAG + size !in b && h in runs
    ensures RunOk(Split(b, t, size), runs, h)
  {
    assert RunOk(b, runs, h);
  }

  lemma SplitBlock(b: Blocks, runs: Runs, t: int, size: nat, u: int)
    requires Tiled(b, runs) && t in b && b[t].realSize >= size + 2 * TAG && t + TAG + size !in b
    requires u in Split(b, t, size)
    ensures BlockOk(Split(b, t, size), runs, u)
  {
    assert BlockOk(b, runs, t);
    if u != t + TAG + size { assert BlockOk(b, runs, u); }
  }

  lemma SplitApart(b: Blocks, runs: Runs, t: int, size: nat, u: int, v: int)
    requires Tiled(b, runs) && t in b && b[t].realSize >= size + 2 * TAG && t + TAG + size !in b
    requires u in Split(b, t, size) && v in Split(b, t, size)
    ensures Apart(Split(b, t, size), u, v)
  {
    var n := t + TAG + size;
    var u0 := if u == n then t else u;
    var v0 := if v == n then t else v;
    assert BlockOk(b, runs, t);
    assert Apart(b, u0, v0) && Apart(b, t, u0) && Apart(b, t, v0);
  }

  /** tag->size = size */
  function Resize(b: Blocks, t: int, size: nat): Blocks
    requires t in b
  {
    b[t := b[t].(size := size)]
  }

  lemma ResizeTiled(b: Blocks, runs: Runs, t: int, size: nat)
    requires Tiled(b, runs) && t in b
    ensures Tiled(Resize(b, t, size), runs)
  {
    var b' := Resize(b, t, size);
    forall u | u in b'
      ensures BlockOk(b', runs, u)
    {
      assert BlockOk(b, runs, u);
    }
    forall h | h in runs
      ensures RunOk(b', runs, h)
    {
      assert RunOk(b, runs, h);
    }
    forall u, v | u in b' && v in b'
      ensures Apart(b', u, v)
    {
      assert Apart(b, u, v);
    }
  }

  /** melt_left and absorb_right: block l swallows its right neighbour. */
  function Join(b: Blocks, l: int): Blocks
    requires l in b && b[l].right in b
  {
    var r := b[l].right;
    var k := b[l].(realSize := b[l].realSize + b[r].realSize, right := b[r].right);
    var b1 := b[l := k];
    (if k.right != NULL && k.right in b then b1[k.right := b[k.right].(left := l)] else b1) - {r}
  }

  lemma JoinTiled(b: Blocks, runs: Runs, l: int)
    requires Tiled(b, runs) && l in b && b[l].right != NULL
    ensures b[l].right in b && l < b[l].right && Tiled(Join(b, l), runs)
  {
    assert BlockOk(b, runs, l);
    var r := b[l].right;
    assert BlockOk(b, runs, r);
    var b' := Join(b, l);
    forall u, v | u in b' && v in b'
      ensures Apart(b', u, v)
    {
      assert Apart(b, u, v) && Apart(b, r, v);
    }
    forall u | u in b'
      ensures BlockOk(b', runs, u)
    {
      assert BlockOk(b, runs, u);
    }
    forall h | h in runs
      ensures RunOk(b', runs, h)
    {
      assert RunOk(b, runs, h);
    }
  }

  /** allocate_new_tag: one block covering a fresh host run. */
  function AddRun(b: Blocks, t: int, pages: nat, size: nat): Blocks
  {
    b[t := Block(pages * PAGE, size, NULL, NULL, t)]
  }

  /** The host hands out memory that overlaps nothing outstanding. */
  ghost predicate FreshRun(runs: Runs, t: int, pages: nat)
  {
    t > 0 && t !in runs && forall h | h in runs :: h + runs[h] * PAGE <= t || t + pages * PAGE <= h
  }

  lemma AddRunTiled(b: Blocks, runs: Runs, t: int, pages: nat, size: nat)
    requires Tiled(b, runs) && FreshRun(runs, t, pages) && pages >= MIN_PAGES
    ensures t !in b
    ensures Tiled(AddRun(b, t, pages, size), runs[t := pages])
  {
    var b', runs' := AddRun(b, t, pages, size), runs[t := pages];
    forall u | u in b
      ensures u != t && (u + b[u].realSize <= t || t + pages * PAGE <= u)
    {
      assert BlockOk(b, runs, u);
    }
    forall u, v | u in b' && v in b'
      ensures Apart(b', u, v)
    {
      if u != t && v != t { assert Apart(b, u, v); }
    }
    forall h, k | h in runs' && k in runs'
      ensures RunsApart(runs', h, k)
    {
      if h != t && k != t { assert RunsApart(runs, h, k); }
    }
    forall u | u in b'
      ensures BlockOk(b', runs', u)
    {
      if u != t { assert BlockOk(b, runs, u); }
    }
    forall h | h in runs'
      ensures RunOk(b', runs', h)
    {
      if h != t { assert RunOk(b, runs, h); }
    }
  }

  /** A whole run given back to the host. */
  lemma DropRunTiled(b: Blocks, runs: Runs, t: int)
    requires Tiled(b, runs) && t in b && b[t].left == NULL && b[t].right == NULL
    ensures t in runs && b[t].realSize == runs[t] * PAGE && runs[t] >= MIN_PAGES
    ensures Tiled(b - {t}, runs - {t})
  {
    assert BlockOk(b, runs, t);
    assert RunOk(b, runs, t);
    var b', runs' := b - {t}, runs - {t};
    forall u, v | u in b' && v in b'
      ensures Apart(b', u, v)
    {
      assert Apart(b, u, v);
    }
    forall h, k | h in runs' && k in runs'
      ensures RunsApart(runs', h, k)
    {
      assert RunsApart(runs, h, k);
    }
    forall u | u in b'
      ensures BlockOk(b', runs', u)
    {
      assert BlockOk(b, runs, u) && Apart(b, t, u);
    }
    forall h | h in runs'
      ensures RunOk(b', runs', h)
    {
      assert RunOk(b, runs, h);
    }
  }

  // ---------------------------------------------------------------- the chain of a run

  ghost function Remaining(b: Blocks, runs: Runs, t: int): int
    requires t in b
  {
    if b[t].home in runs then RunEnd(runs, b[t].home) - t else 0
  }

  /** The blocks from t rightwards, in split_right order. */
  ghost function Chain(b: Blocks, runs: Runs, t: int): seq<int>
    requires Tiled(b, runs) && t in b
    decreases Remaining(b, runs, t)
  {
    assert BlockOk(b, runs, t);
    if b[t].right == NULL then [t]
    else
      assert BlockOk(b, runs, b[t].right);
      [t] + Chain(b, runs, b[t].right)
  }

  ghost function TotalSize(b: Blocks, ts: seq<int>): nat
  {
    if ts == [] then 0 else (if ts[0] in b then b[ts[0]].realSize else 0) + TotalSize(b, ts[1..])
  }

  lemma {:induction false} ChainIn(b: Blocks, runs: Runs, t: int)
    requires Tiled(b, runs) && t in b
    ensures forall u | u in Chain(b, runs, t) :: u in b && b[u].home == b[t].home
    decreases Remaining(b, runs, t)
  {
    assert BlockOk(b, runs, t);
    if b[t].right != NULL {
      assert BlockOk(b, runs, b[t].right);
      ChainIn(b, runs, b[t].right);
    }
  }

  /** In split_right order the blocks from t on add up to exactly the rest of the run. */
  lemma {:induction false} ChainTotal(b: Blocks, runs: Runs, t: int)
    requires Tiled(b, runs) && t in b
    ensures b[t].home in runs && TotalSize(b, Chain(b, runs, t)) == RunEnd(runs, b[t].home) - t
    decreases Remaining(b, runs, t)
  {
    assert BlockOk(b, runs, t);
    var r := b[t].right;
    if r != NULL {
      assert BlockOk(b, runs, r);
      ChainTotal(b, runs, r);
      assert Chain(b, runs, t)[1..] == Chain(b, runs, r);
    }
  }

  /** No block of the run to the right of t is missing from the chain. */
  lemma {:induction false} ChainComplete(b: Blocks, runs: Runs, t: int, u: int)
    requires Tiled(b, runs) && t in b && u in b && b[u].home == b[t].home && t <= u
    ensures u in Chain(b, runs, t)
    decreases Remaining(b, runs, t)
  {
    assert BlockOk(b, runs, t) && BlockOk(b, runs, u) && Apart(b, t, u);
    if u != t {
      assert BlockOk(b, runs, b[t].right);
      ChainComplete(b, runs, b[t].right, u);
    }
  }

  /** The whole run: its tags, in split_right order, are exactly the blocks cut from it
      and their real sizes add up to exactly its pages. */
  lemma RunTiles(b: Blocks, runs: Runs, h: int)
    requires Tiled(b, runs) && h in runs
    ensures h in b && TotalSize(b, Chain(b, runs, h)) == runs[h] * PAGE
    ensures forall u :: u in Chain(b, runs, h) <==> u in b && b[u].home == h
  {
    assert RunOk(b, runs, h);
    ChainIn(b, runs, h);
    ChainTotal(b, runs, h);
    forall u | u in b && b[u].home == h
      ensures u in Chain(b, runs, h)
    {
      assert BlockOk(b, runs, u);
      ChainComplete(b, runs, h, u);
    }
  }
}
