/**
 The whole heap state of src/kern/mem/liballoc.c as a value: block geometry,
 bucket lists, the counts of idle whole runs, and the steps malloc and free are made of.
 */
module HeapModel {
  import opened Basics
  import opened BoundaryTags
  import opened FreeLists

  const MINEXP := 8
  const MAXCOMPLETE := 5
  const LIMIT := 0x1_0000_0000    // unsigned int

  function Pow2(n: nat): nat { if n == 0 then 1 else 2 * Pow2(n - 1) }

  /** The exponent scan of getexp from a given shift. */
  function ExpFrom(size: nat, shift: nat): int
    decreases BUCKETS - shift
  {
    if shift < BUCKETS && Pow2(shift) <= size then ExpFrom(size, shift + 1) else shift - 1
  }

  /** getexp: -1 below the quantum, otherwise the exponent of the power of two at or below size. */
  function Exponent(size: nat): int
  {
    if size < Pow2(MINEXP) then -1 else ExpFrom(size, MINEXP)
  }

  lemma {:induction false} ExpFromBounds(size: nat, shift: nat)
    requires MINEXP <= shift <= BUCKETS && Pow2(shift - 1) <= size < LIMIT
    ensures shift - 1 <= ExpFrom(size, shift) < BUCKETS
    ensures Pow2(ExpFrom(size, shift)) <= size < Pow2(ExpFrom(size, shift) + 1)
    decreases BUCKETS - shift
  {
    Pow2At32();
    if shift < BUCKETS && Pow2(shift) <= size {
      ExpFromBounds(size, shift + 1);
    }
  }

  lemma Pow2At32()
    ensures Pow2(8) == 0x100 && Pow2(16) == 0x1_0000 && Pow2(32) == LIMIT
  {
    assert Pow2(4) == 16;
    assert Pow2(8) == 0x100;
    assert Pow2(12) == 0x1000;
    assert Pow2(16) == 0x1_0000;
    assert Pow2(20) == 0x10_0000;
    assert Pow2(24) == 0x100_0000;
    assert Pow2(28) == 0x1000_0000;
  }

  /** What getexp promises: 2^n <= size < 2^(n+1). */
  lemma ExponentMeaning(size: nat)
    requires size < LIMIT
    ensures size < 0x100 <==> Exponent(size) == -1
    ensures size >= 0x100 ==> MINEXP <= Exponent(size) < BUCKETS && Pow2(Exponent(size)) <= size < Pow2(Exponent(size) + 1)
  {
    Pow2At32();
    if size >= 0x100 {
      assert Pow2(MINEXP) <= size;
      assert Pow2(MINEXP - 1) <= size;
      ExpFromBounds(size, MINEXP);
      ExpFromBounds(size, MINEXP + 1);
    }
  }

  lemma {:induction false} Pow2Monotone(a: nat, b: nat)
    requires a <= b
    ensures Pow2(a) <= Pow2(b)
    decreases b
  {
    if a < b { Pow2Monotone(a, b - 1); }
  }

  lemma ExponentMonotone(a: nat, b: nat)
    requires a <= b < LIMIT
    ensures Exponent(a) <= Exponent(b)
  {
    ExponentMeaning(a);
    ExponentMeaning(b);
    if a >= 0x100 && Exponent(b) < Exponent(a) {
      Pow2Monotone(Exponent(b) + 1, Exponent(a));
    }
  }

  /** The bucket a request or a free area of n bytes belongs to. */
  function BucketFor(n: nat): int
  {
    if Exponent(n) < MINEXP then MINEXP else Exponent(n)
  }

  lemma BucketBounds(n: nat)
    requires n < LIMIT
    ensures MINEXP <= BucketFor(n) < BUCKETS
  {
    ExponentMeaning(n);
  }

  // ---------------------------------------------------------------- state and invariant

  datatype State = State(blocks: Blocks, links: Links, heads: seq<int>, complete: seq<int>,
                         lists: seq<seq<int>>, runs: Runs)

  predicate Idle(s: State, t: int) { t in s.links && s.links[t].index >= 0 }

  ghost predicate SizeOk(s: State, t: int)
    requires t in s.blocks
  {
    s.blocks[t].size + TAG <= s.blocks[t].realSize
  }

  /** A free block sits in the bucket of its own size and has no free right neighbour. */
  ghost predicate IdleOk(s: State, t: int)
    requires t in s.blocks && t in s.links
  {
    Idle(s, t) ==>
      && s.blocks[t].realSize >= TAG && s.links[t].index == BucketFor(s.blocks[t].realSize - TAG)
      && !Idle(s, s.blocks[t].right)
  }

  /** The idle whole runs of a bucket. */
  ghost function Whole(s: State, i: int): set<int>
  {
    set t | t in s.blocks && t in s.links && s.links[t].index == i && s.blocks[t].left == NULL && s.blocks[t].right == NULL
  }

  ghost predicate CountOk(s: State, i: int)
  {
    0 <= i < |s.complete| && s.complete[i] == |Whole(s, i)| <= MAXCOMPLETE
  }

  /** Run sizes fit the 32-bit size fields. */
  ghost predicate RunsFit(runs: Runs)
  {
    forall h | h in runs :: runs[h] * PAGE < LIMIT
  }

  lemma BlockFits(s: State, t: int)
    requires Tiled(s.blocks, s.runs) && RunsFit(s.runs) && t in s.blocks
    ensures s.blocks[t].realSize < LIMIT
  {
    assert BlockOk(s.blocks, s.runs, t);
  }

  ghost predicate HeapInv(s: State)
  {
    && RunsFit(s.runs)
    && Tiled(s.blocks, s.runs)
    && ListsOk(s.links, s.heads, s.lists)
    && s.blocks.Keys == s.links.Keys
    && |s.complete| == |s.heads| == |s.lists| == BUCKETS
    && (forall t {:trigger SizeOk(s, t)} | t in s.blocks :: SizeOk(s, t))
    && (forall t {:trigger IdleOk(s, t)} | t in s.blocks :: IdleOk(s, t))
    && (forall i {:trigger CountOk(s, i)} | 0 <= i < BUCKETS :: CountOk(s, i))
  }

  // ---------------------------------------------------------------- steps

  predicate IsWhole(s: State, t: int)
  {
    t in s.blocks && s.blocks[t].left == NULL && s.blocks[t].right == NULL
  }

  /** Unlink idle tag t, the k-th of its bucket, and forget it if it was a counted whole run. */
  function Take(s: State, t: int, k: nat): State
    requires t in s.links && 0 <= s.links[t].index < |s.heads| && |s.heads| == |s.lists| == |s.complete|
    requires k < |s.lists[s.links[t].index]|
  {
    var i := s.links[t].index;
    State(s.blocks, RemoveLinks(s.links, t), RemoveHeads(s.links, s.heads, t),
          if IsWhole(s, t) then s.complete[i := s.complete[i] - 1] else s.complete,
          s.lists[i := Without(s.lists[i], k)], s.runs)
  }

  ghost predicate IsNode(s: State, t: int, k: nat)
  {
    && t in s.links && 0 <= s.links[t].index < BUCKETS && |s.lists| == BUCKETS
    && k < |s.lists[s.links[t].index]| && s.lists[s.links[t].index][k] == t
  }

  lemma TakeInv(s: State, t: int, k: nat)
    requires HeapInv(s) && IsNode(s, t, k)
    ensures HeapInv(Take(s, t, k))
  {
    hide ListsOk, Tiled, RemoveLinks, BucketFor;
    var s' := Take(s, t, k);
    var i := s.links[t].index;
    RemoveOk(s.links, s.heads, s.lists, t, k);
    RemoveKeepsIndex(s.links, s.heads, s.lists, t);
    forall u | u in s'.blocks
      ensures SizeOk(s', u) && IdleOk(s', u)
    {
      assert SizeOk(s, u) && IdleOk(s, u);
    }
    forall j | 0 <= j < BUCKETS
      ensures CountOk(s', j)
    {
      assert CountOk(s, j);
      assert Whole(s', j) == if j == i then Whole(s, j) - {t} else Whole(s, j);
    }
  }

  /** Link t, in no list yet, into bucket i, counting it if it is a whole run. */
  function Put(s: State, t: int, i: nat): State
    requires i < |s.heads| && |s.heads| == |s.lists| == |s.complete|
  {
    State(s.blocks, InsertLinks(s.links, s.heads, t, i), s.heads[i := t],
          if IsWhole(s, t) then s.complete[i := s.complete[i] + 1] else s.complete,
          s.lists[i := [t] + s.lists[i]], s.runs)
  }

  /** Busy in the sense of malloc: linked in no bucket. */
  predicate Busy(s: State, t: int) { t in s.links && s.links[t] == OFF }

  /** A tag is either in its bucket's list or in no list. */
  lemma BusyOrIdle(s: State, t: int)
    requires HeapInv(s) && t in s.links
    ensures Busy(s, t) <==> !Idle(s, t)
  {
    assert TagOk(s.links, s.lists, t);
  }

  lemma PutInv(s: State, t: int, i: nat)
    requires HeapInv(s) && Busy(s, t) && s.blocks[t].realSize >= TAG && i == BucketFor(s.blocks[t].realSize - TAG)
    requires !Idle(s, s.blocks[t].left) && !Idle(s, s.blocks[t].right)
    requires IsWhole(s, t) ==> i < BUCKETS && s.complete[i] < MAXCOMPLETE
    ensures i < BUCKETS && HeapInv(Put(s, t, i))
  {
    hide ListsOk, InsertLinks, BucketFor;
    assert SizeOk(s, t) && BlockOk(s.blocks, s.runs, t);
    BlockFits(s, t);
    BucketBounds(s.blocks[t].realSize - TAG);
    var s' := Put(s, t, i);
    InsertOk(s.links, s.heads, s.lists, t, i);
    InsertKeepsIndex(s.links, s.heads, s.lists, t, i);
    forall u | u in s'.blocks
      ensures SizeOk(s', u) && IdleOk(s', u)
    {
      assert SizeOk(s, u) && IdleOk(s, u) && BlockOk(s.blocks, s.runs, u);
    }
    forall j | 0 <= j < BUCKETS
      ensures CountOk(s', j)
    {
      assert CountOk(s, j);
      forall u
        ensures u in Whole(s', j) <==> u in Whole(s, j) || (u == t && j == i && IsWhole(s, t))
      {
        if u in s.links && u != t { assert s'.links[u].index == s.links[u].index; }
      }
      assert t !in Whole(s, j);
      assert Whole(s', j) == if j == i && IsWhole(s, t) then Whole(s, j) + {t} else Whole(s, j);
    }
  }

  /** Two states count the same whole runs when their idle tags and block ends agree. */
  lemma SameCounts(s: State, s': State)
    requires |s.complete| == BUCKETS && (forall i | 0 <= i < BUCKETS :: CountOk(s, i)) && s'.complete == s.complete
    requires forall t | Idle(s, t) && t in s.blocks :: Idle(s', t) && t in s'.blocks && s'.links[t].index == s.links[t].index && (IsWhole(s, t) ==> IsWhole(s', t))
    requires forall t | Idle(s', t) && t in s'.blocks :: Idle(s, t) && t in s.blocks && (IsWhole(s', t) ==> IsWhole(s, t))
    ensures forall i | 0 <= i < BUCKETS :: CountOk(s', i)
  {
    forall i | 0 <= i < BUCKETS
      ensures CountOk(s', i)
    {
      assert CountOk(s, i);
      forall t
        ensures t in Whole(s', i) <==> t in Whole(s, i)
      {
        assert Idle(s, t) <==> t in s.links && s.links[t].index >= 0;
        assert Idle(s', t) <==> t in s'.links && s'.links[t].index >= 0;
      }
      assert Whole(s', i) == Whole(s, i);
    }
  }

  function SetSize(s: State, t: int, size: nat): State
    requires t in s.blocks
  {
    s.(blocks := Resize(s.blocks, t, size))
  }

  lemma SetSizeInv(s: State, t: int, size: nat)
    requires HeapInv(s) && Busy(s, t) && size + TAG <= s.blocks[t].realSize
    ensures HeapInv(SetSize(s, t, size))
  {
    hide ListsOk, Tiled, BucketFor;
    ResizeTiled(s.blocks, s.runs, t, size);
    var s' := SetSize(s, t, size);
    forall u | u in s'.blocks
      ensures SizeOk(s', u) && IdleOk(s', u)
    {
      assert SizeOk(s, u) && IdleOk(s, u);
    }
    SameCounts(s, s');
  }

  /** The geometry half of split_tag: the new tag n is in no list yet. */
  function Cut(s: State, t: int, size: nat): State
    requires t in s.blocks && s.blocks[t].realSize >= size + 2 * TAG
  {
    s.(blocks := Split(s.blocks, t, size), links := s.links[t + TAG + size := OFF])
  }

  lemma CutInv(s: State, t: int, size: nat)
    requires HeapInv(s) && Busy(s, t) && s.blocks[t].realSize >= size + 2 * TAG && s.blocks[t].size == size
    ensures t + TAG + size !in s.links
    ensures HeapInv(Cut(s, t, size))
  {
    hide ListsOk, BucketFor;
    var s', n := Cut(s, t, size), t + TAG + size;
    assert BlockOk(s.blocks, s.runs, t) && SizeOk(s, t);
    SplitTiled(s.blocks, s.runs, t, size);
    NewTagOk(s.links, s.heads, s.lists, n);
    forall u | u in s'.blocks
      ensures SizeOk(s', u) && IdleOk(s', u)
    {
      if u != n { assert SizeOk(s, u) && IdleOk(s, u); }
    }
    forall u | u in s.blocks && u != t
      ensures IsWhole(s', u) <==> IsWhole(s, u)
    {
      assert BlockOk(s.blocks, s.runs, u);
    }
    SameCounts(s, s');
  }

  /** Block l swallows its right neighbour; both are in no list. */
  function Merge(s: State, l: int): State
    requires l in s.blocks && s.blocks[l].right in s.blocks
  {
    s.(blocks := Join(s.blocks, l), links := s.links - {s.blocks[l].right})
  }

  lemma MergeInv(s: State, l: int)
    requires HeapInv(s) && Busy(s, l) && s.blocks[l].right != NULL && Busy(s, s.blocks[l].right)
    ensures s.blocks[l].right in s.blocks && HeapInv(Merge(s, l))
  {
    hide ListsOk, BucketFor;
    var r := s.blocks[l].right;
    assert BlockOk(s.blocks, s.runs, l) && BlockOk(s.blocks, s.runs, r) && SizeOk(s, l) && SizeOk(s, r);
    JoinTiled(s.blocks, s.runs, l);
    ForgetOk(s.links, s.heads, s.lists, r);
    var s' := Merge(s, l);
    forall u | u in s'.blocks
      ensures SizeOk(s', u) && IdleOk(s', u)
    {
      assert SizeOk(s, u) && IdleOk(s, u);
    }
    forall u | u in s'.blocks && u != l
      ensures IsWhole(s', u) <==> IsWhole(s, u)
    {
      assert BlockOk(s.blocks, s.runs, u);
    }
    SameCounts(s, s');
  }

  /** A fresh host run as one block in no list (allocate_new_tag). */
  function Grow(s: State, t: int, pages: nat, size: nat): State
  {
    s.(blocks := AddRun(s.blocks, t, pages, size), links := s.links[t := OFF], runs := s.runs[t := pages])
  }

  lemma GrowInv(s: State, t: int, pages: nat, size: nat)
    requires HeapInv(s) && FreshRun(s.runs, t, pages) && MIN_PAGES <= pages && size + TAG <= pages * PAGE < LIMIT
    ensures t !in s.links && HeapInv(Grow(s, t, pages, size))
  {
    hide ListsOk, BucketFor;
    AddRunTiled(s.blocks, s.runs, t, pages, size);
    NewTagOk(s.links, s.heads, s.lists, t);
    var s' := Grow(s, t, pages, size);
    forall u | u in s'.blocks
      ensures SizeOk(s', u) && IdleOk(s', u)
    {
      if u != t { assert SizeOk(s, u) && IdleOk(s, u) && BlockOk(s.blocks, s.runs, u); }
    }
    SameCounts(s, s');
  }

  /** A whole run in no list goes back to the host. */
  function Shrink(s: State, t: int): State
  {
    s.(blocks := s.blocks - {t}, links := s.links - {t}, runs := s.runs - {t})
  }

  lemma ShrinkInv(s: State, t: int)
    requires HeapInv(s) && Busy(s, t) && IsWhole(s, t)
    ensures t in s.runs && s.blocks[t].realSize == s.runs[t] * PAGE && s.runs[t] >= MIN_PAGES
    ensures HeapInv(Shrink(s, t))
  {
    hide ListsOk, BucketFor;
    DropRunTiled(s.blocks, s.runs, t);
    ForgetOk(s.links, s.heads, s.lists, t);
    var s' := Shrink(s, t);
    forall u | u in s'.blocks
      ensures SizeOk(s', u) && IdleOk(s', u)
    {
      assert SizeOk(s, u) && IdleOk(s, u);
    }
    SameCounts(s, s');
  }

  // ---------------------------------------------------------------- consequences

  /** The areas handed to callers: tag address to requested size. */
  ghost function Live(s: State): map<int, nat>
  {
    map t | t in s.blocks && t in s.links && s.links[t].index < 0 :: s.blocks[t].size
  }

  /** A live user area stays inside its host run, misses every tag header, and misses
      every other live area. */
  lemma LiveAreasApart(s: State, t: int, u: int)
    requires HeapInv(s) && t in Live(s) && u in s.blocks && u != t
    ensures s.blocks[t].home in s.runs && s.blocks[t].home <= t && t + TAG + Live(s)[t] <= RunEnd(s.runs, s.blocks[t].home)
    ensures t + TAG + Live(s)[t] <= u || u + TAG <= t
    ensures u in Live(s) ==> t + TAG + Live(s)[t] <= u || u + TAG + Live(s)[u] <= t
  {
    assert BlockOk(s.blocks, s.runs, t) && SizeOk(s, t) && SizeOk(s, u);
    assert Apart(s.blocks, t, u) && Apart(s.blocks, u, t);
  }

  /** What the invariant says to a reader: every run is tiled exactly by its tags; a tag is in
      the list of bucket i, once, exactly when its index is i; no two neighbours are both free. */
  lemma HeapPromises(s: State)
    requires HeapInv(s)
    ensures forall h | h in s.runs :: h in s.blocks && TotalSize(s.blocks, Chain(s.blocks, s.runs, h)) == s.runs[h] * PAGE
    ensures forall t, i | t in s.blocks && 0 <= i < BUCKETS :: t in s.lists[i] <==> s.links[t].index == i
    ensures forall i | 0 <= i < BUCKETS :: Distinct(s.lists[i]) && s.heads[i] == HeadOf(s.lists[i])
    ensures forall t | Idle(s, t) :: !Idle(s, s.blocks[t].right) && !Idle(s, s.blocks[t].left)
    ensures forall i | 0 <= i < BUCKETS :: 0 <= s.complete[i] == |Whole(s, i)| <= MAXCOMPLETE
  {
    forall h | h in s.runs
      ensures h in s.blocks && TotalSize(s.blocks, Chain(s.blocks, s.runs, h)) == s.runs[h] * PAGE
    {
      RunTiles(s.blocks, s.runs, h);
    }
    forall t, i | t in s.blocks && 0 <= i < BUCKETS
      ensures t in s.lists[i] <==> s.links[t].index == i
    {
      assert TagOk(s.links, s.lists, t) && Listed(s.links, s.lists[i], i);
      if t in s.lists[i] {
        var k :| 0 <= k < |s.lists[i]| && s.lists[i][k] == t;
        assert NodeOk(s.links, s.lists[i], i, k);
      }
    }
    forall i | 0 <= i < BUCKETS
      ensures Distinct(s.lists[i]) && s.heads[i] == HeadOf(s.lists[i]) && 0 <= s.complete[i] == |Whole(s, i)| <= MAXCOMPLETE
    {
      assert Listed(s.links, s.lists[i], i) && CountOk(s, i);
    }
    forall t | Idle(s, t)
      ensures !Idle(s, s.blocks[t].right) && !Idle(s, s.blocks[t].left)
    {
      assert BlockOk(s.blocks, s.runs, t) && IdleOk(s, t);
      if s.blocks[t].left != NULL { assert IdleOk(s, s.blocks[t].left); }
      assert NULL in s.blocks ==> BlockOk(s.blocks, s.runs, NULL);
    }
  }

  /** Is the idle block t large enough for a request, by malloc's own test? */
  predicate Fits(s: State, t: int, size: nat)
  {
    Idle(s, t) && t in s.blocks && s.blocks[t].realSize - TAG >= size + TAG
  }

  /** Every block that fits lies in the request's bucket or a higher one. */
  lemma FitsAbove(s: State, t: int, size: nat)
    requires HeapInv(s) && Fits(s, t, size)
    ensures size < LIMIT && BucketFor(size) <= s.links[t].index < BUCKETS
  {
    hide Exponent, ListsOk, Tiled;
    assert IdleOk(s, t);
    BlockFits(s, t);
    ExponentMonotone(size, s.blocks[t].realSize - TAG);
    BucketBounds(s.blocks[t].realSize - TAG);
  }

  // ---------------------------------------------------------------- what the steps do to the live areas

  lemma TakeLive(s: State, t: int, k: nat)
    requires HeapInv(s) && IsNode(s, t, k)
    ensures t in s.blocks && t !in Live(s) && Live(Take(s, t, k)) == Live(s)[t := s.blocks[t].size]
  {
    hide ListsOk, Tiled, RemoveLinks;
    RemoveKeepsIndex(s.links, s.heads, s.lists, t);
  }

  lemma PutLive(s: State, t: int, i: nat)
    requires HeapInv(s) && Busy(s, t) && i < BUCKETS && t != NULL
    ensures t in Live(s) && Live(Put(s, t, i)) == Live(s) - {t}
  {
    hide ListsOk, Tiled, InsertLinks;
    InsertKeepsIndex(s.links, s.heads, s.lists, t, i);
    var s' := Put(s, t, i);
    forall u | u in s.blocks
      ensures u in Live(s') <==> u in Live(s) && u != t
    {
      if u != t { assert s'.links[u].index == s.links[u].index; }
    }
    assert Live(s') == Live(s) - {t};
  }

  lemma CutLive(s: State, t: int, size: nat)
    requires HeapInv(s) && Busy(s, t) && s.blocks[t].realSize >= size + 2 * TAG && t + TAG + size !in s.links
    ensures Live(Cut(s, t, size)) == Live(s)[t + TAG + size := 0]
  {
    hide ListsOk, Tiled;
  }

  lemma MergeLive(s: State, l: int)
    requires HeapInv(s) && Busy(s, l) && s.blocks[l].right != NULL && Busy(s, s.blocks[l].right)
    ensures s.blocks[l].right in s.blocks && Live(Merge(s, l)) == Live(s) - {s.blocks[l].right}
    ensures l in Live(Merge(s, l)) && Busy(Merge(s, l), l)
  {
    hide ListsOk;
    assert BlockOk(s.blocks, s.runs, l);
  }

  /** The two tags of a merge, one idle and one busy, with the idle one taken out of its list. */
  lemma SwallowFacts(s: State, l: int, idle: int, k: nat)
    requires HeapInv(s) && l in s.blocks && s.blocks[l].right != NULL && (idle == l || idle == s.blocks[l].right)
    requires IsNode(s, idle, k) && Busy(s, if idle == l then s.blocks[l].right else l)
    ensures s.blocks[l].right in s.blocks
    ensures
      var r := s.blocks[l].right;
      var s' := Merge(Take(s, idle, k), l);
      && HeapInv(s') && Busy(s', l) && l < r
      && Live(s') - {l} == Live(s) - {l, r}
      && (forall u | Idle(s', u) :: Idle(s, u))
  {
    hide ListsOk, RemoveLinks, RemoveHeads, BucketFor, Tiled;
    var r := s.blocks[l].right;
    JoinTiled(s.blocks, s.runs, l);
    TakeInv(s, idle, k);
    TakeLive(s, idle, k);
    RemoveKeepsIndex(s.links, s.heads, s.lists, idle);
    var s1 := Take(s, idle, k);
    BusyOrIdle(s1, l);
    BusyOrIdle(s1, r);
    MergeInv(s1, l);
    MergeLive(s1, l);
  }
}
