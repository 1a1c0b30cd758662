/**
 The list of heap regions that src/kern/mem/vmm.c hands address ranges out of, as a sequence.
 */
module RegionModel {

  import opened Layout

  const PAGE := 4096
  const MAX_NODES := 1024   // MAX_VNODES

  datatype Region = Region(base: nat, pages: nat, free: bool)

  function End(r: Region): nat { r.base + r.pages * PAGE }

  /** The regions lie end to end, in order, from lo to hi. */
  predicate Tiles(rs: seq<Region>, lo: nat, hi: nat)
  {
    if rs == [] then lo == hi else rs[0].base == lo && Tiles(rs[1..], End(rs[0]), hi)
  }

  /** No two neighbours are both free. */
  predicate Merged(rs: seq<Region>)
  {
    forall i | 0 <= i < |rs| - 1 :: !(rs[i].free && rs[i + 1].free)
  }

  predicate Inside(r: Region, a: nat) { r.base <= a < End(r) }

  /** Address a lies in a region that is in use. */
  ghost predicate Used(rs: seq<Region>, a: nat)
  {
    exists i | 0 <= i < |rs| :: !rs[i].free && Inside(rs[i], a)
  }

  // ---------------------------------------------------------------- tilings

  /** Where a tiling of the prefix ends. */
  function EndOf(rs: seq<Region>, lo: nat): nat
  {
    if rs == [] then lo else End(rs[|rs| - 1])
  }

  lemma {:induction false} TilesSplit(a: seq<Region>, b: seq<Region>, lo: nat, hi: nat)
    ensures Tiles(a + b, lo, hi) <==> Tiles(a, lo, EndOf(a, lo)) && Tiles(b, EndOf(a, lo), hi)
    decreases |a|
  {
    if a == [] {
      assert a + b == b;
    } else {
      assert (a + b)[1..] == a[1..] + b;
      TilesSplit(a[1..], b, End(a[0]), hi);
    }
  }

  lemma {:induction false} TilesOrder(rs: seq<Region>, lo: nat, hi: nat, i: nat)
    requires Tiles(rs, lo, hi) && i < |rs|
    ensures lo <= rs[i].base <= End(rs[i]) <= hi
    ensures forall j | 0 <= j < i :: End(rs[j]) <= rs[i].base
    decreases i
  {
    if i == 0 {
      TilesLow(rs[1..], End(rs[0]), hi);
    } else {
      TilesOrder(rs[1..], End(rs[0]), hi, i - 1);
      forall j | 0 <= j < i
        ensures End(rs[j]) <= rs[i].base
      {
        if j > 0 { assert rs[j] == rs[1..][j - 1]; }
      }
    }
  }

  lemma {:induction false} TilesLow(rs: seq<Region>, lo: nat, hi: nat)
    requires Tiles(rs, lo, hi)
    ensures lo <= hi
    decreases |rs|
  {
    if rs != [] { TilesLow(rs[1..], End(rs[0]), hi); }
  }

  /** Region i replaced by the pieces ps. */
  function Replace(rs: seq<Region>, i: nat, ps: seq<Region>): seq<Region>
    requires i < |rs|
  {
    rs[..i] + ps + rs[i + 1..]
  }

  lemma ReplaceTiles(rs: seq<Region>, i: nat, ps: seq<Region>, lo: nat, hi: nat)
    requires i < |rs| && Tiles(rs, lo, hi) && Tiles(ps, rs[i].base, End(rs[i]))
    ensures Tiles(Replace(rs, i, ps), lo, hi)
  {
    var a, b := rs[..i], rs[i + 1..];
    assert rs == a + ([rs[i]] + b);
    assert Replace(rs, i, ps) == a + (ps + b);
    TilesSplit(a, [rs[i]] + b, lo, hi);
    assert ([rs[i]] + b)[1..] == b;
    assert EndOf(a, lo) == rs[i].base;
    TilesLow(ps, rs[i].base, End(rs[i]));
    TilesEnd(ps, rs[i].base, End(rs[i]));
    TilesSplit(ps, b, rs[i].base, hi);
    TilesSplit(a, ps + b, lo, hi);
  }

  lemma {:induction false} TilesEnd(rs: seq<Region>, lo: nat, hi: nat)
    requires Tiles(rs, lo, hi)
    ensures EndOf(rs, lo) == hi
    decreases |rs|
  {
    if rs != [] { TilesEnd(rs[1..], End(rs[0]), hi); }
  }

  lemma UsedSplit(a: seq<Region>, b: seq<Region>, x: nat)
    ensures Used(a + b, x) <==> Used(a, x) || Used(b, x)
  {
    var c := a + b;
    if Used(a, x) {
      var i :| 0 <= i < |a| && !a[i].free && Inside(a[i], x);
      assert c[i] == a[i];
    }
    if Used(b, x) {
      var i :| 0 <= i < |b| && !b[i].free && Inside(b[i], x);
      assert c[|a| + i] == b[i];
    }
  }

  /** Only addresses of region i change hands, and those as the pieces say. */
  lemma ReplaceUsed(rs: seq<Region>, i: nat, ps: seq<Region>, lo: nat, hi: nat, x: nat)
    requires i < |rs| && Tiles(rs, lo, hi) && Tiles(ps, rs[i].base, End(rs[i]))
    ensures Used(Replace(rs, i, ps), x) <==> if Inside(rs[i], x) then Used(ps, x) else Used(rs, x)
    ensures Inside(rs[i], x) ==> (Used(rs, x) <==> !rs[i].free)
  {
    var a, b := rs[..i], rs[i + 1..];
    assert rs == a + [rs[i]] + b;
    UsedSplit(a + ps, b, x);
    UsedSplit(a, ps, x);
    UsedSplit(a + [rs[i]], b, x);
    UsedSplit(a, [rs[i]], x);
    assert Used([rs[i]], x) <==> !rs[i].free && Inside(rs[i], x) by {
      assert [rs[i]][0] == rs[i];
    }
    if Inside(rs[i], x) {
      OneOwner(rs, lo, hi, i, x);
    } else {
      PiecesInside(ps, rs[i].base, End(rs[i]), x);
    }
  }

  lemma OneOwner(rs: seq<Region>, lo: nat, hi: nat, i: nat, x: nat)
    requires i < |rs| && Tiles(rs, lo, hi) && Inside(rs[i], x)
    ensures !Used(rs[..i], x) && !Used(rs[i + 1..], x)
  {
    TilesOrder(rs, lo, hi, i);
    forall k | i < k < |rs|
      ensures !Inside(rs[k], x)
    {
      TilesOrder(rs, lo, hi, k);
    }
  }

  lemma PiecesInside(ps: seq<Region>, lo: nat, hi: nat, x: nat)
    requires Tiles(ps, lo, hi)
    ensures Used(ps, x) ==> lo <= x < hi
  {
    if Used(ps, x) {
      var i :| 0 <= i < |ps| && !ps[i].free && Inside(ps[i], x);
      TilesOrder(ps, lo, hi, i);
    }
  }

  // ---------------------------------------------------------------- vmm_ffreer, kernel path

  predicate FitsIn(r: Region, n: nat) { r.free && r.pages >= n }

  /** The first region that fits, |rs| when none does. */
  function FirstFit(rs: seq<Region>, n: nat): (i: nat)
    ensures i <= |rs| && (i < |rs| ==> FitsIn(rs[i], n)) && forall j | 0 <= j < i :: !FitsIn(rs[j], n)
  {
    if rs == [] then 0
    else if FitsIn(rs[0], n) then 0
    else
      var k := FirstFit(rs[1..], n);
      assert forall j | 0 < j < 1 + k :: rs[j] == rs[1..][j - 1];
      1 + k
  }

  function Pieces(r: Region, n: nat): seq<Region>
    requires n <= r.pages
  {
    if r.pages > n then [Region(r.base, n, false), Region(r.base + n * PAGE, r.pages - n, true)] else [r.(free := false)]
  }

  predicate CanTake(rs: seq<Region>, n: nat)
  {
    var i := FirstFit(rs, n);
    i < |rs| && (rs[i].pages > n ==> |rs| < MAX_NODES)
  }

  function Take(rs: seq<Region>, n: nat): seq<Region>
  {
    if CanTake(rs, n) then Replace(rs, FirstFit(rs, n), Pieces(rs[FirstFit(rs, n)], n)) else rs
  }

  /** The pages handed out were unused; after the call they, and nothing else new, are used. */
  lemma TakeMeaning(rs: seq<Region>, n: nat, lo: nat, hi: nat)
    requires Tiles(rs, lo, hi) && CanTake(rs, n)
    ensures Tiles(Take(rs, n), lo, hi)
    ensures
      var at := rs[FirstFit(rs, n)].base;
      && lo <= at && at + n * PAGE <= hi
      && forall x: nat :: (Used(Take(rs, n), x) <==> Used(rs, x) || at <= x < at + n * PAGE) && !(Used(rs, x) && at <= x < at + n * PAGE)
  {
    var i := FirstFit(rs, n);
    var r, ps := rs[i], Pieces(rs[i], n);
    TilesOrder(rs, lo, hi, i);
    PiecesTile(r, n);
    ReplaceTiles(rs, i, ps, lo, hi);
    forall x: nat
      ensures (Used(Take(rs, n), x) <==> Used(rs, x) || r.base <= x < r.base + n * PAGE) && !(Used(rs, x) && r.base <= x < r.base + n * PAGE)
    {
      ReplaceUsed(rs, i, ps, lo, hi, x);
      PiecesUsed(r, n, x);
    }
  }

  lemma PiecesTile(r: Region, n: nat)
    requires n <= r.pages
    ensures Tiles(Pieces(r, n), r.base, End(r))
  {
  }

  lemma PiecesUsed(r: Region, n: nat, x: nat)
    requires n <= r.pages
    ensures Used(Pieces(r, n), x) <==> r.base <= x < r.base + n * PAGE
  {
    var ps := Pieces(r, n);
    assert ps[0].base == r.base && ps[0].pages == n && !ps[0].free;
  }

  lemma TakeMerged(rs: seq<Region>, n: nat)
    requires Merged(rs)
    ensures Merged(Take(rs, n))
  {
    if CanTake(rs, n) {
      var i, rs' := FirstFit(rs, n), Take(rs, n);
      var ps := Pieces(rs[i], n);
      forall k | 0 <= k < |rs'| - 1
        ensures !(rs'[k].free && rs'[k + 1].free)
      {
        hide FirstFit, Replace;
        ReplaceElem(rs, i, ps, k);
        ReplaceElem(rs, i, ps, k + 1);
      }
    }
  }

  lemma ReplaceElem(rs: seq<Region>, i: nat, ps: seq<Region>, k: nat)
    requires i < |rs| && k < |rs| - 1 + |ps|
    ensures |Replace(rs, i, ps)| == |rs| - 1 + |ps|
    ensures Replace(rs, i, ps)[k] == if k < i then rs[k] else if k < i + |ps| then ps[k - i] else rs[k + 1 - |ps|]
  {
  }

  // ---------------------------------------------------------------- merging neighbours

  /** The second half of vmm_unmap_pages. */
  function Coalesce(rs: seq<Region>): seq<Region>
    decreases |rs|
  {
    if |rs| < 2 then rs
    else if rs[0].free && rs[1].free then Coalesce([rs[0].(pages := rs[0].pages + rs[1].pages)] + rs[2..])
    else [rs[0]] + Coalesce(rs[1..])
  }

  lemma {:induction false} CoalesceMeaning(rs: seq<Region>, lo: nat, hi: nat)
    requires Tiles(rs, lo, hi)
    ensures Tiles(Coalesce(rs), lo, hi) && Merged(Coalesce(rs)) && |Coalesce(rs)| <= |rs|
    ensures rs != [] ==> Coalesce(rs) != [] && Coalesce(rs)[0].free == rs[0].free
    ensures forall x: nat :: Used(Coalesce(rs), x) <==> Used(rs, x)
    decreases |rs|
  {
    if |rs| >= 2 {
      var r, q := rs[0], rs[1];
      if r.free && q.free {
        var m := [r.(pages := r.pages + q.pages)];
        assert rs[1..][1..] == rs[2..];
        assert (m + rs[2..])[1..] == rs[2..];
        CoalesceMeaning(m + rs[2..], lo, hi);
        forall x: nat
          ensures Used(m + rs[2..], x) <==> Used(rs, x)
        {
          assert rs == [r, q] + rs[2..];
          UsedSplit(m, rs[2..], x);
          UsedSplit([r, q], rs[2..], x);
        }
      } else {
        var c := Coalesce(rs[1..]);
        CoalesceMeaning(rs[1..], End(r), hi);
        assert ([r] + c)[1..] == c;
        forall x: nat
          ensures Used([r] + c, x) <==> Used(rs, x)
        {
          assert rs == [r] + rs[1..];
          UsedSplit([r], rs[1..], x);
          UsedSplit([r], c, x);
        }
      }
    }
  }

  lemma {:induction false} CoalesceNonEmpty(rs: seq<Region>)
    requires rs != []
    ensures 0 < |Coalesce(rs)| <= |rs|
    decreases |rs|
  {
    if |rs| >= 2 {
      if rs[0].free && rs[1].free {
        CoalesceNonEmpty([rs[0].(pages := rs[0].pages + rs[1].pages)] + rs[2..]);
      } else {
        CoalesceNonEmpty(rs[1..]);
      }
    }
  }

  // ---------------------------------------------------------------- vmm_unmap_pages

  predicate Holds(r: Region, at: nat, n: nat) { !r.free && r.base <= at && at + n * PAGE <= End(r) }

  /** The first region in use that contains the pages, |rs| when none does. */
  function Holder(rs: seq<Region>, at: nat, n: nat): (i: nat)
    ensures i <= |rs| && (i < |rs| ==> Holds(rs[i], at, n)) && forall j | 0 <= j < i :: !Holds(rs[j], at, n)
  {
    if rs == [] then 0
    else if Holds(rs[0], at, n) then 0
    else
      var k := Holder(rs[1..], at, n);
      assert forall j | 0 < j < 1 + k :: rs[j] == rs[1..][j - 1];
      1 + k
  }

  predicate Whole(r: Region, at: nat, n: nat) { at == r.base && at + n * PAGE == End(r) }

  /** The pages lie strictly inside the region. */
  predicate Middle(r: Region, at: nat, n: nat) { at != r.base && at + n * PAGE != End(r) }

  function FreePieces(r: Region, at: nat, n: nat): seq<Region>
    requires Holds(r, at, n) && !Middle(r, at, n)
  {
    if Whole(r, at, n) then [r.(free := true)]
    else if at == r.base then [Region(r.base, n, true), Region(at + n * PAGE, PagesLeft(r, at, n), false)]
    else [Region(r.base, PagesLeft(r, at, n), false), Region(at, n, true)]
  }

  function PagesLeft(r: Region, at: nat, n: nat): nat
    requires Holds(r, at, n)
  {
    r.pages - n
  }

  /** The list just before neighbours are merged. */
  function Freed(rs: seq<Region>, at: nat, n: nat): seq<Region>
    requires Holder(rs, at, n) < |rs| ==> !Middle(rs[Holder(rs, at, n)], at, n)
  {
    var i := Holder(rs, at, n);
    if i == |rs| || (!Whole(rs[i], at, n) && |rs| >= MAX_NODES) then rs else Replace(rs, i, FreePieces(rs[i], at, n))
  }

  /** A release from the middle asks for two nodes and gets the same one twice: the list keeps what is
      before the pages and ends in an emptied node. */
  function Severed(rs: seq<Region>, i: nat, at: nat, n: nat): seq<Region>
    requires i < |rs| && rs[i].base <= at
  {
    EmptyLast(Coalesce(rs[..i] + [rs[i].(pages := (at - rs[i].base) / PAGE), Region(at, n, true)]))
  }

  function EmptyLast(rs: seq<Region>): seq<Region>
  {
    if rs == [] then [] else rs[..|rs| - 1] + [Region(0, 0, false)]
  }

  predicate FromMiddle(rs: seq<Region>, at: nat, n: nat)
  {
    var i := Holder(rs, at, n);
    i < |rs| && Middle(rs[i], at, n)
  }

  function Release(rs: seq<Region>, at: nat, n: nat): seq<Region>
  {
    var i := Holder(rs, at, n);
    if !FromMiddle(rs, at, n) then Coalesce(Freed(rs, at, n))
    else if |rs| < MAX_NODES then Severed(rs, i, at, n)
    else Coalesce(rs)
  }

  lemma FreePiecesMeaning(r: Region, at: nat, n: nat)
    requires Holds(r, at, n) && !Middle(r, at, n)
    ensures Tiles(FreePieces(r, at, n), r.base, End(r))
    ensures forall x: nat :: Used(FreePieces(r, at, n), x) <==> Inside(r, x) && !(at <= x < at + n * PAGE)
  {
    var ps := FreePieces(r, at, n);
    assert |ps| == 2 ==> ps == [ps[0], ps[1]];
    forall x: nat
      ensures Used(ps, x) <==> Inside(r, x) && !(at <= x < at + n * PAGE)
    {
      assert !ps[0].free && Inside(ps[0], x) ==> Used(ps, x);
      assert |ps| == 2 && !ps[1].free && Inside(ps[1], x) ==> Used(ps, x);
    }
  }

  /** The released pages were used; after the call they are not, and no other address changes. */
  lemma FreedMeaning(rs: seq<Region>, at: nat, n: nat, lo: nat, hi: nat)
    requires Tiles(rs, lo, hi) && !FromMiddle(rs, at, n)
    ensures Tiles(Freed(rs, at, n), lo, hi)
    ensures Freed(rs, at, n) != rs ==> forall x: nat :: Used(Freed(rs, at, n), x) <==> Used(rs, x) && !(at <= x < at + n * PAGE)
    ensures Freed(rs, at, n) != rs ==> forall x: nat | at <= x < at + n * PAGE :: Used(rs, x)
  {
    var i := Holder(rs, at, n);
    if Freed(rs, at, n) != rs {
      var r := rs[i];
      FreePiecesMeaning(r, at, n);
      ReplaceTiles(rs, i, FreePieces(r, at, n), lo, hi);
      forall x: nat
        ensures Used(Freed(rs, at, n), x) <==> Used(rs, x) && !(at <= x < at + n * PAGE)
        ensures at <= x < at + n * PAGE ==> Used(rs, x)
      {
        ReplaceUsed(rs, i, FreePieces(r, at, n), lo, hi, x);
      }
    }
  }

  /** A release keeps the tiling exactly when it is not from the middle of a region with a spare
      node to be found; then the list is merged as well. */
  lemma ReleaseTiles(rs: seq<Region>, at: nat, n: nat, lo: nat, hi: nat)
    requires Tiles(rs, lo, hi) && 0 < hi
    ensures Tiles(Release(rs, at, n), lo, hi) <==> !(FromMiddle(rs, at, n) && |rs| < MAX_NODES)
    ensures !(FromMiddle(rs, at, n) && |rs| < MAX_NODES) ==> Merged(Release(rs, at, n))
  {
    var rs' := Release(rs, at, n);
    if !FromMiddle(rs, at, n) {
      FreedMeaning(rs, at, n, lo, hi);
      CoalesceMeaning(Freed(rs, at, n), lo, hi);
    } else if |rs| >= MAX_NODES {
      CoalesceMeaning(rs, lo, hi);
    } else {
      CoalesceNonEmpty(rs[..Holder(rs, at, n)] + [rs[Holder(rs, at, n)].(pages := (at - rs[Holder(rs, at, n)].base) / PAGE), Region(at, n, true)]);
      if Tiles(rs', lo, hi) { TilesEnd(rs', lo, hi); }
    }
  }

  /** What a release does to the addresses in use: it frees the pages exactly, or nothing when no
      region holds them or no node is left for the remainder. */
  lemma ReleaseMeaning(rs: seq<Region>, at: nat, n: nat, lo: nat, hi: nat)
    requires Tiles(rs, lo, hi) && !FromMiddle(rs, at, n)
    ensures
      var i := Holder(rs, at, n);
      if i < |rs| && (Whole(rs[i], at, n) || |rs| < MAX_NODES) then
        forall x: nat :: (Used(Release(rs, at, n), x) <==> Used(rs, x) && !(at <= x < at + n * PAGE)) && (at <= x < at + n * PAGE ==> Used(rs, x))
      else
        forall x: nat :: Used(Release(rs, at, n), x) <==> Used(rs, x)
  {
    FreedMeaning(rs, at, n, lo, hi);
    CoalesceMeaning(Freed(rs, at, n), lo, hi);
    var i := Holder(rs, at, n);
    if i < |rs| && (Whole(rs[i], at, n) || |rs| < MAX_NODES) {
      assert Freed(rs, at, n)[i] != rs[i] || n == 0;
    }
  }

  // ---------------------------------------------------------------- round trip and runs

  lemma {:induction false} CoalesceFixed(rs: seq<Region>)
    requires Merged(rs)
    ensures Coalesce(rs) == rs
    decreases |rs|
  {
    if |rs| >= 2 {
      var t := rs[1..];
      assert forall i | 0 <= i < |t| :: t[i] == rs[i + 1];
      CoalesceFixed(t);
    }
  }

  /** Splitting one free region of a merged list in two does not outlive the next merge. */
  lemma {:induction false} CoalesceJoins(a: seq<Region>, r: Region, n: nat, b: seq<Region>)
    requires r.free && n <= r.pages && Merged(a + [r] + b)
    ensures Coalesce(a + [Region(r.base, n, true), Region(r.base + n * PAGE, r.pages - n, true)] + b) == a + [r] + b
    decreases |a|
  {
    var two := [Region(r.base, n, true), Region(r.base + n * PAGE, r.pages - n, true)];
    var rs := a + [r] + b;
    if a == [] {
      assert (a + two + b)[2..] == b && rs == [r] + b;
      CoalesceFixed(rs);
    } else {
      var t := a[1..] + [r] + b;
      assert rs[1..] == t && (a + two + b)[1..] == a[1..] + two + b;
      assert forall i | 0 <= i < |t| :: t[i] == rs[i + 1];
      CoalesceJoins(a[1..], r, n, b);
      assert rs[1].free == (a + two + b)[1].free;
      assert !(rs[0].free && rs[1].free);
      assert rs == [a[0]] + t;
    }
  }

  /** Handing pages out and releasing them again leaves the list as it was. */
  lemma TakeThenRelease(rs: seq<Region>, n: nat, lo: nat, hi: nat)
    requires Tiles(rs, lo, hi) && Merged(rs) && 0 < n && CanTake(rs, n)
    ensures Release(Take(rs, n), rs[FirstFit(rs, n)].base, n) == rs
  {
    hide Coalesce, Tiles, Merged, Used, FirstFit, Holder;
    var i, rs' := FirstFit(rs, n), Take(rs, n);
    var r, a, b := rs[i], rs[..i], rs[i + 1..];
    TakeMeaning(rs, n, lo, hi);
    assert rs == a + [r] + b;
    assert rs' == a + Pieces(r, n) + b;
    HolderIs(rs', i, r.base, n, lo, hi);
    FreedAfterTake(a, r, n, b);
    if r.pages > n {
      CoalesceJoins(a, r, n, b);
    } else {
      CoalesceFixed(rs);
    }
  }

  lemma FreedAfterTake(a: seq<Region>, r: Region, n: nat, b: seq<Region>)
    requires r.free && n <= r.pages && Holder(a + Pieces(r, n) + b, r.base, n) == |a|
    ensures !FromMiddle(a + Pieces(r, n) + b, r.base, n)
    ensures Freed(a + Pieces(r, n) + b, r.base, n)
         == a + (if r.pages > n then [Region(r.base, n, true), Region(r.base + n * PAGE, r.pages - n, true)] else [r]) + b
  {
    hide Holder;
    var rs' := a + Pieces(r, n) + b;
    assert rs'[|a|] == Region(r.base, n, false);
    assert rs'[..|a|] == a;
    assert rs'[|a| + 1..] == Pieces(r, n)[1..] + b;
  }

  lemma HolderIs(rs: seq<Region>, i: nat, at: nat, n: nat, lo: nat, hi: nat)
    requires Tiles(rs, lo, hi) && i < |rs| && Holds(rs[i], at, n) && 0 < n
    ensures Holder(rs, at, n) == i
  {
    var j := Holder(rs, at, n);
    if j < i { TilesOrder(rs, lo, hi, i); }
  }

  datatype Op = TakePages(n: nat) | ReleasePages(at: nat, n: nat)

  function Apply(rs: seq<Region>, op: Op): seq<Region>
  {
    match op
    case TakePages(n) => Take(rs, n)
    case ReleasePages(at, n) => Release(rs, at, n)
  }

  /** Every release of the run is of a whole, a prefix or a suffix of a region. */
  ghost predicate Orderly(rs: seq<Region>, ops: seq<Op>)
    decreases |ops|
  {
    ops == [] || ((ops[0].ReleasePages? ==> !FromMiddle(rs, ops[0].at, ops[0].n)) && Orderly(Apply(rs, ops[0]), ops[1..]))
  }

  ghost function Result(rs: seq<Region>, ops: seq<Op>): seq<Region>
    decreases |ops|
  {
    if ops == [] then rs else Result(Apply(rs, ops[0]), ops[1..])
  }

  ghost predicate ListOk(rs: seq<Region>) { Tiles(rs, HEAP_START, HEAP_END) && Merged(rs) && |rs| <= MAX_NODES }

  lemma StepOk(rs: seq<Region>, op: Op)
    requires ListOk(rs) && (op.ReleasePages? ==> !FromMiddle(rs, op.at, op.n))
    ensures ListOk(Apply(rs, op))
  {
    match op
    case TakePages(n) =>
      TakeMerged(rs, n);
      if CanTake(rs, n) { TakeMeaning(rs, n, HEAP_START, HEAP_END); }
    case ReleasePages(at, n) =>
      FreedMeaning(rs, at, n, HEAP_START, HEAP_END);
      CoalesceMeaning(Freed(rs, at, n), HEAP_START, HEAP_END);
  }

  lemma ReleaseOk(rs: seq<Region>, at: nat, n: nat)
    requires ListOk(rs)
    ensures ListOk(Release(rs, at, n)) <==> !(FromMiddle(rs, at, n) && |rs| < MAX_NODES)
  {
    hide Coalesce, Merged, Holder;
    ReleaseTiles(rs, at, n, HEAP_START, HEAP_END);
    if !FromMiddle(rs, at, n) {
      StepOk(rs, ReleasePages(at, n));
    } else if |rs| == MAX_NODES {
      CoalesceMeaning(rs, HEAP_START, HEAP_END);
    }
  }

  /** Over every such run the list tiles the heap, without neighbouring free regions. */
  lemma {:induction false} RunOk(rs: seq<Region>, ops: seq<Op>)
    requires ListOk(rs) && Orderly(rs, ops)
    ensures ListOk(Result(rs, ops))
    decreases |ops|
  {
    if ops != [] {
      StepOk(rs, ops[0]);
      RunOk(Apply(rs, ops[0]), ops[1..]);
    }
  }
}
