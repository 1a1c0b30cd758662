/**
 malloc and free of src/kern/mem/liballoc.c, in their own imperative form over
 the tag fields, proved against the heap state of HeapModel.
 */
module Heap {
  import opened Basics
  import opened BoundaryTags
  import opened FreeLists
  import opened HeapModel

  /** The pages allocate_new_tag asks the host for. */
  function PagesFor(size: nat): nat
  {
    var usage := size + TAG;
    var pages := usage / PAGE + (if usage % PAGE != 0 then 1 else 0);
    if pages < MIN_PAGES then MIN_PAGES else pages
  }

  lemma PagesEnough(size: nat)
    requires size + 2 * PAGE < LIMIT
    ensures MIN_PAGES <= PagesFor(size) && size + TAG <= PagesFor(size) * PAGE < LIMIT
  {
  }

  /** getexp */
  method GetExp(size: nat) returns (n: int)
    requires size < LIMIT
    ensures n == Exponent(size)
    ensures if size < 0x100 then n == -1 else MINEXP <= n < BUCKETS && Pow2(n) <= size < Pow2(n + 1)
  {
    ExponentMeaning(size);
    Pow2At32();
    if size < Pow2(MINEXP) { return -1; }
    var shift := MINEXP;
    while shift < BUCKETS
      invariant MINEXP <= shift <= BUCKETS
      invariant ExpFrom(size, shift) == Exponent(size)
      decreases BUCKETS - shift
    {
      if Pow2(shift) > size { break; }
      shift := shift + 1;
    }
    return shift - 1;
  }

  /** The bucket of an area of n bytes: getexp, but at least MINEXP. */
  method GetBucket(n: nat) returns (i: nat)
    requires n < LIMIT
    ensures i == BucketFor(n) && MINEXP <= i < BUCKETS
  {
    BucketBounds(n);
    var e := GetExp(n);
    return if e < MINEXP then MINEXP else e;
  }

  /** No remainder worth a tag of its own is left behind the area; a remainder of 2^31 bytes or more reads
      as negative and is not split off. */
  predicate Trimmed(realSize: int, size: nat)
  {
    realSize - size - 2 * TAG < 0x100 || realSize - size - 2 * TAG >= 0x8000_0000
  }

  class Allocator {
    var blocks: Blocks
    var links: Links
    var freePages: seq<int>
    var completePages: seq<int>
    ghost var lists: seq<seq<int>>
    ghost var runs: Runs

    ghost function S(): State
      reads this
    {
      State(blocks, links, freePages, completePages, lists, runs)
    }

    ghost predicate Valid()
      reads this
    {
      HeapInv(S())
    }

    constructor ()
      ensures Valid() && blocks == map[] && runs == map[]
    {
      blocks, links, runs := map[], map[], map[];
      freePages := seq(BUCKETS, i => NULL);
      completePages := seq(BUCKETS, i => 0);
      lists := seq(BUCKETS, i => []);
      new;
      forall i | 0 <= i < BUCKETS
        ensures CountOk(S(), i)
      {
        assert Whole(S(), i) == {};
      }
    }

    /** insert_tag with its bucket known. */
    method InsertTag(t: int, i: nat)
      requires ListsOk(links, freePages, lists) && Busy(S(), t) && i < BUCKETS && t != NULL
      modifies this
      ensures S() == old(S()).(links := InsertLinks(old(links), old(freePages), t, i), heads := old(freePages)[i := t], lists := old(lists)[i := [t] + old(lists)[i]])
    {
      HeadInLinks(S(), i);
      links := links[t := links[t].(index := i)];
      if freePages[i] != NULL {
        var h := freePages[i];
        links := links[h := links[h].(prev := t)];
        links := links[t := links[t].(next := h)];
      }
      freePages := freePages[i := t];
      lists := lists[i := [t] + lists[i]];
      assert links == InsertLinks(old(links), old(freePages), t, i);
    }

    lemma HeadInLinks(s: State, i: nat)
      requires ListsOk(s.links, s.heads, s.lists) && i < BUCKETS
      ensures s.heads[i] != NULL ==> s.heads[i] in s.links && s.links[s.heads[i]].index == i
    {
      assert Listed(s.links, s.lists[i], i);
      if s.lists[i] != [] { assert NodeOk(s.links, s.lists[i], i, 0); }
    }

    /** remove_tag */
    method RemoveTag(t: int) returns (ghost k: nat)
      requires ListsOk(links, freePages, lists) && Idle(S(), t)
      modifies this
      ensures IsNode(old(S()), t, k) && 0 <= old(links)[t].index < |old(freePages)|
      ensures
        var i := old(links)[t].index;
        S() == old(S()).(links := RemoveLinks(old(links), t), heads := RemoveHeads(old(links), old(freePages), t), lists := old(lists)[i := Without(old(lists)[i], k)])
    {
      k := FindNode(links, freePages, lists, t);
      NeighboursInLinks(S(), t, k);
      var i := links[t].index;
      if freePages[i] == t { freePages := freePages[i := links[t].next]; }
      if links[t].prev != NULL {
        links := links[links[t].prev := links[links[t].prev].(next := links[t].next)];
      }
      if links[t].next != NULL {
        links := links[links[t].next := links[links[t].next].(prev := links[t].prev)];
      }
      links := links[t := Link(-1, NULL, NULL)];
      lists := lists[i := Without(lists[i], k)];
    }

    lemma NeighboursInLinks(s: State, t: int, k: nat)
      requires ListsOk(s.links, s.heads, s.lists) && IsNode(s, t, k)
      ensures s.links[t].prev != NULL ==> s.links[t].prev in s.links && s.links[t].prev != t
      ensures s.links[t].next != NULL ==> s.links[t].next in s.links && s.links[t].next != t
      ensures s.links[t].prev != NULL ==> s.links[t].prev != s.links[t].next
    {
      var i := s.links[t].index;
      var l := s.lists[i];
      assert Listed(s.links, l, i);
      assert NodeOk(s.links, l, i, k);
      if k > 0 { assert NodeOk(s.links, l, i, k - 1); }
      if k + 1 < |l| { assert NodeOk(s.links, l, i, k + 1); }
    }

    /** melt_left followed by remove_tag: the free left neighbour swallows tag. */
    method MeltLeft(tag: int) returns (l: int)
      requires Valid() && Busy(S(), tag) && blocks[tag].left != NULL && Idle(S(), blocks[tag].left)
      modifies this
      ensures Valid() && Busy(S(), l) && l < tag
      ensures Live(S()) - {l} == old(Live(S())) - {tag} && runs == old(runs)
    {
      hide ListsOk, RemoveLinks, RemoveHeads, BucketFor, Apart, CountOk, IdleOk, SizeOk, Tiled, BlockOk;
      ghost var s := S();
      l := blocks[tag].left;
      LeftOf(s, tag);
      Neighbours(s, l);
      blocks := blocks[l := blocks[l].(realSize := blocks[l].realSize + blocks[tag].realSize, right := blocks[tag].right)];
      if blocks[tag].right != NULL {
        blocks := blocks[blocks[tag].right := blocks[blocks[tag].right].(left := l)];
      }
      ghost var k := RemoveTag(l);
      blocks, links := blocks - {tag}, links - {tag};
      SwallowFacts(s, l, l, k);
      assert S() == Merge(Take(s, l, k), l);
    }

    lemma LeftOf(s: State, t: int)
      requires HeapInv(s) && t in s.blocks && s.blocks[t].left != NULL
      ensures s.blocks[t].left in s.blocks && s.blocks[s.blocks[t].left].right == t && t > 0
    {
      assert BlockOk(s.blocks, s.runs, t);
    }

    /** A tag and its right neighbour. */
    lemma Neighbours(s: State, t: int)
      requires HeapInv(s) && t in s.blocks && s.blocks[t].right != NULL
      ensures
        var r := s.blocks[t].right;
        && r in s.blocks && 0 < t < r && s.blocks[r].realSize > 0 && s.blocks[r].left == t
        && var q := s.blocks[r].right;
        q != NULL ==> q in s.blocks && q > r
    {
      assert BlockOk(s.blocks, s.runs, t);
      assert BlockOk(s.blocks, s.runs, s.blocks[t].right);
    }

    /** absorb_right: tag swallows its free right neighbour. */
    method AbsorbRight(tag: int)
      requires Valid() && Busy(S(), tag) && blocks[tag].right != NULL && Idle(S(), blocks[tag].right)
      modifies this
      ensures Valid() && Busy(S(), tag)
      ensures Live(S()) - {tag} == old(Live(S())) - {tag} && runs == old(runs)
      ensures blocks[tag].left == old(blocks)[tag].left && RightRoom(tag) < old(RightRoom(tag))
      ensures forall u | Idle(S(), u) :: old(Idle(S(), u))
    {
      hide ListsOk, RemoveLinks, RemoveHeads, BucketFor, Apart, CountOk, IdleOk, SizeOk, Tiled, BlockOk;
      ghost var s := S();
      var r := blocks[tag].right;
      Neighbours(s, tag);
      ghost var k := RemoveTag(r);
      blocks := blocks[tag := blocks[tag].(realSize := blocks[tag].realSize + blocks[r].realSize, right := blocks[r].right)];
      if blocks[r].right != NULL {
        blocks := blocks[blocks[r].right := blocks[blocks[r].right].(left := tag)];
      }
      blocks, links := blocks - {r}, links - {r};
      SwallowFacts(s, tag, r, k);
      assert S() == Merge(Take(s, r, k), tag);
    }

    ghost function RightRoom(tag: int): int
      reads this
      requires Valid() && tag in blocks
    {
      assert BlockOk(blocks, runs, tag);
      RunEnd(runs, blocks[tag].home) - (tag + blocks[tag].realSize)
    }

    /** The melting loops of free: tag ends up with no free neighbour. */
    method Coalesce(tag0: int) returns (tag: int)
      requires Valid() && Busy(S(), tag0)
      modifies this
      ensures Valid() && Busy(S(), tag) && runs == old(runs)
      ensures Live(S()) - {tag} == old(Live(S())) - {tag0}
      ensures !Idle(S(), blocks[tag].left) && !Idle(S(), blocks[tag].right)
    {
      hide ListsOk, BucketFor, Tiled, CountOk, IdleOk, SizeOk;
      tag := tag0;
      TagPositive(tag);
      while blocks[tag].left != NULL && links[blocks[tag].left].index >= 0
        invariant Valid() && Busy(S(), tag) && runs == old(runs) && tag > 0 && NULL !in links
        invariant Live(S()) - {tag} == old(Live(S())) - {tag0}
        invariant blocks[tag].left != NULL ==> blocks[tag].left in links
        invariant blocks[tag].right != NULL ==> blocks[tag].right in links
        decreases tag
      {
        tag := MeltLeft(tag);
        TagPositive(tag);
      }
      while blocks[tag].right != NULL && links[blocks[tag].right].index >= 0
        invariant Valid() && Busy(S(), tag) && runs == old(runs) && tag > 0 && NULL !in links
        invariant Live(S()) - {tag} == old(Live(S())) - {tag0}
        invariant !Idle(S(), blocks[tag].left)
        invariant blocks[tag].right != NULL ==> blocks[tag].right in links
        decreases RightRoom(tag)
      {
        AbsorbRight(tag);
        TagPositive(tag);
      }
    }

    /** Tags are not NULL and their neighbours are tags. */
    lemma TagPositive(t: int)
      requires Valid() && t in blocks
      ensures t > 0 && NULL !in links && 0 <= RightRoom(t)
      ensures blocks[t].left != NULL ==> blocks[t].left in links
      ensures blocks[t].right != NULL ==> blocks[t].right in links
    {
      assert BlockOk(blocks, runs, t);
      assert NULL in blocks ==> BlockOk(blocks, runs, NULL);
    }

    /** free.  `gone` is the call it makes to liballoc_free, if any: always a run that is still
        outstanding, by its own address and page count. */
    method Free(ptr: int) returns (gone: Option<(int, nat)>)
      requires Valid() && (ptr != NULL ==> ptr - TAG in Live(S()))
      modifies this
      ensures Valid()
      ensures ptr == NULL ==> S() == old(S()) && gone == None
      ensures Live(S()) == if ptr == NULL then old(Live(S())) else old(Live(S())) - {ptr - TAG}
      ensures gone.None? ==> runs == old(runs)
      ensures gone.Some? ==> gone.value.0 in old(runs) && gone.value.1 == old(runs)[gone.value.0] && runs == old(runs) - {gone.value.0}
      ensures gone.Some? ==> exists i | 0 <= i < BUCKETS :: completePages[i] == MAXCOMPLETE
    {
      hide ListsOk, Tiled, CountOk, BucketFor, Exponent;
      if ptr == NULL { return None; }
      BusyOrIdle(S(), ptr - TAG);
      var tag := Coalesce(ptr - TAG);
      ghost var s := S();
      TagPositive(tag);
      assert SizeOk(s, tag);
      BlockFits(s, tag);
      var index := GetBucket(blocks[tag].realSize - TAG);
      gone := Retire(tag, index);
    }

    /** The end of free: give a surplus whole run back, or link the tag into its bucket. */
    method Retire(tag: int, index: nat) returns (gone: Option<(int, nat)>)
      requires Valid() && Busy(S(), tag) && blocks[tag].realSize >= TAG && index == BucketFor(blocks[tag].realSize - TAG) && index < BUCKETS
      requires !Idle(S(), blocks[tag].left) && !Idle(S(), blocks[tag].right)
      modifies this
      ensures Valid() && Live(S()) == old(Live(S())) - {tag}
      ensures gone.Some? <==> old(blocks[tag].left == NULL && blocks[tag].right == NULL && completePages[index] == MAXCOMPLETE)
      ensures gone.Some? ==> completePages == old(completePages)
      ensures gone.None? ==> runs == old(runs)
      ensures gone.Some? ==> gone.value.0 in old(runs) && gone.value.1 == old(runs)[gone.value.0] && runs == old(runs) - {gone.value.0}
    {
      hide ListsOk, Tiled, BucketFor, IdleOk, SizeOk, InsertLinks;
      ghost var s := S();
      TagPositive(tag);
      assert CountOk(s, index);
      if blocks[tag].left == NULL && blocks[tag].right == NULL {
        if completePages[index] == MAXCOMPLETE {
          ShrinkInv(s, tag);
          var pages := blocks[tag].realSize / PAGE;
          if blocks[tag].realSize % PAGE != 0 { pages := pages + 1; }
          if pages < MIN_PAGES { pages := MIN_PAGES; }
          blocks, links, runs := blocks - {tag}, links - {tag}, runs - {tag};
          assert S() == Shrink(s, tag);
          return Some((tag, pages));
        }
        completePages := completePages[index := completePages[index] + 1];
      }
      PutInv(s, tag, index);
      PutLive(s, tag, index);
      InsertTag(tag, index);
      assert S() == Put(s, tag, index);
      return None;
    }

    /** The bucket search of malloc: a tag that fits, or NULL when none in the whole heap does. */
    method FindTag(size: nat) returns (t: int)
      requires Valid() && size < LIMIT
      ensures t != NULL ==> Fits(S(), t, size) && forall u | Fits(S(), u, size) :: links[t].index <= links[u].index
      ensures t == NULL ==> forall u :: !Fits(S(), u, size)
    {
      hide Exponent, Tiled, ListsOk, BucketFor, CountOk, IdleOk, SizeOk;
      var index := GetBucket(size);
      var i := index;
      while i < BUCKETS
        invariant MINEXP <= i <= BUCKETS
        invariant forall u | Fits(S(), u, size) :: links[u].index < index || i <= links[u].index
      {
        t := FindInBucket(i, size);
        if t != NULL {
          forall u | Fits(S(), u, size)
            ensures i <= links[u].index
          {
            FitsAbove(S(), u, size);
          }
          return;
        }
        i := i + 1;
      }
      forall u
        ensures !Fits(S(), u, size)
      {
        if Fits(S(), u, size) { FitsAbove(S(), u, size); }
      }
      t := NULL;
    }

    /** The inner loop of the search: walk one bucket list. */
    method FindInBucket(i: nat, size: nat) returns (t: int)
      requires Valid() && i < BUCKETS
      ensures t != NULL ==> Fits(S(), t, size) && links[t].index == i
      ensures t == NULL ==> forall u | Fits(S(), u, size) :: links[u].index != i
    {
      ghost var l, k := lists[i], 0;
      assert Listed(links, l, i);
      if l != [] { assert NodeOk(links, l, i, 0); }
      t := freePages[i];
      while t != NULL
        invariant 0 <= k <= |l| && t == (if k < |l| then l[k] else NULL)
        invariant k < |l| ==> t != NULL
        invariant forall j | 0 <= j < k :: !Fits(S(), l[j], size)
        decreases |l| - k
      {
        assert NodeOk(links, l, i, k);
        if blocks[t].realSize - TAG >= size + TAG { return; }
        t := links[t].next;
        k := k + 1;
        if k < |l| { assert NodeOk(links, l, i, k); }
      }
      forall u | Fits(S(), u, size)
        ensures links[u].index != i
      {
        assert TagOk(links, lists, u);
      }
    }

    /** The field writes of split_tag before the new tag is linked. */
    method CutTag(t: int) returns (n: int)
      requires t in blocks && blocks[t].realSize >= blocks[t].size + 2 * TAG
      requires blocks[t].right != NULL ==> blocks[t].right in blocks && blocks[t].right != t && blocks[t].right != t + TAG + blocks[t].size
      modifies `blocks, `links
      ensures n == t + TAG + old(blocks)[t].size && S() == Cut(old(S()), t, old(blocks)[t].size)
    {
      var size := blocks[t].size;
      var right := blocks[t].right;
      n := t + TAG + size;
      blocks := blocks[n := Block(blocks[t].realSize - TAG - size, 0, t, right, blocks[t].home)];
      if right != NULL { blocks := blocks[right := blocks[right].(left := n)]; }
      blocks := blocks[t := blocks[t].(right := n, realSize := TAG + size)];
      links := links[n := OFF];
    }

    /** split_tag: cut the tail of t into a new free tag. */
    method SplitTag(t: int)
      requires Valid() && Busy(S(), t) && blocks[t].realSize >= blocks[t].size + 2 * TAG && !Idle(S(), blocks[t].right)
      modifies this
      ensures Valid() && Live(S()) == old(Live(S())) && runs == old(runs)
      ensures t in blocks && blocks[t].realSize == TAG + old(blocks)[t].size
    {
      hide ListsOk, BucketFor, Exponent, Tiled, CountOk, IdleOk, InsertLinks, SizeOk;
      ghost var s := S();
      TagPositive(t);
      NewTagFresh(s, t);
      CutInv(s, t, blocks[t].size);
      CutLive(s, t, blocks[t].size);
      CutShape(s, t, blocks[t].size);
      var n := CutTag(t);
      LinkNewTag(n, t);
    }

    lemma CutShape(s: State, t: int, size: nat)
      requires HeapInv(s) && Busy(s, t) && s.blocks[t].realSize >= size + 2 * TAG && !Idle(s, s.blocks[t].right) && t + TAG + size !in s.blocks
      ensures
        var s', n := Cut(s, t, size), t + TAG + size;
        Busy(s', n) && n in s'.blocks && s'.blocks[n].left == t && t != NULL && Busy(s', t) && !Idle(s', s'.blocks[n].right) && n !in Live(s)
    {
      assert BlockOk(s.blocks, s.runs, t);
    }

    lemma NewTagFresh(s: State, t: int)
      requires HeapInv(s) && t in s.blocks && s.blocks[t].realSize >= s.blocks[t].size + 2 * TAG
      ensures t + TAG + s.blocks[t].size !in s.blocks && s.blocks[t].right != t && s.blocks[t].right != t + TAG + s.blocks[t].size
    {
      SplitTiled(s.blocks, s.runs, t, s.blocks[t].size);
      assert BlockOk(s.blocks, s.runs, t);
    }

    /** The end of split_tag: insert_tag(new_tag, -1). */
    method LinkNewTag(n: int, ghost t: int)
      requires Valid() && Busy(S(), n) && blocks[n].left == t && t != NULL && Busy(S(), t) && !Idle(S(), blocks[n].right)
      modifies this
      ensures Valid() && Live(S()) == old(Live(S())) - {n} && runs == old(runs) && blocks == old(blocks)
    {
      hide ListsOk, BucketFor, Exponent, Tiled, CountOk, IdleOk, InsertLinks;
      ghost var s := S();
      assert SizeOk(s, n);
      BlockFits(s, n);
      TagPositive(n);
      var i := GetBucket(blocks[n].realSize - TAG);
      PutInv(s, n, i);
      PutLive(s, n, i);
      InsertTag(n, i);
      assert S() == Put(s, n, i);
    }

    /** allocate_new_tag, where `host` is the answer of liballoc_alloc. */
    method AllocateNewTag(size: nat, host: int) returns (t: int)
      requires Valid() && size + 2 * PAGE < LIMIT && (host != NULL ==> FreshRun(runs, host, PagesFor(size)))
      modifies this
      ensures Valid() && t == host
      ensures host == NULL ==> S() == old(S())
      ensures host != NULL ==> host !in old(links) && S() == Grow(old(S()), host, PagesFor(size), size)
    {
      hide ListsOk, Tiled, CountOk, IdleOk, SizeOk;
      if host == NULL { return NULL; }
      PagesEnough(size);
      GrowInv(S(), host, PagesFor(size), size);
      var usage := size + TAG;
      var pages := usage / PAGE;
      if usage % PAGE != 0 { pages := pages + 1; }
      if pages < MIN_PAGES { pages := MIN_PAGES; }
      blocks := blocks[host := Block(pages * PAGE, size, NULL, NULL, host)];
      links := links[host := OFF];
      runs := runs[host := pages];
      t := host;
    }

    /** Unlink the tag the search found, and uncount it if it was an idle whole run. */
    method TakeTag(t: int)
      requires Valid() && Idle(S(), t)
      modifies this
      ensures Valid() && Busy(S(), t) && runs == old(runs) && blocks == old(blocks) && t !in old(Live(S()))
      ensures Live(S()) == old(Live(S()))[t := blocks[t].size]
      ensures !Idle(S(), blocks[t].right)
    {
      hide ListsOk, Tiled, CountOk, SizeOk, RemoveLinks, RemoveHeads, BucketFor;
      ghost var s := S();
      var i := links[t].index;
      assert IdleOk(s, t);
      ghost var k := RemoveTag(t);
      if blocks[t].left == NULL && blocks[t].right == NULL {
        completePages := completePages[i := completePages[i] - 1];
      }
      TakeInv(s, t, k);
      TakeLive(s, t, k);
      RemoveKeepsIndex(s.links, s.heads, s.lists, t);
      assert S() == Take(s, t, k);
    }

    /** malloc.  `host` is what liballoc_alloc would answer; it is asked only when no free tag
        anywhere in the heap fits.  The result is NULL exactly when it is asked and refuses. */
    method Malloc(size: nat, host: int) returns (p: int, asked: bool)
      requires Valid() && size + 2 * PAGE < LIMIT && (host != NULL ==> FreshRun(runs, host, PagesFor(size)))
      modifies this
      ensures Valid()
      ensures asked <==> forall u :: !Fits(old(S()), u, size)
      ensures p == NULL <==> asked && host == NULL
      ensures p == NULL ==> S() == old(S())
      ensures p != NULL ==> p - TAG !in old(Live(S())) && Live(S()) == old(Live(S()))[p - TAG := size]
      ensures runs == if asked && host != NULL then old(runs)[host := PagesFor(size)] else old(runs)
      ensures asked && host != NULL ==> p == host + TAG
      ensures !asked ==> Fits(old(S()), p - TAG, size) && forall u | Fits(old(S()), u, size) :: old(links)[p - TAG].index <= old(links)[u].index
      ensures p != NULL ==> p - TAG in blocks && Trimmed(blocks[p - TAG].realSize, size)
    {
      hide ListsOk, Tiled, CountOk, IdleOk, Live;
      var tag := FindTag(size);
      asked := tag == NULL;
      ghost var s := S();
      if tag == NULL {
        tag := AllocateNewTag(size, host);
        if tag == NULL { return NULL, true; }
        GrowLive(s, host, PagesFor(size), size);
        PagesEnough(size);
      } else {
        TakeTag(tag);
      }
      Serve(tag, size);
      TagPositive(tag);
      p := tag + TAG;
    }

    lemma GrowLive(s: State, t: int, pages: nat, size: nat)
      requires HeapInv(s) && t !in s.links
      ensures t !in Live(s) && Live(Grow(s, t, pages, size)) == Live(s)[t := size]
      ensures t in Grow(s, t, pages, size).blocks && Busy(Grow(s, t, pages, size), t)
      ensures !Idle(Grow(s, t, pages, size), NULL)
    {
      assert NULL in s.blocks ==> BlockOk(s.blocks, s.runs, NULL);
    }

    /** The end of malloc: record the size and split off a usable remainder. */
    method Serve(tag: int, size: nat)
      requires Valid() && Busy(S(), tag) && blocks[tag].realSize >= size + TAG && !Idle(S(), blocks[tag].right)
      modifies this
      ensures Valid() && runs == old(runs) && tag in blocks && Live(S()) == old(Live(S()))[tag := size]
      ensures Trimmed(blocks[tag].realSize, size)
    {
      hide ListsOk, Tiled, CountOk, IdleOk, SizeOk, Exponent, BucketFor;
      ghost var s := S();
      SetSizeInv(s, tag, size);
      blocks := blocks[tag := blocks[tag].(size := size)];
      assert S() == SetSize(s, tag, size);
      assert Live(S()) == old(Live(S()))[tag := size];
      BlockFits(S(), tag);
      var remainder := blocks[tag].realSize - size - 2 * TAG;
      if 0 < remainder < 0x8000_0000 {
        var childIndex := GetExp(remainder);
        if childIndex >= 0 {
          SplitTag(tag);
          assert tag in Live(S());
        }
      }
    }
  }
}
