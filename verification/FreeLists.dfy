/**
 The bucket lists of the heap (src/kern/mem/liballoc.c): doubly linked lists
 threaded through the tags, headed by l_freePages, specified by sequences.
 */
module FreeLists {
  import opened Basics
  import opened BoundaryTags

  const BUCKETS := 32      // MAXEXP

  datatype Link = Link(index: int, next: int, prev: int)

  const OFF := Link(-1, NULL, NULL)

  type Links = map<int, Link>

  function NextOf(l: seq<int>, k: nat): int
  {
    if k + 1 < |l| then l[k + 1] else NULL
  }

  function PrevOf(l: seq<int>, k: nat): int
    requires k <= |l|
  {
    if k > 0 then l[k - 1] else NULL
  }

  function HeadOf(l: seq<int>): int { if l == [] then NULL else l[0] }

  ghost predicate NodeOk(links: Links, l: seq<int>, i: int, k: nat)
    requires k < |l|
  {
    l[k] in links && l[k] != NULL && links[l[k]] == Link(i, NextOf(l, k), PrevOf(l, k))
  }

  /** The nodes of l are linked in order, both ways, and know their bucket i. */
  ghost predicate Listed(links: Links, l: seq<int>, i: int)
  {
    Distinct(l) && forall k: nat {:trigger NodeOk(links, l, i, k)} | k < |l| :: NodeOk(links, l, i, k)
  }

  ghost predicate TagOk(links: Links, lists: seq<seq<int>>, t: int)
    requires t in links
  {
    var i := links[t].index;
    links[t] == OFF || (0 <= i < |lists| && t in lists[i])
  }

  /** A tag is in bucket list `index` exactly when index >= 0. */
  ghost predicate ListsOk(links: Links, heads: seq<int>, lists: seq<seq<int>>)
  {
    && |heads| == |lists| == BUCKETS
    && (forall i {:trigger Listed(links, lists[i], i)} | 0 <= i < BUCKETS :: Listed(links, lists[i], i) && heads[i] == HeadOf(lists[i]))
    && (forall t {:trigger TagOk(links, lists, t)} | t in links :: TagOk(links, lists, t))
  }

  /** The links of nodes outside a list can change without touching it. */
  lemma ListedFrame(links: Links, links': Links, l: seq<int>, i: int)
    requires Listed(links, l, i)
    requires forall t | t in links && links[t].index == i :: t in links' && links'[t] == links[t]
    ensures Listed(links', l, i)
  {
    forall k: nat | k < |l|
      ensures NodeOk(links', l, i, k)
    {
      assert NodeOk(links, l, i, k);
    }
  }

  // ---------------------------------------------------------------- insert_tag

  function InsertLinks(links: Links, heads: seq<int>, t: int, i: nat): Links
    requires i < |heads|
  {
    var h := heads[i];
    var links1 := links[t := Link(i, h, NULL)];
    if h != NULL && h in links then links1[h := links[h].(prev := t)] else links1
  }

  lemma InsertListed(links: Links, l: seq<int>, t: int, i: int, links': Links)
    requires Listed(links, l, i) && t != NULL && t !in l
    requires t in links' && links'[t] == Link(i, HeadOf(l), NULL)
    requires l != [] ==> l[0] in links' && l[0] in links && links'[l[0]] == links[l[0]].(prev := t)
    requires forall k | 1 <= k < |l| :: l[k] in links' && l[k] in links && links'[l[k]] == links[l[k]]
    ensures Listed(links', [t] + l, i)
  {
    var l' := [t] + l;
    forall k: nat | k < |l'|
      ensures NodeOk(links', l', i, k)
    {
      if k > 0 {
        assert NodeOk(links, l, i, k - 1);
      }
    }
  }

  lemma InsertOk(links: Links, heads: seq<int>, lists: seq<seq<int>>, t: int, i: nat)
    requires ListsOk(links, heads, lists) && t != NULL && i < BUCKETS && (t in links ==> links[t] == OFF)
    ensures ListsOk(InsertLinks(links, heads, t, i), heads[i := t], lists[i := [t] + lists[i]])
  {
    var links', lists' := InsertLinks(links, heads, t, i), lists[i := [t] + lists[i]];
    var l := lists[i];
    assert Listed(links, l, i);
    forall k: nat | k < |l|
      ensures NodeOk(links, l, i, k) && l[k] != t
    {
      assert NodeOk(links, l, i, k);
    }
    InsertListed(links, l, t, i, links');
    forall j | 0 <= j < BUCKETS
      ensures Listed(links', lists'[j], j) && heads[i := t][j] == HeadOf(lists'[j])
    {
      if j != i {
        assert Listed(links, lists[j], j);
        ListedFrame(links, links', lists[j], j);
      }
    }
    forall u | u in links'
      ensures TagOk(links', lists', u)
    {
      if u != t { assert TagOk(links, lists, u); }
    }
  }

  // ---------------------------------------------------------------- remove_tag

  function RemoveLinks(links: Links, t: int): Links
    requires t in links
  {
    var k := links[t];
    var links1 := if k.prev != NULL && k.prev in links then links[k.prev := links[k.prev].(next := k.next)] else links;
    var links2 := if k.next != NULL && k.next in links1 then links1[k.next := links1[k.next].(prev := k.prev)] else links1;
    links2[t := OFF]
  }

  function RemoveHeads(links: Links, heads: seq<int>, t: int): seq<int>
    requires t in links && 0 <= links[t].index < |heads|
  {
    var k := links[t];
    if heads[k.index] == t then heads[k.index := k.next] else heads
  }

  function Without(l: seq<int>, k: nat): seq<int>
    requires k < |l|
  {
    l[..k] + l[k + 1..]
  }

  /** Taking the k-th node out relinks its neighbours. */
  lemma RemoveListed(links: Links, l: seq<int>, i: int, k: nat)
    requires Listed(links, l, i) && k < |l|
    ensures l[k] in links && Listed(RemoveLinks(links, l[k]), Without(l, k), i)
    ensures forall t | t in links && t != l[k] && links[t].index != i :: t in RemoveLinks(links, l[k]) && RemoveLinks(links, l[k])[t] == links[t]
  {
    assert NodeOk(links, l, i, k);
    var links', l' := RemoveLinks(links, l[k]), Without(l, k);
    if k > 0 { assert NodeOk(links, l, i, k - 1); }
    if k + 1 < |l| { assert NodeOk(links, l, i, k + 1); }
    forall j: nat | j < |l'|
      ensures NodeOk(links', l', i, j)
    {
      assert NodeOk(links, l, i, if j < k then j else j + 1);
    }
  }

  lemma RemoveOk(links: Links, heads: seq<int>, lists: seq<seq<int>>, t: int, k: nat)
    requires ListsOk(links, heads, lists) && t in links && links[t].index >= 0
    requires 0 <= links[t].index < BUCKETS && k < |lists[links[t].index]| && lists[links[t].index][k] == t
    ensures
      var i := links[t].index;
      ListsOk(RemoveLinks(links, t), RemoveHeads(links, heads, t), lists[i := Without(lists[i], k)])
  {
    var i := links[t].index;
    var l := lists[i];
    var links', lists' := RemoveLinks(links, t), lists[i := Without(l, k)];
    assert Listed(links, l, i);
    assert NodeOk(links, l, i, k);
    RemoveListed(links, l, i, k);
    forall j | 0 <= j < BUCKETS
      ensures Listed(links', lists'[j], j) && RemoveHeads(links, heads, t)[j] == HeadOf(lists'[j])
    {
      assert Listed(links, lists[j], j);
      if j != i {
        ListedFrame(links, links', lists[j], j);
      }
    }
    forall u | u in links'
      ensures TagOk(links', lists', u)
    {
      RemovedTag(links, heads, lists, t, k, u);
    }
  }

  lemma RemovedTag(links: Links, heads: seq<int>, lists: seq<seq<int>>, t: int, k: nat, u: int)
    requires ListsOk(links, heads, lists) && t in links && links[t].index >= 0 && u in RemoveLinks(links, t)
    requires 0 <= links[t].index < BUCKETS && k < |lists[links[t].index]| && lists[links[t].index][k] == t
    ensures TagOk(RemoveLinks(links, t), lists[links[t].index := Without(lists[links[t].index], k)], u)
  {
    var i := links[t].index;
    var l := lists[i];
    assert Listed(links, l, i);
    assert NodeOk(links, l, i, k);
    if k > 0 { assert NodeOk(links, l, i, k - 1); }
    if k + 1 < |l| { assert NodeOk(links, l, i, k + 1); }
    if u != t {
      assert TagOk(links, lists, u);
      var j := links[u].index;
      if j == i {
        var n :| 0 <= n < |lists[i]| && lists[i][n] == u;
        assert Without(lists[i], k)[if n < k then n else n - 1] == u;
      }
    }
  }

  /** A tag with a bucket is a node of that bucket's list. */
  lemma FindNode(links: Links, heads: seq<int>, lists: seq<seq<int>>, t: int) returns (k: nat)
    requires ListsOk(links, heads, lists) && t in links && links[t].index >= 0
    ensures 0 <= links[t].index < BUCKETS && k < |lists[links[t].index]| && lists[links[t].index][k] == t
  {
    assert TagOk(links, lists, t);
    k :| 0 <= k < |lists[links[t].index]| && lists[links[t].index][k] == t;
  }

  /** A tag in no list can be forgotten. */
  lemma ForgetOk(links: Links, heads: seq<int>, lists: seq<seq<int>>, t: int)
    requires ListsOk(links, heads, lists) && t in links && links[t] == OFF
    ensures ListsOk(links - {t}, heads, lists)
  {
    forall i | 0 <= i < BUCKETS
      ensures Listed(links - {t}, lists[i], i) && heads[i] == HeadOf(lists[i])
    {
      assert Listed(links, lists[i], i);
      ListedFrame(links, links - {t}, lists[i], i);
    }
    forall u | u in links - {t}
      ensures TagOk(links - {t}, lists, u)
    {
      assert TagOk(links, lists, u);
    }
  }

  /** A new tag starts in no list. */
  lemma NewTagOk(links: Links, heads: seq<int>, lists: seq<seq<int>>, t: int)
    requires ListsOk(links, heads, lists) && t !in links
    ensures ListsOk(links[t := OFF], heads, lists)
  {
    forall i | 0 <= i < BUCKETS
      ensures Listed(links[t := OFF], lists[i], i) && heads[i] == HeadOf(lists[i])
    {
      assert Listed(links, lists[i], i);
      ListedFrame(links, links[t := OFF], lists[i], i);
    }
    var links' := links[t := OFF];
    forall u | u in links'
      ensures TagOk(links', lists, u)
    {
      if u != t { assert TagOk(links, lists, u); }
    }
  }

  /** remove_tag changes only next and prev of other tags. */
  lemma RemoveKeepsIndex(links: Links, heads: seq<int>, lists: seq<seq<int>>, t: int)
    requires ListsOk(links, heads, lists) && t in links && links[t].index >= 0
    ensures RemoveLinks(links, t).Keys == links.Keys && RemoveLinks(links, t)[t] == OFF
    ensures forall u | u in links && u != t :: RemoveLinks(links, t)[u].index == links[u].index
  {
  }

  lemma InsertKeepsIndex(links: Links, heads: seq<int>, lists: seq<seq<int>>, t: int, i: nat)
    requires ListsOk(links, heads, lists) && i < BUCKETS && t != NULL && (t in links ==> links[t] == OFF)
    ensures InsertLinks(links, heads, t, i).Keys == links.Keys + {t} && InsertLinks(links, heads, t, i)[t].index == i
    ensures forall u | u in links && u != t :: InsertLinks(links, heads, t, i)[u].index == links[u].index
  {
    var l := lists[i];
    assert Listed(links, l, i);
    if l != [] { assert NodeOk(links, l, i, 0); }
  }
}
