/**
 What unpacking an archive does to the tree of the root filesystem (src/kern/initramfs.c), and that it
 undoes the packing of tools/mkinitrd.py.
 */
module Unpacking {

  import opened Basics
  import opened Cpio
  import opened RamfsModel

  const DEPTH := 64   // components a path is split into

  /** The path a member's name stands for: one leading slash is dropped first. */
  function PathOf(name: Bytes): Path
  {
    Components(if name != [] && Slash(name[0]) then name[1..] else name, DEPTH)
  }

  function Parent(p: Path): Path
    requires p != []
  {
    p[..|p| - 1]
  }

  /** Directories for the whole path, where there is nothing yet. */
  function WithDirs(tree: Tree, p: Path): (t: Tree)
    ensures forall q | q in tree :: q in t && t[q] == tree[q]
    ensures forall q | q in t && q !in tree :: t[q].Dir? && q <= p
    ensures p != [] ==> p in t
    decreases |p|
  {
    if p == [] then tree
    else
      var t := WithDirs(tree, Parent(p));
      if p in t then t else t[p := Dir]
  }

  /** The member "." names the root. */
  predicate RootMember(r: Record) { PathOf(r.name) == [Dot()] && IsDir(r.mode) }

  function WithMember(tree: Tree, r: Record): Tree
  {
    var p := PathOf(r.name);
    if p == [] || RootMember(r) then tree
    else if IsDir(r.mode) then WithDirs(tree, p)
    else WithDirs(tree, Parent(p))[p := File(r.mode % 65536, r.data)]
  }

  function WithMembers(tree: Tree, rs: seq<Record>): Tree
    decreases |rs|
  {
    if rs == [] then tree else WithMember(WithMembers(tree, rs[..|rs| - 1]), rs[|rs| - 1])
  }

  /** A directory or regular file whose parents are not files, and which, if a file, is new. */
  predicate Fits(tree: Tree, r: Record)
  {
    var p := PathOf(r.name);
    && (IsDir(r.mode) || IsReg(r.mode))
    && (!RootMember(r) ==>
          && (forall i | 0 <= i < |p| :: !IsDot(p[i]))
          && (forall k | 0 <= k < |p| && p[..k] in tree :: tree[p[..k]].Dir?)
          && (IsReg(r.mode) ==> p !in tree))
  }

  /** Every member fits where its predecessors left the tree. */
  predicate AllFit(tree: Tree, rs: seq<Record>)
  {
    forall i | 0 <= i < |rs| :: Fits(WithMembers(tree, rs[..i]), rs[i])
  }

  /** What fitting means for the steps that add the member. */
  lemma FitsSteps(tree: Tree, r: Record)
    requires Fits(tree, r) && PathOf(r.name) != [] && ([] in tree ==> tree[[]].Dir?)
    ensures
      var p := PathOf(r.name);
      var leaf := p[|p| - 1];
      && (forall i | 0 <= i < |p| - 1 :: !IsDot(p[i]))
      && (forall k | 0 <= k < |p| && p[..k] in tree :: tree[p[..k]].Dir?)
      && (IsDot(leaf) ==> Parent(p) == [] && leaf == Dot() && IsDir(r.mode))
      && (!IsDir(r.mode) ==> IsReg(r.mode))
  {
  }

  lemma MemberSteps(tree: Tree, r: Record)
    requires Fits(tree, r) && PathOf(r.name) != [] && ([] in tree ==> tree[[]].Dir?)
    ensures
      var p := PathOf(r.name);
      var t := WithDirs(tree, Parent(p));
      && (IsDot(p[|p| - 1]) ==> WithMember(tree, r) == t)
      && (!IsDot(p[|p| - 1]) && IsDir(r.mode) ==> WithMember(tree, r) == if p in t then t else t[p := Dir])
      && (!IsDir(r.mode) ==> p !in t && WithMember(tree, r) == t[p := File(r.mode % 65536, r.data)])
  {
    hide PathOf;
    FitsSteps(tree, r);
  }

  // ---------------------------------------------------------------- listings of a tree

  /** A file or directory to be packed. */
  datatype Item = Item(path: Path, mode: nat, data: Bytes)

  predicate ItemOk(x: Item)
  {
    && 1 <= |x.path| <= DEPTH && (forall i | 0 <= i < |x.path| :: PlainName(x.path[i]))
    && (IsDir(x.mode) || IsReg(x.mode)) && x.mode < 65536 && (IsDir(x.mode) ==> x.data == [])
    && |x.data| < WORD && |Join(x.path)| + 1 < WORD && Join(x.path) != Trailer() && NameFits(Join(x.path))
  }

  /** The items of a directory tree: all paths differ, and none goes through a file. */
  predicate Listing(xs: seq<Item>)
  {
    && (forall i | 0 <= i < |xs| :: ItemOk(xs[i]))
    && (forall i, j | 0 <= i < |xs| && 0 <= j < |xs| && i != j :: xs[i].path != xs[j].path)
    && (forall i, j | 0 <= i < |xs| && 0 <= j < |xs| && IsReg(xs[i].mode) && i != j :: !(xs[i].path <= xs[j].path))
  }

  function Member(x: Item): Record { Record(x.mode, Join(x.path), x.data) }

  /** The members mkinitrd writes: the root, then the items. */
  function Members(xs: seq<Item>): seq<Record>
  {
    [Record(0x41ED, Dot(), [])] + seq(|xs|, i requires 0 <= i < |xs| => Member(xs[i]))
  }

  lemma MemberPath(x: Item)
    requires ItemOk(x)
    ensures PathOf(Join(x.path)) == x.path && !RootMember(Member(x)) && Packable(Member(x))
  {
    hide Components;
    var s := Join(x.path);
    SplitJoin(x.path, DEPTH);
    JoinFront(x.path);
    JoinNoZero(x.path);
    assert PlainName(x.path[0]);
  }

  lemma JoinFront(p: Path)
    requires p != [] && PlainName(p[0])
    ensures Join(p) != [] && !Slash(Join(p)[0])
  {
    assert Join(p)[0] == p[0][0] && p[0][0] in p[0];
  }

  lemma {:induction false} JoinNoZero(p: Path)
    requires forall i | 0 <= i < |p| :: PlainName(p[i])
    ensures 0 !in Join(p)
    decreases |p|
  {
    if p != [] {
      assert PlainName(p[0]);
      JoinNoZero(p[1..]);
    }
  }

  predicate Has(t: Tree, x: Item)
  {
    x.path in t && t[x.path] == if IsDir(x.mode) then Dir else File(x.mode, x.data)
  }

  /** The path is that of the item, or a directory on the way to it. */
  predicate From(t: Tree, p: Path, x: Item)
    requires p in t
  {
    p <= x.path && (t[p].Dir? || p == x.path)
  }

  ghost predicate Listed(t: Tree, xs: seq<Item>, k: nat, p: Path)
    requires p in t && k <= |xs|
  {
    exists i | 0 <= i < k :: From(t, p, xs[i])
  }

  /** The first k items are in the tree, and nothing is but them and the directories on the way. */
  ghost predicate Built(t: Tree, xs: seq<Item>, k: nat)
    requires k <= |xs|
  {
    && [] in t && t[[]].Dir?
    && (forall i | 0 <= i < k :: Has(t, xs[i]))
    && (forall p {:trigger Listed(t, xs, k, p)} | p in t && p != [] :: Listed(t, xs, k, p))
  }

  /** What the tree has on the way to the next item is a directory. */
  lemma OnTheWay(t: Tree, xs: seq<Item>, k: nat, q: Path)
    requires Listing(xs) && k < |xs| && Built(t, xs, k) && q in t && q <= xs[k].path
    ensures t[q].Dir? && (q == xs[k].path ==> IsDir(xs[k].mode))
  {
    hide ItemOk;
    if q != [] {
      assert Listed(t, xs, k, q);
      var i :| 0 <= i < k && From(t, q, xs[i]);
      assert Has(t, xs[i]) && ItemOk(xs[i]) && ItemOk(xs[k]);
      KindOf(xs[i]);
      KindOf(xs[k]);
    } else {
      KindOf(xs[k]);
    }
  }

  lemma KindOf(x: Item)
    ensures ItemOk(x) ==> IsDir(x.mode) != IsReg(x.mode) && x.path != [] && x.mode % 65536 == x.mode
    ensures ItemOk(x) ==> forall i | 0 <= i < |x.path| :: !IsDot(x.path[i])
  {
    if ItemOk(x) {
      assert forall i | 0 <= i < |x.path| :: PlainName(x.path[i]);
    }
  }

  /** The next item finds its parents to be directories and, if it is a file, its place free. */
  lemma NextFits(t: Tree, xs: seq<Item>, k: nat)
    requires Listing(xs) && k < |xs| && Built(t, xs, k)
    ensures Fits(t, Member(xs[k]))
  {
    hide PathOf, RootMember, Join, Built, ItemOk, IsDir, IsReg;
    var p := xs[k].path;
    assert ItemOk(xs[k]);
    MemberPath(xs[k]);
    KindOf(xs[k]);
    forall j | 0 <= j < |p| && p[..j] in t
      ensures t[p[..j]].Dir?
    {
      OnTheWay(t, xs, k, p[..j]);
    }
    if p in t { OnTheWay(t, xs, k, p); }
  }

  lemma MemberAdds(t: Tree, x: Item)
    requires ItemOk(x) && (x.path in t ==> t[x.path].Dir? && IsDir(x.mode))
    ensures
      var t' := WithMember(t, Member(x));
      && Has(t', x) && (forall q | q in t :: q in t' && t'[q] == t[q])
      && (forall q | q in t' && q !in t :: From(t', q, x))
  {
    hide PathOf, RootMember, Join, ItemOk, IsDir;
    MemberPath(x);
    KindOf(x);
  }

  lemma BuiltStep(t: Tree, xs: seq<Item>, k: nat)
    requires Listing(xs) && k < |xs| && Built(t, xs, k)
    ensures Fits(t, Member(xs[k])) && Built(WithMember(t, Member(xs[k])), xs, k + 1)
  {
    hide Fits, WithMember, Member, ItemOk, IsDir;
    var t' := WithMember(t, Member(xs[k]));
    assert ItemOk(xs[k]);
    NextFits(t, xs, k);
    if xs[k].path in t { OnTheWay(t, xs, k, xs[k].path); }
    MemberAdds(t, xs[k]);
    forall q | q in t' && q != []
      ensures Listed(t', xs, k + 1, q)
    {
      if q in t {
        assert Listed(t, xs, k, q);
        var i :| 0 <= i < k && From(t, q, xs[i]);
        assert From(t', q, xs[i]);
      } else {
        assert From(t', q, xs[k]);
      }
    }
    assert forall i | 0 <= i < k :: Has(t, xs[i]);
  }

  /** Every member packed from a listing fits, and together they build exactly the listed tree. */
  lemma {:induction false} MembersBuild(xs: seq<Item>, k: nat)
    requires Listing(xs) && k <= |xs|
    ensures AllFit(map[[] := Dir], Members(xs)[..k + 1]) && Built(WithMembers(map[[] := Dir], Members(xs)[..k + 1]), xs, k)
    decreases k
  {
    hide Built, Listing, PathOf, Fits, WithMember;
    var root: Tree := map[[] := Dir];
    var ms := Members(xs);
    if k == 0 {
      RootBuild(xs);
    } else {
      MembersBuild(xs, k - 1);
      assert ms[..k + 1][..k] == ms[..k];
      assert ms[k] == Member(xs[k - 1]);
      BuiltStep(WithMembers(root, ms[..k]), xs, k - 1);
      AllFitNext(root, ms, k);
    }
  }

  lemma AllFitNext(t: Tree, ms: seq<Record>, k: nat)
    requires k < |ms| && AllFit(t, ms[..k]) && Fits(WithMembers(t, ms[..k]), ms[k])
    ensures AllFit(t, ms[..k + 1])
  {
    hide Fits, WithMembers;
    var a, b := ms[..k], ms[..k + 1];
    forall i | 0 <= i < |b|
      ensures Fits(WithMembers(t, b[..i]), b[i])
    {
      if i < k {
        assert b[..i] == a[..i] && b[i] == a[i];
      } else {
        assert b[..i] == a && b[i] == ms[k];
      }
    }
  }

  lemma RootBuild(xs: seq<Item>)
    ensures AllFit(map[[] := Dir], Members(xs)[..1]) && Built(WithMembers(map[[] := Dir], Members(xs)[..1]), xs, 0)
  {
    var root: Tree := map[[] := Dir];
    var r := Record(0x41ED, Dot(), []);
    assert Members(xs)[..1] == [r];
    assert [r][..0] == [];
    assert Components(Dot(), DEPTH) == [Dot()] by {
      assert Word([46]) == [46] by { assert Word([46][1..]) == []; }
      assert [46][1..] == [];
    }
    assert RootMember(r);
    assert WithMembers(root, [r]) == WithMember(WithMembers(root, [r][..0]), r) == root;
  }

  lemma WithMembersNext(tree: Tree, rs: seq<Record>, i: nat)
    requires i < |rs|
    ensures WithMembers(tree, rs[..i + 1]) == WithMember(WithMembers(tree, rs[..i]), rs[i])
  {
    assert rs[..i + 1][..i] == rs[..i];
  }

  /** Packing the listing of a tree and unpacking the archive builds exactly that tree: every item is
      there, with its bytes and mode if it is a file, and nothing else but the directories on the way. */
  lemma PackUnpack(xs: seq<Item>)
    requires Listing(xs)
    ensures Parse(Pack(0, Members(xs))) == Parsed(Members(xs), true)
    ensures AllFit(map[[] := Dir], Members(xs)) && Built(WithMembers(map[[] := Dir], Members(xs)), xs, |xs|)
  {
    hide Built, AllFit, WithMembers, Parse, Pack;
    var ms := Members(xs);
    forall i | 0 <= i < |ms|
      ensures Packable(ms[i])
    {
      if i > 0 {
        assert ItemOk(xs[i - 1]);
        MemberPath(xs[i - 1]);
        assert ms[i] == Member(xs[i - 1]);
      }
    }
    ParsePack(0, ms);
    MembersBuild(xs, |xs|);
    assert ms[..|xs| + 1] == ms;
  }
}
