/**
 The memory filesystem of src/drivers/storage/fs/ramfs.c as a value, and the tree it stands for.
 */
module RamfsModel {

  import opened Basics
  import opened Cpio

  type Name = Bytes
  type Path = seq<Name>

  const ENTRY := 24     // sizeof(ramfs_dirent)
  const FIRST := 1024   // bytes a new inode starts with
  const ROOT := 1

  datatype Dirent = Dirent(used: bool, inode: nat, name: Name)

  /** ramfs_inode; its memory of `cap` bytes is read as entries in a directory and as bytes in a file. */
  datatype Inode = Inode(used: bool, mode: nat, size: nat, cap: nat, ents: seq<Dirent>, data: Bytes)

  /** What fresh memory happens to hold. */
  datatype Garbage = Garbage(inode: int -> Inode, ent: int -> Dirent, byte: int -> Byte)

  datatype Fs = Fs(table: seq<Inode>, hint: nat)

  /** A filesystem and the inode just placed in it. */
  datatype Placed = Placed(fs: Fs, ino: nat)

  /** "." and "..", which the root lists as itself. */
  function Dot(): Name { [46] }
  function DotDot(): Name { [46, 46] }
  predicate IsDot(n: Name) { n == Dot() || n == DotDot() }

  predicate Known(fs: Fs, c: nat) { 1 <= c <= |fs.table| && fs.table[c - 1].used }

  function At(fs: Fs, c: nat): Inode
    requires Known(fs, c)
  {
    fs.table[c - 1]
  }

  predicate Shaped(n: Inode) { |n.ents| == n.cap / ENTRY && |n.data| == n.cap && n.size <= n.cap }

  // ---------------------------------------------------------------- inodes

  /** The first unused slot in [i, end), end when there is none. */
  function Unused(t: seq<Inode>, i: nat, end: nat): (k: nat)
    requires i <= end <= |t|
    ensures i <= k <= end && (k < end ==> !t[k].used) && forall j | i <= j < k :: t[j].used
    decreases end - i
  {
    if i == end || !t[i].used then i else Unused(t, i + 1, end)
  }

  /** The slots a grown table gains are not cleared. */
  function FreshSlots(g: Garbage, n: nat): seq<Inode>
  {
    seq(64, i => g.inode(n + i))
  }

  /** findfreeino: the filesystem with its new hint, and the inode number. */
  function Alloc(fs: Fs, g: Garbage): (r: Placed)
    ensures 1 <= r.ino <= |r.fs.table| && fs.table <= r.fs.table && (r.ino <= |fs.table| ==> !fs.table[r.ino - 1].used)
  {
    var n := |fs.table|;
    var h := if fs.hint >= n then 0 else fs.hint;
    var a, b := Unused(fs.table, h, n), Unused(fs.table, 0, h);
    if a < n then Placed(fs.(hint := a + 1), a + 1)
    else if b < h then Placed(fs.(hint := b + 1), b + 1)
    else Placed(Fs(fs.table + FreshSlots(g, n), n + 1), n + 1)
  }

  function NewInode(mode: nat, g: Garbage): Inode
  {
    Inode(true, mode, 0, FIRST, seq(FIRST / ENTRY, i => g.ent(i)), seq<Byte>(FIRST, i => g.byte(i)))
  }

  /** ramfs_mkino: a new inode; no inode in use changes. */
  function Make(fs: Fs, mode: nat, g: Garbage): (r: Placed)
    ensures Known(r.fs, r.ino) && At(r.fs, r.ino) == NewInode(mode, g)
    ensures !Known(fs, r.ino) && forall c | Known(fs, c) :: Known(r.fs, c) && At(r.fs, c) == At(fs, c)
  {
    var p := Alloc(fs, g);
    p.(fs := p.fs.(table := p.fs.table[p.ino - 1 := NewInode(mode, g)]))
  }

  // ---------------------------------------------------------------- directories

  /** A directory only ever appended to. */
  ghost predicate DirOk(n: Inode)
  {
    Shaped(n) && n.cap >= FIRST && n.cap % ENTRY == 16 && n.size % ENTRY == 0 && forall i | 0 <= i < n.size / ENTRY :: n.ents[i].used
  }

  ghost function Entries(n: Inode): seq<(Name, nat)>
    requires Shaped(n)
  {
    seq(n.size / ENTRY, i requires 0 <= i < n.size / ENTRY => (n.ents[i].name, n.ents[i].inode))
  }

  /** The inode of the first entry of that name, 0 when there is none. */
  ghost function Find(es: seq<(Name, nat)>, name: Name): nat
  {
    if es == [] then 0 else if es[0].0 == name then es[0].1 else Find(es[1..], name)
  }

  lemma {:induction false} FindAppend(es: seq<(Name, nat)>, e: (Name, nat), name: Name)
    requires e.1 != 0 && forall i | 0 <= i < |es| :: es[i].1 != 0
    ensures Find(es + [e], name) == if Find(es, name) != 0 then Find(es, name) else if name == e.0 then e.1 else 0
    decreases |es|
  {
    if es == [] {
      assert ([] + [e])[0] == e;
      assert ([] + [e])[1..] == [];
    } else {
      assert (es + [e])[1..] == es[1..] + [e];
      FindAppend(es[1..], e, name);
    }
  }

  function FirstUnused(ents: seq<Dirent>, n: nat, i: nat): (k: nat)
    requires i <= n <= |ents|
    ensures i <= k <= n && (k < n ==> !ents[k].used) && forall j | i <= j < k :: ents[j].used
    decreases n - i
  {
    if i == n || !ents[i].used then i else FirstUnused(ents, n, i + 1)
  }

  /** ramfs_mklink on the directory's inode. */
  function WithEntry(n: Inode, name: Name, c: nat, g: Garbage): Inode
    requires Shaped(n)
  {
    var e, k := Dirent(true, c, name), FirstUnused(n.ents, n.size / ENTRY, 0);
    if k < n.size / ENTRY then n.(ents := n.ents[k := e], size := n.size + ENTRY)
    else if n.size + ENTRY > n.cap then
      n.(ents := (n.ents + seq(32, i => g.ent(|n.ents| + i)))[n.cap / ENTRY := e], data := n.data + seq<Byte>(32 * ENTRY, i => g.byte(|n.data| + i)),
         cap := n.cap + 32 * ENTRY, size := n.size + ENTRY)
    else n.(ents := n.ents[n.size / ENTRY := e], size := n.size + ENTRY)
  }

  /** A full directory grows at the index its entries end at: allocd / 24 equals size / 24. */
  lemma GrowthIndex(n: Inode)
    requires DirOk(n) && n.size + ENTRY > n.cap
    ensures n.cap / ENTRY == n.size / ENTRY && n.size == n.cap - 16
  {
  }

  lemma WithEntryAppends(n: Inode, name: Name, c: nat, g: Garbage)
    requires DirOk(n)
    ensures DirOk(WithEntry(n, name, c, g)) && Entries(WithEntry(n, name, c, g)) == Entries(n) + [(name, c)]
  {
    var m := WithEntry(n, name, c, g);
    assert FirstUnused(n.ents, n.size / ENTRY, 0) == n.size / ENTRY;
    if n.size + ENTRY > n.cap { GrowthIndex(n); }
    assert m.size / ENTRY == n.size / ENTRY + 1;
    assert m.ents[n.size / ENTRY] == Dirent(true, c, name);
    assert forall i | 0 <= i < n.size / ENTRY :: m.ents[i] == n.ents[i];
  }

  lemma NewDirOk(mode: nat, g: Garbage)
    ensures DirOk(NewInode(mode, g)) && Entries(NewInode(mode, g)) == []
  {
  }

  ghost function Lookup(fs: Fs, d: nat, name: Name): nat
  {
    if Known(fs, d) && Shaped(At(fs, d)) then Find(Entries(At(fs, d)), name) else 0
  }

  /** The inode of the first used entry of that name, 0 when there is none. */
  ghost function FindUsed(es: seq<Dirent>, name: Name): nat
  {
    if es == [] then 0 else if es[0].used && es[0].name == name then es[0].inode else FindUsed(es[1..], name)
  }

  /** In a directory to which entries were only added, no entry is passed over. */
  lemma {:induction false} FindUsedAll(n: Inode, name: Name, i: nat)
    requires DirOk(n) && i <= n.size / ENTRY
    ensures n.size / ENTRY <= |n.ents| && FindUsed(n.ents[i..n.size / ENTRY], name) == Find(Entries(n)[i..], name)
    decreases n.size / ENTRY - i
  {
    var k := n.size / ENTRY;
    if i < k {
      FindUsedAll(n, name, i + 1);
      assert n.ents[i..k][1..] == n.ents[i + 1..k] && Entries(n)[i..][1..] == Entries(n)[i + 1..];
    }
  }

  /** Follow a path from inode d by ramfs_lookup. */
  ghost function Resolve(fs: Fs, d: nat, path: Path): nat
    decreases |path|
  {
    if path == [] then d
    else
      var c := Lookup(fs, d, path[0]);
      if c == 0 then 0 else Resolve(fs, c, path[1..])
  }

  lemma {:induction false} ResolveSnoc(fs: Fs, d: nat, path: Path, name: Name)
    requires Resolve(fs, d, path) != 0
    ensures Resolve(fs, d, path + [name]) == Lookup(fs, Resolve(fs, d, path), name)
    decreases |path|
  {
    if path == [] {
      assert ([] + [name])[1..] == [];
    } else {
      assert (path + [name])[1..] == path[1..] + [name];
      ResolveSnoc(fs, Lookup(fs, d, path[0]), path[1..], name);
    }
  }

  // ---------------------------------------------------------------- the tree it stands for

  datatype Node = Dir | File(mode: nat, data: Bytes)

  type Tree = map<Path, Node>

  function NodeOf(n: Inode): Node
    requires Shaped(n)
  {
    if IsDir(n.mode) then Dir else File(n.mode, n.data[..n.size])
  }

  const DIR_MODE := 0x41ED   // S_IFDIR | 0755, whatever mode the archive gives a directory

  /** The inode of a path is what the tree has there. */
  ghost predicate InodeOk(fs: Fs, c: nat, node: Node)
  {
    && Known(fs, c) && Shaped(At(fs, c)) && node == NodeOf(At(fs, c)) && (node.Dir? ==> DirOk(At(fs, c)) && At(fs, c).mode == DIR_MODE)
  }

  /** The parent lists the path's last name, and leads to its inode. */
  ghost predicate LinkOk(fs: Fs, ino: map<Path, nat>, tree: Tree, p: Path)
    requires p in ino && p in tree && p != []
  {
    var q := p[..|p| - 1];
    q in ino && q in tree && tree[q].Dir? && Lookup(fs, ino[q], p[|p| - 1]) == ino[p]
  }

  /** What a directory lists is in the tree, one step further down. */
  ghost predicate ListOk(fs: Fs, ino: map<Path, nat>, p: Path)
    requires p in ino && Known(fs, ino[p]) && Shaped(At(fs, ino[p]))
  {
    var es := Entries(At(fs, ino[p]));
    forall i | 0 <= i < |es| ::
      if p == [] && IsDot(es[i].0) then es[i].1 == ROOT else p + [es[i].0] in ino && ino[p + [es[i].0]] == es[i].1
  }

  ghost predicate PathOk(fs: Fs, ino: map<Path, nat>, tree: Tree, p: Path)
    requires p in ino
  {
    p in tree && InodeOk(fs, ino[p], tree[p]) && (p != [] ==> LinkOk(fs, ino, tree, p)) && (tree[p].Dir? ==> ListOk(fs, ino, p))
  }

  /** The filesystem holds the tree, with `ino` the inode of each path and no inode at two paths. */
  ghost predicate Represents(fs: Fs, ino: map<Path, nat>, tree: Tree)
  {
    && [] in ino && ino[[]] == ROOT && ino.Keys == tree.Keys && tree[[]].Dir? && Lookup(fs, ROOT, Dot()) == ROOT
    && (forall p {:trigger PathOk(fs, ino, tree, p)} | p in ino :: PathOk(fs, ino, tree, p))
    && (forall p, q | p in ino && q in ino && ino[p] == ino[q] :: p == q)
  }

  /** Every path of the tree resolves to its inode. */
  lemma {:induction false} ResolvesAll(fs: Fs, ino: map<Path, nat>, tree: Tree, p: Path)
    requires Represents(fs, ino, tree) && p in tree
    ensures Resolve(fs, ROOT, p) == ino[p] != 0 && Known(fs, ino[p]) && Shaped(At(fs, ino[p])) && NodeOf(At(fs, ino[p])) == tree[p]
    ensures tree[p].Dir? ==> At(fs, ino[p]).mode == DIR_MODE
    decreases |p|
  {
    assert PathOk(fs, ino, tree, p);
    if p != [] {
      var q := p[..|p| - 1];
      ResolvesAll(fs, ino, tree, q);
      ResolveSnoc(fs, ROOT, q, p[|p| - 1]);
      assert q + [p[|p| - 1]] == p;
    }
  }

  lemma {:induction false} FindIndex(es: seq<(Name, nat)>, name: Name) returns (i: nat)
    requires Find(es, name) != 0
    ensures i < |es| && es[i] == (name, Find(es, name))
    decreases |es|
  {
    if es[0].0 == name {
      i := 0;
    } else {
      i := FindIndex(es[1..], name);
      i := i + 1;
    }
  }

  /** A directory finds a name exactly when the tree has it. */
  lemma LookupExact(fs: Fs, ino: map<Path, nat>, tree: Tree, p: Path, name: Name)
    requires Represents(fs, ino, tree) && p in tree && tree[p].Dir? && !IsDot(name)
    ensures Lookup(fs, ino[p], name) == if p + [name] in tree then ino[p + [name]] else 0
    ensures p + [name] in tree ==> ino[p + [name]] != 0
  {
    assert PathOk(fs, ino, tree, p);
    var q := p + [name];
    if q in tree {
      assert PathOk(fs, ino, tree, q);
      assert q[..|q| - 1] == p;
    } else if Lookup(fs, ino[p], name) != 0 {
      var i := FindIndex(Entries(At(fs, ino[p])), name);
    }
  }

  /** fs' is fs with inode c new and the directory of p listing it under `name`. */
  ghost predicate LinkedIn(fs: Fs, fs': Fs, d: nat, name: Name, c: nat, node: Node)
  {
    && Known(fs, d) && DirOk(At(fs, d)) && !Known(fs, c) && c != 0
    && InodeOk(fs', c, node) && (node.Dir? ==> Entries(At(fs', c)) == [])
    && Known(fs', d) && DirOk(At(fs', d)) && At(fs', d).mode == At(fs, d).mode && Entries(At(fs', d)) == Entries(At(fs, d)) + [(name, c)]
    && forall x | Known(fs, x) && x != d :: Known(fs', x) && At(fs', x) == At(fs, x)
  }

  /** Linking a new inode where the tree has nothing adds just that to the tree. */
  lemma LinkRepresents(fs: Fs, fs': Fs, ino: map<Path, nat>, tree: Tree, p: Path, name: Name, c: nat, node: Node)
    requires Represents(fs, ino, tree) && p in tree && tree[p].Dir? && p + [name] !in tree && !IsDot(name)
    requires LinkedIn(fs, fs', ino[p], name, c, node)
    ensures Represents(fs', ino[p + [name] := c], tree[p + [name] := node])
  {
    var q := p + [name];
    var ino', tree' := ino[q := c], tree[q := node];
    forall r | r in ino
      ensures Known(fs, ino[r]) && ino[r] != c
    {
      assert PathOk(fs, ino, tree, r);
    }
    assert PathOk(fs, ino, tree, []);
    FindsAfter(fs, fs', ino, tree, p, name, c, node);
    forall r | r in ino'
      ensures PathOk(fs', ino', tree', r)
    {
      LinkPath(fs, fs', ino, tree, p, name, c, node, r);
    }
  }

  lemma LinkPath(fs: Fs, fs': Fs, ino: map<Path, nat>, tree: Tree, p: Path, name: Name, c: nat, node: Node, r: Path)
    requires Represents(fs, ino, tree) && p in tree && tree[p].Dir? && p + [name] !in tree && !IsDot(name) && (r in tree || r == p + [name])
    requires LinkedIn(fs, fs', ino[p], name, c, node)
    ensures PathOk(fs', ino[p + [name] := c], tree[p + [name] := node], r)
  {
    assert PathOk(fs, ino, tree, p);
    FindsAfter(fs, fs', ino, tree, p, name, c, node);
    if r == p + [name] {
      assert r[..|r| - 1] == p;
      assert Lookup(fs', ino[p], name) == c;
    } else {
      LinkOldPath(fs, fs', ino, tree, p, name, c, node, r);
    }
  }

  lemma LinkOldPath(fs: Fs, fs': Fs, ino: map<Path, nat>, tree: Tree, p: Path, name: Name, c: nat, node: Node, r: Path)
    requires Represents(fs, ino, tree) && p in tree && tree[p].Dir? && p + [name] !in tree && !IsDot(name) && r in tree
    requires LinkedIn(fs, fs', ino[p], name, c, node)
    requires forall n | Lookup(fs, ino[p], n) != 0 :: Lookup(fs', ino[p], n) == Lookup(fs, ino[p], n)
    ensures PathOk(fs', ino[p + [name] := c], tree[p + [name] := node], r)
  {
    hide Lookup;
    assert PathOk(fs, ino, tree, p) && PathOk(fs, ino, tree, r);
    assert ino[r] == ino[p] ==> r == p;
    assert r != [] ==> LinkOk(fs', ino[p + [name] := c], tree[p + [name] := node], r) by {
      hide ListOk;
      if r != [] { OldLink(fs, fs', ino, tree, p, name, c, node, r); }
    }
  }

  lemma OldLink(fs: Fs, fs': Fs, ino: map<Path, nat>, tree: Tree, p: Path, name: Name, c: nat, node: Node, r: Path)
    requires Represents(fs, ino, tree) && p in tree && tree[p].Dir? && p + [name] !in tree && r in tree && r != []
    requires LinkedIn(fs, fs', ino[p], name, c, node)
    requires forall n | Lookup(fs, ino[p], n) != 0 :: Lookup(fs', ino[p], n) == Lookup(fs, ino[p], n)
    ensures LinkOk(fs', ino[p + [name] := c], tree[p + [name] := node], r)
  {
    hide ListOk, NodeOf, DirOk;
    var q := r[..|r| - 1];
    assert PathOk(fs, ino, tree, r) && PathOk(fs, ino, tree, q);
    assert q + [r[|r| - 1]] == r;
  }

  /** Every name found before is found still, and the new one is. */
  lemma FindsAfter(fs: Fs, fs': Fs, ino: map<Path, nat>, tree: Tree, p: Path, name: Name, c: nat, node: Node)
    requires Represents(fs, ino, tree) && p in tree && tree[p].Dir? && p + [name] !in tree && !IsDot(name)
    requires LinkedIn(fs, fs', ino[p], name, c, node)
    ensures Lookup(fs', ino[p], name) == c
    ensures forall n | Lookup(fs, ino[p], n) != 0 :: Lookup(fs', ino[p], n) == Lookup(fs, ino[p], n)
  {
    var es := Entries(At(fs, ino[p]));
    assert PathOk(fs, ino, tree, p);
    forall i | 0 <= i < |es|
      ensures es[i].1 != 0
    {
      if !(p == [] && IsDot(es[i].0)) { assert PathOk(fs, ino, tree, p + [es[i].0]); }
    }
    forall n
      ensures Find(es + [(name, c)], n) == if Find(es, n) != 0 then Find(es, n) else if n == name then c else 0
    {
      FindAppend(es, (name, c), n);
    }
    LookupExact(fs, ino, tree, p, name);
  }

  // ---------------------------------------------------------------- mounting

  /** ramfs_mount: 1024 inode slots, and a root that lists itself as "." and "..". */
  function Mounted(g: Garbage): Fs
  {
    var root := WithEntry(NewInode(DIR_MODE, g), Dot(), ROOT, g);
    var free := Inode(false, 0, 0, 0, [], []);
    if Shaped(root) then Fs([WithEntry(root, DotDot(), ROOT, g)] + seq(1023, _ => free), 0) else Fs([], 0)
  }

  lemma MountedRepresents(g: Garbage)
    ensures Represents(Mounted(g), map[[] := ROOT], map[[] := Dir])
  {
    var r0 := NewInode(DIR_MODE, g);
    NewDirOk(DIR_MODE, g);
    WithEntryAppends(r0, Dot(), ROOT, g);
    var r1 := WithEntry(r0, Dot(), ROOT, g);
    WithEntryAppends(r1, DotDot(), ROOT, g);
    var fs := Mounted(g);
    assert At(fs, ROOT) == WithEntry(r1, DotDot(), ROOT, g);
    assert Entries(At(fs, ROOT)) == [(Dot(), ROOT), (DotDot(), ROOT)];
    assert PathOk(fs, map[[] := ROOT], map[[] := Dir], []);
  }

  // ---------------------------------------------------------------- adding archive members to a tree

  predicate IsReg(mode: nat) { mode / 4096 % 16 == 8 }

  predicate Slash(b: Byte) { b == 47 }

  /** The bytes up to the first slash. */
  function Word(s: Bytes): (w: Bytes)
    ensures |w| <= |s| && (s != [] && !Slash(s[0]) ==> w != [])
  {
    if s == [] || Slash(s[0]) then [] else [s[0]] + Word(s[1..])
  }

  /** The components of a name; the last of `left` takes all the rest. */
  function Components(s: Bytes, left: nat): Path
    decreases |s|
  {
    if s == [] || left == 0 then []
    else if Slash(s[0]) then Components(s[1..], left)
    else if left == 1 then [s]
    else [Word(s)] + Components(s[|Word(s)|..], left - 1)
  }

  function Join(p: Path): Bytes
  {
    if p == [] then [] else if |p| == 1 then p[0] else p[0] + [47] + Join(p[1..])
  }

  predicate PlainName(n: Name) { n != [] && 0 !in n && 47 !in n && !IsDot(n) }

  lemma {:induction false} WordIs(n: Name, rest: Bytes)
    requires 47 !in n
    ensures Word(n + [47] + rest) == n && Word(n) == n
  {
    if n != [] {
      assert (n + [47] + rest)[1..] == n[1..] + [47] + rest;
      WordIs(n[1..], rest);
    }
  }

  lemma SplitStep(n: Name, rest: Bytes, left: nat)
    requires PlainName(n) && left >= 2
    ensures Components(n + [47] + rest, left) == [n] + Components(rest, left - 1)
  {
    var s := n + [47] + rest;
    WordIs(n, rest);
    assert s[0] == n[0] && n[0] in n;
    assert s[|n|..] == [47] + rest;
    assert ([47] + rest)[1..] == rest;
  }

  lemma SplitLast(n: Name, left: nat)
    requires PlainName(n) && left >= 1
    ensures Components(n, left) == [n]
  {
    WordIs(n, []);
    assert n[0] in n;
    assert n[|n|..] == [];
  }

  /** Splitting a joined path gives the path back, up to the 64 components there is room for. */
  lemma {:induction false} SplitJoin(p: Path, left: nat)
    requires 1 <= |p| <= left && forall i | 0 <= i < |p| :: PlainName(p[i])
    ensures Components(Join(p), left) == p
    decreases |p|
  {
    hide Components, PlainName;
    if |p| == 1 {
      SplitLast(p[0], left);
    } else {
      SplitStep(p[0], Join(p[1..]), left);
      SplitJoin(p[1..], left - 1);
    }
  }

  /** A new inode linked under a free name: the case of mkino and mklink in turn. */
  lemma MakeLinked(fs: Fs, d: nat, name: Name, n: Inode, c: nat, mid: Fs, node: Node, g: Garbage)
    requires Known(fs, d) && DirOk(At(fs, d)) && !Known(fs, c) && c != 0 && c != d
    requires Known(mid, c) && Known(mid, d) && At(mid, c) == n && Shaped(n) && NodeOf(n) == node && (node.Dir? ==> DirOk(n) && Entries(n) == [] && n.mode == DIR_MODE)
    requires forall x | Known(fs, x) :: Known(mid, x) && At(mid, x) == At(fs, x)
    ensures LinkedIn(fs, mid.(table := mid.table[d - 1 := WithEntry(At(fs, d), name, c, g)]), d, name, c, node)
  {
    WithEntryAppends(At(fs, d), name, c, g);
    var fs' := mid.(table := mid.table[d - 1 := WithEntry(At(fs, d), name, c, g)]);
    assert At(fs', d) == WithEntry(At(fs, d), name, c, g);
    assert At(fs', c) == n;
  }
}
