/**
 The memory filesystem as the kernel changes it (src/drivers/storage/fs/ramfs.c), and the import of the
 initial archive into it (src/kern/initramfs.c).
 */
module Ramfs {

  import opened Basics
  import opened Cpio
  import opened RamfsModel
  import opened Unpacking

  // ---------------------------------------------------------------- splitting a name

  lemma WordEnds(s: Bytes, p: nat, q: nat)
    requires p <= q <= |s| && (forall i | p <= i < q :: !Slash(s[i])) && (q == |s| || Slash(s[q]))
    ensures Word(s[p..]) == s[p..q]
    decreases q - p
  {
    if p < q {
      WordEnds(s, p + 1, q);
      assert s[p..][1..] == s[p + 1..];
    }
  }

  lemma ComponentsAt(s: Bytes, p: nat, left: nat)
    requires p < |s| && left > 0
    ensures Slash(s[p]) ==> Components(s[p..], left) == Components(s[p + 1..], left)
    ensures !Slash(s[p]) && left == 1 ==> Components(s[p..], left) == [s[p..]]
    ensures !Slash(s[p]) && left > 1 ==> Components(s[p..], left) == [Word(s[p..])] + Components(s[p + |Word(s[p..])|..], left - 1)
  {
    assert s[p..][1..] == s[p + 1..];
    assert s[p..][|Word(s[p..])|..] == s[p + |Word(s[p..])|..];
  }

  /** The component loop of initramfs_import. */
  method SplitPath(s: Bytes) returns (comps: Path)
    ensures comps == Components(s, DEPTH)
  {
    hide Components, Word;
    comps := [];
    var p := 0;
    assert s[0..] == s;
    while p < |s|
      invariant 0 <= p <= |s| && |comps| < DEPTH
      invariant Components(s, DEPTH) == comps + Components(s[p..], DEPTH - |comps|)
      decreases |s| - p
    {
      if Slash(s[p]) {
        ComponentsAt(s, p, DEPTH - |comps|);
        p := p + 1;
      } else {
        ComponentsAt(s, p, DEPTH - |comps|);
        if |comps| + 1 >= DEPTH {
          comps := comps + [s[p..]];
          return;
        }
        var q := p;
        while q < |s| && !Slash(s[q])
          invariant p <= q <= |s| && forall i | p <= i < q :: !Slash(s[i])
        {
          q := q + 1;
        }
        WordEnds(s, p, q);
        comps := comps + [s[p..q]];
        p := q;
      }
    }
    NoComponents(s, p, DEPTH - |comps|);
  }

  lemma NoComponents(s: Bytes, p: nat, left: nat)
    requires p == |s|
    ensures Components(s[p..], left) == []
  {
  }

  datatype Found = Bad | Last | Member

  /** What initramfs_import reads at an offset: a member and where the next one begins, the trailer, or
      something that is neither. */
  method ReadMember(b: Bytes, off: nat) returns (found: Found, r: Record, next: nat)
    requires off + HEADER <= |b|
    ensures found.Bad? ==> Parse(b[off..]) == Parsed([], false)
    ensures found.Last? ==> Parse(b[off..]) == Parsed([], true)
    ensures found.Member? ==> off < next <= |b| && Parse(b[off..]) == Parsed([r] + Parse(b[next..]).records, Parse(b[next..]).ok)
  {
    hide CString, Number, Magic, Trailer, Align4, Parse;
    r, next := Record(0, [], []), off;
    HeaderAt(b, off);
    if b[off..off + 6] != Magic() {
      ParseBad(b[off..]);
      return Bad, r, next;
    }
    var mode := CpioHex(b[off + 14..off + 22]);
    var filesize := CpioHex(b[off + 54..off + 62]);
    var namesize := CpioHex(b[off + 94..off + 102]);
    var dataoff := Align4(HEADER + namesize);
    var len := Align4(dataoff + filesize);
    if off + len > |b| {
      ParseBad(b[off..]);
      return Bad, r, next;
    }
    var name := CString(b[off + HEADER..]);
    ParseNext(b[off..]);
    if name == Trailer() { return Last, r, next; }
    Slices(b, off, dataoff, filesize, len);
    r := Record(mode, name, b[off + dataoff..off + dataoff + filesize]);
    next := off + len;
    found := Member;
  }

  lemma RegMode(mode: nat)
    ensures IsReg(mode) ==> !IsDir(mode % 65536)
  {
  }

  lemma FreshFile(mode: nat, g: Garbage)
    ensures var n := NewInode(mode, g); n.used && n.mode == mode && n.size == 0 && Shaped(n)
  {
  }

  lemma FileSize(n: Inode)
    requires Shaped(n)
    ensures n.size <= |n.data|
  {
  }

  lemma FromZero(d: Bytes, n: nat)
    requires n <= |d|
    ensures d[0..0 + n] == d[..n]
  {
  }

  lemma SliceOfFront(d: Bytes, size: nat, off: nat, n: nat)
    requires off + n <= size <= |d|
    ensures d[..size][off..off + n] == d[off..off + n]
  {
    var a, b := d[..size][off..off + n], d[off..off + n];
    assert |a| == |b| == n;
    assert forall k | 0 <= k < n :: a[k] == d[..size][off + k] == d[off + k] == b[k];
  }

  lemma Slices(b: Bytes, off: nat, at: nat, n: nat, len: nat)
    requires at + n <= len && off + len <= |b|
    ensures b[off + at..off + at + n] == b[off..][at..at + n] && b[off..][len..] == b[off + len..]
  {
  }

  lemma ParseStart(b: Bytes)
    ensures b[0..] == b && Parse(b).records[0..] == Parse(b).records
  {
  }

  lemma ParseEnd(b: Bytes, off: nat)
    requires off <= |b| < off + HEADER
    ensures Parse(b[off..]) == Parsed([], true)
  {
  }

  lemma DirAt(fs: Fs, ino: map<Path, nat>, tree: Tree, p: Path)
    requires Represents(fs, ino, tree) && p in tree && tree[p].Dir?
    ensures p in ino && Known(fs, ino[p]) && DirOk(At(fs, ino[p])) && Lookup(fs, ROOT, Dot()) == ROOT && [] in ino && ino[[]] == ROOT
    ensures ino.Keys == tree.Keys
  {
    assert PathOk(fs, ino, tree, p);
  }

  lemma RootDir(fs: Fs, ino: map<Path, nat>, tree: Tree)
    requires Represents(fs, ino, tree)
    ensures [] in tree && tree[[]].Dir? && [] in ino && ino[[]] == ROOT
  {
  }

  class RamDisk {
    var table: seq<Inode>
    var hint: nat
    const junk: Garbage
    ghost var ino: map<Path, nat>
    ghost var tree: Tree

    ghost function Now(): Fs
      reads `table, `hint
    {
      Fs(table, hint)
    }

    ghost predicate Valid()
      reads this
    {
      Represents(Now(), ino, tree)
    }

    /** ramfs_mount */
    constructor (g: Garbage)
      ensures Valid() && tree == map[[] := Dir] && Now() == Mounted(g) && junk == g
    {
      hide WithEntry, NewInode, Represents;
      junk, table, hint := g, Mounted(g).table, Mounted(g).hint;
      ino, tree := map[[] := ROOT], map[[] := Dir];
      MountedRepresents(g);
    }

    /** findfreeino */
    method FindFreeIno() returns (c: nat)
      modifies `table, `hint
      ensures Now() == Alloc(old(Now()), junk).fs && c == Alloc(old(Now()), junk).ino
    {
      ghost var old_ := Now();
      if hint >= |table| { hint := 0; }
      for i := hint to |table|
        invariant forall j | hint <= j < i :: table[j].used
      {
        if !table[i].used {
          assert Unused(table, hint, |table|) == i;
          hint := i + 1;
          return i + 1;
        }
      }
      assert Unused(table, hint, |table|) == |table|;
      for i := 0 to hint
        invariant forall j | 0 <= j < i :: table[j].used
      {
        if !table[i].used {
          assert Unused(table, 0, hint) == i;
          hint := i + 1;
          return i + 1;
        }
      }
      assert Unused(table, 0, hint) == hint;
      c := |table| + 1;
      hint := c;
      table := table + FreshSlots(junk, |table|);
    }

    /** ramfs_mkino */
    method MkIno(mode: nat) returns (c: nat)
      modifies `table, `hint
      ensures Now() == Make(old(Now()), mode, junk).fs && c == Make(old(Now()), mode, junk).ino
    {
      hide Alloc, NewInode;
      c := FindFreeIno();
      table := table[c - 1 := NewInode(mode, junk)];
    }

    /** ramfs_lookup, 0 for no such entry */
    method LookupName(d: nat, name: Name) returns (c: nat)
      requires Known(Now(), d) ==> Shaped(At(Now(), d))
      ensures c == if Known(Now(), d) then FindUsed(At(Now(), d).ents[..At(Now(), d).size / ENTRY], name) else 0
      ensures Known(Now(), d) && DirOk(At(Now(), d)) ==> c == Lookup(Now(), d, name)
    {
      if d == 0 || d > |table| || !table[d - 1].used { return 0; }
      var n := table[d - 1];
      ghost var es := n.ents[..n.size / ENTRY];
      if DirOk(n) { FindUsedAll(n, name, 0); }
      assert es[0..] == es && (DirOk(n) ==> Entries(n)[0..] == Entries(n));
      for i := 0 to n.size / ENTRY
        invariant FindUsed(es, name) == FindUsed(es[i..], name)
      {
        assert es[i..][1..] == es[i + 1..];
        if n.ents[i].used && |n.ents[i].name| == |name| && n.ents[i].name == name { return n.ents[i].inode; }
      }
      c := 0;
    }

    /** ramfs_mklink */
    method MkLink(c: nat, d: nat, name: Name) returns (ok: bool)
      requires Known(Now(), d) ==> Shaped(At(Now(), d))
      modifies `table
      ensures ok <==> Known(old(Now()), d)
      ensures ok ==> table == old(table)[d - 1 := WithEntry(At(old(Now()), d), name, c, junk)]
      ensures !ok ==> table == old(table)
    {
      if d == 0 || d > |table| || !table[d - 1].used { return false; }
      var n, e := table[d - 1], Dirent(true, c, name);
      var k := 0;
      while k < n.size / ENTRY && n.ents[k].used
        invariant 0 <= k <= n.size / ENTRY && forall j | 0 <= j < k :: n.ents[j].used
      {
        k := k + 1;
      }
      assert k == FirstUnused(n.ents, n.size / ENTRY, 0);
      if k == n.size / ENTRY {
        if n.size + ENTRY > n.cap {
          k := n.cap / ENTRY;
          n := n.(ents := n.ents + seq(32, i => junk.ent(|n.ents| + i)), data := n.data + seq<Byte>(32 * ENTRY, i => junk.byte(|n.data| + i)), cap := n.cap + 32 * ENTRY);
        } else {
          k := n.size / ENTRY;
        }
      }
      n := n.(ents := n.ents[k := e], size := n.size + ENTRY);
      table := table[d - 1 := n];
      ok := true;
    }

    /** ramfs_write: the bytes are stored, the rest of the file is kept. */
    method Write(c: nat, off: nat, buf: Bytes) returns (n: int)
      requires Known(Now(), c) ==> Shaped(At(Now(), c))
      modifies `table
      ensures n == if Known(old(Now()), c) then |buf| else -1
      ensures n == -1 ==> table == old(table)
      ensures n != -1 ==>
                && |table| == |old(table)| && (forall i | 0 <= i < |table| && i != c - 1 :: table[i] == old(table)[i])
                && var a, b := old(table)[c - 1], table[c - 1];
                && b.used && Shaped(b) && b.mode == a.mode
                && b.size == (if off + |buf| > a.size then off + |buf| else a.size)
                && b.data[off..off + |buf|] == buf
                && forall i | 0 <= i < a.size && !(off <= i < off + |buf|) :: b.data[i] == a.data[i]
    {
      if c == 0 || c > |table| || !table[c - 1].used { return -1; }
      var a := table[c - 1];
      var cap := a.cap;
      if cap < off + |buf| {
        if cap == 0 { cap := FIRST; }
        while cap < off + |buf|
          invariant cap > 0 && cap >= a.cap
          decreases off + |buf| - cap
        {
          cap := cap * 2;
        }
      }
      var data := a.data + seq<Byte>(cap - |a.data|, i => junk.byte(|a.data| + i));
      var ents := a.ents + seq(cap / ENTRY - |a.ents|, i => junk.ent(|a.ents| + i));
      data := data[..off] + buf + data[off + |buf|..];
      var size := a.size;
      if off + |buf| > size { size := off + |buf|; }
      table := table[c - 1 := a.(size := size, cap := cap, data := data, ents := ents)];
      n := |buf|;
    }

    /** ramfs_read: up to nb bytes from off. */
    method Read(c: nat, off: nat, nb: nat) returns (ok: bool, buf: Bytes)
      requires Known(Now(), c) ==> Shaped(At(Now(), c))
      ensures ok <==> Known(Now(), c) && off <= At(Now(), c).size
      ensures ok ==> var file := At(Now(), c).data[..At(Now(), c).size]; buf == file[off..if off + nb <= |file| then off + nb else |file|]
    {
      buf := [];
      if c == 0 || c > |table| || !table[c - 1].used { return false, []; }
      var a, n := table[c - 1], nb;
      if a.size < off { return false, []; }
      if a.size < off + nb { n := a.size - off; }
      SliceOfFront(a.data, a.size, off, n);
      buf := a.data[off..off + n];
      ok := true;
    }

    /** initramfs_mkdir_one for the directory at path p. */
    method MkdirOne(d: nat, name: Name, ghost p: Path) returns (c: nat)
      requires Valid() && p in tree && tree[p].Dir? && d == ino[p] && (IsDot(name) ==> p == [] && name == Dot())
      modifies this
      ensures Valid()
      ensures IsDot(name) ==> c == ROOT && tree == old(tree) && Now() == old(Now()) && ino == old(ino)
      ensures !IsDot(name) ==>
                && p + [name] in ino && c == ino[p + [name]] && tree == (if p + [name] in old(tree) then old(tree) else old(tree)[p + [name] := Dir])
                && forall q | q in old(ino) :: q in ino && ino[q] == old(ino)[q]
    {
      hide Represents, Make, WithEntry, Lookup, LinkedIn;
      ghost var fs := Now();
      DirAt(fs, ino, tree, p);
      if !IsDot(name) { LookupExact(fs, ino, tree, p, name); }
      c := LookupName(d, name);
      if c != 0 { return; }
      c := MkIno(DIR_MODE);
      ghost var mid := Now();
      NewDirOk(DIR_MODE, junk);
      var ok := MkLink(c, d, name);
      MakeLinked(fs, d, name, NewInode(DIR_MODE, junk), c, mid, Dir, junk);
      LinkRepresents(fs, Now(), ino, tree, p, name, c, Dir);
      ino, tree := ino[p + [name] := c], tree[p + [name] := Dir];
    }

    /** The parents of a member: directories down to the last but one component. */
    method MkParents(comps: Path) returns (d: nat)
      requires Valid() && comps != [] && forall i | 0 <= i < |comps| - 1 :: !IsDot(comps[i])
      requires forall k | 0 <= k < |comps| && comps[..k] in tree :: tree[comps[..k]].Dir?
      modifies this
      ensures Valid() && tree == WithDirs(old(tree), Parent(comps))
      ensures Parent(comps) in tree && tree[Parent(comps)].Dir? && Parent(comps) in ino && d == ino[Parent(comps)]
    {
      hide Represents, IsDot;
      d := ROOT;
      RootDir(Now(), ino, tree);
      assert comps[..0] == [];
      for i := 0 to |comps| - 1
        invariant Valid() && tree == WithDirs(old(tree), comps[..i])
        invariant comps[..i] in tree && tree[comps[..i]].Dir? && comps[..i] in ino && d == ino[comps[..i]]
      {
        assert Parent(comps[..i + 1]) == comps[..i] && comps[..i] + [comps[i]] == comps[..i + 1];
        assert comps[..i + 1] in tree ==> tree[comps[..i + 1]].Dir?;
        d := MkdirOne(d, comps[i], comps[..i]);
      }
    }

    /** An inode holding the bytes of a regular file. */
    method NewFile(mode: nat, data: Bytes) returns (c: nat)
      requires IsReg(mode)
      modifies `table, `hint
      ensures c != 0 && !Known(old(Now()), c) && Known(Now(), c) && Shaped(At(Now(), c))
      ensures NodeOf(At(Now(), c)) == File(mode % 65536, data)
      ensures forall x | Known(old(Now()), x) :: Known(Now(), x) && At(Now(), x) == At(old(Now()), x)
    {
      hide Make, Alloc, IsDir, IsReg, NewInode, Shaped;
      RegMode(mode);
      FreshFile(mode % 65536, junk);
      c := MkIno(mode % 65536);
      if |data| > 0 { var n := Write(c, 0, data); }
      FileSize(At(Now(), c));
      FromZero(At(Now(), c).data, |data|);
    }

    /** A regular file at path p + [leaf], where there is nothing. */
    method MkFile(d: nat, leaf: Name, mode: nat, data: Bytes, ghost p: Path)
      requires Valid() && p in tree && tree[p].Dir? && p in ino && d == ino[p] && p + [leaf] !in tree && !IsDot(leaf) && IsReg(mode)
      modifies this
      ensures Valid() && tree == old(tree)[p + [leaf] := File(mode % 65536, data)]
    {
      hide Represents, WithEntry, Lookup, LinkedIn, DirOk, NodeOf, Shaped;
      ghost var fs, node := Now(), File(mode % 65536, data);
      DirAt(fs, ino, tree, p);
      var c := NewFile(mode, data);
      ghost var mid := Now();
      var ok := MkLink(c, d, leaf);
      MakeLinked(fs, d, leaf, At(mid, c), c, mid, node, junk);
      LinkRepresents(fs, Now(), ino, tree, p, leaf, c, node);
      ino, tree := ino[p + [leaf] := c], tree[p + [leaf] := node];
    }

    /** One turn of initramfs_import for a directory or a regular file. */
    method ImportMember(mode: nat, name: Bytes, data: Bytes)
      requires Valid() && Fits(tree, Record(mode, name, data))
      modifies this
      ensures Valid() && tree == WithMember(old(tree), Record(mode, name, data))
    {
      hide Represents, Components, Fits, WithMember, WithDirs, IsDot, IsDir, IsReg;
      var rest := if name != [] && Slash(name[0]) then name[1..] else name;
      var comps := SplitPath(rest);
      ghost var r := Record(mode, name, data);
      if comps == [] {
        NoMember(tree, r);
        return;
      }
      RootDir(Now(), ino, tree);
      FitsSteps(tree, r);
      MemberSteps(tree, r);
      var leaf := comps[|comps| - 1];
      assert Parent(comps) + [leaf] == comps;
      var d := MkParents(comps);
      if IsDir(mode) {
        var c := MkdirOne(d, leaf, Parent(comps));
      } else {
        MkFile(d, leaf, mode, data, Parent(comps));
      }
    }

    /** initramfs_import: member after member until the trailer or the end; false on a bad magic number or
        a truncated member, with the members before it imported. */
    method Import(b: Bytes) returns (ok: bool)
      requires Valid() && AllFit(tree, Parse(b).records)
      modifies this
      ensures ok == Parse(b).ok && Valid() && tree == WithMembers(old(tree), Parse(b).records)
    {
      hide Represents, Fits, WithMember, WithMembers, Parse;
      var off := 0;
      ghost var all, n := Parse(b), 0;
      ParseStart(b);
      NoMembers(tree, all.records);
      while off + HEADER <= |b|
        invariant 0 <= off <= |b| && 0 <= n <= |all.records|
        invariant Parse(b[off..]) == Parsed(all.records[n..], all.ok)
        invariant Valid() && tree == WithMembers(old(tree), all.records[..n])
        decreases |b| - off
      {
        var found, r, next := ReadMember(b, off);
        if found.Bad? {
          assert all.records[..n] == all.records;
          return false;
        }
        if found.Last? { break; }
        assert all.records[n] == r && all.records[n..][1..] == all.records[n + 1..];
        WithMembersNext(old(tree), all.records, n);
        ImportMember(r.mode, r.name, r.data);
        off, n := next, n + 1;
      }
      if off + HEADER > |b| { ParseEnd(b, off); }
      assert all.records[..n] == all.records;
      ok := true;
    }

    /** Look a path up component by component and read the whole of what it leads to. */
    method ReadPath(p: Path) returns (data: Bytes)
      requires Valid() && p in tree
      ensures tree[p].File? ==> data == tree[p].data
    {
      hide Represents, DirOk, Lookup;
      var c := ROOT;
      RootDir(Now(), ino, tree);
      assert p[..0] == [];
      for i := 0 to |p|
        invariant p[..i] in ino && c == ino[p[..i]]
      {
        OnPath(Now(), ino, tree, p, i);
        c := LookupName(c, p[i]);
      }
      assert p[..|p|] == p;
      ResolvesAll(Now(), ino, tree, p);
      var ok;
      ok, data := Read(c, 0, table[c - 1].size);
    }

    method ReadAll(xs: seq<Item>) returns (files: seq<Bytes>)
      requires Valid() && Built(tree, xs, |xs|)
      ensures |files| == |xs| && forall i | 0 <= i < |xs| && !IsDir(xs[i].mode) :: files[i] == xs[i].data
    {
      hide Represents;
      files := [];
      for i := 0 to |xs|
        invariant |files| == i && forall j | 0 <= j < i && !IsDir(xs[j].mode) :: files[j] == xs[j].data
      {
        assert Has(tree, xs[i]);
        var data := ReadPath(xs[i].path);
        files := files + [data];
      }
    }

    /** Mounting an archive packed from a directory tree: each file's path leads to an inode that holds its
        mode and bytes, each directory's path to a directory.  Reading the paths gives the files back. */
    method ImportPacked(xs: seq<Item>) returns (files: seq<Bytes>)
      requires Valid() && tree == map[[] := Dir] && Listing(xs)
      modifies this
      ensures Valid() && Built(tree, xs, |xs|)
      ensures |files| == |xs| && forall i | 0 <= i < |xs| && !IsDir(xs[i].mode) :: files[i] == xs[i].data
      ensures forall i | 0 <= i < |xs| ::
                var c := Resolve(Now(), ROOT, xs[i].path);
                Known(Now(), c) && Shaped(At(Now(), c)) && NodeOf(At(Now(), c)) == if IsDir(xs[i].mode) then Dir else File(xs[i].mode, xs[i].data)
      ensures forall i | 0 <= i < |xs| && IsDir(xs[i].mode) :: At(Now(), Resolve(Now(), ROOT, xs[i].path)).mode == DIR_MODE
    {
      hide Represents, Parse, Pack, AllFit, WithMembers, Resolve, Listing, Members;
      PackUnpack(xs);
      var ok := Import(Pack(0, Members(xs)));
      forall i | 0 <= i < |xs|
        ensures
          var c := Resolve(Now(), ROOT, xs[i].path);
          Known(Now(), c) && Shaped(At(Now(), c)) && NodeOf(At(Now(), c)) == if IsDir(xs[i].mode) then Dir else File(xs[i].mode, xs[i].data)
        ensures IsDir(xs[i].mode) ==> At(Now(), Resolve(Now(), ROOT, xs[i].path)).mode == DIR_MODE
      {
        assert Has(tree, xs[i]);
        ResolvesAll(Now(), ino, tree, xs[i].path);
      }
      files := ReadAll(xs);
    }
  }

  /** Every step of a path of the tree leads from a directory to an entry of it. */
  lemma OnPath(fs: Fs, ino: map<Path, nat>, tree: Tree, p: Path, i: nat)
    requires Represents(fs, ino, tree) && p in tree && i < |p|
    ensures p[..i] in ino && p[..i + 1] in ino
    ensures Known(fs, ino[p[..i]]) && DirOk(At(fs, ino[p[..i]])) && Shaped(At(fs, ino[p[..i]]))
    ensures Lookup(fs, ino[p[..i]], p[i]) == ino[p[..i + 1]]
    decreases |p| - i
  {
    assert PathOk(fs, ino, tree, p);
    if i < |p| - 1 {
      assert p[..|p| - 1][..i] == p[..i] && p[..|p| - 1][..i + 1] == p[..i + 1];
      OnPath(fs, ino, tree, p[..|p| - 1], i);
    } else {
      assert p[..i + 1] == p;
      assert PathOk(fs, ino, tree, p[..i]);
    }
  }

  /** The header fields of the member at off, seen from the whole archive. */
  lemma HeaderAt(b: Bytes, off: nat)
    requires off + HEADER <= |b|
    ensures
      var s := b[off..];
      && b[off..off + 6] == s[..6] && b[off + 14..off + 22] == s[14..22] && b[off + 54..off + 62] == s[54..62]
      && b[off + 94..off + 102] == s[94..102] && b[off + HEADER..] == s[HEADER..]
  {
  }

  lemma NoMembers(tree: Tree, rs: seq<Record>)
    ensures WithMembers(tree, rs[..0]) == tree
  {
    assert rs[..0] == [];
  }

  lemma NoMember(tree: Tree, r: Record)
    requires PathOf(r.name) == []
    ensures WithMember(tree, r) == tree
  {
  }
}
