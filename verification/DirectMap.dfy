/**
 vmm_map_huge_page and the direct map (HHDM) that vmm_init builds (src/kern/mem/vmm.c).
 */
module DirectMap {
  import opened Basics
  import opened Layout
  import opened PageTables
  import opened PageMapping

  const HHDM_FIRST := 256   // PML4_IDX(HHDM_START)
  const HHDM_LAST := 272    // PML4_IDX(HHDM_END)

  /** The kernel's virtual address of a physical address. */
  function Hhdm(phys: nat): nat { HHDM_START + phys }

  /** Do two paths fall in the same 2 MiB page? */
  predicate SameHuge(p: Path, q: Path) { p.i4 == q.i4 && p.i3 == q.i3 && p.i2 == q.i2 }

  /** No level-1 table hangs below the directory entry of p. */
  ghost predicate NoTable(m: Mem, root: Frame, p: Path) { !LastTable(m, root, p).0 }

  /** Write a 2 MiB leaf into entry i of the directory pd. */
  lemma WriteHugeInv(m: Mem, pd: Frame, i: nat, e: Pte)
    requires Inv(m) && pd in m.up && i < ENTRIES && Level(m.up[pd]) == 2 && ZoneOf(m.up[pd], pd).High?
    requires Present(e) && Huge(e) && (Entry(m, pd, i) == ZERO || Huge(Entry(m, pd, i)))
    ensures Inv(WriteEntry(m, pd, i, e))
  {
    var m' := WriteEntry(m, pd, i, e);
    forall h, j: nat | h in m'.up && j < ENTRIES
      ensures EntryOk(m', h, j)
    {
      assert EntryOk(m, h, j);
    }
    forall h | h in m'.up
      ensures HeldUp(m', h)
    {
      assert HeldUp(m, h);
    }
  }

  /** The directory the walk of p reaches: present entries at the two upper levels. */
  ghost predicate ReachesDir(m: Mem, root: Frame, p: Path, pd: Frame)
  {
    var e4 := Entry(m, root, p.i4);
    var e3 := Entry(m, e4.frame, p.i3);
    Present(e4) && Present(e3) && e3.frame == pd
  }

  lemma WriteHugeWalk(m: Mem, root: Frame, p: Path, pd: Frame, e: Pte, q: Path)
    requires Inv(m) && IsRoot(m, root) && ValidPath(p) && ValidPath(q) && ReachesDir(m, root, p, pd)
    requires Present(e) && Huge(e)
    ensures pd in m.tables && |m.tables[pd]| == ENTRIES && pd in m.up && Level(m.up[pd]) == 2
    ensures
      var m' := WriteEntry(m, pd, p.i2, e);
      && Walk(m', root, q) == (if SameHuge(p, q) then HugePage(e) else Walk(m, root, q))
      && LastTable(m', root, q) == (if SameHuge(p, q) then (false, 0) else LastTable(m, root, q))
  {
    assert EntryOk(m, root, p.i4);
    assert EntryOk(m, Entry(m, root, p.i4).frame, p.i3);
    assert EntryOk(m, root, q.i4);
    var e4 := Entry(m, root, q.i4);
    if Present(e4) {
      assert EntryOk(m, e4.frame, q.i3);
      var e3 := Entry(m, e4.frame, q.i3);
      if Present(e3) {
        assert EntryOk(m, e3.frame, q.i2);
      }
    }
  }

  /** An empty table hung above the last level leaves every walk's last table alone. */
  lemma AddDirLast(m: Mem, f: Frame, i: nat, g: Frame, root: Frame, q: Path)
    requires CanAdd(m, f, i, g) && Level(m.up[f]) >= 3 && IsRoot(m, root) && ValidPath(q)
    ensures LastTable(AddChild(m, f, i, g), root, q) == LastTable(m, root, q)
  {
    assert EntryOk(m, root, q.i4);
    var e4 := Entry(m, root, q.i4);
    if Present(e4) {
      assert EntryOk(m, e4.frame, q.i3);
      var e3 := Entry(m, e4.frame, q.i3);
      if Present(e3) {
        assert EntryOk(m, e3.frame, q.i2);
      }
    }
  }

  lemma DescendLast(m: Mem, f: Frame, i: nat, root: Frame, q: Path)
    requires CanDescend(m, f, i) && Level(m.up[f]) >= 3 && Descend(m, f, i).Some? && IsRoot(m, root) && ValidPath(q)
    ensures LastTable(Descend(m, f, i).value.0, root, q) == LastTable(m, root, q)
  {
    assert EntryOk(m, f, i);
    if !Present(Entry(m, f, i)) {
      AddDirLast(m, f, i, Lowest(m.free), root, q);
    }
  }

  /** The directory chain vmm_map_huge_page builds. */
  ghost function HugeTables(m: Mem, root: Frame, p: Path): Option<(Mem, Frame)>
    requires Inv(m) && IsRoot(m, root) && ValidPath(p)
  {
    HugeTablesReady(m, root, p);
    var d3 := Descend(m, root, p.i4);
    if d3.None? then None else Descend(d3.value.0, d3.value.1, p.i3)
  }

  lemma HugeTablesReady(m: Mem, root: Frame, p: Path)
    requires Inv(m) && IsRoot(m, root) && ValidPath(p)
    ensures CanDescend(m, root, p.i4)
    ensures Descend(m, root, p.i4).Some? ==> CanDescend(Descend(m, root, p.i4).value.0, Descend(m, root, p.i4).value.1, p.i3)
    ensures Descend(m, root, p.i4).Some? ==> Level(Descend(m, root, p.i4).value.0.up[Descend(m, root, p.i4).value.1]) == 3
  {
    assert EntryOk(m, root, p.i4);
    if Descend(m, root, p.i4).Some? {
      DescendOk(m, root, p.i4);
      var (m3, g3) := Descend(m, root, p.i4).value;
      assert EntryOk(m3, g3, p.i3);
    }
  }

  lemma HugeTablesOk(m: Mem, root: Frame, p: Path)
    requires Inv(m) && IsRoot(m, root) && ValidPath(p) && HugeTables(m, root, p).Some?
    ensures
      var (m', pd) := HugeTables(m, root, p).value;
      && Extends(m, m') && ReachesDir(m', root, p, pd) && pd in m'.up && Level(m'.up[pd]) == 2
      && (p.i4 >= KERNEL_SLOT ==> ZoneOf(m'.up[pd], pd).High?)
      && (forall q | ValidPath(q) :: Walk(m', root, q) == Walk(m, root, q) && LastTable(m', root, q) == LastTable(m, root, q))
  {
    HugeTablesReady(m, root, p);
    DescendOk(m, root, p.i4);
    var (m3, g3) := Descend(m, root, p.i4).value;
    DescendOk(m3, g3, p.i3);
    var (m2, g2) := Descend(m3, g3, p.i3).value;
    ExtendsTrans(m, m3, m2);
    forall q | ValidPath(q)
      ensures Walk(m2, root, q) == Walk(m, root, q) && LastTable(m2, root, q) == LastTable(m, root, q)
    {
      assert Walk(m3, root, q) == Walk(m, root, q);
      DescendLast(m, root, p.i4, root, q);
      DescendLast(m3, g3, p.i3, root, q);
    }
  }

  /** vmm_map_huge_page; None when a table could not be allocated. */
  ghost function MapHuge(m: Mem, root: Frame, p: Path, e: Pte): Option<Mem>
    requires Inv(m) && IsRoot(m, root) && ValidPath(p)
  {
    var d := HugeTables(m, root, p);
    if d.None? then None else
    HugeTablesOk(m, root, p);
    Some(WriteEntry(d.value.0, d.value.1, p.i2, e))
  }

  /** The other top-level slots stay as they are. */
  lemma HugeOtherTops(m: Mem, root: Frame, p: Path, e: Pte, s: nat)
    requires Inv(m) && IsRoot(m, root) && ValidPath(p) && MapHuge(m, root, p, e).Some? && s < ENTRIES && s != p.i4
    ensures Entry(MapHuge(m, root, p, e).value, root, s) == Entry(m, root, s)
  {
    hide Walk, HeldUp, EntryOk, LastTable;
    HugeTablesReady(m, root, p);
    HugeTablesOk(m, root, p);
    DescendOk(m, root, p.i4);
    var (m3, g3) := Descend(m, root, p.i4).value;
    DescendOk(m3, g3, p.i3);
  }

  /** A 2 MiB mapping replaces the translation of exactly its own 2 MiB. */
  lemma MapHugeRefines(m: Mem, root: Frame, p: Path, e: Pte)
    requires Inv(m) && IsRoot(m, root) && ValidPath(p) && p.i4 >= KERNEL_SLOT && NoTable(m, root, p)
    requires Present(e) && Huge(e) && MapHuge(m, root, p, e).Some?
    ensures
      var m' := MapHuge(m, root, p, e).value;
      && Extends(m, m')
      && (forall q | ValidPath(q) :: Walk(m', root, q) == if SameHuge(p, q) then HugePage(e) else Walk(m, root, q))
      && (forall q | ValidPath(q) && NoTable(m, root, q) :: NoTable(m', root, q))
  {
    hide Walk, HugeTables;
    HugeTablesOk(m, root, p);
    var (m1, pd) := HugeTables(m, root, p).value;
    assert Entry(m1, pd, p.i2) == ZERO || Huge(Entry(m1, pd, p.i2)) by {
      assert EntryOk(m1, pd, p.i2);
      assert !LastTable(m1, root, p).0;
    }
    WriteHugeInv(m1, pd, p.i2, e);
    forall q | ValidPath(q)
      ensures Walk(WriteEntry(m1, pd, p.i2, e), root, q) == if SameHuge(p, q) then HugePage(e) else Walk(m, root, q)
      ensures NoTable(m, root, q) ==> NoTable(WriteEntry(m1, pd, p.i2, e), root, q)
    {
      assert Walk(m1, root, q) == Walk(m, root, q) && LastTable(m1, root, q) == LastTable(m, root, q);
      WriteHugeWalk(m1, root, p, pd, e, q);
    }
  }

  // ---------------------------------------------------------------- the direct map

  ghost predicate InHhdm(q: Path) { ValidPath(q) && HHDM_FIRST <= q.i4 < HHDM_LAST }

  /** The number of the 2 MiB page of the direct map that q falls in. */
  function HugeIndex(q: Path): int { ((q.i4 - HHDM_FIRST) * 512 + q.i3) * 512 + q.i2 }

  /** PAGE_WRITE leaf of the n-th 2 MiB page. */
  function DirectEntry(n: nat): Pte { HugeEntry(n * 512, 2) }

  /** The first n 2 MiB pages of the direct map are in place and nothing finer hangs in it. */
  ghost predicate DirectUpto(m: Mem, root: Frame, n: nat)
  {
    && (forall q | InHhdm(q) :: NoTable(m, root, q))
    && (forall q | InHhdm(q) && HugeIndex(q) < n :: Walk(m, root, q) == HugePage(DirectEntry(HugeIndex(q))))
  }

  lemma HugeIndexUnique(p: Path, q: Path)
    requires InHhdm(p) && InHhdm(q)
    ensures HugeIndex(p) == HugeIndex(q) <==> SameHuge(p, q)
    ensures HugeIndex(p) >= 0
  {
    if HugeIndex(p) == HugeIndex(q) {
      LastDigit((p.i4 - HHDM_FIRST) * 512 + p.i3, p.i2, (q.i4 - HHDM_FIRST) * 512 + q.i3, q.i2);
      LastDigit(p.i4 - HHDM_FIRST, p.i3, q.i4 - HHDM_FIRST, q.i3);
    }
  }

  /** One round of the direct-map loop of vmm_init. */
  lemma DirectStep(m: Mem, root: Frame, p: Path)
    requires Inv(m) && IsRoot(m, root) && InHhdm(p) && HugeIndex(p) >= 0 && DirectUpto(m, root, HugeIndex(p))
    requires MapHuge(m, root, p, DirectEntry(HugeIndex(p))).Some?
    ensures DirectUpto(MapHuge(m, root, p, DirectEntry(HugeIndex(p))).value, root, HugeIndex(p) + 1)
  {
    hide Walk, Inv, MapHuge;
    var n := HugeIndex(p);
    assert NoTable(m, root, p);
    MapHugeRefines(m, root, p, DirectEntry(n));
    var m' := MapHuge(m, root, p, DirectEntry(n)).value;
    forall q | InHhdm(q)
      ensures NoTable(m', root, q)
      ensures HugeIndex(q) < n + 1 ==> Walk(m', root, q) == HugePage(DirectEntry(HugeIndex(q)))
    {
      HugeIndexUnique(p, q);
    }
  }

  lemma LowDigit(k: nat, x: nat)
    ensures (k * 512 + x) % 512 == x % 512
  {
  }

  /** The three page numbers of a direct-map address. */
  lemma HhdmDivisions(phys: nat)
    ensures (HHDM_START + phys) / 0x20_0000 == 0x7FF_FC00_0000 + phys / 0x20_0000
    ensures (HHDM_START + phys) / 0x4000_0000 == 0x3_FFFE_0000 + phys / 0x20_0000 / 512
    ensures (HHDM_START + phys) / 0x80_0000_0000 == 0x1FF_FF00 + phys / 0x20_0000 / 512 / 512
  {
    assert HHDM_START == 0x7FF_FC00_0000 * 0x20_0000;
    var n := phys / 0x20_0000;
    assert (HHDM_START + phys) / 0x20_0000 == 0x7FF_FC00_0000 + n;
  }

  /** The path of the i-th byte of the direct map. */
  lemma HhdmPath(phys: nat)
    requires phys < 0x800_0000_0000
    ensures InHhdm(PathOf(HHDM_START + phys)) && HugeIndex(PathOf(HHDM_START + phys)) == phys / 0x20_0000
  {
    var n := phys / 0x20_0000;
    HhdmDivisions(phys);
    LowDigit(0x3_FFFE_0000, n);
    LowDigit(0x1FF_FF00, n / 512);
    LowDigit(0xFFFF, 256 + n / 512 / 512);
    var q := PathOf(HHDM_START + phys);
    assert q.i2 == n % 512 && q.i3 == n / 512 % 512 && q.i4 == 256 + n / 512 / 512;
  }

  /** With the direct map in place, HHDM_START + p translates to p. */
  lemma DirectMeaning(m: Mem, root: Frame, n: nat, phys: nat)
    requires DirectWalks(m, root, n) && phys < n * 0x20_0000 && phys < 0x800_0000_0000
    ensures GetPhys(m, root, Hhdm(phys)) == phys
    ensures Walk(m, root, PathOf(Hhdm(phys))).HugePage? && Walk(m, root, PathOf(Hhdm(phys))).pte.flags == 0x83
  {
    hide PathOf, Walk, HugeIndex, InHhdm;
    HhdmPath(phys);
    var q := PathOf(HHDM_START + phys);
    DirectNumbers(phys, n);
    assert Walk(m, root, q) == HugePage(DirectEntry(HugeIndex(q)));
  }

  lemma DirectNumbers(phys: nat, n: nat)
    requires phys < n * 0x20_0000
    ensures phys / 0x20_0000 < n && (HHDM_START + phys) % 0x20_0000 == phys % 0x20_0000
    ensures phys / 0x20_0000 * 512 / 512 * 0x20_0000 + phys % 0x20_0000 == phys
  {
    assert HHDM_START == 0x7FF_FC00_0000 * 0x20_0000;
  }

  // ---------------------------------------------------------------- what vmm_init keeps while it runs

  /** Outside the direct map there are no 2 MiB leaves. */
  ghost predicate NoHugeElsewhere(m: Mem, root: Frame)
  {
    forall q | ValidPath(q) && !InHhdm(q) :: !Walk(m, root, q).HugePage?
  }

  ghost predicate DirectWalks(m: Mem, root: Frame, n: nat)
  {
    forall q | InHhdm(q) && HugeIndex(q) < n :: Walk(m, root, q) == HugePage(DirectEntry(HugeIndex(q)))
  }

  /** root is the only root, and no lower-half table is empty. */
  ghost predicate Sole(m: Mem, root: Frame)
  {
    Inv(m) && IsRoot(m, root) && (forall r | r in m.up && m.up[r].Root? :: r == root) && Lean(m)
  }

  /** The slots that n direct-map pages and a kernel image of klen bytes fill before the bootloader's are copied. */
  predicate Filled(i: nat, n: nat, klen: nat)
  {
    (HHDM_FIRST <= i < HHDM_LAST && (i - HHDM_FIRST) * 0x4_0000 < n) || (i == 511 && klen > 0)
  }

  /** The slots taken over from the bootloader's PML4 point at tables we know. */
  ghost predicate BootSlots(m: Mem, boot: seq<Pte>, n: nat, klen: nat)
  {
    |boot| == ENTRIES && forall i | KERNEL_SLOT <= i < ENTRIES && !Filled(i, n, klen) :: boot[i] == ZERO || PointsTo(m, boot[i], Shared(i))
  }

  lemma BootSlotsKept(m: Mem, m': Mem, boot: seq<Pte>, n: nat, klen: nat)
    requires BootSlots(m, boot, n, klen) && (forall h | h in m.up :: h in m'.up && m'.up[h] == m.up[h])
    ensures BootSlots(m', boot, n, klen)
  {
  }

  /** No slot of the direct map or of the kernel image is absent when the bootloader's slots are copied. */
  lemma FilledPresent(m: Mem, root: Frame, kphys: nat, i: nat, n: nat, klen: nat)
    requires DirectWalks(m, root, n) && KernelUpto(m, root, kphys, klen) && Filled(i, n, klen)
    ensures Entry(m, root, i) != ZERO
  {
    if i == 511 && klen > 0 {
      assert KernelAt(m, root, kphys, 0);
      KernelPath(0);
    } else {
      var q := Path(i, 0, 0, 0);
      assert InHhdm(q) && HugeIndex(q) == (i - HHDM_FIRST) * 0x4_0000;
      assert Walk(m, root, q) == HugePage(DirectEntry(HugeIndex(q)));
    }
  }

  lemma MapHugeSole(m: Mem, root: Frame, p: Path, e: Pte)
    requires Sole(m, root) && NoHugeElsewhere(m, root) && InHhdm(p) && NoTable(m, root, p)
    requires Present(e) && Huge(e) && MapHuge(m, root, p, e).Some?
    ensures Sole(MapHuge(m, root, p, e).value, root) && NoHugeElsewhere(MapHuge(m, root, p, e).value, root)
  {
    hide Walk;
    MapHugeRefines(m, root, p, e);
    MapHugeLean(m, root, p, e);
  }

  lemma MapHugeLean(m: Mem, root: Frame, p: Path, e: Pte)
    requires Inv(m) && IsRoot(m, root) && ValidPath(p) && p.i4 >= KERNEL_SLOT && Lean(m) && e != ZERO && MapHuge(m, root, p, e).Some?
    ensures Lean(MapHuge(m, root, p, e).value)
  {
    hide Walk;
    HugeTablesReady(m, root, p);
    HugeTablesOk(m, root, p);
    DescendLean(m, root, p.i4);
    var (m3, g3) := Descend(m, root, p.i4).value;
    DescendLean(m3, g3, p.i3);
    var (m2, g2) := HugeTables(m, root, p).value;
    WriteLean(m2, g2, p.i2, e);
  }

  /** A 4 KiB mapping outside the direct map leaves it alone. */
  lemma MapPageSole(m: Mem, root: Frame, p: Path, leaf: Pte, n: nat)
    requires Sole(m, root) && NoHugeElsewhere(m, root) && DirectWalks(m, root, n) && ValidPath(p) && !InHhdm(p) && Present(leaf)
    ensures Mappable(m, root, root, p)
    ensures MapPage(m, root, root, p, leaf).Some? ==>
              var m' := MapPage(m, root, root, p, leaf).value;
              Sole(m', root) && NoHugeElsewhere(m', root) && DirectWalks(m', root, n) && Extends(m, m')
  {
    if MapPage(m, root, root, p, leaf).Some? {
      MapPageRefines(m, root, root, p, leaf);
      MapPageLean(m, root, root, p, leaf);
    }
  }

  /** The slot copy of vmm_init: only absent slots are filled, so the direct map stays. */
  lemma CopyBootSole(m: Mem, root: Frame, i: nat, e: Pte, n: nat)
    requires Sole(m, root) && DirectWalks(m, root, n) && KERNEL_SLOT <= i < ENTRIES && PointsTo(m, e, Shared(i)) && Entry(m, root, i) == ZERO
    ensures Sole(WriteEntry(m, root, i, e), root) && DirectWalks(WriteEntry(m, root, i, e), root, n)
    ensures Keeps(m, WriteEntry(m, root, i, e), root)
  {
    CopySlotInv(m, root, i, e);
    var m' := WriteEntry(m, root, i, e);
    forall q | ValidPath(q) && Walk(m, root, q) != Unmapped
      ensures Walk(m', root, q) == Walk(m, root, q)
    {
      WalkSkips(m, m', root, root, q);
    }
    forall g | g in m'.up && m'.up[g].Child? && m'.up[g].zone.Low?
      ensures !IsEmpty(m', g)
    {
      assert !IsEmpty(m, g);
    }
    forall q | InHhdm(q) && HugeIndex(q) < n
      ensures Walk(m', root, q) == HugePage(DirectEntry(HugeIndex(q)))
    {
      assert Walk(m, root, q) == HugePage(DirectEntry(HugeIndex(q)));
    }
  }

  /** Pre-populating a heap slot. */
  lemma PopulateSole(m: Mem, root: Frame, i: nat, n: nat)
    requires Sole(m, root) && DirectWalks(m, root, n) && KERNEL_SLOT <= i < ENTRIES && CanDescend(m, root, i) && Descend(m, root, i).Some?
    ensures
      var m' := Descend(m, root, i).value.0;
      && Sole(m', root) && DirectWalks(m', root, n) && Present(Entry(m', root, i)) && Keeps(m, m', root)
      && (forall j: nat | j < ENTRIES && j != i :: Entry(m', root, j) == Entry(m, root, j))
      && Entry(m', root, i) == if Present(Entry(m, root, i)) then Entry(m, root, i) else TableEntry(Entry(m', root, i).frame)
  {
    DescendOk(m, root, i);
    DescendLean(m, root, i);
  }

  lemma FirstRootInv(m: Mem, g: Frame)
    requires Inv(m) && g in m.free
    ensures Inv(m.(tables := m.tables[g := EmptyTable()], up := m.up[g := Root], free := m.free - {g}))
  {
    var m' := m.(tables := m.tables[g := EmptyTable()], up := m.up[g := Root], free := m.free - {g});
    forall f, i: nat | f in m'.up && i < ENTRIES
      ensures EntryOk(m', f, i)
    {
      if f != g { assert EntryOk(m, f, i); }
    }
    forall f | f in m'.up
      ensures HeldUp(m', f)
    {
      if f != g { assert HeldUp(m, f); }
    }
  }

  /** A fresh root over a world of kernel-half tables only. */
  lemma FirstRoot(m: Mem, g: Frame)
    requires Inv(m) && g in m.free && (forall h | h in m.up :: m.up[h].Shared? || (m.up[h].Child? && m.up[h].zone.High?))
    ensures
      var m' := m.(tables := m.tables[g := EmptyTable()], up := m.up[g := Root], free := m.free - {g});
      Sole(m', g) && NoHugeElsewhere(m', g) && DirectUpto(m', g, 0)
  {
    hide EntryOk, HeldUp;
    var m' := m.(tables := m.tables[g := EmptyTable()], up := m.up[g := Root], free := m.free - {g});
    FirstRootInv(m, g);
    forall q | InHhdm(q)
      ensures HugeIndex(q) >= 0 && NoTable(m', g, q)
    {
      HugeIndexUnique(q, q);
    }
  }

  /** Whatever was mapped stays mapped as it was. */
  ghost predicate Keeps(m: Mem, m': Mem, root: Frame)
  {
    forall q | ValidPath(q) && Walk(m, root, q) != Unmapped :: Walk(m', root, q) == Walk(m, root, q)
  }

  /** The first n bytes of the kernel image translate, page by page, to where the bootloader put them. */
  ghost predicate KernelUpto(m: Mem, root: Frame, kphys: nat, n: nat)
  {
    forall j: nat {:trigger KernelAt(m, root, kphys, j)} | j < n :: KernelAt(m, root, kphys, j)
  }

  /** A present, writable leaf, not for user mode. */
  function KernelLeaf(phys: nat): Pte { Pte(phys / 0x1000, 3) }

  ghost predicate KernelAt(m: Mem, root: Frame, kphys: nat, j: nat)
  {
    && Walk(m, root, PathOf(KERN_START + j)) == Page(KernelLeaf(kphys + j / 0x1000 * 0x1000))
    && GetPhys(m, root, KERN_START + j) == (kphys + j / 0x1000 * 0x1000) / 0x1000 * 0x1000 + j % 0x1000
  }

  lemma KernelKept(m: Mem, m': Mem, root: Frame, kphys: nat, n: nat)
    requires KernelUpto(m, root, kphys, n) && Keeps(m, m', root)
    ensures KernelUpto(m', root, kphys, n)
  {
    forall j: nat | j < n
      ensures KernelAt(m', root, kphys, j)
    {
      assert KernelAt(m, root, kphys, j);
    }
  }

  /** One turn of the kernel image loop. */
  lemma KernelStep(m: Mem, m': Mem, root: Frame, kphys: nat, i: nat)
    requires KernelUpto(m, root, kphys, i) && i % 0x1000 == 0 && i < 0x4000_0000
    requires Walk(m', root, PathOf(KERN_START + i)) == Page(KernelLeaf(kphys + i))
    requires forall q | ValidPath(q) && q != PathOf(KERN_START + i) :: Walk(m', root, q) == Walk(m, root, q)
    requires forall w: nat | w / 0x1000 == (KERN_START + i) / 0x1000 :: GetPhys(m', root, w) == (kphys + i) / 0x1000 * 0x1000 + w % 0x1000
    ensures KernelUpto(m', root, kphys, i + 0x1000)
  {
    hide Walk, GetPhys, PathOf;
    forall j: nat | j < i + 0x1000
      ensures KernelAt(m', root, kphys, j)
    {
      KernelPage(i, j);
      PathOfSamePage(KERN_START + j, KERN_START + i);
      if j < i {
        assert KernelAt(m, root, kphys, j);
        SameGetPhys(m, m', root, KERN_START + j);
      }
    }
  }

  lemma SameGetPhys(m: Mem, m': Mem, root: Frame, w: nat)
    requires Walk(m', root, PathOf(w)) == Walk(m, root, PathOf(w))
    ensures GetPhys(m', root, w) == GetPhys(m, root, w)
  {
  }

  /** Bytes of the page at i, and bytes before it, by page number. */
  lemma KernelPage(i: nat, j: nat)
    requires i % 0x1000 == 0 && j < i + 0x1000 && i < 0x4000_0000
    ensures j >= i ==> (KERN_START + j) / 0x1000 == (KERN_START + i) / 0x1000 && j / 0x1000 * 0x1000 == i && (KERN_START + j) % 0x1000 == j % 0x1000
    ensures (KERN_START + j) / 0x1000 % 0x10_0000_0000 == (KERN_START + i) / 0x1000 % 0x10_0000_0000 <==> j >= i
  {
    assert KERN_START == 0xF_FFFF_FFF8_0000 * 0x1000;
  }

  lemma KernelPath(off: nat)
    requires off < 0x4000_0000
    ensures PathOf(KERN_START + off).i4 == 511
  {
    assert (KERN_START + off) / 0x80_0000_0000 == 0x1FF_FFFF;
  }
}
