/**
 The bitmap frame allocator of src/kern/mem/pmm.c.  A set bit is a used frame.
 The specification is a set of free frames.
 */
module Pmm {

  const FRAME_SIZE := 4096
  const U32 := 0x1_0000_0000

  /** 1 << k */
  function Mask(k: nat): bv8
  {
    if k == 0 then 1 else if k == 1 then 2 else if k == 2 then 4 else if k == 3 then 8
    else if k == 4 then 16 else if k == 5 then 32 else if k == 6 then 64 else 128
  }

  predicate BitSet(b: bv8, k: nat) { b & Mask(k) != 0 }

  function WithBit(b: bv8, k: nat): bv8 { b | Mask(k) }

  function WithoutBit(b: bv8, k: nat): bv8 { b & !Mask(k) }

  lemma SetBit(b: bv8, k: nat, j: nat)
    requires k < 8 && j < 8
    ensures BitSet(WithBit(b, k), j) <==> j == k || BitSet(b, j)
  {
  }

  lemma ClearBit(b: bv8, k: nat, j: nat)
    requires k < 8 && j < 8
    ensures BitSet(WithoutBit(b, k), j) <==> j != k && BitSet(b, j)
  {
  }

  lemma SameBit(f: nat, g: nat)
    ensures f / 8 == g / 8 && f % 8 == g % 8 <==> f == g
  {
  }

  lemma FullByte(j: nat)
    requires j < 8
    ensures BitSet(0xFF, j)
  {
  }

  ghost predicate RunFree(free: set<nat>, start: nat, cnt: nat)
  {
    forall f | start <= f < start + cnt :: f in free
  }

  /** start is the lowest start of a run of cnt free frames. */
  ghost predicate LowestRun(free: set<nat>, start: nat, cnt: nat)
  {
    RunFree(free, start, cnt) && forall s: nat | s < start :: !RunFree(free, s, cnt)
  }

  function FrameRange(start: nat, cnt: nat): (r: set<nat>)
    ensures forall f :: f in r <==> start <= f < start + cnt
  {
    if cnt == 0 then {} else FrameRange(start, cnt - 1) + {start + cnt - 1}
  }

  /** The run a first-fit scan finds is unique. */
  lemma LowestRunUnique(free: set<nat>, s: nat, t: nat, cnt: nat)
    requires LowestRun(free, s, cnt) && LowestRun(free, t, cnt)
    ensures s == t
  {
  }

  /** The u32 product fidx * framesz names the frame exactly when the frame lies below 4 GiB; otherwise it
      names one below. */
  lemma AddressExact(start: nat)
    ensures start * FRAME_SIZE % U32 == start * FRAME_SIZE <==> start < 0x10_0000
    ensures start * FRAME_SIZE % U32 == start % 0x10_0000 * FRAME_SIZE
  {
  }

  /** A bootloader memory-map entry. */
  datatype MemEntry = MemEntry(base: nat, length: nat, usable: bool)

  function MaxEnd(entries: seq<MemEntry>): nat
  {
    if entries == [] then 0
    else
      var rest := MaxEnd(entries[..|entries| - 1]);
      var e := entries[|entries| - 1];
      if e.base + e.length > rest then e.base + e.length else rest
  }

  lemma {:induction false} MaxEndBounds(entries: seq<MemEntry>, i: nat)
    requires i < |entries|
    ensures entries[i].base + entries[i].length <= MaxEnd(entries)
  {
    if i < |entries| - 1 {
      MaxEndBounds(entries[..|entries| - 1], i);
    }
  }

  /** Whole frames of a usable entry. */
  predicate Covers(e: MemEntry, f: nat)
  {
    e.usable && (e.base + FRAME_SIZE - 1) / FRAME_SIZE <= f < (e.base + e.length) / FRAME_SIZE
  }

  ghost predicate UsableFrame(entries: seq<MemEntry>, f: nat)
  {
    exists i | 0 <= i < |entries| :: Covers(entries[i], f)
  }

  lemma UsableNext(entries: seq<MemEntry>, i: nat, f: nat)
    requires i < |entries|
    ensures UsableFrame(entries[..i + 1], f) <==> UsableFrame(entries[..i], f) || Covers(entries[i], f)
  {
    var a, b := entries[..i], entries[..i + 1];
    assert forall j | 0 <= j < i :: b[j] == a[j];
    assert b[i] == entries[i];
  }

  predicate HoldsBitmap(e: MemEntry, bytes: nat) { e.usable && e.length >= bytes }

  function BitmapBytes(nframes: nat): nat { (nframes + 7) / 8 }

  function BitmapFrames(nframes: nat): nat { (BitmapBytes(nframes) + FRAME_SIZE - 1) / FRAME_SIZE }

  /** The frames that pmm_init reserves for a bitmap at bmapaddr. */
  predicate BitmapFrame(bmapaddr: nat, nframes: nat, f: nat)
  {
    bmapaddr / FRAME_SIZE <= f < bmapaddr / FRAME_SIZE + BitmapFrames(nframes)
  }

  /** The reservation is all or nothing: it takes effect when each of those frames is usable. */
  ghost predicate BitmapReserved(entries: seq<MemEntry>, bmapaddr: nat, nframes: nat)
  {
    forall f: nat | BitmapFrame(bmapaddr, nframes, f) :: UsableFrame(entries, f)
  }

  /** On a page-aligned map the bitmap is always reserved. */
  lemma AlignedBitmapReserved(entries: seq<MemEntry>, home: nat, nframes: nat)
    requires home < |entries| && HoldsBitmap(entries[home], BitmapBytes(nframes))
    requires entries[home].base % FRAME_SIZE == 0 && entries[home].length % FRAME_SIZE == 0
    ensures BitmapReserved(entries, entries[home].base, nframes)
  {
    forall f: nat | BitmapFrame(entries[home].base, nframes, f)
      ensures UsableFrame(entries, f)
    {
      assert Covers(entries[home], f);
    }
  }

  /** On an unaligned one it may not be: here frame 2 is usable and holds the end of the bitmap, but the
      reservation fails on frame 1, of which only the upper half is usable. */
  lemma UnalignedBitmapLost()
    ensures
      var e := MemEntry(0x1800, 0x800_0000, true);
      var nframes := MaxEnd([e]) / FRAME_SIZE;
      && HoldsBitmap(e, BitmapBytes(nframes)) && !BitmapReserved([e], e.base, nframes)
      && UsableFrame([e], 2) && 2 * FRAME_SIZE < e.base + BitmapBytes(nframes)
  {
    var e := MemEntry(0x1800, 0x800_0000, true);
    var nframes := 0x8001;
    assert MaxEnd([e]) == 0x800_1800 by { assert [e][..0] == []; }
    assert !UsableFrame([e], 1);
    assert BitmapFrame(e.base, nframes, 1);
    assert Covers([e][0], 2);
  }

  /** pmm_init.  No allocator means the kernel panicked.  Otherwise the free set is exactly
      the usable frames, less the SMP trampoline frame 8 and, if they could be reserved, the bitmap's own. */
  method Init(entries: seq<MemEntry>) returns (a: FrameAllocator?, ghost home: nat)
    requires MaxEnd(entries) < (U32 - 8) * FRAME_SIZE
    ensures a == null <==>
              || MaxEnd(entries) == 0
              || (forall i | 0 <= i < |entries| :: !HoldsBitmap(entries[i], BitmapBytes(MaxEnd(entries) / FRAME_SIZE)))
              || (home < |entries| && entries[home].base == 0)
    ensures home < |entries| ==> HoldsBitmap(entries[home], BitmapBytes(MaxEnd(entries) / FRAME_SIZE))
    ensures forall i | 0 <= i < home && i < |entries| :: !HoldsBitmap(entries[i], BitmapBytes(MaxEnd(entries) / FRAME_SIZE))
    ensures a != null ==> fresh(a) && fresh(a.bitmap) && a.Valid() && a.memHigh == MaxEnd(entries) && home < |entries|
    ensures a != null ==> forall f: nat ::
              f in a.Free() <==>
                && UsableFrame(entries, f)
                && !(BitmapReserved(entries, entries[home].base, a.nframes) && BitmapFrame(entries[home].base, a.nframes, f))
                && f != 8
  {
    var high := HighestEnd(entries);
    var nframes := high / FRAME_SIZE;
    var bytes := nframes / 8;
    if nframes % 8 != 0 { bytes := bytes + 1; }
    var bmapaddr, k := FindBitmapHome(entries, bytes);
    home := k;
    if high == 0 || bmapaddr == 0 {
      return null, home;
    }
    a := new FrameAllocator(high, bytes);
    ReleaseUsable(a, entries);
    ReserveBitmap(a, entries, home, bmapaddr, bytes);
    var _ := a.TryReserve(8, 1);
  }

  method HighestEnd(entries: seq<MemEntry>) returns (high: nat)
    ensures high == MaxEnd(entries)
  {
    high := 0;
    for i := 0 to |entries|
      invariant high == MaxEnd(entries[..i])
    {
      assert entries[..i + 1][..i] == entries[..i];
      var eend := entries[i].base + entries[i].length;
      if eend > high { high := eend; }
    }
    assert entries[..|entries|] == entries;
  }

  /** The first usable entry long enough for the bitmap; address 0 when there is none. */
  method FindBitmapHome(entries: seq<MemEntry>, bytes: nat) returns (addr: nat, home: nat)
    ensures home <= |entries| && (forall i | 0 <= i < home :: !HoldsBitmap(entries[i], bytes))
    ensures if home < |entries| then HoldsBitmap(entries[home], bytes) && addr == entries[home].base else addr == 0
  {
    addr, home := 0, 0;
    while home < |entries|
      invariant 0 <= home <= |entries|
      invariant forall i | 0 <= i < home :: !HoldsBitmap(entries[i], bytes)
    {
      if entries[home].usable && entries[home].length >= bytes {
        return entries[home].base, home;
      }
      home := home + 1;
    }
  }

  /** The whole frames of an entry are managed frames, and start where the address given to pmm_ffree says. */
  lemma EntryFrames(e: MemEntry, high: nat, sidx: nat, eidx: nat)
    requires e.usable && sidx == (e.base + FRAME_SIZE - 1) / FRAME_SIZE < eidx == (e.base + e.length) / FRAME_SIZE && e.base + e.length <= high
    ensures sidx * FRAME_SIZE / FRAME_SIZE == sidx && sidx * FRAME_SIZE < high && eidx <= high / FRAME_SIZE
    ensures forall f: nat :: Covers(e, f) <==> sidx <= f < eidx
  {
  }

  method ReleaseUsable(a: FrameAllocator, entries: seq<MemEntry>)
    requires a.Valid() && a.memHigh == MaxEnd(entries) && a.Free() == {}
    modifies a.bitmap
    ensures a.Valid() && forall f: nat :: f in a.Free() <==> UsableFrame(entries, f)
  {
    hide UsableFrame, Covers;
    assert forall f: nat :: !UsableFrame(entries[..0], f) by { NoneUsable(entries); }
    for i := 0 to |entries|
      invariant a.Valid()
      invariant forall f: nat :: f in a.Free() <==> UsableFrame(entries[..i], f)
    {
      MaxEndBounds(entries, i);
      forall f: nat
        ensures UsableFrame(entries[..i + 1], f) <==> UsableFrame(entries[..i], f) || Covers(entries[i], f)
      {
        UsableNext(entries, i, f);
      }
      ReleaseEntry(a, entries[i]);
    }
    assert entries[..|entries|] == entries;
  }

  lemma NoneUsable(entries: seq<MemEntry>)
    ensures forall f: nat :: !UsableFrame(entries[..0], f)
  {
  }

  method ReleaseEntry(a: FrameAllocator, e: MemEntry)
    requires a.Valid() && e.base + e.length <= a.memHigh
    modifies a.bitmap
    ensures a.Valid() && forall f: nat :: f in a.Free() <==> f in old(a.Free()) || Covers(e, f)
  {
    if e.usable {
      var sidx := (e.base + FRAME_SIZE - 1) / FRAME_SIZE;
      var eidx := (e.base + e.length) / FRAME_SIZE;
      if eidx > sidx {
        EntryFrames(e, a.memHigh, sidx, eidx);
        a.Ffree(sidx * FRAME_SIZE, eidx - sidx);
      }
    }
  }

  /** The reservation of the bitmap's own frames, whose outcome pmm_init does not look at. */
  method ReserveBitmap(a: FrameAllocator, entries: seq<MemEntry>, ghost home: nat, bmapaddr: nat, bytes: nat)
    requires a.Valid() && a.memHigh == MaxEnd(entries) && (forall f: nat :: f in a.Free() <==> UsableFrame(entries, f))
    requires home < |entries| && HoldsBitmap(entries[home], bytes) && bmapaddr == entries[home].base && bytes == BitmapBytes(a.nframes)
    modifies a.bitmap
    ensures a.Valid()
    ensures forall f: nat :: f in a.Free() <==>
              UsableFrame(entries, f) && !(BitmapReserved(entries, bmapaddr, a.nframes) && BitmapFrame(bmapaddr, a.nframes, f))
  {
    hide UsableFrame;
    var bmapsidx := bmapaddr / FRAME_SIZE;
    var bmapfcnt := (bytes + FRAME_SIZE - 1) / FRAME_SIZE;
    MaxEndBounds(entries, home);
    BitmapInRange(bmapaddr, bytes, MaxEnd(entries));
    RunOrReserved(a.Free(), entries, bmapaddr, a.nframes);
    assert bmapfcnt > 0 && RunFree(a.Free(), bmapsidx, bmapfcnt) ==> bmapsidx + bmapfcnt - 1 in a.Free();
    var _ := a.TryReserve(bmapsidx, bmapfcnt);
  }

  lemma BitmapInRange(bmapaddr: nat, bytes: nat, high: nat)
    requires bmapaddr + bytes <= high
    ensures bmapaddr / FRAME_SIZE + (bytes + FRAME_SIZE - 1) / FRAME_SIZE <= high / FRAME_SIZE + 2
  {
  }

  lemma RunOrReserved(free: set<nat>, entries: seq<MemEntry>, bmapaddr: nat, nframes: nat)
    requires forall f: nat :: f in free <==> UsableFrame(entries, f)
    ensures RunFree(free, bmapaddr / FRAME_SIZE, BitmapFrames(nframes)) <==> BitmapReserved(entries, bmapaddr, nframes)
  {
    hide UsableFrame;
    if BitmapReserved(entries, bmapaddr, nframes) {
      forall f: nat | bmapaddr / FRAME_SIZE <= f < bmapaddr / FRAME_SIZE + BitmapFrames(nframes)
        ensures f in free
      {
        assert BitmapFrame(bmapaddr, nframes, f);
      }
    }
  }

  // ---------------------------------------------------------------- live allocations

  /** What a caller holds: the address pmm_falloc returned and the length asked for. */
  datatype Held = Held(addr: nat, cnt: nat)

  /** The frames that address and length name. */
  ghost function Frames(h: Held): set<nat> { FrameRange(h.addr / FRAME_SIZE, h.cnt) }

  /** The free frames, and what callers hold; there are `limit` frames. */
  datatype Ledger = Ledger(free: set<nat>, live: seq<Held>, limit: nat)

  ghost function Named(live: seq<Held>): (r: seq<set<nat>>)
    ensures |r| == |live|
  {
    seq(|live|, i requires 0 <= i < |live| => Frames(live[i]))
  }

  ghost predicate InPart(parts: seq<set<nat>>, f: nat) { exists i | 0 <= i < |parts| :: f in parts[i] }

  /** Every frame of the pool is free or in a part, none is both or in two parts, and no part leaves the pool. */
  ghost predicate Split(free: set<nat>, parts: seq<set<nat>>, pool: set<nat>)
  {
    && free <= pool && (forall f | f in pool :: f in free || InPart(parts, f))
    && (forall i | 0 <= i < |parts| :: parts[i] <= pool && parts[i] !! free)
    && (forall i, j | 0 <= i < j < |parts| :: parts[i] !! parts[j])
  }

  lemma SplitTake(free: set<nat>, parts: seq<set<nat>>, pool: set<nat>, taken: set<nat>)
    requires Split(free, parts, pool) && taken <= free
    ensures Split(free - taken, parts + [taken], pool)
  {
    forall f | f in pool
      ensures f in free - taken || InPart(parts + [taken], f)
    {
      if f in taken {
        assert f in (parts + [taken])[|parts|];
      } else if f !in free {
        var i :| 0 <= i < |parts| && f in parts[i];
        assert f in (parts + [taken])[i];
      }
    }
  }

  /** Recording other frames than those taken is never right. */
  lemma SplitMisnamed(free: set<nat>, parts: seq<set<nat>>, pool: set<nat>, taken: set<nat>, named: set<nat>, f: nat)
    requires Split(free, parts, pool) && f in named && f !in taken
    ensures !Split(free - taken, parts + [named], pool)
  {
    var parts' := parts + [named];
    assert parts'[|parts|] == named;
    if f in pool && f !in free {
      var i :| 0 <= i < |parts| && f in parts[i];
      assert parts'[i] == parts[i];
    }
  }

  lemma SplitGive(free: set<nat>, parts: seq<set<nat>>, pool: set<nat>, i: nat)
    requires Split(free, parts, pool) && i < |parts|
    ensures Split(free + parts[i], parts[..i] + parts[i + 1..], pool)
  {
    var parts' := parts[..i] + parts[i + 1..];
    forall f | f in pool
      ensures f in free + parts[i] || InPart(parts', f)
    {
      if f !in free {
        var j :| 0 <= j < |parts| && f in parts[j];
        assert j != i ==> parts'[if j < i then j else j - 1] == parts[j];
      }
    }
  }

  /** Callers and the free set share the pool: no frame is free and held, held twice, lost, or held without
      being the allocator's. */
  ghost predicate LedgerInv(l: Ledger, pool: set<nat>)
  {
    Split(l.free, Named(l.live), pool) && forall f | f in pool :: f < l.limit
  }

  /** A pmm_falloc that finds the run at `start`, or a pmm_ffree by the holder of the i-th live run. */
  datatype Call = Take(start: nat, cnt: nat) | Give(i: nat)

  ghost predicate CallEnabled(l: Ledger, c: Call)
  {
    match c
    case Take(start, cnt) => cnt >= 1 && LowestRun(l.free, start, cnt)
    case Give(i) => i < |l.live|
  }

  ghost function AfterCall(l: Ledger, c: Call): Ledger
    requires CallEnabled(l, c)
  {
    match c
    case Take(start, cnt) => l.(free := l.free - FrameRange(start, cnt), live := l.live + [Held(start * FRAME_SIZE % U32, cnt)])
    case Give(i) => l.(free := l.free + (set f | f in Frames(l.live[i]) && f < l.limit), live := l.live[..i] + l.live[i + 1..])
  }

  /** An allocation below 4 GiB is held under its own frames and keeps the ledger right.  One above is held
      under the address of other frames and never does. */
  lemma TakeExact(l: Ledger, pool: set<nat>, start: nat, cnt: nat)
    requires LedgerInv(l, pool) && CallEnabled(l, Take(start, cnt))
    ensures LedgerInv(AfterCall(l, Take(start, cnt)), pool) <==> start < 0x10_0000
  {
    hide Split, FrameRange, LowestRun;
    var taken, h := FrameRange(start, cnt), Held(start * FRAME_SIZE % U32, cnt);
    AddressExact(start);
    RunIsFree(l.free, start, cnt);
    assert Named(l.live + [h]) == Named(l.live) + [Frames(h)];
    if start < 0x10_0000 {
      assert Frames(h) == taken;
      SplitTake(l.free, Named(l.live), pool, taken);
    } else {
      assert start % 0x10_0000 in Frames(h) && start % 0x10_0000 !in taken;
      SplitMisnamed(l.free, Named(l.live), pool, taken, Frames(h), start % 0x10_0000);
    }
  }

  lemma RunIsFree(free: set<nat>, start: nat, cnt: nat)
    requires LowestRun(free, start, cnt)
    ensures FrameRange(start, cnt) <= free
  {
  }

  lemma GiveInv(l: Ledger, pool: set<nat>, i: nat)
    requires LedgerInv(l, pool) && i < |l.live|
    ensures LedgerInv(AfterCall(l, Give(i)), pool)
  {
    hide Split, Frames;
    var parts := Named(l.live);
    assert Frames(l.live[i]) == parts[i] && parts[i] <= pool by { PartInPool(l.free, parts, pool, i); }
    assert (set f | f in parts[i] && f < l.limit) == parts[i];
    assert Named(l.live[..i] + l.live[i + 1..]) == parts[..i] + parts[i + 1..];
    SplitGive(l.free, parts, pool, i);
  }

  lemma PartInPool(free: set<nat>, parts: seq<set<nat>>, pool: set<nat>, i: nat)
    requires Split(free, parts, pool) && i < |parts|
    ensures parts[i] <= pool
  {
  }

  ghost predicate Calls(l: Ledger, cs: seq<Call>)
    decreases |cs|
  {
    cs == [] || (CallEnabled(l, cs[0]) && Calls(AfterCall(l, cs[0]), cs[1..]))
  }

  /** The ledger is right now and after every call. */
  ghost predicate AlwaysRight(l: Ledger, pool: set<nat>, cs: seq<Call>)
    requires Calls(l, cs)
    decreases |cs|
  {
    LedgerInv(l, pool) && (cs == [] || AlwaysRight(AfterCall(l, cs[0]), pool, cs[1..]))
  }

  /** Over a run of allocations and frees, in any order and of any lengths, what callers hold never overlaps,
      holds no free frame and loses none, exactly when every run taken starts below 4 GiB. */
  lemma {:induction false} LiveNeverOverlap(l: Ledger, pool: set<nat>, cs: seq<Call>)
    requires LedgerInv(l, pool) && Calls(l, cs)
    ensures AlwaysRight(l, pool, cs) <==> forall k | 0 <= k < |cs| && cs[k].Take? :: cs[k].start < 0x10_0000
    decreases |cs|
  {
    hide LedgerInv, AfterCall, CallEnabled;
    if cs != [] {
      var l' := AfterCall(l, cs[0]);
      CallExact(l, pool, cs[0]);
      if !(cs[0].Take? && cs[0].start >= 0x10_0000) {
        LiveNeverOverlap(l', pool, cs[1..]);
        assert forall k | 0 <= k < |cs| - 1 :: cs[1..][k] == cs[k + 1];
        assert forall k | 1 <= k < |cs| :: cs[k] == cs[1..][k - 1];
      }
    }
  }

  lemma CallExact(l: Ledger, pool: set<nat>, c: Call)
    requires LedgerInv(l, pool) && CallEnabled(l, c)
    ensures LedgerInv(AfterCall(l, c), pool) <==> (c.Take? ==> c.start < 0x10_0000)
  {
    hide LedgerInv, AfterCall;
    match c
    case Take(start, cnt) => TakeExact(l, pool, start, cnt);
    case Give(i) => GiveInv(l, pool, i);
  }

  /** The allocator as start-up leaves it, with nothing handed out. */
  lemma NothingHeld(free: set<nat>, limit: nat)
    requires forall f | f in free :: f < limit
    ensures LedgerInv(Ledger(free, [], limit), free)
  {
  }

  class FrameAllocator {
    var memLow: nat
    var memHigh: nat
    var nframes: nat
    const bitmap: array<bv8>

    ghost predicate Valid()
      reads this, bitmap
    {
      nframes <= bitmap.Length * 8 < nframes + 8 && memLow == 0 && nframes == memHigh / FRAME_SIZE && nframes + 8 < U32
    }

    predicate Used(f: nat)
      reads this, bitmap
      requires f / 8 < bitmap.Length
    {
      BitSet(bitmap[f / 8], f % 8)
    }

    ghost function Free(): set<nat>
      reads this, bitmap
      requires Valid()
    {
      set f: nat | f < nframes && !Used(f)
    }

    /** All frames used, as before the memory map is applied. */
    constructor (high: nat, bytes: nat)
      requires high < (U32 - 8) * FRAME_SIZE && bytes == BitmapBytes(high / FRAME_SIZE)
      ensures Valid() && memHigh == high && nframes == high / FRAME_SIZE && Free() == {} && fresh(bitmap)
    {
      memLow, memHigh, nframes := 0, high, high / FRAME_SIZE;
      bitmap := new bv8[bytes](i => 0xFF);
      new;
      forall f: nat | f < nframes
        ensures Used(f)
      {
        FullByte(f % 8);
      }
    }

    /** pmm_try_resv.  The caller must keep stidx + cnt below 2^32, where the C sum would wrap. */
    method TryReserve(stidx: nat, cnt: nat) returns (ok: bool)
      requires Valid() && stidx + cnt < U32
      modifies bitmap
      ensures Valid()
      ensures ok <==> stidx + cnt <= nframes && RunFree(old(Free()), stidx, cnt)
      ensures Free() == if ok then old(Free()) - FrameRange(stidx, cnt) else old(Free())
      ensures !ok ==> bitmap[..] == old(bitmap[..])
    {
      hide BitSet;
      if stidx + cnt > nframes {
        if cnt > 0 { assert stidx + cnt - 1 !in Free(); }
        return false;
      }
      var i := 0;
      while i < cnt
        invariant 0 <= i <= cnt
        invariant RunFree(Free(), stidx, i)
        invariant bitmap[..] == old(bitmap[..])
      {
        if Used(stidx + i) {
          assert stidx + i !in Free();
          return false;
        }
        i := i + 1;
      }
      i := 0;
      while i < cnt
        invariant 0 <= i <= cnt && Valid()
        invariant Free() == old(Free()) - FrameRange(stidx, i)
      {
        MarkUsed(stidx + i);
        i := i + 1;
      }
      ok := true;
    }

    method MarkUsed(f: nat)
      requires Valid() && f < nframes
      modifies bitmap
      ensures Valid() && Free() == old(Free()) - {f}
    {
      hide BitSet, WithBit, WithoutBit;
      ghost var before := bitmap[f / 8];
      bitmap[f / 8] := WithBit(bitmap[f / 8], f % 8);
      forall g: nat | g < nframes
        ensures Used(g) <==> g == f || old(Used(g))
      {
        SameBit(f, g);
        if g / 8 == f / 8 { SetBit(before, f % 8, g % 8); }
      }
    }

    method MarkFree(f: nat)
      requires Valid() && f < nframes
      modifies bitmap
      ensures Valid() && Free() == old(Free()) + {f}
    {
      hide BitSet, WithBit, WithoutBit;
      ghost var before := bitmap[f / 8];
      bitmap[f / 8] := WithoutBit(bitmap[f / 8], f % 8);
      forall g: nat | g < nframes
        ensures Used(g) <==> g != f && old(Used(g))
      {
        SameBit(f, g);
        if g / 8 == f / 8 { ClearBit(before, f % 8, g % 8); }
      }
    }

    /** pmm_falloc.  `start` is the first frame of the run taken, when there is one.  The
        0xFF-byte skip changes nothing: the answer is the lowest free run.  Address 0
        doubles as NULL, and the u32 product wraps for frames at or above 4 GiB. */
    method Falloc(cnt: nat) returns (addr: nat, ghost found: bool, start: nat)
      requires Valid() && cnt + nframes + 6 < U32
      modifies bitmap
      ensures Valid()
      ensures found && cnt >= 1 ==> LowestRun(old(Free()), start, cnt)
      ensures found ==> Free() == old(Free()) - FrameRange(start, cnt) && addr == start * FRAME_SIZE % U32
      ensures found ==> (addr == start * FRAME_SIZE <==> start < 0x10_0000)
      ensures !found ==> addr == 0 && Free() == old(Free())
      ensures !found && cnt >= 1 ==> forall s: nat :: !RunFree(old(Free()), s, cnt)
    {
      var i := 0;
      start := 0;
      ghost var free := Free();
      while i < bitmap.Length
        invariant 0 <= i <= bitmap.Length
        invariant bitmap[..] == old(bitmap[..])
        invariant cnt >= 1 ==> forall s: nat | s < i * 8 :: !RunFree(free, s, cnt)
      {
        if bitmap[i] == 0xFF {
          forall s: nat | i * 8 <= s < i * 8 + 8 && cnt >= 1
            ensures !RunFree(free, s, cnt)
          {
            assert s / 8 == i;
            FullByte(s % 8);
            assert s !in free;
          }
        } else {
          var bit := 0;
          while bit < 8
            invariant 0 <= bit <= 8
            invariant bitmap[..] == old(bitmap[..])
            invariant cnt >= 1 ==> forall s: nat | s < i * 8 + bit :: !RunFree(free, s, cnt)
          {
            var fidx := i * 8 + bit;
            assert Free() == free;
            var ok := TryReserve(fidx, cnt);
            if ok {
              if cnt >= 1 {
                assert fidx in free;
              }
              AddressExact(fidx);
              return memLow + fidx * FRAME_SIZE % U32, true, fidx;
            }
            if cnt >= 1 && fidx + cnt > nframes { assert fidx + cnt - 1 !in free; }
            bit := bit + 1;
          }
        }
        i := i + 1;
      }
      forall s: nat | cnt >= 1
        ensures !RunFree(free, s, cnt)
      {
        if s >= bitmap.Length * 8 {
          assert s !in free;
        }
      }
      return 0, false, 0;
    }

    /** pmm_ffree: out-of-range addresses are ignored and the run is cut off at the last frame. */
    method Ffree(addr: nat, cnt: nat)
      requires Valid() && cnt < U32
      modifies bitmap
      ensures Valid()
      ensures Free() == if addr < memHigh then old(Free()) + (set f | f in FrameRange(addr / FRAME_SIZE, cnt) && f < nframes)
                        else old(Free())
    {
      if addr < memLow || addr >= memHigh || cnt == 0 {
        return;
      }
      var stidx := (addr - memLow) / FRAME_SIZE;
      var i := 0;
      while i < cnt && stidx + i < nframes
        invariant 0 <= i <= cnt && Valid()
        invariant Free() == old(Free()) + (set f | f in FrameRange(stidx, i) && f < nframes)
      {
        MarkFree(stidx + i);
        i := i + 1;
      }
    }
  }
}
