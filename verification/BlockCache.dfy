/**
 The one-block write-back cache and the undo log of limine-binary/limine.c.
 */
module BlockCache {

  import opened Basics

  const NO_BLOCK := 0xFFFF_FFFF_FFFF_FFFF   // (uint64_t)-1
  const LOG_MAX := 256                      // UNINSTALL_DATA_MAX

  // ---------------------------------------------------------------- flat arrays

  predicate Fits(d: seq<Byte>, off: nat, data: seq<Byte>) { data == [] || off + |data| <= |d| }

  /** d with `data` written at offset off. */
  function Overlay(d: seq<Byte>, off: nat, data: seq<Byte>): (r: seq<Byte>)
    requires Fits(d, off, data)
    ensures |r| == |d|
    ensures forall b | 0 <= b < |d| :: r[b] == if off <= b < off + |data| then data[b - off] else d[b]
  {
    if data == [] then d else d[..off] + data + d[off + |data|..]
  }

  lemma OverlayTwice(d: seq<Byte>, off: nat, a: seq<Byte>, b: seq<Byte>)
    requires off + |a| + |b| <= |d|
    ensures Overlay(Overlay(d, off, a), off + |a|, b) == Overlay(d, off, a + b)
  {
  }

  /** Changing part of a cached block and writing the block back changes just that part. */
  lemma OverlayWithin(d: seq<Byte>, s: nat, cache: seq<Byte>, off: nat, piece: seq<Byte>)
    requires s + |cache| <= |d| && off + |piece| <= |cache|
    ensures Overlay(d, s, Overlay(cache, off, piece)) == Overlay(Overlay(d, s, cache), s + off, piece)
  {
  }

  // ---------------------------------------------------------------- the undo log

  /** What _device_write saves before it writes: the bytes that were there. */
  datatype Saved = Saved(data: seq<Byte>, loc: nat)

  predicate Covers(e: Saved, b: nat) { e.loc <= b < e.loc + |e.data| }

  predicate Covered(log: seq<Saved>, b: nat)
  {
    exists i | 0 <= i < |log| :: Covers(log[i], b)
  }

  lemma CoveredAppend(log: seq<Saved>, e: Saved, b: nat)
    ensures Covered(log + [e], b) <==> Covered(log, b) || Covers(e, b)
  {
    var log' := log + [e];
    assert log'[|log|] == e;
    forall i | 0 <= i < |log|
      ensures log'[i] == log[i]
    {
    }
  }

  /** Entry i saved origin's byte wherever no earlier entry covers it. */
  ghost predicate EntryOk(origin: seq<Byte>, log: seq<Saved>, i: nat)
    requires i < |log|
  {
    && Fits(origin, log[i].loc, log[i].data)
    && forall b: nat | Covers(log[i], b) && !Covered(log[..i], b) :: log[i].data[b - log[i].loc] == origin[b]
  }

  ghost predicate LogOk(origin: seq<Byte>, log: seq<Saved>)
  {
    forall i: nat {:trigger EntryOk(origin, log, i)} | i < |log| :: EntryOk(origin, log, i)
  }

  ghost predicate AgreesOutside(d: seq<Byte>, origin: seq<Byte>, log: seq<Saved>)
  {
    |d| == |origin| && forall b: nat | b < |d| && !Covered(log, b) :: d[b] == origin[b]
  }

  /** The effect of writing the entries out, first to last. */
  ghost function Replay(d: seq<Byte>, s: seq<Saved>): (r: seq<Byte>)
    ensures |r| == |d|
    decreases |s|
  {
    if s == [] then d
    else
      var e, before := s[|s| - 1], Replay(d, s[..|s| - 1]);
      if Fits(d, e.loc, e.data) then Overlay(before, e.loc, e.data) else before
  }

  function Reversed(s: seq<Saved>): seq<Saved>
  {
    seq(|s|, i requires 0 <= i < |s| => s[|s| - 1 - i])
  }

  /** Replaying the newest k entries, newest first, leaves only the older ones to undo. */
  lemma {:induction false} ReplayAgrees(origin: seq<Byte>, log: seq<Saved>, d: seq<Byte>, k: nat)
    requires LogOk(origin, log) && AgreesOutside(d, origin, log) && k <= |log|
    ensures AgreesOutside(Replay(d, Reversed(log)[..k]), origin, log[..|log| - k])
    decreases k
  {
    if k == 0 {
      assert log[..|log|] == log;
    } else {
      ReplayAgrees(origin, log, d, k - 1);
      var rev, n := Reversed(log), |log| - k;
      assert rev[..k][..k - 1] == rev[..k - 1];
      assert EntryOk(origin, log, n);
      assert log[..n + 1] == log[..n] + [log[n]];
      forall b: nat
        ensures Covered(log[..n + 1], b) <==> Covered(log[..n], b) || Covers(log[n], b)
      {
        CoveredAppend(log[..n], log[n], b);
      }
    }
  }

  /** The log, newest entry first, restores the original bytes from any state that agrees with
      them outside the log, whichever writes had reached the disk. */
  lemma ReplayRestores(origin: seq<Byte>, log: seq<Saved>, d: seq<Byte>)
    requires LogOk(origin, log) && AgreesOutside(d, origin, log)
    ensures Replay(d, Reversed(log)) == origin
  {
    ReplayAgrees(origin, log, d, |log|);
    assert Reversed(log)[..|log|] == Reversed(log);
    assert forall b: nat :: !Covered(log[..0], b);
  }

  /** Saving the current bytes before writing over them keeps the log good; the disk need not
      have received the write. */
  lemma LogAppend(origin: seq<Byte>, log: seq<Saved>, view: seq<Byte>, loc: nat, data: seq<Byte>, e: Saved)
    requires LogOk(origin, log) && AgreesOutside(view, origin, log) && Fits(view, loc, data)
    requires e.loc == loc && |e.data| == |data| && (data != [] ==> e.data == view[loc..loc + |data|])
    ensures LogOk(origin, log + [e]) && AgreesOutside(Overlay(view, loc, data), origin, log + [e])
  {
    var log' := log + [e];
    forall i: nat | i < |log'|
      ensures EntryOk(origin, log', i)
    {
      if i < |log| {
        assert EntryOk(origin, log, i);
        assert log'[..i] == log[..i];
      } else {
        assert log'[..i] == log;
      }
    }
    forall b: nat
      ensures Covered(log', b) <==> Covered(log, b) || Covers(e, b)
    {
      CoveredAppend(log, e, b);
    }
  }

  /** A disk that mixes old bytes and already written ones outside the new entry is covered too. */
  lemma MixedDisk(origin: seq<Byte>, log: seq<Saved>, e: Saved, disk: seq<Byte>, was: seq<Byte>, view: seq<Byte>)
    requires AgreesOutside(was, origin, log) && AgreesOutside(view, origin, log) && |disk| == |was|
    requires forall b: nat | b < |disk| && !Covers(e, b) :: disk[b] == was[b] || disk[b] == view[b]
    ensures AgreesOutside(disk, origin, log + [e])
  {
    forall b: nat
      ensures Covered(log + [e], b) <==> Covered(log, b) || Covers(e, b)
    {
      CoveredAppend(log, e, b);
    }
  }

  lemma ReplayNone(d: seq<Byte>)
    ensures Replay(d, []) == d
  {
  }

  lemma ReplayNext(d: seq<Byte>, s: seq<Saved>, e: Saved)
    ensures Fits(d, e.loc, e.data) ==> Replay(d, s + [e]) == Overlay(Replay(d, s), e.loc, e.data)
  {
    assert (s + [e])[..|s|] == s;
  }

  lemma OverlayNone(d: seq<Byte>, off: nat)
    ensures Overlay(d, off, []) == d
  {
  }

  /** Writing the next piece of data behind the pieces already written. */
  lemma OverlayNext(d: seq<Byte>, loc: nat, data: seq<Byte>, done: nat, chunk: nat)
    requires done + chunk <= |data| && loc + done + chunk <= |d| && Fits(d, loc, data[..done])
    ensures Fits(d, loc, data[..done + chunk]) && Fits(Overlay(d, loc, data[..done]), loc + done, data[done..done + chunk])
    ensures Overlay(Overlay(d, loc, data[..done]), loc + done, data[done..done + chunk]) == Overlay(d, loc, data[..done + chunk])
  {
    assert data[..done + chunk] == data[..done] + data[done..done + chunk];
    OverlayTwice(d, loc, data[..done], data[done..done + chunk]);
  }

  lemma OverlayStart(d: seq<Byte>, loc: nat, data: seq<Byte>)
    ensures Fits(d, loc, data[..0]) && Overlay(d, loc, data[..0]) == d
  {
    assert data[..0] == [];
    OverlayNone(d, loc);
  }

  lemma SameSize(d: seq<Byte>, v: seq<Byte>, loc: nat, data: seq<Byte>)
    requires |d| == |v|
    ensures Fits(d, loc, data) <==> Fits(v, loc, data)
  {
  }

  /** Bytes outside the written range are on disk as they were, or as they were to be seen. */
  ghost predicate Untouched(disk: seq<Byte>, was: seq<Byte>, view: seq<Byte>, loc: nat, count: nat)
  {
    && |disk| == |was| == |view|
    && forall b: nat | b < |disk| && !(loc <= b < loc + count) :: disk[b] == was[b] || disk[b] == view[b]
  }

  lemma UntouchedStart(disk: seq<Byte>, view: seq<Byte>, loc: nat, count: nat)
    requires |view| == |disk|
    ensures Untouched(disk, disk, view, loc, count)
  {
  }

  /** A flush in the middle of a write moves only such bytes to the disk. */
  lemma UntouchedStep(d: seq<Byte>, v: seq<Byte>, d': seq<Byte>, was: seq<Byte>, view: seq<Byte>, loc: nat, data: seq<Byte>, done: nat)
    requires done <= |data| && Fits(view, loc, data[..done]) && v == Overlay(view, loc, data[..done])
    requires Untouched(d, was, view, loc, |data|) && (d' == d || d' == v)
    ensures Untouched(d', was, view, loc, |data|)
  {
  }

  lemma UntouchedMixed(origin: seq<Byte>, log: seq<Saved>, e: Saved, disk: seq<Byte>, was: seq<Byte>, view: seq<Byte>, data: seq<Byte>)
    requires AgreesOutside(was, origin, log) && AgreesOutside(view, origin, log)
    requires |e.data| == |data| && Untouched(disk, was, view, e.loc, |data|)
    ensures AgreesOutside(disk, origin, log + [e])
  {
    MixedDisk(origin, log, e, disk, was, view);
  }

  // ---------------------------------------------------------------- blocks

  function Start(block: nat, n: nat): nat { block * n }

  function BlockOf(x: nat, n: nat): nat
    requires n > 0
  {
    x / n
  }

  function OffsetIn(x: nat, n: nat): nat
    requires n > 0
  {
    x % n
  }

  lemma BlockSplit(x: nat, n: nat)
    requires n > 0
    ensures x == Start(BlockOf(x, n), n) + OffsetIn(x, n) && OffsetIn(x, n) < n
  {
  }

  lemma NextStart(a: nat, n: nat)
    ensures Start(a + 1, n) == Start(a, n) + n
  {
  }

  lemma {:induction false} StartMono(a: nat, b: nat, n: nat)
    ensures a < b ==> Start(a, n) + n <= Start(b, n)
    decreases b
  {
    hide Start;
    if a < b {
      NextStart(b - 1, n);
      if a < b - 1 { StartMono(a, b - 1, n); }
    }
  }

  /** A position further on is in the same block or a later one. */
  lemma BlockOrder(x: nat, y: nat, n: nat)
    requires n > 0 && x <= y
    ensures BlockOf(x, n) <= BlockOf(y, n)
    ensures Start(BlockOf(x, n), n) <= Start(BlockOf(y, n), n)
    ensures y < Start(BlockOf(x, n), n) + n ==> BlockOf(y, n) == BlockOf(x, n)
  {
    hide Start, BlockOf, OffsetIn;
    BlockSplit(x, n);
    BlockSplit(y, n);
    StartMono(BlockOf(y, n), BlockOf(x, n), n);
    StartMono(BlockOf(x, n), BlockOf(y, n), n);
  }

  lemma NotWhole(block: nat, n: nat, len: nat)
    requires n > 0 && Start(block, n) < len < Start(block, n) + n
    ensures OffsetIn(len, n) != 0
  {
    hide Start, BlockOf, OffsetIn;
    BlockSplit(len, n);
    StartMono(BlockOf(len, n), block, n);
    StartMono(block, BlockOf(len, n), n);
  }

  /** The bytes from pos to the end of d also stand at s. */
  predicate TailSame(d: seq<Byte>, pos: nat, s: nat)
  {
    s <= pos && (pos < |d| ==> d[pos..] == d[s..s + |d| - pos])
  }

  lemma TailSameBeyond(d: seq<Byte>, pos: nat, s: nat)
    ensures pos >= |d| && s <= pos ==> TailSame(d, pos, s)
  {
  }

  /** Reading the tail over a clean copy of another block keeps the copy exactly when the bytes agree. */
  lemma TailOver(d: seq<Byte>, c: seq<Byte>, pos: nat, s: nat)
    requires s + |c| <= |d| && d[s..s + |c|] == c && pos < |d| < pos + |c|
    ensures d[pos..] + c[|d| - pos..] == d[s..s + |c|] <==> TailSame(d, pos, s)
  {
    var t := |d| - pos;
    assert c[t..] == d[s + t..s + |c|];
    assert d[s..s + |c|] == d[s..s + t] + d[s + t..s + |c|];
    assert (d[pos..] + c[t..])[..t] == d[pos..];
  }

  lemma BlockSmall(x: nat, n: nat)
    requires n > 0 && x < NO_BLOCK
    ensures BlockOf(x, n) < NO_BLOCK
  {
    assert x / n <= x;
  }

  /** All blocks touched by [loc, loc + count) are wholly on a device of `size` bytes. */
  predicate OnDevice(size: nat, n: nat, loc: nat, count: nat)
    requires n > 0
  {
    count == 0 || Start(BlockOf(loc + count - 1, n), n) + n <= size
  }

  lemma EmptyOnDevice(size: nat, n: nat, loc: nat)
    requires n > 0
    ensures OnDevice(size, n, loc, 0)
  {
  }

  predicate AllOnDevice(size: nat, n: nat, s: seq<Saved>)
    requires n > 0
  {
    forall e | e in s :: OnDevice(size, n, e.loc, |e.data|)
  }

  lemma SliceStep(v: seq<Byte>, s: nat, cache: seq<Byte>, offset: nat, chunk: nat, loc: nat, progress: nat)
    requires s + |cache| <= |v| && v[s..s + |cache|] == cache && offset + chunk <= |cache| && s + offset == loc + progress
    ensures v[loc..loc + progress] + cache[offset..offset + chunk] == v[loc..loc + progress + chunk]
  {
    forall j | 0 <= j < |cache|
      ensures cache[j] == v[s + j]
    {
      assert cache[j] == v[s..s + |cache|][j];
    }
  }

  /** A file of one and a half blocks of 512 bytes: asking for the half block fails, and the clean cached block 0
      is then no longer what the disk holds. */
  method StaleTail() returns (d: Device)
    ensures d.Shape() && d.blockSize == 512 && |d.disk| == 768 && d.cachedBlock == 0 && !d.dirty && !d.Fresh()
  {
    var bytes := seq<Byte>(768, i => if i < 512 then 5 else 7);
    d := new Device(bytes, 512);
    var ok := d.CacheBlock(1);
    assert d.disk[512..][0] == 7 && d.disk[0..256][0] == 5;
  }

  class Device {
    const blockSize: nat
    var disk: seq<Byte>
    var cache: seq<Byte>
    var cachedBlock: nat
    var dirty: bool
    var uninstalling: bool
    const log: array<Saved>
    var logLen: nat
    ghost const origin: seq<Byte>

    ghost predicate Shape()
      reads `disk, `cache, `cachedBlock, `dirty
    {
      && blockSize >= 2 && |cache| == blockSize && |disk| < NO_BLOCK
      && (cachedBlock == NO_BLOCK ==> !dirty)
      && (cachedBlock != NO_BLOCK ==> Start(cachedBlock, blockSize) + blockSize <= |disk|)
    }

    /** A clean cached block holds what the disk holds. */
    ghost predicate Fresh()
      reads `disk, `cache, `cachedBlock, `dirty
      requires Shape()
    {
      cachedBlock != NO_BLOCK && !dirty ==> cache == disk[Start(cachedBlock, blockSize)..Start(cachedBlock, blockSize) + blockSize]
    }

    /** The bytes a reader should see: the disk, with a dirty cached block in its place. */
    ghost function View(): (v: seq<Byte>)
      reads `disk, `cache, `cachedBlock, `dirty
      requires Shape()
      ensures |v| == |disk|
    {
      if dirty then Overlay(disk, Start(cachedBlock, blockSize), cache) else disk
    }

    ghost predicate LogShape()
      reads this, log
    {
      && log.Length == LOG_MAX && logLen <= LOG_MAX
      && forall e | e in log[..logLen] :: e.loc + |e.data| < NO_BLOCK
    }

    /** The log undoes everything that has reached the disk. */
    ghost predicate Recoverable()
      reads this, log
    {
      && Shape() && LogShape() && AllOnDevice(|disk|, blockSize, log[..logLen])
      && LogOk(origin, log[..logLen]) && AgreesOutside(disk, origin, log[..logLen])
    }

    /** While installing, the log also undoes what is still in the cache. */
    ghost predicate Valid()
      reads this, log
    {
      Recoverable() && Fresh() && AgreesOutside(View(), origin, log[..logLen])
    }

    /** device_init: block 0 cached and clean, nothing written yet. */
    constructor (bytes: seq<Byte>, n: nat)
      requires 2 <= n <= |bytes| < NO_BLOCK
      ensures Valid() && disk == origin == bytes && View() == bytes && !uninstalling && logLen == 0 && blockSize == n && fresh(log)
      ensures cachedBlock == 0 && !dirty
    {
      blockSize, disk, cache, cachedBlock, dirty := n, bytes, bytes[..n], 0, false;
      uninstalling, logLen, origin := false, 0, bytes;
      log := new Saved[LOG_MAX](i => Saved([], 0));
    }

    /** device_flush_cache */
    method Flush()
      requires Shape()
      modifies `disk, `dirty
      ensures Shape() && !dirty && disk == old(View()) && (old(Fresh()) ==> Fresh())
    {
      hide Start;
      if !dirty { return; }
      disk := Overlay(disk, Start(cachedBlock, blockSize), cache);
      dirty := false;
    }

    /** The short read at the end of the file, into the buffer of whatever block is cached. */
    method ReadTail(pos: nat)
      requires Shape() && !dirty && pos < |disk| < pos + blockSize
      modifies `cache
      ensures Shape() && View() == old(View())
      ensures old(Fresh()) ==> (Fresh() <==> cachedBlock == NO_BLOCK || TailSame(disk, pos, Start(cachedBlock, blockSize)))
    {
      hide Start, TailSame, Overlay;
      if Fresh() && cachedBlock != NO_BLOCK { TailOver(disk, cache, pos, Start(cachedBlock, blockSize)); }
      cache := disk[pos..] + cache[|disk| - pos..];
    }

    /** device_cache_block; false when the block is not wholly on the device.  A failed read near
        the end leaves the tail of the file in the buffer of the block cached before; the cache is then
        right only if that block starts with the same bytes. */
    method CacheBlock(block: nat) returns (ok: bool)
      requires Shape() && block < NO_BLOCK
      modifies `disk, `dirty, `cache, `cachedBlock
      ensures Shape() && (ok <==> Start(block, blockSize) + blockSize <= |disk|)
      ensures View() == old(View()) && (disk == old(disk) || disk == old(View()))
      ensures cachedBlock == if ok then block else old(cachedBlock)
      ensures ok && old(Fresh()) ==> Fresh()
      ensures !ok && old(Fresh()) ==>
                (Fresh() <==> cachedBlock == NO_BLOCK || TailSame(disk, Start(block, blockSize), Start(cachedBlock, blockSize)))
      ensures !ok && OffsetIn(|disk|, blockSize) == 0 ==> Start(block, blockSize) >= |disk|
      ensures !ok ==> !dirty
    {
      hide Start, OffsetIn, TailSame, Overlay;
      if cachedBlock == block { return true; }
      if dirty { Flush(); }
      var pos := Start(block, blockSize);
      if pos + blockSize > |disk| {
        TailSameBeyond(disk, pos, Start(cachedBlock, blockSize));
        if pos < |disk| {
          NotWhole(block, blockSize, |disk|);
          ReadTail(pos);
        }
        return false;
      }
      cache := disk[pos..pos + blockSize];
      cachedBlock := block;
      ok := true;
    }

    /** The cached block reads the same through the cache and through the view. */
    lemma CacheIsView()
      requires Shape() && Fresh() && cachedBlock != NO_BLOCK
      ensures View()[Start(cachedBlock, blockSize)..Start(cachedBlock, blockSize) + blockSize] == cache
      ensures View() == Overlay(disk, Start(cachedBlock, blockSize), cache)
    {
    }

    /** One chunk of a transfer: its block is cached and holds the chunk. */
    method NextChunk(loc: nat, count: nat, progress: nat) returns (ok: bool, offset: nat, chunk: nat)
      requires Shape() && loc + count < NO_BLOCK && progress < count
      modifies `disk, `dirty, `cache, `cachedBlock
      ensures Shape() && View() == old(View()) && (disk == old(disk) || disk == old(View()))
      ensures ok ==> (old(Fresh()) ==> Fresh())
      ensures ok ==> cachedBlock != NO_BLOCK && Start(cachedBlock, blockSize) + offset == loc + progress
      ensures ok ==> 0 < chunk <= count - progress && offset + chunk <= blockSize && loc + progress + chunk <= |disk|
      ensures ok && progress + chunk == count ==> OnDevice(|disk|, blockSize, loc, count)
      ensures !ok ==> !OnDevice(|disk|, blockSize, loc, count) && !dirty
    {
      hide Start, BlockOf, OffsetIn, Overlay;
      var block := BlockOf(loc + progress, blockSize);
      BlockSplit(loc + progress, blockSize);
      BlockOrder(loc + progress, loc + count - 1, blockSize);
      BlockSmall(loc + progress, blockSize);
      offset, chunk := 0, 0;
      ok := CacheBlock(block);
      if !ok { return; }
      chunk := count - progress;
      offset := OffsetIn(loc + progress, blockSize);
      if chunk > blockSize - offset { chunk := blockSize - offset; }
    }

    /** _device_read: the bytes a plain array would hold. */
    method Read(loc: nat, count: nat) returns (ok: bool, buf: seq<Byte>)
      requires Shape() && Fresh() && loc + count < NO_BLOCK
      modifies `disk, `dirty, `cache, `cachedBlock
      ensures Shape() && View() == old(View()) && (disk == old(disk) || disk == old(View()))
      ensures ok <==> OnDevice(|disk|, blockSize, loc, count)
      ensures ok ==> Fresh() && |buf| == count
      ensures ok && count > 0 ==> loc + count <= |View()| && buf == View()[loc..loc + count]
    {
      hide Start, BlockOf, OffsetIn, OnDevice, Overlay, View, Fresh;
      buf := [];
      var progress := 0;
      while progress < count
        invariant 0 <= progress <= count && |buf| == progress
        invariant Shape() && Fresh() && View() == old(View()) && (disk == old(disk) || disk == old(View()))
        invariant progress > 0 ==> loc + progress <= |View()| && buf == View()[loc..loc + progress]
        invariant progress > 0 && progress == count ==> OnDevice(|disk|, blockSize, loc, count)
      {
        var offset, chunk;
        ok, offset, chunk := NextChunk(loc, count, progress);
        if !ok { return; }
        CacheIsView();
        SliceStep(View(), Start(cachedBlock, blockSize), cache, offset, chunk, loc, progress);
        buf := buf + cache[offset..offset + chunk];
        progress := progress + chunk;
      }
      EmptyOnDevice(|disk|, blockSize, loc);
      ok := true;
    }

    /** Overwrite part of the cached block. */
    method Patch(offset: nat, piece: seq<Byte>)
      requires Shape() && cachedBlock != NO_BLOCK && offset + |piece| <= blockSize
      modifies `cache, `dirty
      ensures Shape() && Fresh() && dirty && Start(cachedBlock, blockSize) + offset + |piece| <= |disk|
      ensures old(Fresh()) ==> View() == Overlay(old(View()), Start(cachedBlock, blockSize) + offset, piece)
    {
      hide Start;
      OverlayWithin(disk, Start(cachedBlock, blockSize), cache, offset, piece);
      assert Fresh() ==> View() == Overlay(disk, Start(cachedBlock, blockSize), cache);
      cache := Overlay(cache, offset, piece);
      dirty := true;
    }

    /** One turn of the copy loop of _device_write. */
    method WriteChunk(data: seq<Byte>, loc: nat, progress: nat) returns (ok: bool, chunk: nat)
      requires Shape() && loc + |data| < NO_BLOCK && progress < |data|
      modifies `disk, `dirty, `cache, `cachedBlock
      ensures Shape() && (disk == old(disk) || disk == old(View()))
      ensures ok ==> 0 < chunk <= |data| - progress && loc + progress + chunk <= |disk|
      ensures ok && old(Fresh()) ==> Fresh() && View() == Overlay(old(View()), loc + progress, data[progress..progress + chunk])
      ensures ok && progress + chunk == |data| ==> OnDevice(|disk|, blockSize, loc, |data|)
      ensures !ok ==> !OnDevice(|disk|, blockSize, loc, |data|) && !dirty
    {
      hide Start, BlockOf, OffsetIn, OnDevice, Overlay, Fresh, View;
      var offset;
      ok, offset, chunk := NextChunk(loc, |data|, progress);
      if ok { Patch(offset, data[progress..progress + chunk]); }
    }

    /** The copy loop of _device_write. */
    method WriteBytes(data: seq<Byte>, loc: nat) returns (ok: bool)
      requires Shape() && loc + |data| < NO_BLOCK
      modifies `disk, `dirty, `cache, `cachedBlock
      ensures Shape() && |disk| == |old(disk)| && (ok <==> OnDevice(|disk|, blockSize, loc, |data|))
      ensures !ok ==> !dirty
      ensures ok ==> Fits(disk, loc, data)
      ensures ok && old(Fresh()) ==> Fresh() && View() == Overlay(old(View()), loc, data)
      ensures ok && old(Fresh()) ==> Untouched(disk, old(disk), old(View()), loc, |data|)
    {
      hide Start, BlockOf, OffsetIn, OnDevice, Overlay, Untouched, Fresh, View, Fits;
      var progress := 0;
      UntouchedStart(disk, View(), loc, |data|);
      OverlayStart(View(), loc, data);
      while progress < |data|
        invariant 0 <= progress <= |data| && Fits(old(View()), loc, data[..progress])
        invariant Shape() && |disk| == |old(disk)|
        invariant old(Fresh()) ==> Fresh() && View() == Overlay(old(View()), loc, data[..progress])
        invariant old(Fresh()) ==> Untouched(disk, old(disk), old(View()), loc, |data|)
        invariant progress > 0 && progress == |data| ==> OnDevice(|disk|, blockSize, loc, |data|)
      {
        ghost var d, v := disk, View();
        var chunk;
        ok, chunk := WriteChunk(data, loc, progress);
        if !ok { return; }
        if old(Fresh()) { UntouchedStep(d, v, disk, old(disk), old(View()), loc, data, progress); }
        OverlayNext(old(View()), loc, data, progress, chunk);
        progress := progress + chunk;
      }
      assert data[..|data|] == data;
      SameSize(disk, old(View()), loc, data);
      EmptyOnDevice(|disk|, blockSize, loc);
      ok := true;
    }

    /** _device_write.  While installing it first saves the bytes it is about to replace, and
        refuses when the log is full. */
    method Write(data: seq<Byte>, loc: nat) returns (ok: bool)
      requires Valid() && !uninstalling && loc + |data| < NO_BLOCK
      modifies `disk, `dirty, `cache, `cachedBlock, `logLen, log
      ensures ok <==> old(logLen) < LOG_MAX && OnDevice(|disk|, blockSize, loc, |data|)
      ensures ok ==> Valid() && Fits(disk, loc, data) && View() == Overlay(old(View()), loc, data)
      ensures ok ==> logLen == old(logLen) + 1
      ensures !ok ==> Recoverable() && View() == old(View()) && logLen == old(logLen)
    {
      hide Start, BlockOf, OffsetIn, OnDevice, Overlay, Untouched, Fresh, LogOk, AgreesOutside;
      if logLen >= LOG_MAX { return false; }
      ghost var l, v := log[..logLen], View();
      var saved;
      ok, saved := Read(loc, |data|);
      if !ok { return; }
      ghost var d := disk;
      log[logLen] := Saved(saved, loc);
      assert log[..logLen] == l;
      ok := WriteBytes(data, loc);
      LogAppend(origin, l, v, loc, data, log[logLen]);
      UntouchedMixed(origin, l, log[logLen], disk, d, v, data);
      logLen := logLen + 1;
      assert log[..logLen] == l + [log[logLen - 1]];
    }

    /** reverse_uninstall_data */
    method ReverseLog()
      requires LogShape()
      modifies log
      ensures LogShape() && log[..logLen] == Reversed(old(log[..logLen]))
    {
      var rev := new Saved[LOG_MAX](i => Saved([], 0));
      ghost var l := log[..logLen];
      for i := 0 to logLen
        invariant forall k | logLen - i <= k < logLen :: rev[k] == l[logLen - 1 - k]
        invariant log[..logLen] == l
      {
        rev[logLen - 1 - i] := log[i];
      }
      forall i | 0 <= i < logLen { log[i] := rev[i]; }
      assert forall e | e in log[..logLen] :: e in l;
    }

    /** One entry of the uninstall loop, with its single retry on an empty cache. */
    method Restore(e: Saved) returns (ok: bool)
      requires Shape() && e.loc + |e.data| < NO_BLOCK
      modifies `disk, `dirty, `cache, `cachedBlock
      ensures Shape() && |disk| == |old(disk)| && (ok <==> OnDevice(|disk|, blockSize, e.loc, |e.data|))
      ensures ok ==> Fits(disk, e.loc, e.data)
      ensures ok && old(Fresh()) ==> Fresh() && View() == Overlay(old(View()), e.loc, e.data)
    {
      hide Start, BlockOf, OffsetIn, OnDevice, Overlay, Untouched, Fresh;
      ok := WriteBytes(e.data, e.loc);
      if !ok {
        Flush();
        dirty, cachedBlock := false, NO_BLOCK;
        ok := WriteBytes(e.data, e.loc);
      }
    }

    /** uninstall: drop the cache, write every entry in order, flush.  It succeeds exactly when every
        entry lies on the device, and then the disk holds the entries replayed in order. */
    method Uninstall() returns (ret: bool)
      requires Shape() && LogShape()
      modifies `disk, `dirty, `cache, `cachedBlock, `uninstalling
      ensures Shape() && LogShape() && |disk| == |old(disk)| && !dirty && uninstalling
      ensures ret <==> AllOnDevice(|disk|, blockSize, log[..logLen])
      ensures ret ==> disk == Replay(old(disk), log[..logLen])
    {
      hide Start, BlockOf, OffsetIn, OnDevice, Overlay, Replay;
      uninstalling := true;
      dirty, cachedBlock := false, NO_BLOCK;
      ret := true;
      ReplayNone(disk);
      for i := 0 to logLen
        invariant Shape() && LogShape() && |disk| == |old(disk)| && uninstalling
        invariant ret <==> AllOnDevice(|disk|, blockSize, log[..i])
        invariant ret ==> Fresh() && View() == Replay(old(disk), log[..i])
      {
        var ok := Restore(log[i]);
        if !ok { ret := false; }
        ReplayNext(old(disk), log[..i], log[i]);
        assert log[..i] + [log[i]] == log[..i + 1];
      }
      Flush();
    }

    /** bios_install's failure path: reverse the log and write it back.  From any state an
        install can have stopped in, this restores the device byte for byte. */
    method Rollback() returns (ret: bool)
      requires Recoverable()
      modifies `disk, `dirty, `cache, `cachedBlock, `uninstalling, log
      ensures ret && disk == origin
    {
      hide Start, BlockOf, OffsetIn, OnDevice, Overlay, Replay, LogOk, AgreesOutside;
      ReplayRestores(origin, log[..logLen], disk);
      ghost var l := log[..logLen];
      ReverseLog();
      assert forall e | e in log[..logLen] :: e in l;
      ret := Uninstall();
    }
  }
}
