/**
 virtio_blk_transfer (src/drivers/storage/block/virtio_blk.c) with its DMA page as bytes and the device at the
 other end of the queue.
 */
module BlockDriver {
  import opened Basics
  import opened RingArithmetic
  import opened VirtqueueModel
  import opened VirtqueueRuns
  import opened Virtqueue

  const T_IN := 0      // VIRTIO_BLK_T_IN, a sector read
  const T_OUT := 1     // VIRTIO_BLK_T_OUT
  const S_OK := 0      // VIRTIO_BLK_S_OK
  const SECTOR := 512
  const PAGE := 4096

  const EFULL := -1    // the negative codes are told apart by name only
  const EDISK := -2

  /** What a device answers to a request: a sector, which matters for reads, and a status. */
  datatype Answer = Answer(sector: Bytes, status: Byte)

  /** A device: its answer to a request type, a sector number and, on a write, the sector to be written. */
  type Disk = (nat, nat, Bytes) -> Answer

  function HeaderBytes(kind: nat, lba: nat): (s: Bytes)
    ensures |s| == 16
  {
    Le(kind, 4) + Le(0, 4) + Le(lba, 8)
  }

  lemma HeaderReads(kind: nat, lba: nat)
    requires kind < 0x1_0000_0000 && lba < U64
    ensures FromLe(HeaderBytes(kind, lba)[..4]) == kind && FromLe(HeaderBytes(kind, lba)[8..16]) == lba
  {
    var s := HeaderBytes(kind, lba);
    assert s[..4] == Le(kind, 4) && s[8..16] == Le(lba, 8);
    assert Pow256(4) == 0x1_0000_0000;
    LeRoundTrip(kind, 4);
    WordRoundTrip(lba);
  }

  class BlockDevice {
    const queue: SplitQueue
    const dma: array<Byte>
    const dmaPhys: nat

    ghost predicate Valid()
      reads this, queue, queue.desc, queue.availRing, queue.usedRing
    {
      queue.Valid() && dma.Length == PAGE
    }

    /** No request is under way. */
    ghost predicate Idle()
      reads this, queue
    {
      queue.chains == map[] && queue.polled == |queue.published|
    }

    /** The part of virtio_blk_enumerate that sets up the queue and the zeroed page. */
    constructor (size: nat, phys: nat)
      requires RingSize(size)
      ensures Valid() && Idle() && queue.freeCount == size && dmaPhys == phys && fresh(queue) && fresh(dma)
    {
      queue := new SplitQueue(size, Elem(0, 0));
      dma := new Byte[PAGE](i => 0);
      dmaPhys := phys;
    }

    /** memcpy into the page. */
    method Store(off: nat, s: Bytes)
      requires dma.Length == PAGE && off + |s| <= PAGE
      modifies dma
      ensures dma[off..off + |s|] == s
      ensures forall i | 0 <= i < PAGE && !(off <= i < off + |s|) :: dma[i] == old(dma[i])
    {
      forall i | 0 <= i < |s| { dma[off + i] := s[i]; }
    }

    /** Header, status and, for a write, the caller's sector. */
    method Prepare(kind: nat, lba: nat, buf: Bytes)
      requires dma.Length == PAGE && |buf| == SECTOR
      modifies dma
      ensures dma[HDR_OFF..HDR_OFF + 16] == HeaderBytes(kind, lba) && (kind == T_OUT ==> dma[BUF_OFF..BUF_OFF + SECTOR] == buf)
      ensures dma[STATUS_OFF] == 0xFF
    {
      Store(HDR_OFF, Le(kind, 4));
      Store(HDR_OFF + 4, Le(0, 4));
      Store(HDR_OFF + 8, Le(lba, 8));
      Store(STATUS_OFF, [0xFF]);
      assert dma[STATUS_OFF..STATUS_OFF + 1][0] == 0xFF;
      assert dma[HDR_OFF..HDR_OFF + 16] == dma[HDR_OFF..HDR_OFF + 4] + dma[HDR_OFF + 4..HDR_OFF + 8] + dma[HDR_OFF + 8..HDR_OFF + 16];
      ghost var hdr := dma[HDR_OFF..HDR_OFF + 16];
      if kind == T_OUT {
        Store(BUF_OFF, buf);
        assert dma[HDR_OFF..HDR_OFF + 16] == hdr;
      }
    }

    /** One request is under way: its chain is that of a block request in this page, and the device has not looked at it. */
    ghost predicate Submitted(d0: int, kind: nat)
      reads this, queue, queue.desc, queue.availRing, queue.usedRing
      requires Valid()
    {
      && 0 <= d0 && queue.chains.Keys == {d0} && |queue.chains[d0]| == 3 && BlockRequest(queue.desc[..], queue.chains[d0], dmaPhys, kind == T_IN)
      && queue.taken + 1 == |queue.submitted| && queue.submitted[queue.taken] == d0 && queue.polled == |queue.published|
    }

    /** The device reads the request through the descriptors, and stores its answer through those it may write. */
    method Serve(d0: int, ghost kind: nat, disk: Disk) returns (a: Answer)
      requires Valid() && Submitted(d0, kind) && kind <= T_OUT && FromLe(dma[HDR_OFF..HDR_OFF + 16][..4]) == kind
      requires forall k, l, d :: |disk(k, l, d).sector| == SECTOR
      modifies queue, queue.usedRing, dma
      ensures Valid() && queue.chains == old(queue.chains) && queue.freeCount == old(queue.freeCount)
      ensures queue.polled == old(queue.polled) < |queue.published|
      ensures a == disk(kind, FromLe(old(dma[HDR_OFF..HDR_OFF + 16])[8..16]), if kind == T_OUT then old(dma[BUF_OFF..BUF_OFF + SECTOR]) else [])
      ensures dma[STATUS_OFF] == a.status && (kind == T_IN ==> dma[BUF_OFF..BUF_OFF + SECTOR] == a.sector)
    {
      hide OwnersOk, FreeListOk, AvailOk, UsedOk, StagesOk, PendingOk, FromLe;
      ChainNext(queue.Q(), d0);
      HeadTaken(queue.Q(), d0);
      var head := queue.DeviceTakes();
      var h := queue.desc[head];
      var b := queue.desc[h.next];
      var st := queue.desc[b.next];
      a := Answers(h, b, st, kind, disk);
      queue.DeviceCompletes(head, b.len + 1);
    }

    /** The device's accesses to the page, all through the three descriptors. */
    method Answers(h: Desc, b: Desc, st: Desc, ghost kind: nat, disk: Disk) returns (a: Answer)
      requires dma.Length == PAGE && h.addr == dmaPhys + HDR_OFF && h.len == 16 && b.addr == dmaPhys + BUF_OFF && b.len == SECTOR
      requires st.addr == dmaPhys + STATUS_OFF && st.len == 1 && Writable(b) == (kind == T_IN)
      requires kind <= T_OUT && FromLe(dma[HDR_OFF..HDR_OFF + 16][..4]) == kind && forall k, l, d :: |disk(k, l, d).sector| == SECTOR
      modifies dma
      ensures a == disk(kind, FromLe(old(dma[HDR_OFF..HDR_OFF + 16])[8..16]), if kind == T_OUT then old(dma[BUF_OFF..BUF_OFF + SECTOR]) else [])
      ensures dma[STATUS_OFF] == a.status && (kind == T_IN ==> dma[BUF_OFF..BUF_OFF + SECTOR] == a.sector)
    {
      hide FromLe;
      var hdr := dma[h.addr - dmaPhys..h.addr - dmaPhys + h.len];
      var data := if Writable(b) then [] else dma[b.addr - dmaPhys..b.addr - dmaPhys + b.len];
      a := disk(FromLe(hdr[..4]), FromLe(hdr[8..16]), data);
      if FromLe(hdr[..4]) == T_IN && Writable(b) { Store(b.addr - dmaPhys, a.sector); }
      ghost var sector := dma[BUF_OFF..BUF_OFF + SECTOR];
      Store(st.addr - dmaPhys, [a.status]);
      assert dma[BUF_OFF..BUF_OFF + SECTOR] == sector;
      assert dma[STATUS_OFF..STATUS_OFF + 1][0] == a.status;
    }

    /** The descriptors of a chain of three, by next. */
    lemma ChainNext(q: Queue, d0: int)
      requires QueueInv(q) && d0 in q.chains && |q.chains[d0]| == 3
      ensures
        var c := q.chains[d0];
        c[0] == d0 && c[0] < q.size && c[1] < q.size && c[2] < q.size && q.desc[c[0]].next == c[1] && q.desc[c[1]].next == c[2]
    {
      assert ChainOk(q, d0);
    }

    /** The device finds that chain next, and then holds it. */
    lemma HeadTaken(q: Queue, d0: int)
      requires QueueInv(q) && q.taken < |q.submitted| && q.submitted[q.taken] == d0
      ensures d0 in DevTake(q).stage && DevTake(q).stage[d0] == Taken
    {
      TakeExact(q);
    }

    /** virtio_blk_transfer on an idle queue, with a device that answers in time.  The result is what the device answers to
        the request the caller made: on a read the sector it sent, on a write its verdict on the caller's own sector. */
    method Transfer(kind: nat, lba: nat, buf: Bytes, disk: Disk) returns (res: int, out: Bytes)
      requires Valid() && Idle() && kind <= T_OUT && lba < U64 && |buf| == SECTOR
      requires forall k, l, d :: |disk(k, l, d).sector| == SECTOR
      modifies queue, queue.desc, queue.availRing, queue.usedRing, dma
      ensures Valid() && Idle() && queue.freeCount == old(queue.freeCount)
      ensures res == EFULL <==> old(queue.freeCount) < 3
      ensures res == EFULL ==> out == buf
      ensures res != EFULL ==>
                var a := disk(kind, lba, if kind == T_OUT then buf else []);
                res == (if a.status == S_OK then 0 else EDISK) && out == if kind == T_IN && a.status == S_OK then a.sector else buf
    {
      hide OwnersOk, FreeListOk, AvailOk, UsedOk, StagesOk, PendingOk, BlockRequest;
      out := buf;
      Prepare(kind, lba, buf);
      HeaderReads(kind, lba);
      NothingUnread(queue.Q());
      ghost var page := dma[..];
      var d0 := queue.BlkSubmit(dmaPhys, kind == T_IN);
      if d0 < 0 { return EFULL, out; }
      assert dma[..] == page;
      var a := Serve(d0, kind, disk);
      var id := queue.BlkFinish(d0);
      if dma[STATUS_OFF] != S_OK { return EDISK, out; }
      if kind == T_IN { out := dma[BUF_OFF..BUF_OFF + SECTOR]; }
      res := 0;
    }

    /** An idle queue has nothing left to read. */
    lemma NothingUnread(q: Queue)
      requires QueueInv(q) && q.chains == map[]
      ensures q.taken == |q.submitted|
    {
      hide OwnersOk, FreeListOk, AvailOk, UsedOk, StagesOk, PendingOk;
      TakenBound(q);
      if q.taken < |q.submitted| { UnreadIsChain(q, q.taken); }
    }

    lemma TakenBound(q: Queue)
      requires QueueInv(q)
      ensures q.taken <= |q.submitted|
    {
    }

    lemma UnreadIsChain(q: Queue, k: nat)
      requires QueueInv(q) && q.taken <= k < |q.submitted|
      ensures q.submitted[k] in q.chains
    {
    }
  }
}
