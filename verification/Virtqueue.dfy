/**
 The driver side of src/drivers/virtio/virtqueue.c over its shared arrays, and the
 three-descriptor client of src/drivers/storage/block/virtio_blk.c.
 */
module Virtqueue {
  import opened Basics
  import opened RingArithmetic
  import opened VirtqueueModel
  import opened VirtqueueRuns

  predicate Writable(d: Desc) { d.flags / 2 % 2 == 1 }

  predicate Apart(d: Desc, e: Desc) { d.addr + d.len <= e.addr || e.addr + e.len <= d.addr }

  // where the parts of a request lie in the DMA page
  const HDR_OFF := 0
  const STATUS_OFF := 64
  const BUF_OFF := 128

  /** A block request as section 5.2.6 of VIRTIO 1.2 lays it out: header, one sector, status byte, in
      disjoint parts of the DMA page; the device may write the status and, on a read, the sector. */
  predicate BlockRequest(desc: seq<Desc>, c: seq<nat>, dmaPhys: nat, write: bool)
  {
    && |c| == 3 && (forall k | 0 <= k < 3 :: c[k] < |desc|)
    && var (h, b, s) := (desc[c[0]], desc[c[1]], desc[c[2]]);
    && h.addr == dmaPhys + HDR_OFF && h.len == 16 && !Writable(h)
    && b.addr == dmaPhys + BUF_OFF && b.len == 512 && Writable(b) == write
    && s.addr == dmaPhys + STATUS_OFF && s.len == 1 && Writable(s)
    && Apart(h, b) && Apart(b, s) && Apart(h, s)
    && dmaPhys <= b.addr && b.addr + b.len <= dmaPhys + 4096 && dmaPhys <= s.addr && s.addr + s.len <= dmaPhys + 4096
  }

  class SplitQueue {
    const size: nat
    const desc: array<Desc>
    const availRing: array<nat>
    const usedRing: array<Elem>
    var freeHead: nat
    var freeCount: nat
    var lastUsed: nat
    var availIdx: nat
    var usedIdx: nat
    var devAvail: nat    // the device's own
    ghost var owner: seq<Owner>
    ghost var freeList: seq<nat>
    ghost var chains: map<nat, seq<nat>>
    ghost var stage: map<nat, Stage>
    ghost var submitted: seq<nat>
    ghost var taken: nat
    ghost var published: seq<Elem>
    ghost var polled: nat

    ghost function Q(): Queue
      reads this, desc, availRing, usedRing
    {
      Queue(size, desc[..], freeHead, freeCount, lastUsed, availIdx, availRing[..], usedIdx, usedRing[..], devAvail,
            owner, freeList, chains, stage, submitted, taken, published, polled)
    }

    ghost predicate Valid()
      reads this, desc, availRing, usedRing
    {
      QueueInv(Q())
    }

    /** The ring set-up of virtqueue_init. */
    constructor (n: nat, dummy: Elem)
      requires RingSize(n)
      ensures Valid() && Q() == Initial(n, dummy) && fresh(desc) && fresh(availRing) && fresh(usedRing)
    {
      size := n;
      desc := new Desc[n](i => BLANK);
      availRing := new nat[n](i => 0);
      usedRing := new Elem[n](i => dummy);
      freeHead, freeCount, lastUsed, availIdx, usedIdx := 0, n, 0, 0, 0;
      devAvail, taken, polled := 0, 0, 0;
      owner := seq(n, i => Free);
      freeList := seq(n, i => i);
      chains, stage, submitted, published := map[], map[], [], [];
      new;
      for i := 0 to n
        invariant freeHead == 0 && freeCount == n && lastUsed == 0 && availIdx == 0 && usedIdx == 0 && devAvail == 0 && taken == 0 && polled == 0
        invariant owner == seq(n, i => Free) && freeList == seq(n, i => i) && chains == map[] && stage == map[] && submitted == [] && published == []
        invariant forall j | 0 <= j < n :: availRing[j] == 0 && usedRing[j] == dummy
        invariant forall j | 0 <= j < i :: desc[j] == InitDesc(n)[j]
      {
        desc[i] := Desc(0, 0, 0, if i + 1 < n then i + 1 else 0);
      }
      assert desc[..] == InitDesc(n);
      assert availRing[..] == seq(n, i => 0);
      assert usedRing[..] == seq(n, i => dummy);
      InitialInv(n, dummy);
    }

    /** virtqueue_alloc_desc; -1 when no descriptor is free. */
    method Allocate() returns (idx: int)
      requires Valid()
      modifies this, desc
      ensures Valid()
      ensures idx == -1 <==> old(freeCount) == 0
      ensures idx == -1 ==> Q() == old(Q())
      ensures idx != -1 ==> 0 <= idx < desc.Length && desc[idx] == Desc(0, 0, 0, 0)
      ensures idx != -1 ==> idx == old(freeHead) && idx < size && old(owner)[idx] == Free && old(freeList) != [] && old(freeHead) < size && Q() == AllocDesc(old(Q()))
    {
      hide OwnersOk, FreeListOk, AvailOk, UsedOk, StagesOk, PendingOk;
      if freeCount == 0 { return -1; }
      AllocDescInv(Q());
      ghost var q := Q();
      idx := freeHead;
      freeHead := desc[idx].next;
      freeCount := freeCount - 1;
      desc[idx] := BLANK;
      owner := owner[idx := Held];
      freeList := freeList[1..];
      assert Q() == AllocDesc(q);
    }

    /** virtqueue_free_desc; out-of-range indices are ignored. */
    method Release(i: nat)
      requires Valid() && (i < size ==> owner[i] == Held)
      modifies this, desc
      ensures Valid() && Q() == if i < size then FreeDesc(old(Q()), i) else old(Q())
      ensures i < size ==> i < desc.Length && freeHead == i && desc[i] == old(desc[i]).(next := old(freeHead), flags := 0)
    {
      hide OwnersOk, FreeListOk, AvailOk, UsedOk, StagesOk, PendingOk;
      if i >= size { return; }
      FreeDescInv(Q(), i);
      ghost var q := Q();
      desc[i] := desc[i].(next := freeHead, flags := 0);
      freeHead := i;
      freeCount := freeCount + 1;
      owner := owner[i := Free];
      freeList := [i] + freeList;
      assert Q() == FreeDesc(q, i);
    }

    /** virtqueue_free_chain of a completed and polled chain. */
    method ReleaseChain(head: nat)
      requires Valid() && head in stage && stage[head] == Done
      modifies this, desc
      ensures Valid() && head in old(chains)
      ensures Q() == FreeAll(VirtqueueModel.Release(old(Q()), head), old(chains)[head])
      ensures freeCount == old(freeCount) + |old(chains)[head]|
    {
      hide FreeListOk, AvailOk, UsedOk, StagesOk, FreeAll, PendingOk;
      ghost var q := Q();
      ReleaseInv(q, head);
      FreeChainInv(q, head);
      ReleaseFree(q, head);
      assert ChainOk(q, head);
      ghost var c := chains[head];
      owner, chains, stage := Assign(owner, c, Held), chains - {head}, stage - {head};
      assert Q() == VirtqueueModel.Release(q, head);
      FreeLinked(head, c);
    }

    /** The loop of virtqueue_free_chain: next and flags are read before each descriptor is freed. */
    method FreeLinked(head: nat, ghost c: seq<nat>)
      requires Valid() && Linked(desc[..], c) && c[0] == head && (forall k | 0 <= k < |c| :: owner[c[k]] == Held)
      modifies this, desc
      ensures Valid() && Q() == FreeAll(old(Q()), c)
    {
      hide OwnersOk, FreeListOk, AvailOk, UsedOk, StagesOk, PendingOk;
      ghost var q := Q();
      ghost var k := 0;
      var curr := head;
      assert c[0..] == c;
      while true
        invariant 0 <= k < |c| && curr == c[k]
        invariant Valid() && FreeAll(Q(), c[k..]) == FreeAll(q, c)
        invariant forall j | k <= j < |c| :: c[j] < size && owner[c[j]] == Held && desc[c[j]] == q.desc[c[j]]
        decreases |c| - k
      {
        var next := desc[curr].next;
        var hasNext := HasNext(desc[curr]);
        assert c[k..][0] == curr && c[k..][1..] == c[k + 1..];
        Release(curr);
        if !hasNext {
          assert k == |c| - 1;
          break;
        }
        curr, k := next, k + 1;
      }
    }

    /** virtqueue_submit_chain */
    method SubmitHead(head: nat, ghost c: seq<nat>)
      requires CanSubmit(Q(), c) && c[0] == head
      modifies this, availRing
      ensures Valid() && Q() == Submit(old(Q()), c)
    {
      hide OwnersOk, FreeListOk, AvailOk, UsedOk, StagesOk, PendingOk;
      ghost var q := Q();
      SubmitInv(q, c);
      var slot := availIdx % size;
      availRing[slot] := head;
      assert Q() == StoreHead(q, head);
      availIdx := (availIdx + 1) % U16;
      owner, chains, stage := Assign(owner, c, InFlight(head)), chains[head := c], stage[head := Queued];
      submitted := submitted + [head];
      assert Q() == Submit(q, c);
    }

    /** One observation of virtqueue_poll_used; -1 when nothing is there yet. */
    method PollOnce() returns (id: int, len: nat)
      requires Valid()
      modifies this
      ensures Valid()
      ensures id == -1 <==> old(polled) == |old(published)|
      ensures id == -1 ==> Q() == old(Q())
      ensures id != -1 ==> Q() == Poll(old(Q())) && id == old(published)[old(polled)].id && len == old(published)[old(polled)].len
    {
      hide OwnersOk, FreeListOk, AvailOk, StagesOk, PendingOk;
      ghost var q := Q();
      PollExact(q);
      if lastUsed != usedIdx {
        PollInv(q);
        var elem := usedRing[lastUsed % size];
        lastUsed := (lastUsed + 1) % U16;
        stage, polled := stage[elem.id := Done], polled + 1;
        assert Q() == Poll(q);
        return elem.id, elem.len;
      }
      return -1, 0;
    }

    /** A conforming device takes the oldest unread chain. */
    method DeviceTakes() returns (head: nat)
      requires Valid() && taken < |submitted|
      modifies this
      ensures Valid() && head == old(submitted)[old(taken)] && Q() == DevTake(old(Q()))
    {
      hide OwnersOk, FreeListOk, AvailOk, UsedOk, StagesOk, PendingOk;
      ghost var q := Q();
      TakeExact(q);
      DevTakeInv(q);
      head := availRing[devAvail % size];
      devAvail, taken, stage := (devAvail + 1) % U16, taken + 1, stage[head := Taken];
      assert Q() == DevTake(q);
    }

    /** It publishes the completion of a chain it has taken. */
    method DeviceCompletes(head: nat, len: nat)
      requires Valid() && head in stage && stage[head] == Taken
      modifies this, usedRing
      ensures Valid() && Q() == DevComplete(old(Q()), head, len)
    {
      hide OwnersOk, FreeListOk, AvailOk, UsedOk, StagesOk, PendingOk;
      ghost var q := Q();
      DevCompleteInv(q, head, len);
      usedRing[usedIdx % size] := Elem(head, len);
      usedIdx := (usedIdx + 1) % U16;
      stage, published := stage[head := Published], published + [Elem(head, len)];
      assert Q() == DevComplete(q, head, len);
    }

    /** The three allocations of virtio_blk_transfer.  If one fails, those made are given back:
        no descriptor changes hands. */
    method AllocateThree() returns (ok: bool, d0: int, d1: int, d2: int)
      requires Valid()
      modifies this, desc
      ensures Valid() && chains == old(chains) && stage == old(stage) && submitted == old(submitted) && taken == old(taken)
      ensures published == old(published) && polled == old(polled)
      ensures ok <==> old(freeCount) >= 3
      ensures !ok ==> owner == old(owner) && freeCount == old(freeCount)
      ensures ok ==> 0 <= d0 < size && 0 <= d1 < size && 0 <= d2 < size && d0 != d1 && d0 != d2 && d1 != d2
      ensures ok ==> owner == old(owner)[d0 := Held][d1 := Held][d2 := Held] && freeCount == old(freeCount) - 3
      ensures ok ==> old(owner)[d0] == Free && old(owner)[d1] == Free && old(owner)[d2] == Free
    {
      hide OwnersOk, FreeListOk, AvailOk, UsedOk, StagesOk, PendingOk;
      d0 := Allocate();
      d1 := Allocate();
      d2 := Allocate();
      ok := d0 >= 0 && d1 >= 0 && d2 >= 0;
      if !ok {
        if d0 >= 0 { Release(d0); }
        if d1 >= 0 { Release(d1); }
        if d2 >= 0 { assert false; }  // the third allocation is the first to fail
      }
    }

    /** Write a descriptor the driver holds. */
    method FillDesc(i: nat, d: Desc)
      requires Valid() && i < size && owner[i] == Held
      modifies desc
      ensures Valid() && Q() == SetDesc(old(Q()), i, d)
    {
      hide OwnersOk, FreeListOk, AvailOk, UsedOk, StagesOk, PendingOk;
      ghost var q := Q();
      SetDescInv(q, i, d);
      desc[i] := d;
      assert Q() == SetDesc(q, i, d);
    }

    /** virtio_blk_transfer up to the kick: header, buffer and status descriptors chained and submitted.
        `write` says whether the device writes the buffer (a sector read). */
    method BlkSubmit(dmaPhys: nat, write: bool) returns (d0: int)
      requires Valid()
      modifies this, desc, availRing
      ensures Valid() && polled == old(polled) && published == old(published) && taken == old(taken)
      ensures d0 == -1 <==> old(freeCount) < 3
      ensures d0 == -1 ==> owner == old(owner) && chains == old(chains) && stage == old(stage) && submitted == old(submitted) && freeCount == old(freeCount)
      ensures d0 != -1 ==>
                && 0 <= d0 && d0 in chains && |chains[d0]| == 3 && stage == old(stage)[d0 := Queued]
                && chains == old(chains)[d0 := chains[d0]] && submitted == old(submitted) + [d0]
                && freeCount == old(freeCount) - 3
                && BlockRequest(desc[..], chains[d0], dmaPhys, write)
    {
      hide OwnersOk, FreeListOk, AvailOk, UsedOk, StagesOk, Linked, BlockRequest, PendingOk;
      var ok, e0, e1, e2 := AllocateThree();
      if !ok { return -1; }
      LinkThree(e0, e1, e2, dmaPhys, write);
      SubmitHead(e0, [e0, e1, e2]);
      d0 := e0;
    }

    /** The descriptor writes of virtio_blk_transfer: header, buffer, status. */
    method LinkThree(e0: nat, e1: nat, e2: nat, dmaPhys: nat, write: bool)
      requires Valid() && e0 < size && e1 < size && e2 < size && e0 != e1 && e0 != e2 && e1 != e2
      requires owner[e0] == Held && owner[e1] == Held && owner[e2] == Held
      modifies desc
      ensures CanSubmit(Q(), [e0, e1, e2]) && BlockRequest(desc[..], [e0, e1, e2], dmaPhys, write)
    {
      hide OwnersOk, FreeListOk, AvailOk, UsedOk, StagesOk, Linked, PendingOk;
      FillDesc(e0, Desc(dmaPhys + HDR_OFF, 16, 1, e1));
      FillDesc(e1, Desc(dmaPhys + BUF_OFF, 512, if write then 3 else 1, e2));
      FillDesc(e2, Desc(dmaPhys + STATUS_OFF, 1, 2, 0));
      ThreeLinked(desc[..], e0, e1, e2);
    }

    lemma ThreeLinked(d: seq<Desc>, e0: nat, e1: nat, e2: nat)
      requires e0 < |d| && e1 < |d| && e2 < |d| && e0 != e1 && e0 != e2 && e1 != e2
      requires HasNext(d[e0]) && d[e0].next == e1 && HasNext(d[e1]) && d[e1].next == e2 && !HasNext(d[e2])
      ensures Linked(d, [e0, e1, e2])
    {
    }

    /** virtio_blk_transfer after a completion: the poll returns our own head, freeing the chain returns its
        three descriptors, and the queue is idle again. */
    method BlkFinish(d0: nat) returns (id: int)
      requires Valid() && chains.Keys == {d0} && |chains[d0]| == 3 && polled < |published|
      modifies this, desc
      ensures Valid() && id == d0 && freeCount == old(freeCount) + 3
      ensures chains == map[] && polled == |published| && published == old(published)
    {
      hide OwnersOk, FreeListOk, AvailOk, UsedOk, StagesOk, FreeAll, PendingOk;
      OneCompletion(Q(), d0);
      var len;
      id, len := PollOnce();
      ghost var q := Q();
      PollExact(old(Q()));
      FreeChainInv(q, d0);
      FreeAllKeeps(VirtqueueModel.Release(q, d0), q.chains[d0]);
      ReleaseChain(d0);
    }
  }
}
