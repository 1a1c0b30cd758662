/**
 The split virtqueue of src/drivers/virtio/virtqueue.c (VIRTIO 1.2, section 2.7) as a
 protocol between driver and device, with the histories its correctness is stated over.
 */
module VirtqueueModel {
  import opened Basics
  import opened RingArithmetic

  datatype Desc = Desc(addr: nat, len: nat, flags: nat, next: nat)

  predicate HasNext(d: Desc) { d.flags % 2 == 1 }

  datatype Elem = Elem(id: nat, len: nat)

  /** Who holds a descriptor: the free list, the driver, or the in-flight chain with this head. */
  datatype Owner = Free | Held | InFlight(head: nat)

  /** How far an in-flight chain has got. */
  datatype Stage = Queued | Taken | Published | Done

  /** Memory shared by driver and device, their private indices, and the histories:
      every head ever submitted, how many the device has taken, every completion ever
      published, how many the driver has polled. */
  datatype Queue = Queue(
    size: nat, desc: seq<Desc>, freeHead: nat, freeCount: nat, lastUsed: nat,
    availIdx: nat, availRing: seq<nat>, usedIdx: nat, usedRing: seq<Elem>, devAvail: nat,
    owner: seq<Owner>, freeList: seq<nat>, chains: map<nat, seq<nat>>, stage: map<nat, Stage>,
    submitted: seq<nat>, taken: nat, published: seq<Elem>, polled: nat)

  // ---------------------------------------------------------------- invariant

  /** Following `next` from free_head for free_count steps gives freeList. */
  ghost predicate FreeListOk(q: Queue)
  {
    && |q.desc| == |q.owner| == q.size && |q.freeList| == q.freeCount
    && Distinct(q.freeList)
    && (forall k | 0 <= k < |q.freeList| :: q.freeList[k] < q.size && q.owner[q.freeList[k]] == Free)
    && (q.freeList != [] ==> q.freeHead == q.freeList[0])
    && (forall k | 0 <= k < |q.freeList| - 1 :: q.desc[q.freeList[k]].next == q.freeList[k + 1])
    && (forall i | 0 <= i < q.size && q.owner[i] == Free :: i in q.freeList)
  }

  /** The descriptors of chain c are linked by next and VRING_DESC_F_NEXT, the last one ends it. */
  ghost predicate Linked(desc: seq<Desc>, c: seq<nat>)
  {
    && |c| > 0 && Distinct(c)
    && (forall k | 0 <= k < |c| :: c[k] < |desc|)
    && (forall k | 0 <= k < |c| - 1 :: HasNext(desc[c[k]]) && desc[c[k]].next == c[k + 1])
    && !HasNext(desc[c[|c| - 1]])
  }

  ghost predicate ChainOk(q: Queue, h: nat)
    requires h in q.chains
  {
    var c := q.chains[h];
    && Linked(q.desc, c) && c[0] == h
    && (forall k | 0 <= k < |c| :: c[k] < |q.owner| && q.owner[c[k]] == InFlight(h))
    && (forall i | 0 <= i < |q.owner| && q.owner[i] == InFlight(h) :: i in c)
  }

  ghost predicate OwnersOk(q: Queue)
  {
    && |q.desc| == |q.owner| == q.size
    && q.chains.Keys == q.stage.Keys
    && (forall i | 0 <= i < q.size && q.owner[i].InFlight? :: q.owner[i].head in q.chains)
    && (forall h {:trigger ChainOk(q, h)} | h in q.chains :: ChainOk(q, h))
  }

  ghost predicate AvailOk(q: Queue)
  {
    && |q.availRing| == q.size > 0 && q.taken <= |q.submitted|
    && q.availIdx == |q.submitted| % U16 && q.devAvail == q.taken % U16
    && (forall k | q.taken <= k < |q.submitted| :: q.availRing[k % q.size] == q.submitted[k])
  }

  ghost predicate UsedOk(q: Queue)
  {
    && |q.usedRing| == q.size > 0 && q.polled <= |q.published|
    && q.usedIdx == |q.published| % U16 && q.lastUsed == q.polled % U16
    && (forall k | q.polled <= k < |q.published| :: q.usedRing[k % q.size] == q.published[k])
  }

  /** Unread submissions and unpolled completions each name a chain at that stage, and no chain twice. */
  ghost predicate StagesOk(q: Queue)
  {
    && q.taken <= |q.submitted| && q.polled <= |q.published|
    && (forall i, j | q.taken <= i < j < |q.submitted| :: q.submitted[i] != q.submitted[j])
    && (forall k | q.taken <= k < |q.submitted| :: q.submitted[k] in q.stage && q.stage[q.submitted[k]] == Queued)
    && (forall i, j | q.polled <= i < j < |q.published| :: q.published[i].id != q.published[j].id)
    && (forall k | q.polled <= k < |q.published| :: q.published[k].id in q.stage && q.stage[q.published[k].id] == Published)
  }

  ghost predicate Unread(q: Queue, h: nat) { exists k | q.taken <= k < |q.submitted| :: q.submitted[k] == h }

  ghost predicate Unpolled(q: Queue, h: nat) { exists k | q.polled <= k < |q.published| :: q.published[k].id == h }

  /** No submission or completion is ever lost: a queued chain is still to be read, a published one to be polled. */
  ghost predicate PendingOk(q: Queue)
  {
    && (forall h {:trigger Unread(q, h)} | h in q.stage && q.stage[h] == Queued :: Unread(q, h))
    && (forall h {:trigger Unpolled(q, h)} | h in q.stage && q.stage[h] == Published :: Unpolled(q, h))
  }

  /** Other steps leave both histories and all stages alone. */
  lemma PendingKept(q: Queue, q': Queue)
    requires PendingOk(q) && (forall h | h in q'.stage :: h in q.stage && q'.stage[h] == q.stage[h])
    requires q'.submitted == q.submitted && q'.taken == q.taken && q'.published == q.published && q'.polled == q.polled
    ensures PendingOk(q')
  {
    forall h | h in q'.stage
      ensures q'.stage[h] == Queued ==> Unread(q', h)
      ensures q'.stage[h] == Published ==> Unpolled(q', h)
    {
      assert q.stage[h] == Queued ==> Unread(q, h);
      assert q.stage[h] == Published ==> Unpolled(q, h);
    }
  }

  predicate Shape(q: Queue)
  {
    RingSize(q.size) && |q.desc| == |q.owner| == |q.availRing| == |q.usedRing| == q.size
  }

  ghost predicate QueueInv(q: Queue)
  {
    Shape(q) && OwnersOk(q) && FreeListOk(q) && AvailOk(q) && UsedOk(q) && StagesOk(q) && PendingOk(q)
  }

  /** A chain stays well formed while its own descriptors and owners stay. */
  lemma ChainFrame(q: Queue, q': Queue, h: nat)
    requires h in q.chains && ChainOk(q, h) && h in q'.chains && q'.chains[h] == q.chains[h]
    requires |q'.desc| == |q.desc| && |q'.owner| == |q.owner| == |q.desc|
    requires forall i | 0 <= i < |q.owner| :: q'.owner[i] == InFlight(h) <==> q.owner[i] == InFlight(h)
    requires forall i | 0 <= i < |q.owner| && q.owner[i] == InFlight(h) :: q'.desc[i] == q.desc[i]
    ensures ChainOk(q', h)
  {
  }

  // ---------------------------------------------------------------- driver: descriptors

  const BLANK := Desc(0, 0, 0, 0)

  /** virtqueue_alloc_desc on a non-empty free list. */
  function AllocDesc(q: Queue): Queue
    requires q.freeHead < |q.desc| && q.freeHead < |q.owner| && q.freeList != [] && q.freeCount > 0
  {
    var idx := q.freeHead;
    q.(freeHead := q.desc[idx].next, freeCount := q.freeCount - 1, desc := q.desc[idx := BLANK],
       owner := q.owner[idx := Held], freeList := q.freeList[1..])
  }

  lemma AllocDescInv(q: Queue)
    requires QueueInv(q) && q.freeCount > 0
    ensures q.freeHead < q.size && q.freeList != [] && QueueInv(AllocDesc(q))
    ensures q.owner[q.freeHead] == Free && AllocDesc(q).owner == q.owner[q.freeHead := Held]
  {
    hide ChainOk, PendingOk, StagesOk, AvailOk, UsedOk;
    AllocDescList(q);
    var q' := AllocDesc(q);
    PendingKept(q, q');
    RingsKept(q, q');
    forall h | h in q'.chains
      ensures ChainOk(q', h)
    {
      assert ChainOk(q, h);
      ChainFrame(q, q', h);
    }
  }

  /** The first descriptor of the free list can be taken off it. */
  lemma AllocDescList(q: Queue)
    requires FreeListOk(q) && q.freeCount > 0
    ensures q.freeList != [] && q.freeHead == q.freeList[0] < q.size && q.owner[q.freeHead] == Free && FreeListOk(AllocDesc(q))
  {
    assert q.freeList[0] < q.size;
    var q' := AllocDesc(q);
    forall i | 0 <= i < q'.size && q'.owner[i] == Free
      ensures i in q'.freeList
    {
      var k :| 0 <= k < |q.freeList| && q.freeList[k] == i;
      assert q'.freeList[k - 1] == i;
    }
  }

  /** The rings and histories say nothing about descriptors. */
  lemma RingsKept(q: Queue, q': Queue)
    requires AvailOk(q) && UsedOk(q) && StagesOk(q) && q'.size == q.size && q'.stage == q.stage
    requires q'.availRing == q.availRing && q'.availIdx == q.availIdx && q'.devAvail == q.devAvail
    requires q'.usedRing == q.usedRing && q'.usedIdx == q.usedIdx && q'.lastUsed == q.lastUsed
    requires q'.submitted == q.submitted && q'.taken == q.taken && q'.published == q.published && q'.polled == q.polled
    ensures AvailOk(q') && UsedOk(q') && StagesOk(q')
  {
  }

  /** virtqueue_free_desc of a descriptor the driver holds. */
  function FreeDesc(q: Queue, i: nat): Queue
    requires i < |q.desc| && i < |q.owner|
  {
    q.(freeHead := i, freeCount := q.freeCount + 1, desc := q.desc[i := q.desc[i].(next := q.freeHead, flags := 0)],
       owner := q.owner[i := Free], freeList := [i] + q.freeList)
  }

  lemma FreeDescInv(q: Queue, i: nat)
    requires QueueInv(q) && i < q.size && q.owner[i] == Held
    ensures QueueInv(FreeDesc(q, i))
  {
    hide ChainOk, PendingOk;
    var q' := FreeDesc(q, i);
    PendingKept(q, q');
    forall h | h in q'.chains
      ensures ChainOk(q', h)
    {
      assert ChainOk(q, h);
      ChainFrame(q, q', h);
    }
    FreeDescList(q, i);
  }

  /** Any descriptor not on the free list can be pushed onto it. */
  lemma FreeDescList(q: Queue, i: nat)
    requires FreeListOk(q) && i < q.size && q.owner[i] != Free
    ensures FreeListOk(FreeDesc(q, i))
  {
    var q' := FreeDesc(q, i);
    forall j | 0 <= j < q'.size && q'.owner[j] == Free
      ensures j in q'.freeList
    {
      if j != i {
        var k :| 0 <= k < |q.freeList| && q.freeList[k] == j;
        assert q'.freeList[k + 1] == j;
      }
    }
    assert i !in q.freeList;
  }

  /** The driver fills in a descriptor it holds. */
  function SetDesc(q: Queue, i: nat, d: Desc): Queue
    requires i < |q.desc|
  {
    q.(desc := q.desc[i := d])
  }

  lemma SetDescInv(q: Queue, i: nat, d: Desc)
    requires QueueInv(q) && i < q.size && q.owner[i] == Held
    ensures QueueInv(SetDesc(q, i, d))
  {
    hide ChainOk, PendingOk;
    var q' := SetDesc(q, i, d);
    PendingKept(q, q');
    forall h | h in q'.chains
      ensures ChainOk(q', h)
    {
      assert ChainOk(q, h);
      ChainFrame(q, q', h);
    }
  }

  // ---------------------------------------------------------------- submit and take

  /** Every in-flight head is a descriptor owned by its own chain. */
  lemma HeadOwned(q: Queue, h: nat)
    requires QueueInv(q) && h in q.chains
    ensures h < q.size && q.owner[h] == InFlight(h)
  {
    assert ChainOk(q, h);
    assert q.chains[h][0] == h;
  }

  /** The device has read all but fewer than `size` of the submissions, while some descriptor x
      is not the head of an unread one. */
  lemma UnreadBound(q: Queue, x: nat)
    requires QueueInv(q) && x < q.size && (forall k | q.taken <= k < |q.submitted| :: q.submitted[k] != x)
    ensures |q.submitted| - q.taken < q.size
  {
    hide FreeListOk, AvailOk, UsedOk, OwnersOk, PendingOk;
    var heads := q.submitted[q.taken..] + [x];
    forall k | 0 <= k < |heads|
      ensures heads[k] < q.size
    {
      if k < |heads| - 1 {
        assert heads[k] == q.submitted[q.taken + k];
        StageHead(q, heads[k]);
      }
    }
    forall i, j | 0 <= i < j < |heads|
      ensures heads[i] != heads[j]
    {
      assert heads[i] == q.submitted[q.taken + i];
      if j < |heads| - 1 { assert heads[j] == q.submitted[q.taken + j]; }
    }
    Pigeonhole(heads, q.size);
  }

  lemma StageHead(q: Queue, h: nat)
    requires QueueInv(q) && h in q.stage
    ensures h < q.size && q.owner[h] == InFlight(h) && h in q.chains
  {
    HeadOwned(q, h);
  }

  lemma UnpolledBound(q: Queue, x: nat)
    requires QueueInv(q) && x < q.size && (forall k | q.polled <= k < |q.published| :: q.published[k].id != x)
    ensures |q.published| - q.polled < q.size
  {
    hide FreeListOk, AvailOk, UsedOk, OwnersOk, PendingOk;
    var n := |q.published| - q.polled;
    var heads := seq(n + 1, i requires 0 <= i < n + 1 => if i < n then q.published[q.polled + i].id else x);
    forall k | 0 <= k < |heads|
      ensures heads[k] < q.size
    {
      if k < n { StageHead(q, heads[k]); }
    }
    Pigeonhole(heads, q.size);
  }

  /** Give every index in c the same owner. */
  function Assign(owner: seq<Owner>, c: seq<nat>, o: Owner): (r: seq<Owner>)
    ensures |r| == |owner| && forall i | 0 <= i < |r| :: r[i] == if i in c then o else owner[i]
  {
    seq(|owner|, i requires 0 <= i < |owner| => if i in c then o else owner[i])
  }

  ghost predicate CanSubmit(q: Queue, c: seq<nat>)
  {
    QueueInv(q) && Linked(q.desc, c) && forall k | 0 <= k < |c| :: q.owner[c[k]] == Held
  }

  /** The ring store of virtqueue_submit_chain: the head goes into the slot behind the last one announced. */
  function StoreHead(q: Queue, h: nat): Queue
    requires |q.availRing| == q.size > 0
  {
    q.(availRing := q.availRing[q.availIdx % q.size := h])
  }

  /** Its second store, avail->idx++, which hands the chain c to the device. */
  function Publish(q: Queue, c: seq<nat>): Queue
    requires |c| > 0
  {
    var h := c[0];
    q.(availIdx := (q.availIdx + 1) % U16,
       owner := Assign(q.owner, c, InFlight(h)), chains := q.chains[h := c], stage := q.stage[h := Queued],
       submitted := q.submitted + [h])
  }

  /** virtqueue_submit_chain of the chain c, by its head c[0]. */
  function Submit(q: Queue, c: seq<nat>): Queue
    requires |c| > 0 && |q.availRing| == q.size > 0
  {
    Publish(StoreHead(q, c[0]), c)
  }

  /** The slot written is not one the device has still to read. */
  lemma StoreSlotFree(q: Queue, h: nat)
    requires QueueInv(q) && h < q.size && q.owner[h] == Held
    ensures forall k | q.taken <= k < |q.submitted| :: StoreHead(q, h).availRing[k % q.size] == q.submitted[k]
  {
    hide FreeListOk, UsedOk, OwnersOk, PendingOk;
    forall k | q.taken <= k < |q.submitted|
      ensures q.submitted[k] != h
    {
      StageHead(q, q.submitted[k]);
    }
    UnreadBound(q, h);
    SlotOfCounter(|q.submitted|, q.size);
    forall k | q.taken <= k < |q.submitted|
      ensures k % q.size != q.availIdx % q.size
    {
      SlotsDiffer(k, |q.submitted|, q.size);
    }
  }

  lemma StoreInv(q: Queue, h: nat)
    requires QueueInv(q) && h < q.size && q.owner[h] == Held
    ensures QueueInv(StoreHead(q, h))
  {
    hide PendingOk;
    StoreSlotFree(q, h);
    StagesKept(q, StoreHead(q, h));
    PendingKept(q, StoreHead(q, h));
  }

  ghost predicate CanPublish(q: Queue, c: seq<nat>)
  {
    CanSubmit(q, c) && q.availRing[q.availIdx % q.size] == c[0]
  }

  lemma PublishInv(q: Queue, c: seq<nat>)
    requires CanPublish(q, c)
    ensures QueueInv(Publish(q, c))
  {
    hide PendingOk;
    PublishOwners(q, c);
    PublishPending(q, c);
    SlotOfCounter(|q.submitted|, q.size);
    NextCounter(|q.submitted|);
    var q' := Publish(q, c);
    var h := c[0];
    assert q.owner[c[0]] == Held;
    assert h !in q.stage by {
      if h in q.stage { StageHead(q, h); }
    }
    assert AvailOk(q');
    assert StagesOk(q');
  }

  lemma PublishPending(q: Queue, c: seq<nat>)
    requires PendingOk(q) && |c| > 0 && q.taken <= |q.submitted|
    ensures PendingOk(Publish(q, c))
  {
    var q' := Publish(q, c);
    assert q'.submitted[|q.submitted|] == c[0];
    forall h | h in q'.stage
      ensures q'.stage[h] == Queued ==> Unread(q', h)
      ensures q'.stage[h] == Published ==> Unpolled(q', h)
    {
      if h != c[0] && q.stage[h] == Queued {
        assert Unread(q, h);
        var k :| q.taken <= k < |q.submitted| && q.submitted[k] == h;
        assert q'.submitted[k] == h;
      }
      assert h != c[0] && q.stage[h] == Published ==> Unpolled(q, h);
    }
  }

  lemma SubmitInv(q: Queue, c: seq<nat>)
    requires CanSubmit(q, c)
    ensures CanPublish(StoreHead(q, c[0]), c) && QueueInv(Submit(q, c))
  {
    hide OwnersOk, FreeListOk, AvailOk, UsedOk, StagesOk, PendingOk;
    assert q.owner[c[0]] == Held;
    StoreInv(q, c[0]);
    PublishInv(StoreHead(q, c[0]), c);
  }

  lemma PublishOwners(q: Queue, c: seq<nat>)
    requires CanSubmit(q, c)
    ensures OwnersOk(Publish(q, c)) && FreeListOk(Publish(q, c))
  {
    hide AvailOk, UsedOk, StagesOk, ChainOk, PendingOk;
    var q', h := Publish(q, c), c[0];
    assert q.owner[h] == Held;
    assert h !in q.chains by {
      if h in q.chains { HeadOwned(q, h); }
    }
    forall g | g in q'.chains
      ensures ChainOk(q', g)
    {
      if g != h {
        assert ChainOk(q, g);
        ChainFrame(q, q', g);
      } else {
        PublishNewChain(q, c);
      }
    }
  }

  lemma PublishNewChain(q: Queue, c: seq<nat>)
    requires CanSubmit(q, c) && c[0] !in q.chains
    ensures ChainOk(Publish(q, c), c[0])
  {
    hide FreeListOk, AvailOk, UsedOk, StagesOk, PendingOk;
  }

  lemma UnreadAtMost(q: Queue)
    requires QueueInv(q)
    ensures |q.submitted| - q.taken <= q.size
  {
    hide FreeListOk, AvailOk, UsedOk, OwnersOk, PendingOk;
    var heads := q.submitted[q.taken..];
    forall k | 0 <= k < |heads|
      ensures heads[k] < q.size
    {
      assert heads[k] == q.submitted[q.taken + k];
      StageHead(q, heads[k]);
    }
    forall i, j | 0 <= i < j < |heads|
      ensures heads[i] != heads[j]
    {
      assert heads[i] == q.submitted[q.taken + i] && heads[j] == q.submitted[q.taken + j];
    }
    Pigeonhole(heads, q.size);
  }

  lemma UnpolledAtMost(q: Queue)
    requires QueueInv(q)
    ensures |q.published| - q.polled <= q.size
  {
    hide FreeListOk, AvailOk, UsedOk, OwnersOk, PendingOk;
    var n := |q.published| - q.polled;
    var heads := seq(n, i requires 0 <= i < n => q.published[q.polled + i].id);
    forall k | 0 <= k < |heads|
      ensures heads[k] < q.size
    {
      StageHead(q, heads[k]);
    }
    Pigeonhole(heads, q.size);
  }

  /** The device's test devAvail != avail.idx is exact, across any number of wrap-arounds, and
      the slot it then reads holds the oldest unread submission. */
  lemma TakeExact(q: Queue)
    requires QueueInv(q)
    ensures q.devAvail != q.availIdx <==> q.taken < |q.submitted|
    ensures q.taken < |q.submitted| ==> q.availRing[q.devAvail % q.size] == q.submitted[q.taken]
  {
    UnreadAtMost(q);
    CountersEqual(q.taken, |q.submitted|);
    SlotOfCounter(q.taken, q.size);
  }

  /** Device: take the next available head. */
  function DevTake(q: Queue): Queue
    requires |q.availRing| == q.size > 0
  {
    var h := q.availRing[q.devAvail % q.size];
    q.(devAvail := (q.devAvail + 1) % U16, taken := q.taken + 1, stage := q.stage[h := Taken])
  }

  lemma DevTakeInv(q: Queue)
    requires QueueInv(q) && q.devAvail != q.availIdx
    ensures QueueInv(DevTake(q))
  {
    hide PendingOk;
    TakeExact(q);
    NextCounter(q.taken);
    StagesKept(q, DevTake(q));
    TakePending(q);
  }

  lemma TakePending(q: Queue)
    requires QueueInv(q) && q.taken < |q.submitted| && q.availRing[q.devAvail % q.size] == q.submitted[q.taken]
    ensures PendingOk(DevTake(q))
  {
    hide OwnersOk, FreeListOk, AvailOk, UsedOk;
    var q' := DevTake(q);
    forall h | h in q'.stage
      ensures q'.stage[h] == Queued ==> Unread(q', h)
      ensures q'.stage[h] == Published ==> Unpolled(q', h)
    {
      if q'.stage[h] == Queued {
        assert Unread(q, h);
        var k :| q.taken <= k < |q.submitted| && q.submitted[k] == h;
        assert q'.submitted[k] == h;
      }
      assert q'.stage[h] == Published ==> Unpolled(q, h);
    }
  }

  /** Stage changes alone leave the chains alone. */
  lemma StagesKept(q: Queue, q': Queue)
    requires QueueInv(q) && q'.desc == q.desc && q'.owner == q.owner && q'.size == q.size && q'.chains == q.chains
    requires q'.freeHead == q.freeHead && q'.freeCount == q.freeCount && q'.freeList == q.freeList
    requires q'.stage.Keys == q.stage.Keys
    ensures OwnersOk(q') && FreeListOk(q')
  {
    forall h | h in q'.chains
      ensures ChainOk(q', h)
    {
      assert ChainOk(q, h);
    }
  }

  // ---------------------------------------------------------------- complete and poll

  /** Device: publish the completion of a chain it has taken. */
  function DevComplete(q: Queue, h: nat, len: nat): Queue
    requires |q.usedRing| == q.size > 0
  {
    q.(usedRing := q.usedRing[q.usedIdx % q.size := Elem(h, len)], usedIdx := (q.usedIdx + 1) % U16,
       published := q.published + [Elem(h, len)], stage := q.stage[h := Published])
  }

  lemma DevCompleteInv(q: Queue, h: nat, len: nat)
    requires QueueInv(q) && h in q.stage && q.stage[h] == Taken
    ensures QueueInv(DevComplete(q, h, len))
  {
    hide PendingOk;
    StageHead(q, h);
    UnpolledBound(q, h);
    SlotOfCounter(|q.published|, q.size);
    NextCounter(|q.published|);
    forall k | q.polled <= k < |q.published|
      ensures k % q.size != q.usedIdx % q.size
    {
      SlotsDiffer(k, |q.published|, q.size);
    }
    StagesKept(q, DevComplete(q, h, len));
    CompletePending(q, h, len);
  }

  lemma CompletePending(q: Queue, h: nat, len: nat)
    requires PendingOk(q) && |q.usedRing| == q.size > 0 && q.polled <= |q.published|
    ensures PendingOk(DevComplete(q, h, len))
  {
    var q' := DevComplete(q, h, len);
    assert q'.published[|q.published|].id == h;
    forall g | g in q'.stage
      ensures q'.stage[g] == Queued ==> Unread(q', g)
      ensures q'.stage[g] == Published ==> Unpolled(q', g)
    {
      if g != h && q.stage[g] == Published {
        assert Unpolled(q, g);
        var k :| q.polled <= k < |q.published| && q.published[k].id == g;
        assert q'.published[k].id == g;
      }
      assert g != h && q.stage[g] == Queued ==> Unread(q, g);
    }
  }

  /** The driver's test last_used_idx != used.idx is exact, and the slot it reads holds the
      oldest completion not yet polled. */
  lemma PollExact(q: Queue)
    requires QueueInv(q)
    ensures q.lastUsed != q.usedIdx <==> q.polled < |q.published|
    ensures q.polled < |q.published| ==> q.usedRing[q.lastUsed % q.size] == q.published[q.polled]
  {
    UnpolledAtMost(q);
    CountersEqual(q.polled, |q.published|);
    SlotOfCounter(q.polled, q.size);
  }

  /** virtqueue_poll_used when there is something to poll. */
  function Poll(q: Queue): Queue
    requires |q.usedRing| == q.size > 0
  {
    var e := q.usedRing[q.lastUsed % q.size];
    q.(lastUsed := (q.lastUsed + 1) % U16, polled := q.polled + 1, stage := q.stage[e.id := Done])
  }

  lemma PollInv(q: Queue)
    requires QueueInv(q) && q.lastUsed != q.usedIdx
    ensures QueueInv(Poll(q))
  {
    hide PendingOk;
    PollExact(q);
    NextCounter(q.polled);
    StagesKept(q, Poll(q));
    PollPending(q);
  }

  lemma PollPending(q: Queue)
    requires QueueInv(q) && q.polled < |q.published| && q.usedRing[q.lastUsed % q.size] == q.published[q.polled]
    ensures PendingOk(Poll(q))
  {
    hide OwnersOk, FreeListOk, AvailOk, UsedOk;
    var q' := Poll(q);
    forall h | h in q'.stage
      ensures q'.stage[h] == Queued ==> Unread(q', h)
      ensures q'.stage[h] == Published ==> Unpolled(q', h)
    {
      if q'.stage[h] == Published {
        assert Unpolled(q, h);
        var k :| q.polled <= k < |q.published| && q.published[k].id == h;
        assert q'.published[k].id == h;
      }
      assert q'.stage[h] == Queued ==> Unread(q, h);
    }
  }

  // ---------------------------------------------------------------- free a chain

  /** The chain of h, completed and polled, is the driver's again. */
  function Release(q: Queue, h: nat): Queue
    requires h in q.chains
  {
    q.(owner := Assign(q.owner, q.chains[h], Held), chains := q.chains - {h}, stage := q.stage - {h})
  }

  lemma ReleaseInv(q: Queue, h: nat)
    requires QueueInv(q) && h in q.stage && q.stage[h] == Done
    ensures h in q.chains && QueueInv(Release(q, h))
  {
    hide ChainOk, PendingOk;
    var q' := Release(q, h);
    PendingKept(q, q');
    forall g | g in q'.chains
      ensures ChainOk(q', g)
    {
      assert ChainOk(q, g);
      ReleaseFrame(q, h, g);
    }
    ReleaseFree(q, h);
  }

  lemma ReleaseFrame(q: Queue, h: nat, g: nat)
    requires QueueInv(q) && h in q.chains && g in q.chains && g != h
    ensures ChainOk(Release(q, h), g)
  {
    assert ChainOk(q, g) && ChainOk(q, h);
    ChainFrame(q, Release(q, h), g);
  }

  lemma ReleaseFree(q: Queue, h: nat)
    requires QueueInv(q) && h in q.chains
    ensures FreeListOk(Release(q, h))
    ensures forall i | 0 <= i < q.size :: Release(q, h).owner[i] == if q.owner[i] == InFlight(h) then Held else q.owner[i]
  {
    assert ChainOk(q, h);
  }

  /** The loop of virtqueue_free_chain over the descriptors of a chain. */
  function FreeAll(q: Queue, c: seq<nat>): Queue
    decreases |c|
  {
    if c == [] || c[0] >= |q.desc| || c[0] >= |q.owner| then q else FreeAll(FreeDesc(q, c[0]), c[1..])
  }

  lemma {:induction false} FreeAllInv(q: Queue, c: seq<nat>)
    requires QueueInv(q) && Distinct(c) && forall k | 0 <= k < |c| :: c[k] < q.size && q.owner[c[k]] == Held
    ensures QueueInv(FreeAll(q, c)) && FreeAll(q, c).freeCount == q.freeCount + |c|
    ensures FreeAll(q, c).owner == Assign(q.owner, c, Free)
    decreases |c|
  {
    hide OwnersOk, FreeListOk, AvailOk, UsedOk, StagesOk, PendingOk;
    if c != [] {
      FreeDescInv(q, c[0]);
      var q1 := FreeDesc(q, c[0]);
      forall k | 0 <= k < |c[1..]|
        ensures c[1..][k] < q1.size && q1.owner[c[1..][k]] == Held
      {
        assert c[1..][k] == c[k + 1];
      }
      FreeAllInv(q1, c[1..]);
    }
  }
}
