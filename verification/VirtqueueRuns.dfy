/**
 Theorems about every interleaving of the virtqueue driver with a conforming
 device: src/drivers/virtio/virtqueue.c and its client src/drivers/storage/block/virtio_blk.c.
 */
module VirtqueueRuns {
  import opened Basics
  import opened RingArithmetic
  import opened VirtqueueModel

  /** The indices virtqueue_init starts from. */
  function InitDesc(size: nat): seq<Desc>
  {
    seq(size, i requires 0 <= i => Desc(0, 0, 0, if i + 1 < size then i + 1 else 0))
  }

  function Initial(size: nat, dummy: Elem): Queue
  {
    Queue(size, InitDesc(size), 0, size, 0,
          0, seq(size, i => 0), 0, seq(size, i => dummy), 0,
          seq(size, i => Free), seq(size, i => i), map[], map[], [], 0, [], 0)
  }

  lemma InitialInv(size: nat, dummy: Elem)
    requires RingSize(size)
    ensures QueueInv(Initial(size, dummy))
  {
    var q := Initial(size, dummy);
    forall i | 0 <= i < q.size && q.owner[i] == Free
      ensures i in q.freeList
    {
      assert q.freeList[i] == i;
    }
  }

  datatype Step =
    | Alloc
    | FreeOne(i: nat)
    | Fill(i: nat, d: Desc)
    | Store(h: nat)
    | Announce(c: seq<nat>)
    | Take
    | Complete(h: nat, len: nat)
    | PollUsed
    | FreeChain(h: nat)

  /** When a step may happen.  A conforming device completes each taken chain once; the driver
      frees a chain only after its completion was polled. */
  ghost predicate Enabled(q: Queue, s: Step)
    requires QueueInv(q)
  {
    match s
    case Alloc => q.freeCount > 0
    case FreeOne(i) => i < q.size && q.owner[i] == Held
    case Fill(i, _) => i < q.size && q.owner[i] == Held
    case Store(h) => h < q.size && q.owner[h] == Held
    case Announce(c) => CanPublish(q, c)
    case Take => q.devAvail != q.availIdx
    case Complete(h, _) => h in q.stage && q.stage[h] == Taken
    case PollUsed => q.lastUsed != q.usedIdx
    case FreeChain(h) => h in q.stage && q.stage[h] == Done
  }

  ghost function Apply(q: Queue, s: Step): Queue
    requires QueueInv(q) && Enabled(q, s)
  {
    match s
    case Alloc => AllocDescInv(q); AllocDesc(q)
    case FreeOne(i) => FreeDesc(q, i)
    case Fill(i, d) => SetDesc(q, i, d)
    case Store(h) => StoreHead(q, h)
    case Announce(c) => Publish(q, c)
    case Take => DevTake(q)
    case Complete(h, len) => DevComplete(q, h, len)
    case PollUsed => Poll(q)
    case FreeChain(h) => ReleaseInv(q, h); FreeAll(Release(q, h), q.chains[h])
  }

  lemma ApplyInv(q: Queue, s: Step)
    requires QueueInv(q) && Enabled(q, s)
    ensures QueueInv(Apply(q, s)) && Apply(q, s).size == q.size
  {
    hide QueueInv, AllocDesc, FreeDesc, SetDesc, StoreHead, Publish, DevTake, DevComplete, Poll, FreeAll;
    match s
    case Alloc => AllocDescInv(q); SizeKept(q, s);
    case FreeOne(i) => FreeDescInv(q, i); SizeKept(q, s);
    case Fill(i, d) => SetDescInv(q, i, d); SizeKept(q, s);
    case Store(h) => StoreInv(q, h); SizeKept(q, s);
    case Announce(c) => PublishInv(q, c); SizeKept(q, s);
    case Take => DevTakeInv(q); SizeKept(q, s);
    case Complete(h, len) => DevCompleteInv(q, h, len); SizeKept(q, s);
    case PollUsed => PollInv(q); SizeKept(q, s);
    case FreeChain(h) => FreeChainInv(q, h); SizeKept(q, s);
  }

  lemma FreeChainInv(q: Queue, h: nat)
    requires QueueInv(q) && h in q.stage && q.stage[h] == Done
    ensures h in q.chains && QueueInv(FreeAll(Release(q, h), q.chains[h]))
    ensures FreeAll(Release(q, h), q.chains[h]).freeCount == q.freeCount + |q.chains[h]|
  {
    ReleaseInv(q, h);
    ReleaseFree(q, h);
    assert ChainOk(q, h);
    FreeAllInv(Release(q, h), q.chains[h]);
  }

  lemma {:induction false} FreeAllKeeps(q: Queue, c: seq<nat>)
    ensures FreeAll(q, c).size == q.size && FreeAll(q, c).published == q.published && FreeAll(q, c).polled == q.polled
    ensures FreeAll(q, c).chains == q.chains
    decreases |c|
  {
    if !(c == [] || c[0] >= |q.desc| || c[0] >= |q.owner|) {
      FreeAllKeeps(FreeDesc(q, c[0]), c[1..]);
    }
  }

  /** No step changes the size, forgets a completion, or polls out of turn. */
  lemma SizeKept(q: Queue, s: Step)
    requires QueueInv(q) && Enabled(q, s)
    ensures Apply(q, s).size == q.size && q.published <= Apply(q, s).published
    ensures Apply(q, s).polled == q.polled + (if s.PollUsed? then 1 else 0)
  {
    if s.FreeChain? {
      ReleaseInv(q, s.h);
      FreeAllKeeps(Release(q, s.h), q.chains[s.h]);
    }
  }

  ghost predicate Runs(q: Queue, steps: seq<Step>, q': Queue)
    decreases |steps|
  {
    if steps == [] then q' == q
    else QueueInv(q) && Enabled(q, steps[0]) && Runs(Apply(q, steps[0]), steps[1..], q')
  }

  /** What the polls of a run return, in order. */
  ghost function Polled(q: Queue, steps: seq<Step>, q': Queue): seq<Elem>
    requires Runs(q, steps, q')
    decreases |steps|
  {
    if steps == [] then []
    else
      (if steps[0].PollUsed? then [q.usedRing[q.lastUsed % q.size]] else [])
      + Polled(Apply(q, steps[0]), steps[1..], q')
  }

  /** Every run keeps the invariant. */
  lemma {:induction false} RunInv(q: Queue, steps: seq<Step>, q': Queue)
    requires QueueInv(q) && Runs(q, steps, q')
    ensures QueueInv(q') && q'.size == q.size
    decreases |steps|
  {
    hide QueueInv, Enabled, Apply;
    if steps != [] {
      ApplyInv(q, steps[0]);
      RunInv(Apply(q, steps[0]), steps[1..], q');
    }
  }

  /** Over any run, however often the 16-bit indices wrap, the polls return exactly the
      completions published next, each once and in publication order. */
  lemma {:induction false} PollsInOrder(q: Queue, steps: seq<Step>, q': Queue)
    requires QueueInv(q) && Runs(q, steps, q')
    ensures q.published <= q'.published && q.polled <= q'.polled <= |q'.published|
    ensures Polled(q, steps, q') == q'.published[q.polled..q'.polled]
    decreases |steps|
  {
    hide OwnersOk, FreeListOk, AvailOk, StagesOk, Apply, Enabled, PendingOk;
    if steps != [] {
      var q1 := Apply(q, steps[0]);
      ApplyInv(q, steps[0]);
      SizeKept(q, steps[0]);
      PollsInOrder(q1, steps[1..], q');
      if steps[0].PollUsed? {
        PollExact(q);
        PollEnabled(q, steps[0]);
        assert q.usedRing[q.lastUsed % q.size] == q'.published[q.polled];
        assert q'.published[q.polled..q'.polled] == [q'.published[q.polled]] + q'.published[q.polled + 1..q'.polled];
      }
    }
  }

  lemma PollEnabled(q: Queue, s: Step)
    requires QueueInv(q) && Enabled(q, s) && s.PollUsed?
    ensures q.lastUsed != q.usedIdx
  {
  }

  // ---------------------------------------------------------------- device steps between two driver steps

  predicate OfDevice(s: Step) { s.Take? || s.Complete? }

  /** Whatever the device does, the descriptors, their owners and the available ring stay the driver's. */
  lemma {:induction false} DeviceLeaves(q: Queue, steps: seq<Step>, q': Queue)
    requires QueueInv(q) && Runs(q, steps, q') && forall k | 0 <= k < |steps| :: OfDevice(steps[k])
    ensures QueueInv(q') && q'.size == q.size && q'.desc == q.desc && q'.owner == q.owner && q'.chains == q.chains
    ensures q'.availRing == q.availRing && q'.availIdx == q.availIdx && q'.submitted == q.submitted && q'.polled == q.polled
    ensures forall h | h in q.stage && q.stage[h] != Done :: h in q'.stage && q'.stage[h] != Done
    decreases |steps|
  {
    hide QueueInv;
    if steps != [] {
      assert OfDevice(steps[0]);
      ApplyInv(q, steps[0]);
      DeviceLeaves(Apply(q, steps[0]), steps[1..], q');
    }
  }

  /** Device steps may fall between the two stores of virtqueue_submit_chain: the stored head stays in its slot,
      unread, and the announcement is as good as before. */
  lemma StoredHeadStays(q: Queue, c: seq<nat>, steps: seq<Step>, q': Queue)
    requires CanSubmit(q, c) && Runs(StoreHead(q, c[0]), steps, q') && forall k | 0 <= k < |steps| :: OfDevice(steps[k])
    ensures CanPublish(q', c) && QueueInv(Publish(q', c)) && Publish(q', c).submitted == q.submitted + [c[0]]
  {
    hide OwnersOk, FreeListOk, AvailOk, UsedOk, StagesOk, Runs, PendingOk;
    SubmitInv(q, c);
    DeviceLeaves(StoreHead(q, c[0]), steps, q');
    PublishInv(q', c);
  }

  /** While one chain is in flight, a pending completion is that chain's, and there is at most one. */
  lemma OneCompletion(q: Queue, h: nat)
    requires QueueInv(q) && q.chains.Keys == {h}
    ensures |q.published| <= q.polled + 1
    ensures q.polled < |q.published| ==> q.published[q.polled].id == h
  {
    hide FreeListOk, AvailOk, UsedOk, OwnersOk, PendingOk;
    if q.polled < |q.published| { OnlyPending(q, h, |q.published| - 1); }
  }

  lemma OnlyPending(q: Queue, h: nat, k: nat)
    requires QueueInv(q) && q.chains.Keys == {h} && q.polled <= k < |q.published|
    ensures k == q.polled && q.published[k].id == h
  {
    hide FreeListOk, AvailOk, UsedOk, PendingOk;
    assert q.published[k].id in q.stage && q.published[q.polled].id in q.stage;
  }

  /** From an idle queue, a submitted chain and any device steps: once there is something to poll, it is
      the one completion of that chain. */
  lemma OwnCompletion(q: Queue, c: seq<nat>, steps: seq<Step>, q': Queue)
    requires CanSubmit(q, c) && q.chains == map[] && q.polled == |q.published|
    requires Runs(Submit(q, c), steps, q') && forall k | 0 <= k < |steps| :: OfDevice(steps[k])
    ensures QueueInv(q') && q'.chains == map[c[0] := c] && q'.polled == q.polled
    ensures q'.polled < |q'.published| ==> |q'.published| == q'.polled + 1 && q'.published[q'.polled].id == c[0]
  {
    hide OwnersOk, FreeListOk, AvailOk, UsedOk, StagesOk, Runs, PendingOk;
    SubmitInv(q, c);
    DeviceLeaves(Submit(q, c), steps, q');
    OneCompletion(q', c[0]);
  }

  /** The indices met by following `next` n times from head. */
  function Follow(desc: seq<Desc>, head: nat, n: nat): seq<nat>
    decreases n
  {
    if n == 0 || head >= |desc| then [] else [head] + Follow(desc, desc[head].next, n - 1)
  }

  lemma {:induction false} FollowIsList(desc: seq<Desc>, l: seq<nat>, head: nat)
    requires (l != [] ==> l[0] == head) && (forall k | 0 <= k < |l| :: l[k] < |desc|)
    requires forall k | 0 <= k < |l| - 1 :: desc[l[k]].next == l[k + 1]
    ensures Follow(desc, head, |l|) == l
    decreases |l|
  {
    if l != [] {
      var t := l[1..];
      if t != [] { assert t[0] == l[1]; }
      FollowIsList(desc, t, desc[head].next);
      assert l == [head] + t;
    }
  }

  /** In every reachable state, following `next` from free_head for free_count steps gives
      distinct indices, disjoint from every in-flight chain; the chains are disjoint too, and
      with the descriptors the driver holds they cover 0..size-1. */
  lemma Partition(q: Queue, i: nat)
    requires QueueInv(q) && i < q.size
    ensures Distinct(Follow(q.desc, q.freeHead, q.freeCount)) && |Follow(q.desc, q.freeHead, q.freeCount)| == q.freeCount
    ensures i in Follow(q.desc, q.freeHead, q.freeCount) <==> q.owner[i] == Free
    ensures forall h | h in q.chains :: i in q.chains[h] <==> q.owner[i] == InFlight(h)
    ensures q.owner[i].InFlight? ==> q.owner[i].head in q.chains
  {
    FollowIsList(q.desc, q.freeList, q.freeHead);
    forall h | h in q.chains
      ensures i in q.chains[h] <==> q.owner[i] == InFlight(h)
    {
      assert ChainOk(q, h);
    }
  }

  // ---------------------------------------------------------------- freeing after a time-out

  lemma {:induction false} FreeAllList(q: Queue, c: seq<nat>)
    requires FreeListOk(q) && Distinct(c) && forall k | 0 <= k < |c| :: c[k] < q.size && q.owner[c[k]] != Free
    ensures FreeListOk(FreeAll(q, c)) && FreeAll(q, c).owner == Assign(q.owner, c, Free)
    ensures FreeAll(q, c).stage == q.stage && FreeAll(q, c).chains == q.chains && FreeAll(q, c).size == q.size
    decreases |c|
  {
    hide FreeListOk, PendingOk;
    if c != [] {
      assert |q.desc| == |q.owner| == q.size by { ListShape(q); }
      FreeDescList(q, c[0]);
      var q1 := FreeDesc(q, c[0]);
      forall k | 0 <= k < |c[1..]|
        ensures c[1..][k] < q1.size && q1.owner[c[1..][k]] != Free
      {
        assert c[1..][k] == c[k + 1];
      }
      FreeAllList(q1, c[1..]);
    }
  }

  lemma ListShape(q: Queue)
    requires FreeListOk(q)
    ensures |q.desc| == |q.owner| == q.size
  {
  }

  predicate AtDevice(q: Queue, h: nat) { h in q.stage && (q.stage[h] == Queued || q.stage[h] == Taken) }

  /** Some descriptor is on the free list while the device still holds the chain it belongs to. */
  ghost predicate FreeAtDevice(q: Queue)
  {
    exists h, i: nat {:trigger AtDevice(q, h), i in Follow(q.desc, q.freeHead, q.freeCount)} ::
      AtDevice(q, h) && h in q.chains && i in q.chains[h] && i in Follow(q.desc, q.freeHead, q.freeCount)
  }

  /** Freeing a chain leaves descriptors both free and at the device exactly when the device still has it. */
  lemma FreeEarly(q: Queue, h: nat)
    requires QueueInv(q) && h in q.chains
    ensures FreeAtDevice(FreeAll(q, q.chains[h])) <==> AtDevice(q, h)
  {
    hide OwnersOk, AvailOk, UsedOk, StagesOk, Linked, FreeListOk, PendingOk;
    var c := q.chains[h];
    var q' := FreeAll(q, c);
    ChainOwned(q, h);
    assert forall k | 0 <= k < |c| :: c[k] in c;
    FreeAllList(q, c);
    FreeListIs(q');
    if AtDevice(q, h) {
      assert AtDevice(q', h) && h in q'.freeList;
    }
    forall g, i: nat | AtDevice(q', g) && g in q.chains && i in q.chains[g] && i in q'.freeList
      ensures g == h
    {
      ChainOwned(q, g);
    }
  }

  /** A chain in flight alone and not yet polled is at the device exactly while the two indices are equal. */
  lemma DeviceHasIt(q: Queue, h: nat)
    requires QueueInv(q) && q.chains.Keys == {h} && h in q.stage && q.stage[h] != Done
    ensures AtDevice(q, h) <==> q.lastUsed == q.usedIdx
  {
    PollExact(q);
    OneCompletion(q, h);
    assert q.stage[h] == Published ==> Unpolled(q, h);
    assert q.polled < |q.published| ==> q.stage[q.published[q.polled].id] == Published;
  }

  /** virtio_blk_transfer frees its chain even when the poll timed out.  From an idle queue, after the submission
      and any device steps, that leaves descriptors both free and at the device exactly when last_used_idx still
      equals used.idx, which is what the poll saw when it gave up. */
  lemma FreeAfterTimeout(q: Queue, c: seq<nat>, steps: seq<Step>, q': Queue)
    requires CanSubmit(q, c) && q.chains == map[] && q.polled == |q.published|
    requires Runs(Submit(q, c), steps, q') && forall k | 0 <= k < |steps| :: OfDevice(steps[k])
    ensures q'.chains == map[c[0] := c]
    ensures FreeAtDevice(FreeAll(q', c)) <==> q'.lastUsed == q'.usedIdx
  {
    hide OwnersOk, FreeListOk, AvailOk, UsedOk, StagesOk, PendingOk, Runs, FreeAtDevice, AtDevice;
    OwnCompletion(q, c, steps, q');
    SubmitInv(q, c);
    DeviceLeaves(Submit(q, c), steps, q');
    DeviceHasIt(q', c[0]);
    FreeEarly(q', c[0]);
  }

  lemma FreeListIs(q: Queue)
    requires FreeListOk(q)
    ensures Follow(q.desc, q.freeHead, q.freeCount) == q.freeList
    ensures forall i: nat | i < |q.owner| :: i in q.freeList <==> q.owner[i] == Free
  {
    FollowIsList(q.desc, q.freeList, q.freeHead);
  }

  lemma ChainOwned(q: Queue, h: nat)
    requires QueueInv(q) && h in q.chains
    ensures Distinct(q.chains[h]) && h in q.chains[h] && h < q.size
    ensures forall i | i in q.chains[h] :: i < q.size && q.owner[i] == InFlight(h)
  {
    assert ChainOk(q, h);
    assert q.chains[h][0] == h;
  }
}
