/**
 The process table as the kernel keeps it, and the round-robin choice of the next process
 (src/scheduler/new_process.c, src/scheduler/scheduler.c, src/smp/smp_main.c,
 src/usr/syscalls/ssc_proc/wait.c and end.c).
 */
module Processes {

  import opened ProcessModel

  const ENOPROC := -1   // the negative codes are told apart by name only
  const EINVAL := -2
  const EACCESS := -3
  const EFULL := -4
  const EFAIL := -5
  const EHANG := -6

  // ---------------------------------------------------------------- cyclic order

  /** The slot k + 1 places after `start`. */
  function After(start: int, k: nat): Pid
    requires -1 <= start < MAX
  {
    (start + 1 + k) % MAX
  }

  /** How many places after `start` slot p comes, from 1 to MAX. */
  function Distance(start: Pid, p: Pid): (d: int)
    ensures 1 <= d <= MAX && After(start, d - 1) == p
  {
    if p > start then p - start else p - start + MAX
  }

  lemma AfterNext(start: Pid, k: nat)
    requires k < MAX
    ensures After(start, k) == ((if k == 0 then start else After(start, k - 1)) + 1) % MAX
    ensures After(start, k) == start <==> k + 1 == MAX
  {
  }

  lemma AfterDistance(start: Pid, k: nat)
    requires k < MAX
    ensures Distance(start, After(start, k)) == k + 1
  {
  }

  /** One reading of the clock a slot looked at. */
  type Clock = c: seq<nat> | |c| == MAX witness seq(MAX, _ => 0)

  /** May be chosen when looked at with the clock at `now`: live, not running elsewhere, and not blocked
      or its sleep is over. */
  predicate Eligible(t: Table, busy: set<int>, now: nat, p: Pid)
  {
    Live(t, p) && p !in busy && (!t[p].blocked || (t[p].wakeMs != 0 && now >= t[p].wakeMs))
  }

  lemma EligibleIs(t: Table, busy: set<int>, now: nat, p: Pid)
    ensures Eligible(t, busy, now, p) <==> Live(t, p) && p !in busy && (!t[p].blocked || (t[p].wakeMs != 0 && now >= t[p].wakeMs))
  {
  }

  /** The number of places to the first eligible slot, MAX when there is none; the clock is read at each. */
  /** A sleeper may be chosen exactly from its time on; a sleep until time 0 is never ended. */
  lemma SleepsUntil(s: State, w: Pid, until: nat, busy: set<int>, now: nat)
    requires |s.rank| == |s.on| == MAX && ProcessModel.Enabled(s, Sleep(w, until))
    ensures Eligible(Apply(s, Sleep(w, until)).t, busy, now, w) <==> w !in busy && until != 0 && now >= until
    ensures forall p: Pid | p != w :: Apply(s, Sleep(w, until)).t[p] == s.t[p]
  {
    EligibleIs(Apply(s, Sleep(w, until)).t, busy, now, w);
  }

  function FirstEligible(t: Table, busy: set<int>, clock: Clock, start: Pid, from: nat): (k: nat)
    requires from <= MAX
    ensures from <= k <= MAX && (k < MAX ==> Eligible(t, busy, clock[k], After(start, k)))
    ensures forall j | from <= j < k :: !Eligible(t, busy, clock[j], After(start, j))
    decreases MAX - from
  {
    if from == MAX || Eligible(t, busy, clock[from], After(start, from)) then from
    else FirstEligible(t, busy, clock, start, from + 1)
  }

  /** A turn of the scheduler: what it saw, and the process running before it. */
  datatype Turn = Turn(t: Table, busy: set<int>, clock: Clock)

  predicate Runnable(u: Turn, p: Pid) { Live(u.t, p) && !u.t[p].blocked && p !in u.busy }

  /** The process running after the turn. */
  function Chosen(u: Turn, start: Pid): Pid
  {
    var k := FirstEligible(u.t, u.busy, u.clock, start, 0);
    if k < MAX then After(start, k) else start
  }

  lemma ChosenNearer(u: Turn, start: Pid, p: Pid)
    requires Runnable(u, p)
    ensures FirstEligible(u.t, u.busy, u.clock, start, 0) < MAX
    ensures Chosen(u, start) == p || Distance(Chosen(u, start), p) < Distance(start, p)
  {
    var k, d := FirstEligible(u.t, u.busy, u.clock, start, 0), Distance(start, p) - 1;
    assert Eligible(u.t, u.busy, u.clock[d], After(start, d));
    AfterDistance(start, k);
  }

  /** The process running after the turns, in order. */
  ghost function RunningAfter(turns: seq<Turn>, start: Pid): Pid
    decreases |turns|
  {
    if turns == [] then start else RunningAfter(turns[1..], Chosen(turns[0], start))
  }

  /** Bounded waiting: a process runnable at every turn is chosen within MAX turns, whatever else changes
      between them. */
  lemma {:induction false} BoundedWaiting(turns: seq<Turn>, start: Pid, p: Pid)
    requires |turns| >= Distance(start, p) && forall i | 0 <= i < |turns| :: Runnable(turns[i], p)
    ensures exists n | 0 < n <= Distance(start, p) :: RunningAfter(turns[..n], start) == p
    decreases |turns|
  {
    var c := Chosen(turns[0], start);
    ChosenNearer(turns[0], start, p);
    assert turns[..1][1..] == [];
    if c == p {
      assert RunningAfter(turns[..1], start) == p;
    } else {
      BoundedWaiting(turns[1..], c, p);
      var n :| 0 < n <= Distance(c, p) && RunningAfter(turns[1..][..n], c) == p;
      assert turns[..n + 1][1..] == turns[1..][..n];
      assert RunningAfter(turns[..n + 1], start) == p;
    }
  }

  // ---------------------------------------------------------------- the kernel's table

  /** What is left of process p, with record q, when pid dies, whose parent is `parent`. */
  function AfterDeath(q: Proc, p: Pid, pid: Pid, parent: Pid): Proc
  {
    var wakes := parent == p && q.blocked && (q.waitPid == pid || q.waitPid == WAIT_ANY);
    q.(ppid := if q.used && !q.dead && q.ppid == pid then INIT else q.ppid,
       blocked := q.blocked && !wakes, rax := if wakes then pid else q.rax)
  }

  class ProcessTable {
    const procs: array<Proc>
    var current: Pid
    ghost var rank: seq<nat>
    ghost var on: seq<int>

    ghost predicate Shape()
      reads this, procs
    {
      procs.Length == |rank| == |on| == MAX
    }

    ghost function Now(): State
      reads this, procs
      requires Shape()
    {
      State(procs[..], rank, on)
    }

    ghost predicate Valid()
      reads this, procs
    {
      Shape() && Inv(Now())
    }

    constructor ()
      ensures Valid() && fresh(procs) && forall p: Pid :: !procs[p].used && !procs[p].dead
    {
      procs := new Proc[MAX](i => Proc(false, false, 0, false, WAIT_ANY, 0, 0, 0, 0));
      current, rank, on := 0, seq(MAX, _ => 0), seq(MAX, _ => -1);
    }

    /** The scan of new_process for an unused slot. */
    method FindSlot() returns (pid: nat)
      requires Shape()
      ensures pid == FreeSlot(procs[..], 0)
    {
      pid := 0;
      while pid < MAX && procs[pid].used
        invariant 0 <= pid <= MAX && forall j | 0 <= j < pid :: procs[j].used
      {
        pid := pid + 1;
      }
    }

    twostate predicate OthersSame(r: Pid)
      reads this, procs
      requires old(Shape()) && Shape()
    {
      forall p: Pid | p != r :: procs[p] == old(procs[p])
    }

    /** Slot r holds a new live process of the given parent, neither blocked nor waiting, owned by its parent's users, or
        by the superuser if it is the first. */
    twostate predicate Born(r: Pid, ppid: Pid)
      reads this, procs
      requires old(Shape()) && Shape()
    {
      var c := procs[r];
      && !old(procs[r].used) && c.used && !c.dead && c.ppid == ppid && !c.blocked && c.waitPid == WAIT_ANY && c.wakeMs == 0 && c.rax == 0
      && (if r == 0 then c.uid == 0 && c.euid == 0 else c.uid == old(procs[ppid].uid) && c.euid == old(procs[ppid].euid))
    }

    /** Process pid is gone: exactly its live children went to init, and exactly a parent waiting for it, or for any
        child, was unblocked with its pid as result. */
    twostate predicate Died(pid: Pid, clear: bool)
      reads this, procs
      requires old(Shape()) && Shape()
    {
      && procs[pid] == old(procs[pid]).(used := false, dead := true, blocked := old(procs[pid].blocked) && !clear)
      && forall p: Pid | p != pid :: procs[p] == AfterDeath(old(procs[p]), p, pid, old(procs[pid].ppid))
    }

    /** new_process.  `loaded` and `memory` say whether the program loads and the allocations succeed. */
    method NewProcess(ppid: Pid, loaded: bool, memory: bool) returns (r: int)
      requires Valid() && (procs[0].used ==> Live(procs[..], ppid))
      modifies procs, this`rank, this`on
      ensures Valid()
      ensures r >= 0 <==> old(FreeSlot(procs[..], 0)) < MAX && loaded && memory
      ensures r >= 0 ==> r == old(FreeSlot(procs[..], 0)) && Now() == Apply(old(Now()), Create(ppid))
      ensures r < 0 ==> Now() == old(Now()) || (old(Enabled(Now(), NoMemory(ppid))) && Now() == Apply(old(Now()), NoMemory(ppid)))
      ensures r >= 0 ==> Born(r, ppid) && OthersSame(r)
      ensures r == EFULL <==> old(FreeSlot(procs[..], 0)) == MAX
      ensures r < 0 ==> forall p: Pid :: procs[p] == old(procs[p]) || (!old(procs[p].used) && procs[p] == old(procs[p]).(ppid := ppid))
    {
      hide Inv, Created, FreeSlot;
      var pid := FindSlot();
      if pid == MAX { return EFULL; }
      if !loaded { return EFAIL; }
      if pid != 0 {
        if !memory {
          StepInv(Now(), NoMemory(ppid));
          procs[pid] := procs[pid].(ppid := ppid);
          on := if on[ppid] == ANY then on[ppid := -1] else on;
          return EFAIL;
        }
      } else if !memory {
        return EFAIL;
      }
      StepInv(Now(), Create(ppid));
      rank := if pid == INIT then rank else rank[pid := rank[ppid] + 1];
      on := on[pid := -1];
      Install(pid, ppid);
      FirstIsInit(old(procs[..]));
      r := pid;
    }

    lemma FirstIsInit(t: Table)
      ensures FreeSlot(t, 0) != 0 ==> t[0].used
    {
    }

    method Install(pid: Pid, ppid: Pid)
      requires Shape() && !procs[pid].used
      modifies procs
      ensures procs[..] == Created(old(procs[..]), pid, ppid) && OthersSame(pid)
      ensures old(procs[ppid].used) || pid == 0 ==> Born(pid, ppid)
    {
      ghost var t := procs[..];
      procs[pid] := procs[pid].(rax := 0, dead := false, ppid := ppid, blocked := false, waitPid := WAIT_ANY, wakeMs := 0);
      if procs[ppid].used && pid != 0 {
        procs[pid] := procs[pid].(uid := procs[ppid].uid, euid := procs[ppid].euid);
      } else {
        procs[pid] := procs[pid].(uid := 0, euid := 0);
      }
      procs[pid] := procs[pid].(used := true);
      assert procs[..] == Created(t, pid, ppid);
    }

    /** reparent_children */
    method ReparentChildren(old_: Pid)
      requires Shape()
      modifies procs
      ensures procs[..] == Reparented(old(procs[..]), old_)
    {
      ghost var t := procs[..];
      for i: int := 0 to MAX
        invariant procs[..i] == Reparented(t, old_)[..i] && procs[i..] == t[i..]
      {
        assert procs[i] == t[i];
        if procs[i].used && !procs[i].dead && procs[i].ppid == old_ {
          procs[i] := procs[i].(ppid := INIT);
        }
      }
    }

    /** wake_waiter */
    method WakeWaiter(pid: Pid)
      requires Shape()
      modifies procs
      ensures procs[..] == Woken(old(procs[..]), pid)
    {
      var parent := procs[pid].ppid;
      if procs[parent].blocked && (procs[parent].waitPid == pid || procs[parent].waitPid == WAIT_ANY) {
        procs[parent] := procs[parent].(blocked := false, rax := pid);
      }
    }

    /** endproc_shared, or with `clear` false the death of a process by a fault: its children go to init,
        a parent parked on it is woken, and the tree stays whole. */
    method EndProc(pid: Pid, clear: bool)
      requires Valid() && pid != INIT && Live(procs[..], pid) && Live(procs[..], INIT)
      modifies procs, this`on
      ensures Valid() && Now() == Apply(old(Now()), End(pid, clear)) && Died(pid, clear)
    {
      hide Inv, Reparented, Woken;
      StepInv(Now(), End(pid, clear));
      ghost var t := procs[..];
      NotOwnParent(Now(), pid);
      forall p: Pid
        ensures p == pid ==> Ended(t, pid, clear)[p] == t[p].(used := false, dead := true, blocked := t[p].blocked && !clear)
        ensures p != pid ==> Ended(t, pid, clear)[p] == AfterDeath(t[p], p, pid, t[pid].ppid)
      {
        EndedExactly(t, pid, clear, p);
      }
      if clear { procs[pid] := procs[pid].(blocked := false); }
      procs[pid] := procs[pid].(dead := true);
      assert procs[..] == t[pid := t[pid].(dead := true, blocked := t[pid].blocked && !clear)];
      ReparentChildren(pid);
      WakeWaiter(pid);
      procs[pid] := procs[pid].(used := false);
      on := StillParked(t, on, pid);
    }

    lemma NotOwnParent(s: State, pid: Pid)
      requires Inv(s) && pid != INIT && Live(s.t, pid)
      ensures s.t[pid].ppid != pid
    {
      assert RankOk(s.t, s.rank, pid);
    }

    /** sys_kill by process `caller` */
    method Kill(caller: Pid, pid: int) returns (r: int)
      requires Valid() && Live(procs[..], INIT)
      modifies procs, this`on
      ensures Valid()
      ensures r == 0 ==> 0 < pid < MAX && pid != caller && old(Live(procs[..], pid)) && Now() == Apply(old(Now()), End(pid, true)) && Died(pid, true)
      ensures r != 0 ==> Now() == old(Now())
      ensures r == 0 <==> 0 < pid < MAX && pid != caller && old(Live(procs[..], pid)) && old(MayKill(caller, pid))
      ensures r == EINVAL <==> pid == 0
      ensures r == ENOPROC <==> pid != 0 && !(0 < pid < MAX && pid != caller && old(Live(procs[..], pid)))
      ensures r == 0 || r == EINVAL || r == ENOPROC || r == EACCESS
    {
      hide Inv, Ended;
      if pid == 0 { return EINVAL; }
      if pid <= 0 || pid >= MAX || pid == caller || !procs[pid].used || procs[pid].dead { return ENOPROC; }
      if procs[caller].euid != 0 && procs[caller].euid != procs[pid].uid && procs[caller].uid != procs[pid].uid { return EACCESS; }
      EndProc(pid, true);
      r := 0;
    }

    ghost predicate MayKill(caller: Pid, pid: int)
      reads this, procs
      requires Shape() && 0 <= pid < MAX
    {
      procs[caller].euid == 0 || procs[caller].euid == procs[pid].uid || procs[caller].uid == procs[pid].uid
    }

    /** sys_wait for a given pid */
    method WaitFor(caller: Pid, pid: nat) returns (r: int)
      requires Valid() && Live(procs[..], caller) && !procs[caller].blocked
      modifies procs, this`on
      ensures Valid()
      ensures r == if pid < MAX && old(procs[pid].used) && pid != caller then pid else ENOPROC
      ensures r != ENOPROC ==> Now() == Apply(old(Now()), Wait(caller, pid))
      ensures r == ENOPROC ==> Now() == old(Now())
      ensures r != ENOPROC && !old(procs[pid].dead) ==> procs[caller] == old(procs[caller]).(waitPid := pid, blocked := true) && OthersSame(caller)
      ensures r != ENOPROC && old(procs[pid].dead) ==> procs[pid] == old(procs[pid]).(used := false) && OthersSame(pid)
    {
      hide Inv;
      if pid >= MAX || !procs[pid].used || pid == caller { return ENOPROC; }
      StepInv(Now(), Wait(caller, pid));
      if !procs[pid].dead {
        on := on[caller := if procs[pid].ppid == caller then pid else -1];
        procs[caller] := procs[caller].(waitPid := pid, blocked := true);
      } else {
        procs[pid] := procs[pid].(used := false);
      }
      r := pid;
    }

    /** sys_wait for any child: the lowest slot with a dead child is reaped, else the caller is parked. */
    method WaitForAny(caller: Pid) returns (r: int)
      requires Valid() && Live(procs[..], caller) && !procs[caller].blocked
      modifies procs, this`on
      ensures Valid() && Now() == Apply(old(Now()), WaitAny(caller))
      ensures r >= 0 ==> r < MAX && old(DeadChild(procs[..], caller, r)) && forall j: Pid | j < r :: !old(DeadChild(procs[..], caller, j))
      ensures r < 0 ==> r == EHANG && procs[caller].blocked && forall j: Pid :: !old(DeadChild(procs[..], caller, j))
      ensures r >= 0 ==> procs[r] == old(procs[r]).(used := false) && OthersSame(r)
      ensures r < 0 ==> procs[caller] == old(procs[caller]).(waitPid := WAIT_ANY, blocked := true) && OthersSame(caller)
    {
      hide Inv;
      StepInv(Now(), WaitAny(caller));
      ghost var t := procs[..];
      for i := 0 to MAX
        invariant procs[..] == t && on == old(on) && forall j: Pid | j < i :: !DeadChild(t, caller, j)
      {
        if i != caller && procs[i].ppid == caller && procs[i].dead {
          assert DeadChild(t, caller, i) && FirstDead(t, caller, 0) == i;
          procs[i] := procs[i].(used := false);
          return i;
        }
      }
      assert FirstDead(t, caller, 0) == MAX;
      on := on[caller := ANY];
      procs[caller] := procs[caller].(waitPid := WAIT_ANY, blocked := true);
      r := EHANG;
    }

    /** nextproc: the cyclically first eligible slot after the current one, itself last; a sleep that is over
        is ended. */
    method NextProc(busy: set<int>, clock: Clock) returns (r: int)
      requires Valid()
      modifies procs, this`on
      ensures Valid()
      ensures
        var k := FirstEligible(old(procs[..]), busy, clock, current, 0);
        && r == (if k < MAX then After(current, k) else ENOPROC)
        && Now() == if k < MAX && old(procs[After(current, k)].blocked) then Apply(old(Now()), Expire(After(current, k))) else old(Now())
      ensures r >= 0 ==> r < MAX && Live(procs[..], r) && !procs[r].blocked && r !in busy && OthersSame(r)
      ensures r >= 0 ==> procs[r] == if old(procs[r].blocked) then old(procs[r]).(blocked := false, wakeMs := 0) else old(procs[r])
      ensures r < 0 ==> Now() == old(Now())
    {
      hide Inv, FirstEligible, Eligible;
      ghost var t := procs[..];
      var pid: int := current;
      var k := 0;   // how often the clock was read
      var more := true;
      while more
        invariant 0 <= k <= MAX && pid == (if k == 0 then current else After(current, k - 1)) && (more <==> k < MAX)
        invariant procs[..] == t && on == old(on) && Valid()
        invariant forall j | 0 <= j < k :: !Eligible(t, busy, clock[j], After(current, j))
        decreases MAX - k
      {
        AfterNext(current, k);
        pid := (pid + 1) % MAX;
        EligibleIs(t, busy, clock[k], pid);
        if procs[pid].used && !procs[pid].dead && pid !in busy {
          if procs[pid].blocked {
            if procs[pid].wakeMs != 0 && clock[k] >= procs[pid].wakeMs {
              assert FirstEligible(t, busy, clock, current, 0) == k;
              EndSleep(pid);
              return pid;
            }
          } else {
            assert FirstEligible(t, busy, clock, current, 0) == k;
            return pid;
          }
        }
        k := k + 1;
        more := pid != current;
      }
      assert FirstEligible(t, busy, clock, current, 0) == MAX;
      r := ENOPROC;
    }

    /** scheduler_switch, one attempt: the current process becomes the one chosen, if there is one. */
    method Switch(busy: set<int>, clock: Clock) returns (r: int)
      requires Valid()
      modifies procs, this`on, this`current
      ensures Valid() && current == Chosen(Turn(old(procs[..]), busy, clock), old(current))
      ensures r < 0 <==> FirstEligible(old(procs[..]), busy, clock, old(current), 0) == MAX
      ensures r >= 0 ==> current == r && Live(procs[..], current) && !procs[current].blocked && OthersSame(current)
      ensures r < 0 ==> current == old(current) && Now() == old(Now())
    {
      hide Inv, FirstEligible;
      r := NextProc(busy, clock);
      if r >= 0 { current := r; }
    }

    method EndSleep(pid: Pid)
      requires Valid() && Enabled(Now(), Expire(pid))
      modifies procs, this`on
      ensures Valid() && Now() == Apply(old(Now()), Expire(pid)) && OthersSame(pid)
      ensures procs[pid] == old(procs[pid]).(blocked := false, wakeMs := 0)
    {
      hide Inv;
      StepInv(Now(), Expire(pid));
      on := on[pid := -1];
      procs[pid] := procs[pid].(blocked := false, wakeMs := 0);
    }
  }

  /** nextproc_core: the choice of another processor, which never takes its own process again and does not
      end sleeps.  `start` is -1 when it runs none. */
  method NextProcCore(t: Table, busy: set<int>, start: int) returns (r: int)
    requires -1 <= start < MAX
    ensures r != -1 ==> 0 <= r < MAX && r != start && Free(t, busy, r)
    ensures r == -1 <==> forall p: Pid | p != start :: !Free(t, busy, p)
    ensures r != -1 ==> exists k: nat | k < MAX ::
              After(start, k) == r && forall j: nat | j < k :: !Free(t, busy, After(start, j)) && After(start, j) != start
  {
    for step: int := 0 to MAX
      invariant forall j: nat | j < step :: !Free(t, busy, After(start, j)) && After(start, j) != start
    {
      var cand := After(start, step);
      if start >= 0 && cand == start {
        NoneFree(t, busy, start);
        return -1;
      }
      if t[cand].used && !t[cand].dead && !t[cand].blocked && cand !in busy {
        assert Free(t, busy, After(start, step));
        return cand;
      }
    }
    forall p: Pid
      ensures !Free(t, busy, p)
    {
      assert After(start, (p - start - 1 + MAX) % MAX) == p;
    }
    r := -1;
  }

  predicate Free(t: Table, busy: set<int>, p: Pid) { Live(t, p) && !t[p].blocked && p !in busy }

  lemma NoneFree(t: Table, busy: set<int>, start: Pid)
    requires forall j: nat | j < MAX - 1 :: !Free(t, busy, After(start, j))
    ensures forall p: Pid | p != start :: !Free(t, busy, p)
  {
    forall p: Pid | p != start
      ensures !Free(t, busy, p)
    {
      assert After(start, Distance(start, p) - 1) == p;
    }
  }
}
