/**
 The process table: creation, death and waiting, with each system call taken as one step
 (src/scheduler/new_process.c, src/usr/syscalls/ssc_proc/wait.c and end.c).
 */
module ProcessModel {

  const MAX := 255         // MAX_PROCESSES
  const WAIT_ANY := 255    // 0xFF
  const INIT := 0

  type Pid = p: int | 0 <= p < MAX witness 0

  /** The fields of process_state_t that these operations use. */
  datatype Proc = Proc(used: bool, dead: bool, ppid: Pid, blocked: bool, waitPid: int, wakeMs: nat, rax: int, uid: nat, euid: nat)

  type Table = t: seq<Proc> | |t| == MAX witness seq(MAX, _ => Proc(false, false, 0, false, WAIT_ANY, 0, 0, 0, 0))

  predicate Live(t: Table, p: Pid) { t[p].used && !t[p].dead }

  // ---------------------------------------------------------------- operations on the table

  /** The lowest unused slot, MAX when there is none. */
  function FreeSlot(t: Table, from: nat): (i: nat)
    requires from <= MAX
    ensures from <= i <= MAX && (i < MAX ==> !t[i].used) && forall j | from <= j < i :: t[j].used
    decreases MAX - from
  {
    if from == MAX || !t[from].used then from else FreeSlot(t, from + 1)
  }

  function Created(t: Table, i: Pid, ppid: Pid): Table
  {
    var owner := if t[ppid].used && i != 0 then (t[ppid].uid, t[ppid].euid) else (0, 0);
    t[i := Proc(true, false, ppid, false, WAIT_ANY, 0, 0, owner.0, owner.1)]
  }

  /** Live children of a dying process become children of init. */
  ghost function Reparented(t: Table, parent: Pid): Table
  {
    seq(MAX, i requires 0 <= i < MAX => if Live(t, i) && t[i].ppid == parent then t[i].(ppid := INIT) else t[i])
  }

  predicate Wakes(t: Table, pid: Pid)
  {
    var w := t[t[pid].ppid];
    w.blocked && (w.waitPid == pid || w.waitPid == WAIT_ANY)
  }

  function Woken(t: Table, pid: Pid): Table
  {
    if Wakes(t, pid) then t[t[pid].ppid := t[t[pid].ppid].(blocked := false, rax := pid)] else t
  }

  /** The death of a process: `clear` is whether its own blocked flag is reset first, as a kill or an
      exit does and a fault does not. */
  ghost function Ended(t: Table, pid: Pid, clear: bool): Table
  {
    var t0 := t[pid := t[pid].(dead := true, blocked := t[pid].blocked && !clear)];
    var t1 := Woken(Reparented(t0, pid), pid);
    t1[pid := t1[pid].(used := false)]
  }

  function Parked(t: Table, w: Pid, pid: Pid): Table
  {
    t[w := t[w].(waitPid := pid, blocked := true)]
  }

  // ---------------------------------------------------------------- the process tree

  /** `rank` falls along every parent link, and every live process but init has a live parent. */
  ghost predicate RankOk(t: Table, rank: seq<nat>, p: Pid)
    requires |rank| == MAX
  {
    Live(t, p) && p != INIT ==> rank[p] > 0 && Live(t, t[p].ppid) && rank[t[p].ppid] < rank[p]
  }

  ghost predicate Ranked(t: Table, rank: seq<nat>)
  {
    && |rank| == MAX && rank[INIT] == 0
    && forall p: Pid {:trigger RankOk(t, rank, p)} :: RankOk(t, rank, p)
  }

  /** p reaches init in at most n parent steps, through live processes only. */
  ghost predicate Reaches(t: Table, p: Pid, n: nat)
    decreases n
  {
    Live(t, p) && (p == INIT || (n > 0 && Reaches(t, t[p].ppid, n - 1)))
  }

  lemma {:induction false} RankedReaches(t: Table, rank: seq<nat>, p: Pid, n: nat)
    requires Ranked(t, rank) && Live(t, p) && rank[p] <= n
    ensures Reaches(t, p, n)
    decreases n
  {
    assert RankOk(t, rank, p);
    if p != INIT { RankedReaches(t, rank, t[p].ppid, n - 1); }
  }

  /** The converse: processes that all reach init can be ranked. */
  lemma ReachesRanked(t: Table, steps: seq<nat>)
    requires |steps| == MAX
    requires forall p: Pid | Live(t, p) :: Reaches(t, p, steps[p]) && forall k: nat | k < steps[p] :: !Reaches(t, p, k)
    ensures Ranked(t, steps[INIT := 0])
  {
    var rank := steps[INIT := 0];
    forall p: Pid
      ensures RankOk(t, rank, p)
    {
      if Live(t, p) && p != INIT {
        var q := t[p].ppid;
        assert Reaches(t, p, steps[p]);
        assert Reaches(t, q, steps[p] - 1);
        assert steps[q] <= steps[p] - 1;
      }
    }
  }

  lemma CreatedRanked(t: Table, rank: seq<nat>, i: Pid, ppid: Pid)
    requires Ranked(t, rank) && !t[i].used && (i != INIT ==> Live(t, ppid))
    ensures Ranked(Created(t, i, ppid), if i == INIT then rank else rank[i := rank[ppid] + 1])
  {
    var t', rank' := Created(t, i, ppid), if i == INIT then rank else rank[i := rank[ppid] + 1];
    forall p: Pid
      ensures RankOk(t', rank', p)
    {
      assert RankOk(t, rank, p);
    }
  }

  /** What a death leaves of every other process. */
  lemma EndedFields(t: Table, pid: Pid, clear: bool, p: Pid)
    ensures
      var t' := Ended(t, pid, clear);
      && (p != pid ==> t'[p].used == t[p].used && t'[p].dead == t[p].dead && t'[p].waitPid == t[p].waitPid)
      && (p != pid ==> t'[p].ppid == if Live(t, p) && t[p].ppid == pid then INIT else t[p].ppid)
      && (p != pid ==> t'[p].blocked == (t[p].blocked && !(t[pid].ppid == p && (t[p].waitPid == pid || t[p].waitPid == WAIT_ANY))))
      && !Live(t', pid) && !t'[pid].used && t'[pid].ppid == t[pid].ppid
  {
  }

  /** What exactly a death changes: live children go to init, a parent waiting for it, or for any child, is unblocked
      with its pid as result, and the slot is dead and unused.  Nothing else of any process changes. */
  lemma EndedExactly(t: Table, pid: Pid, clear: bool, p: Pid)
    requires t[pid].ppid != pid
    ensures
      var t' := Ended(t, pid, clear);
      var wakes := t[pid].ppid == p && t[p].blocked && (t[p].waitPid == pid || t[p].waitPid == WAIT_ANY);
      if p == pid then t'[p] == t[p].(used := false, dead := true, blocked := t[p].blocked && !clear)
      else t'[p] == t[p].(ppid := if Live(t, p) && t[p].ppid == pid then INIT else t[p].ppid,
                          blocked := t[p].blocked && !wakes, rax := if wakes then pid else t[p].rax)
  {
  }

  lemma EndedRanked(t: Table, rank: seq<nat>, pid: Pid, clear: bool)
    requires Ranked(t, rank) && pid != INIT && Live(t, INIT)
    ensures Ranked(Ended(t, pid, clear), rank) && Live(Ended(t, pid, clear), INIT)
  {
    hide Ended;
    var t' := Ended(t, pid, clear);
    EndedFields(t, pid, clear, INIT);
    forall p: Pid
      ensures RankOk(t', rank, p)
    {
      assert RankOk(t, rank, p);
      EndedFields(t, pid, clear, p);
      EndedFields(t, pid, clear, t[p].ppid);
    }
  }

  // ---------------------------------------------------------------- waiting

  const ANY := -2

  /** A slot that sys_wait takes for a dead child of w. */
  predicate DeadChild(t: Table, w: Pid, i: Pid) { i != w && t[i].ppid == w && t[i].dead }

  /** The lowest such slot, MAX when there is none. */
  function FirstDead(t: Table, w: Pid, from: nat): (i: nat)
    requires from <= MAX
    ensures from <= i <= MAX && (i < MAX ==> DeadChild(t, w, i)) && forall j: Pid | from <= j < i :: !DeadChild(t, w, j)
    decreases MAX - from
  {
    if from == MAX || DeadChild(t, w, from) then from else FirstDead(t, w, from + 1)
  }

  /** `on[w]` is the own live child that w parked on in sys_wait, ANY when w parked on all its children while
      none of them was dead, -1 when w is not so parked. */
  ghost predicate ParkOk(t: Table, on: seq<int>, w: Pid)
    requires |on| == MAX
  {
    && (on[w] != -1 ==> Live(t, w) && t[w].blocked)
    && (on[w] == ANY ==> t[w].waitPid == WAIT_ANY && forall i: Pid :: !DeadChild(t, w, i))
    && (on[w] != -1 && on[w] != ANY ==>
          0 <= on[w] < MAX && on[w] != w && t[w].waitPid == on[w] && Live(t, on[w]) && t[on[w]].ppid == w)
  }

  ghost predicate ParksOk(t: Table, on: seq<int>)
  {
    |on| == MAX && forall w: Pid {:trigger ParkOk(t, on, w)} :: ParkOk(t, on, w)
  }

  /** Who is still parked after a death: neither the dead process nor anyone parked on it. */
  ghost function StillParked(t: Table, on: seq<int>, pid: Pid): seq<int>
    requires |on| == MAX
  {
    seq(MAX, w requires 0 <= w < MAX => if w == pid || on[w] == pid || (on[w] == ANY && t[pid].ppid == w) then -1 else on[w])
  }

  /** Every process parked on its own child, or on any, is woken with the child's pid when the child dies. */
  lemma EndedParks(t: Table, on: seq<int>, pid: Pid, clear: bool)
    requires ParksOk(t, on) && Live(t, pid)
    ensures ParksOk(Ended(t, pid, clear), StillParked(t, on, pid))
    ensures forall w: Pid | w != pid && (on[w] == pid || (on[w] == ANY && t[pid].ppid == w)) ::
              !Ended(t, pid, clear)[w].blocked && Ended(t, pid, clear)[w].rax == pid
  {
    var t' := Ended(t, pid, clear);
    forall w: Pid
      ensures ParkOk(t', StillParked(t, on, pid), w)
    {
      EndedParkOk(t, on, pid, clear, w);
    }
    forall w: Pid | w != pid && (on[w] == pid || (on[w] == ANY && t[pid].ppid == w))
      ensures !t'[w].blocked && t'[w].rax == pid
    {
      assert ParkOk(t, on, w);
    }
  }

  lemma EndedParkOk(t: Table, on: seq<int>, pid: Pid, clear: bool, w: Pid)
    requires ParksOk(t, on) && Live(t, pid)
    ensures ParkOk(Ended(t, pid, clear), StillParked(t, on, pid), w)
  {
    hide Ended;
    assert ParkOk(t, on, w);
    EndedFields(t, pid, clear, w);
    if StillParked(t, on, pid)[w] == ANY {
      forall i: Pid
        ensures !DeadChild(Ended(t, pid, clear), w, i)
      {
        EndedFields(t, pid, clear, i);
        assert !DeadChild(t, w, i);
      }
    } else if StillParked(t, on, pid)[w] != -1 {
      EndedFields(t, pid, clear, on[w]);
    }
  }

  /** A death wakes a blocked process exactly when that process is the parent and waits for the dying
      process or for any.  sys_wait accepts any pid, so a wait for a process that is not the caller's
      child is not ended by that process's death. */
  lemma WokenExactly(t: Table, pid: Pid, clear: bool, w: Pid)
    requires w != pid && t[w].blocked
    ensures !Ended(t, pid, clear)[w].blocked <==> t[pid].ppid == w && (t[w].waitPid == pid || t[w].waitPid == WAIT_ANY)
    ensures Ended(Parked(t, w, pid), pid, clear)[w].blocked <==> t[pid].ppid != w
  {
    EndedFields(t, pid, clear, w);
    EndedFields(Parked(t, w, pid), pid, clear, w);
  }

  // ---------------------------------------------------------------- runs

  datatype State = State(t: Table, rank: seq<nat>, on: seq<int>)

  datatype Op =
    | Create(ppid: Pid)
    | NoMemory(ppid: Pid)             // creation fails after the parent was recorded
    | End(pid: Pid, clear: bool)      // kill, exit, or a fault
    | Wait(w: Pid, pid: Pid)
    | WaitAny(w: Pid)
    | Sleep(w: Pid, until: nat)
    | Expire(w: Pid)                  // the scheduler finds the sleep over

  /** Calls are made by live processes that are not blocked; init does not die. */
  predicate Enabled(s: State, op: Op)
  {
    match op
    case Create(ppid) => FreeSlot(s.t, 0) < MAX && (FreeSlot(s.t, 0) == INIT || Live(s.t, ppid))
    case NoMemory(ppid) => 0 < FreeSlot(s.t, 0) < MAX
    case End(pid, _) => pid != INIT && Live(s.t, pid) && Live(s.t, INIT)
    case Wait(w, pid) => Live(s.t, w) && !s.t[w].blocked && s.t[pid].used && pid != w
    case WaitAny(w) => Live(s.t, w) && !s.t[w].blocked
    case Sleep(w, _) => Live(s.t, w) && !s.t[w].blocked
    case Expire(w) => Live(s.t, w) && s.t[w].blocked && s.t[w].wakeMs != 0
  }

  ghost function Apply(s: State, op: Op): State
    requires Enabled(s, op) && |s.rank| == |s.on| == MAX
  {
    match op
    case Create(ppid) =>
      var i := FreeSlot(s.t, 0);
      State(Created(s.t, i, ppid), if i == INIT then s.rank else s.rank[i := s.rank[ppid] + 1], s.on[i := -1])
    case NoMemory(ppid) =>
      var i := FreeSlot(s.t, 0);
      s.(t := s.t[i := s.t[i].(ppid := ppid)], on := if s.on[ppid] == ANY then s.on[ppid := -1] else s.on)
    case End(pid, clear) => State(Ended(s.t, pid, clear), s.rank, StillParked(s.t, s.on, pid))
    case Wait(w, pid) =>
      if s.t[pid].dead then s.(t := s.t[pid := s.t[pid].(used := false)])
      else s.(t := Parked(s.t, w, pid), on := s.on[w := if s.t[pid].ppid == w then pid else -1])
    case WaitAny(w) =>
      var i := FirstDead(s.t, w, 0);
      if i < MAX then s.(t := s.t[i := s.t[i].(used := false)])
      else s.(t := s.t[w := s.t[w].(waitPid := WAIT_ANY, blocked := true)], on := s.on[w := ANY])
    case Sleep(w, until) => s.(t := s.t[w := s.t[w].(wakeMs := until, blocked := true)], on := s.on[w := -1])
    case Expire(w) => s.(t := s.t[w := s.t[w].(blocked := false, wakeMs := 0)], on := s.on[w := -1])
  }

  ghost predicate Inv(s: State) { Ranked(s.t, s.rank) && ParksOk(s.t, s.on) }

  lemma CreatedParks(t: Table, on: seq<int>, i: Pid, ppid: Pid)
    requires ParksOk(t, on) && !t[i].used
    ensures ParksOk(Created(t, i, ppid), on[i := -1])
  {
    var t', on' := Created(t, i, ppid), on[i := -1];
    forall w: Pid
      ensures ParkOk(t', on', w)
    {
      assert ParkOk(t, on, w);
      assert on[w] == ANY ==> forall j: Pid :: DeadChild(t', w, j) ==> DeadChild(t, w, j);
    }
  }

  lemma StepInv(s: State, op: Op)
    requires Inv(s) && Enabled(s, op)
    ensures Inv(Apply(s, op))
  {
    hide Ended, Created;
    var s' := Apply(s, op);
    match op
    case Create(ppid) =>
      CreatedRanked(s.t, s.rank, FreeSlot(s.t, 0), ppid);
      CreatedParks(s.t, s.on, FreeSlot(s.t, 0), ppid);
    case End(pid, clear) =>
      EndedRanked(s.t, s.rank, pid, clear);
      EndedParks(s.t, s.on, pid, clear);
    case _ =>
      forall p: Pid
        ensures RankOk(s'.t, s'.rank, p) && ParkOk(s'.t, s'.on, p)
      {
        QuietStep(s, op, p);
      }
  }

  /** Steps that neither create nor end a process. */
  lemma QuietStep(s: State, op: Op, p: Pid)
    requires Inv(s) && Enabled(s, op) && !op.Create? && !op.End?
    ensures RankOk(Apply(s, op).t, s.rank, p) && ParkOk(Apply(s, op).t, Apply(s, op).on, p)
  {
    assert RankOk(s.t, s.rank, p);
    QuietPark(s, op, p);
  }

  lemma QuietPark(s: State, op: Op, p: Pid)
    requires Inv(s) && Enabled(s, op) && !op.Create? && !op.End?
    ensures ParkOk(Apply(s, op).t, Apply(s, op).on, p)
  {
    hide RankOk;
    var s' := Apply(s, op);
    assert ParkOk(s.t, s.on, p);
    if s'.on[p] == ANY {
      forall j: Pid
        ensures !DeadChild(s'.t, p, j)
      {
        assert !DeadChild(s.t, p, j);
      }
    }
  }

  ghost predicate Runs(s: State, ops: seq<Op>, s': State)
    decreases |ops|
  {
    if ops == [] then s == s'
    else Enabled(s, ops[0]) && |s.rank| == |s.on| == MAX && Runs(Apply(s, ops[0]), ops[1..], s')
  }

  /** Over every run every live process reaches init through live parents, and no process is still parked
      on a child of its own that has died, or on any child while one is dead. */
  lemma {:induction false} RunInv(s: State, ops: seq<Op>, s': State)
    requires Inv(s) && Runs(s, ops, s')
    ensures Inv(s')
    ensures forall p: Pid | Live(s'.t, p) :: Reaches(s'.t, p, s'.rank[p])
    ensures forall w: Pid | 0 <= s'.on[w] :: s'.on[w] < MAX && Live(s'.t, s'.on[w]) && s'.t[s'.on[w]].ppid == w
    ensures forall w: Pid, i: Pid | s'.on[w] == ANY :: !DeadChild(s'.t, w, i)
    decreases |ops|
  {
    hide Apply, Enabled;
    if ops == [] {
      forall p: Pid | Live(s'.t, p)
        ensures Reaches(s'.t, p, s'.rank[p])
      {
        RankedReaches(s'.t, s'.rank, p, s'.rank[p]);
      }
      forall w: Pid
        ensures 0 <= s'.on[w] ==> s'.on[w] < MAX && Live(s'.t, s'.on[w]) && s'.t[s'.on[w]].ppid == w
        ensures s'.on[w] == ANY ==> forall i: Pid :: !DeadChild(s'.t, w, i)
      {
        assert ParkOk(s'.t, s'.on, w);
      }
    } else {
      StepInv(s, ops[0]);
      RunInv(Apply(s, ops[0]), ops[1..], s');
    }
  }

  // ---------------------------------------------------------------- a creator's wait ends

  /** Neither w nor i dies along the run, and no old sleep of w runs out. */
  predicate Undisturbed(ops: seq<Op>, w: Pid, i: Pid)
  {
    forall k | 0 <= k < |ops| :: !(ops[k].End? && (ops[k].pid == i || ops[k].pid == w)) && ops[k] != Expire(w)
  }

  lemma StillWaits(s: State, op: Op, w: Pid, i: Pid)
    requires Inv(s) && Enabled(s, op) && s.on[w] == i && !(op.End? && (op.pid == i || op.pid == w)) && op != Expire(w)
    ensures Apply(s, op).on[w] == i
  {
    hide Ended, Ranked;
    assert ParkOk(s.t, s.on, w);
  }

  lemma {:induction false} KeepsWaiting(s: State, ops: seq<Op>, s': State, w: Pid, i: Pid)
    requires Inv(s) && Runs(s, ops, s') && Undisturbed(ops, w, i) && s.on[w] == i
    ensures Inv(s') && s'.on[w] == i
    decreases |ops|
  {
    hide Inv, Apply, Enabled;
    if ops != [] {
      assert !(ops[0].End? && (ops[0].pid == i || ops[0].pid == w)) && ops[0] != Expire(w);
      StepInv(s, ops[0]);
      StillWaits(s, ops[0], w, i);
      KeepsWaiting(Apply(s, ops[0]), ops[1..], s', w, i);
    }
  }

  /** A process that creates another and waits for the pid it was given is woken, with that pid, when that process dies,
      however much later. */
  lemma CreatorIsWoken(s: State, w: Pid, i: Pid, s1: State, s2: State, ops: seq<Op>, s': State, clear: bool)
    requires Inv(s) && Enabled(s, Create(w)) && i == FreeSlot(s.t, 0) != INIT && s1 == Apply(s, Create(w))
    requires Inv(s1) && Enabled(s1, Wait(w, i)) && s2 == Apply(s1, Wait(w, i))
    requires Runs(s2, ops, s') && Undisturbed(ops, w, i) && Enabled(s', End(i, clear))
    ensures |s'.rank| == |s'.on| == MAX && !Apply(s', End(i, clear)).t[w].blocked && Apply(s', End(i, clear)).t[w].rax == i
  {
    hide Ended, RankOk;
    StepInv(s1, Wait(w, i));
    assert s2.on[w] == i;
    KeepsWaiting(s2, ops, s', w, i);
    EndedParks(s'.t, s'.on, i, clear);
  }

  // ---------------------------------------------------------------- a dead child is never used up

  /** The operation makes, or tries to make, a process in slot i. */
  predicate Reuses(s: State, op: Op, i: Pid) { (op.Create? || op.NoMemory?) && FreeSlot(s.t, 0) == i }

  ghost predicate NeverReused(s: State, ops: seq<Op>, i: Pid)
    requires |s.rank| == |s.on| == MAX
    decreases |ops|
  {
    ops == [] || (Enabled(s, ops[0]) && !Reuses(s, ops[0], i) && NeverReused(Apply(s, ops[0]), ops[1..], i))
  }

  lemma DeadChildStays(s: State, op: Op, w: Pid, i: Pid)
    requires |s.rank| == |s.on| == MAX && Enabled(s, op) && DeadChild(s.t, w, i) && !Reuses(s, op, i)
    ensures DeadChild(Apply(s, op).t, w, i)
  {
    hide Ended, FirstDead;
    if op.End? { EndedFields(s.t, op.pid, op.clear, i); }
  }

  /** A wait for any child leaves the slot it reaps marked dead.  So once a child of w has died, however long the
      run and whatever else happens on it, every wait of w for any child finds a dead one and w is not parked,
      until the slot is reused. */
  lemma {:induction false} WaitAnyNeverParks(s: State, ops: seq<Op>, s': State, w: Pid, i: Pid)
    requires |s.rank| == |s.on| == MAX && Runs(s, ops, s') && NeverReused(s, ops, i) && DeadChild(s.t, w, i)
    ensures |s'.rank| == |s'.on| == MAX && DeadChild(s'.t, w, i) && FirstDead(s'.t, w, 0) <= i
    ensures Enabled(s', WaitAny(w)) ==> Apply(s', WaitAny(w)).t[w] == s'.t[w]
    decreases |ops|
  {
    hide Ended;
    if ops != [] {
      DeadChildStays(s, ops[0], w, i);
      WaitAnyNeverParks(Apply(s, ops[0]), ops[1..], s', w, i);
    } else {
      assert FirstDead(s.t, w, 0) <= i;
    }
  }
}
