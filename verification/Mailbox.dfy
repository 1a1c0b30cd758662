/**
 The request mailbox of one application processor: any number of senders in send_ap_request
 (src/smp/apreq.c), the interrupt handler and the main loop of the processor
 (src/smp/smp_main.c), interleaved step by step.
 */
module Mailbox {
  import opened Basics

  const RUN := 0     // AP_REQ_RUN
  const PAUSE := 1   // AP_REQ_PAUSE
  const CONT := 2    // AP_REQ_CONT
  const STOP := 3    // AP_REQ_STOP

  datatype RunReq = RunReq(fn: nat, arg: nat)            // fn 0 is NULL
  datatype Request = Request(kind: int, run: RunReq)
  datatype Frame = Dead | Live(run: RunReq)              // the sender's ap_runreq_t on its stack

  /** Where a sender is in send_ap_request. */
  datatype SenderPc = Idle | Want | Clear | PutKind | PutData | Send | Spin | Leave
  datatype Sender = Sender(pc: SenderPc, id: nat, frame: Frame)

  /** apreqvec[i]: the holder of its lock, and `data` as the sender whose frame it points at. */
  datatype Box = Box(holder: int, done: bool, kind: int, data: int, ipi: bool)

  datatype ApState = Waiting | Paused | Start | Running  // apstates[i].state

  /** Where the processor is: the main loop, then the handler. */
  datatype ApPc =
    | Top | Locked | Relax | User | Report | Launch | InFn | After | Finish
    | Entered | RunLock | RunCheck | RunCopy | RunArm | SetLock | SetState | Unlock | Ack | Exit

  /** apstates[i], with the interrupted position and the local copy of the function to start.
      `armed` and `taken` name the request a copy came from, -1 when there is none. */
  datatype Ap = Ap(pc: ApPc, saved: ApPc, intr: bool, locked: bool, state: ApState,
                   rreq: RunReq, armed: int, local: RunReq, taken: int)

  datatype Outcome = Pending | Accepted | Refused | Applied

  /** `asked` and `outcome` are indexed by request; `started` lists the functions started. */
  datatype System = System(senders: seq<Sender>, box: Box, ap: Ap,
                           asked: seq<Request>, outcome: seq<Outcome>, started: seq<int>, ran: seq<RunReq>)

  datatype Step =
    | Call(t: nat, req: Request) | Acquire(t: nat) | ClearDone(t: nat) | StoreKind(t: nat) | StoreData(t: nat)
    | SendIpi(t: nat) | SeeDone(t: nat) | Release(t: nat)
    | Interrupt | Main(idle: bool) | Handle(junk: RunReq)

  const NONE := RunReq(0, 0)

  predicate InHandler(pc: ApPc)
  {
    pc.Entered? || pc.RunLock? || pc.RunCheck? || pc.RunCopy? || pc.RunArm? || pc.SetLock? || pc.SetState? || pc.Unlock? || pc.Ack? || pc.Exit?
  }

  /** The handler has not yet stored `done`. */
  predicate Serving(pc: ApPc) { InHandler(pc) && !pc.Exit? }

  predicate Decided(pc: ApPc) { pc.Unlock? || pc.Ack? }

  predicate Critical(pc: SenderPc) { !pc.Idle? && !pc.Want? }

  ghost predicate Initial(s: System)
  {
    && (forall t | 0 <= t < |s.senders| :: s.senders[t] == Sender(Idle, 0, Dead))
    && s.box.holder == -1 && !s.box.ipi
    && s.ap == Ap(Top, Top, true, false, Waiting, NONE, -1, NONE, -1)
    && s.asked == [] && s.outcome == [] && s.started == [] && s.ran == []
  }

  // ---------------------------------------------------------------- the steps

  predicate SenderAt(s: System, t: nat, pc: SenderPc) { t < |s.senders| && s.senders[t].pc == pc }

  predicate Enabled(s: System, e: Step)
  {
    match e
    case Call(t, _) => SenderAt(s, t, Idle)
    case Acquire(t) => SenderAt(s, t, Want) && s.box.holder == -1
    case ClearDone(t) => SenderAt(s, t, Clear)
    case StoreKind(t) => SenderAt(s, t, PutKind)
    case StoreData(t) => SenderAt(s, t, PutData)
    case SendIpi(t) => SenderAt(s, t, Send)
    case SeeDone(t) => SenderAt(s, t, Spin) && s.box.done
    case Release(t) => SenderAt(s, t, Leave)
    case Interrupt => s.box.ipi && s.ap.intr
    case Main(_) => !InHandler(s.ap.pc) && !s.ap.pc.User? && (s.ap.pc.Top? ==> !s.ap.locked)
    case Handle(_) => InHandler(s.ap.pc) && (s.ap.pc.RunLock? || s.ap.pc.SetLock? ==> !s.ap.locked)
  }

  function MoveSender(s: System, t: nat, pc: SenderPc): System
    requires t < |s.senders|
  {
    s.(senders := s.senders[t := s.senders[t].(pc := pc)])
  }

  function Apply(s: System, e: Step): System
    requires Enabled(s, e)
  {
    match e
    case Call(t, req) =>
      s.(senders := s.senders[t := Sender(Want, |s.asked|, if req.kind == RUN then Live(req.run) else Dead)],
         asked := s.asked + [req], outcome := s.outcome + [Pending])
    case Acquire(t) => MoveSender(s, t, Clear).(box := s.box.(holder := t))
    case ClearDone(t) => MoveSender(s, t, PutKind).(box := s.box.(done := false))
    case StoreKind(t) =>
      if s.senders[t].id < |s.asked| then MoveSender(s, t, PutData).(box := s.box.(kind := s.asked[s.senders[t].id].kind)) else s
    case StoreData(t) => MoveSender(s, t, Send).(box := s.box.(data := if s.senders[t].frame.Live? then t else -1))
    case SendIpi(t) => MoveSender(s, t, Spin).(box := s.box.(ipi := true))
    case SeeDone(t) => MoveSender(s, t, Leave)
    case Release(t) => s.(senders := s.senders[t := Sender(Idle, s.senders[t].id, Dead)], box := s.box.(holder := -1))
    case Interrupt => s.(box := s.box.(ipi := false), ap := s.ap.(saved := s.ap.pc, pc := Entered, intr := false))
    case Main(idle) => MainStep(s, idle)
    case Handle(junk) => HandleStep(s, junk)
  }

  /** smp_mainloop.  `idle` is whether the scheduler found no process to run. */
  function MainStep(s: System, idle: bool): System
  {
    var a := s.ap;
    match a.pc
    case Top => s.(ap := a.(pc := Locked, locked := true, intr := false))
    case Locked =>
      (match a.state
       case Waiting => s.(ap := a.(pc := Relax, locked := false, intr := true))
       case Paused => s.(ap := a.(pc := Relax, locked := false, intr := true))
       case Running => s.(ap := a.(pc := if idle then Relax else User, locked := false, intr := true))
       case Start => s.(ap := a.(pc := Report, local := a.rreq, taken := a.armed, rreq := NONE, armed := -1, locked := false, intr := true)))
    case Relax => s.(ap := a.(pc := Top))
    case Report => s.(ap := a.(pc := Launch))
    case Launch =>
      if a.local.fn == 0 then s.(ap := a.(pc := After, local := NONE, taken := -1))
      else s.(ap := a.(pc := InFn, local := NONE, taken := -1), started := s.started + [a.taken], ran := s.ran + [a.local])
    case InFn => s.(ap := a.(pc := After, intr := false))
    case After => s.(ap := a.(pc := Finish, locked := true, intr := false))
    case Finish =>
      s.(ap := a.(pc := Top, rreq := NONE, armed := -1, state := if a.state.Start? then Waiting else a.state, locked := false, intr := true))
    case _ => s
  }

  /** The request now being served, by the sender holding the mailbox. */
  function Current(s: System): int
  {
    if 0 <= s.box.holder < |s.senders| then s.senders[s.box.holder].id else -1
  }

  function Decide(s: System, o: Outcome): System
  {
    if 0 <= Current(s) < |s.outcome| then s.(outcome := s.outcome[Current(s) := o]) else s
  }

  function ReadFrame(s: System, junk: RunReq): RunReq
  {
    if 0 <= s.box.data < |s.senders| && s.senders[s.box.data].frame.Live? then s.senders[s.box.data].frame.run else junk
  }

  /** smp_request_hdlr_c.  `junk` is what reading a dead stack frame would yield. */
  function HandleStep(s: System, junk: RunReq): System
  {
    var a := s.ap;
    match a.pc
    case Entered =>
      if s.box.kind == RUN then s.(ap := a.(pc := RunLock))
      else if PAUSE <= s.box.kind <= STOP then s.(ap := a.(pc := SetLock))
      else s.(ap := a.(pc := a.saved, intr := true))
    case RunLock => s.(ap := a.(pc := RunCheck, locked := true))
    case RunCheck => if a.state.Waiting? then s.(ap := a.(pc := RunCopy)) else Decide(s, Refused).(ap := a.(pc := Unlock))
    case RunCopy => s.(ap := a.(pc := RunArm, rreq := ReadFrame(s, junk), armed := Current(s)))
    case RunArm => Decide(s, Accepted).(ap := a.(pc := Unlock, state := Start))
    case SetLock => s.(ap := a.(pc := SetState, locked := true))
    case SetState =>
      Decide(s, Applied).(ap := a.(pc := Unlock, state := if s.box.kind == PAUSE then Paused else if s.box.kind == CONT then Running else Waiting))
    case Unlock => s.(ap := a.(pc := Ack, locked := false))
    case Ack => s.(ap := a.(pc := Exit), box := s.box.(done := true))
    case Exit => s.(ap := a.(pc := Top, intr := true, local := NONE, taken := -1))
    case _ => s
  }

  // ---------------------------------------------------------------- the invariant

  /** A sender is past lock_acquire exactly when it holds the lock; its frame lives while it waits. */
  ghost predicate SenderOk(x: Sender, t: nat, holder: int, asked: seq<Request>, outcome: seq<Outcome>)
    requires |outcome| == |asked|
  {
    && (Critical(x.pc) <==> holder == t)
    && (x.pc.Idle? ==> x.frame == Dead)
    && (!x.pc.Idle? ==> x.id < |asked| && (x.frame == if asked[x.id].kind == RUN then Live(asked[x.id].run) else Dead))
    && (!x.pc.Idle? && !x.pc.Spin? && !x.pc.Leave? ==> outcome[x.id].Pending?)
  }

  ghost predicate SendersOk(senders: seq<Sender>, holder: int, asked: seq<Request>, outcome: seq<Outcome>)
  {
    && |outcome| == |asked| && -1 <= holder < |senders|
    && (forall t | 0 <= t < |senders| :: SenderOk(senders[t], t, holder, asked, outcome))
    && (forall t, u | 0 <= t < u < |senders| && !senders[t].pc.Idle? && !senders[u].pc.Idle? :: senders[t].id != senders[u].id)
  }

  /** The mailbox fields are the holder's once it has stored them, and stay so while it spins. */
  ghost predicate HeldOk(x: Sender, b: Box, pc: ApPc, asked: seq<Request>, outcome: seq<Outcome>)
    requires x.id < |asked| == |outcome|
  {
    && (x.pc.PutKind? || x.pc.PutData? || x.pc.Send? ==> !b.done)
    && (x.pc.PutData? || x.pc.Send? || x.pc.Spin? ==> b.kind == asked[x.id].kind)
    && (x.pc.Send? || x.pc.Spin? ==> b.data == if b.kind == RUN then b.holder else -1)
    && (x.pc.Spin? ==> (outcome[x.id].Pending? <==> !b.done && !Decided(pc)))
    && (x.pc.Leave? ==> !outcome[x.id].Pending?)
    && (b.ipi || Serving(pc) ==> x.pc.Spin? && !b.done)
  }

  /** The interrupt is pending, or the handler is at work, only while the holder spins on `done`. */
  ghost predicate BoxOk(senders: seq<Sender>, b: Box, pc: ApPc, asked: seq<Request>, outcome: seq<Outcome>)
    requires SendersOk(senders, b.holder, asked, outcome)
  {
    && !(b.ipi && Serving(pc))
    && (b.holder == -1 ==> !b.ipi && !Serving(pc))
    && (b.holder >= 0 ==> HeldOk(senders[b.holder], b, pc, asked, outcome))
  }

  /** A copy of a run request that the processor keeps is the request it came from. */
  ghost predicate CopyOk(asked: seq<Request>, started: seq<int>, run: RunReq, id: int)
  {
    if id < 0 then run == NONE
    else id < |asked| && asked[id] == Request(RUN, run) && id !in started
  }

  predicate HoldsLock(pc: ApPc)
  {
    pc.Locked? || pc.Finish? || pc.RunCheck? || pc.RunCopy? || pc.RunArm? || pc.SetState? || pc.Unlock?
  }

  /** Between taking a function and being done with it. */
  predicate Busy(pc: ApPc) { pc.Report? || pc.Launch? || pc.InFn? || pc.After? || pc.Finish? }

  /** The processor takes interrupts only where it holds no lock. */
  ghost predicate PcOk(a: Ap, kind: int)
  {
    && !InHandler(a.saved) && !HoldsLock(a.saved)
    && (a.intr ==> !a.locked && !InHandler(a.pc))
    && (a.locked <==> HoldsLock(a.pc))
    && (a.pc.RunLock? || a.pc.RunCheck? || a.pc.RunCopy? || a.pc.RunArm? ==> kind == RUN)
    && (a.pc.SetLock? || a.pc.SetState? ==> PAUSE <= kind <= STOP)
    && (a.pc.RunCopy? || a.pc.RunArm? ==> a.state.Waiting?)
    && (Busy(a.pc) || (a.pc.Entered? && Busy(a.saved)) ==> a.armed < 0 && a.state.Start?)
  }

  /** What the processor has yet to start was accepted, or is about to be. */
  ghost predicate CopiesOk(a: Ap, current: int, asked: seq<Request>, outcome: seq<Outcome>, started: seq<int>)
    requires |outcome| == |asked|
  {
    && CopyOk(asked, started, a.rreq, a.armed) && CopyOk(asked, started, a.local, a.taken)
    && (a.armed >= 0 ==> a.armed != a.taken && (outcome[a.armed].Accepted? || a.pc.RunArm?))
    && (a.taken >= 0 ==> outcome[a.taken].Accepted?)
    && (a.pc.RunArm? ==> a.armed == current >= 0)
  }

  /** Every function started was asked for by a distinct accepted request. */
  ghost predicate StartedOk(asked: seq<Request>, outcome: seq<Outcome>, started: seq<int>, ran: seq<RunReq>)
    requires |outcome| == |asked|
  {
    && |ran| == |started| && Distinct(started)
    && forall k | 0 <= k < |started| ::
         0 <= started[k] < |asked| && outcome[started[k]].Accepted? && asked[started[k]] == Request(RUN, ran[k]) && ran[k].fn != 0
  }

  ghost predicate Inv(s: System)
  {
    && SendersOk(s.senders, s.box.holder, s.asked, s.outcome)
    && BoxOk(s.senders, s.box, s.ap.pc, s.asked, s.outcome)
    && PcOk(s.ap, s.box.kind)
    && CopiesOk(s.ap, Current(s), s.asked, s.outcome, s.started)
    && StartedOk(s.asked, s.outcome, s.started, s.ran)
  }

  // ---------------------------------------------------------------- every step keeps it

  lemma InitialInv(s: System)
    requires Initial(s)
    ensures Inv(s)
  {
  }

  lemma CallInv(s: System, t: nat, req: Request)
    requires Inv(s) && Enabled(s, Call(t, req))
    ensures Inv(Apply(s, Call(t, req)))
  {
    assert SenderOk(s.senders[t], t, s.box.holder, s.asked, s.outcome);
  }

  lemma SenderStepInv(s: System, e: Step)
    requires Inv(s) && Enabled(s, e) && !e.Call? && !e.Interrupt? && !e.Main? && !e.Handle?
    ensures Inv(Apply(s, e))
  {
    hide CopyOk, StartedOk, PcOk, HoldsLock;
    var s' := Apply(s, e);
    assert SenderOk(s.senders[e.t], e.t, s.box.holder, s.asked, s.outcome);
    assert PcOk(s.ap, s'.box.kind) by { PcOkKind(s, s'.box.kind); }
  }

  /** No sender changes the kind under a handler at work. */
  lemma PcOkKind(s: System, kind: int)
    requires Inv(s) && (kind == s.box.kind || !Serving(s.ap.pc))
    ensures PcOk(s.ap, kind)
  {
  }

  lemma InterruptInv(s: System)
    requires Inv(s) && Enabled(s, Interrupt)
    ensures Inv(Apply(s, Interrupt))
  {
    hide CopyOk, StartedOk, SendersOk;
  }

  lemma BoxOkMain(s: System, pc: ApPc)
    requires Inv(s) && !Serving(s.ap.pc) && !Serving(pc)
    ensures BoxOk(s.senders, s.box, pc, s.asked, s.outcome)
  {
  }

  lemma LaunchInv(s: System, idle: bool)
    requires Inv(s) && s.ap.pc.Launch?
    ensures Inv(MainStep(s, idle))
  {
    hide BoxOk;
    BoxOkMain(s, MainStep(s, idle).ap.pc);
  }

  lemma MainInv(s: System, idle: bool)
    requires Inv(s) && Enabled(s, Main(idle))
    ensures Inv(MainStep(s, idle))
  {
    hide StartedOk, BoxOk, CopyOk, SenderOk;
    if s.ap.pc.Launch? {
      LaunchInv(s, idle);
    } else {
      BoxOkMain(s, MainStep(s, idle).ap.pc);
      NoneOk(s.asked, s.started);
    }
  }

  lemma NoneOk(asked: seq<Request>, started: seq<int>)
    ensures CopyOk(asked, started, NONE, -1)
  {
  }

  /** The step in which the handler decides; the request is still pending, so no record of it changes. */
  lemma DecideInv(s: System, junk: RunReq)
    requires Inv(s) && (s.ap.pc.RunCheck? || s.ap.pc.RunArm? || s.ap.pc.SetState?)
    ensures Inv(HandleStep(s, junk))
  {
    hide Distinct;
    assert SenderOk(s.senders[s.box.holder], s.box.holder, s.box.holder, s.asked, s.outcome);
  }

  lemma CopyInv(s: System, junk: RunReq)
    requires Inv(s) && s.ap.pc.RunCopy?
    ensures Inv(HandleStep(s, junk))
  {
    hide BoxOk, SenderOk, ReadFrame;
    HandlerServesHolder(s);
    BoxOkServing(s, RunArm);
  }

  lemma BoxOkServing(s: System, pc: ApPc)
    requires Inv(s) && Serving(s.ap.pc) && Serving(pc) && (Decided(pc) <==> Decided(s.ap.pc))
    ensures BoxOk(s.senders, s.box, pc, s.asked, s.outcome)
  {
  }

  lemma HandleInv(s: System, junk: RunReq)
    requires Inv(s) && Enabled(s, Handle(junk))
    ensures Inv(HandleStep(s, junk))
  {
    hide StartedOk, CopyOk, SenderOk;
    if s.ap.pc.RunCheck? || s.ap.pc.RunArm? || s.ap.pc.SetState? {
      DecideInv(s, junk);
    } else if s.ap.pc.RunCopy? {
      CopyInv(s, junk);
    } else {
      NoneOk(s.asked, s.started);
    }
  }

  // ---------------------------------------------------------------- what it means

  /** While the handler serves a request, the request is that of the sender holding the mailbox,
      which is spinning with its frame alive, so the copy reads what that sender asked for. */
  lemma HandlerServesHolder(s: System)
    requires Inv(s) && Serving(s.ap.pc)
    ensures s.box.holder >= 0 && SenderAt(s, s.box.holder, Spin) && !s.box.done && !s.box.ipi && 0 <= Current(s) < |s.asked|
    ensures s.box.kind == s.asked[Current(s)].kind
    ensures s.outcome[Current(s)].Pending? <==> !Decided(s.ap.pc)
    ensures s.ap.pc.RunCopy? ==> forall junk :: ReadFrame(s, junk) == s.asked[Current(s)].run
    ensures s.ap.pc.RunCopy? ==> s.asked[Current(s)].kind == RUN
  {
    assert SenderOk(s.senders[s.box.holder], s.box.holder, s.box.holder, s.asked, s.outcome);
  }

  /** A request is decided once: no step changes or withdraws a decision, or a request. */
  lemma DecisionsStand(s: System, e: Step)
    requires Inv(s) && Enabled(s, e)
    ensures
      var s' := Apply(s, e);
      && s.asked <= s'.asked && |s.outcome| <= |s'.outcome| && s.started <= s'.started && s.ran <= s'.ran
      && forall i | 0 <= i < |s.outcome| && !s.outcome[i].Pending? :: s'.outcome[i] == s.outcome[i]
  {
    hide StartedOk, SendersOk, CopiesOk;
    if e.Handle? && (s.ap.pc.RunCheck? || s.ap.pc.RunArm? || s.ap.pc.SetState?) {
      HandlerServesHolder(s);
    }
  }

  ghost predicate Runs(s: System, es: seq<Step>, s': System)
    decreases |es|
  {
    if es == [] then s == s' else Enabled(s, es[0]) && Runs(Apply(s, es[0]), es[1..], s')
  }

  lemma StepInv(s: System, e: Step)
    requires Inv(s) && Enabled(s, e)
    ensures Inv(Apply(s, e))
  {
    hide Inv;
    match e
    case Call(t, req) => CallInv(s, t, req);
    case Interrupt => InterruptInv(s);
    case Main(idle) => MainInv(s, idle);
    case Handle(junk) => HandleInv(s, junk);
    case _ => SenderStepInv(s, e);
  }

  lemma {:induction false} RunInv(s: System, es: seq<Step>, s': System)
    requires Inv(s) && Runs(s, es, s')
    ensures Inv(s')
    ensures s.asked <= s'.asked && |s.outcome| <= |s'.outcome| && s.started <= s'.started && s.ran <= s'.ran
    ensures forall i | 0 <= i < |s.outcome| && !s.outcome[i].Pending? :: s'.outcome[i] == s.outcome[i]
    decreases |es|
  {
    hide Inv, Enabled, Apply;
    if es != [] {
      StepInv(s, es[0]);
      DecisionsStand(s, es[0]);
      RunInv(Apply(s, es[0]), es[1..], s');
    }
  }

  /** Over every interleaving: each function started is that of an accepted RUN, no RUN starts twice,
      and one once refused never starts. */
  lemma StartsAtMostOnce(s0: System, es: seq<Step>, s: System, es': seq<Step>, s': System)
    requires Initial(s0) && Runs(s0, es, s) && Runs(s, es', s')
    ensures Distinct(s'.started) && |s'.ran| == |s'.started|
    ensures forall k | 0 <= k < |s'.started| ::
              0 <= s'.started[k] < |s'.asked| == |s'.outcome| && s'.asked[s'.started[k]] == Request(RUN, s'.ran[k]) && s'.outcome[s'.started[k]].Accepted?
    ensures |s.outcome| == |s.asked| && s.asked <= s'.asked
    ensures forall i | 0 <= i < |s.outcome| && s.outcome[i].Refused? :: i !in s'.started
  {
    hide Runs;
    InitialInv(s0);
    RunInv(s0, es, s);
    RunInv(s, es', s');
  }

  /** A sender leaves only after the handler has decided its own request; its fields in the mailbox
      are its own until then, and the processor's lock is never waited for by its own holder. */
  lemma SenderReturnsAnswered(s0: System, es: seq<Step>, s: System, t: nat)
    requires Initial(s0) && Runs(s0, es, s)
    ensures Enabled(s, Release(t)) ==> s.box.holder == t && s.senders[t].id < |s.outcome| && !s.outcome[s.senders[t].id].Pending?
    ensures InHandler(s.ap.pc) ==> forall junk :: Enabled(s, Handle(junk))
    ensures s.ap.pc.Top? ==> !s.ap.locked
    ensures Serving(s.ap.pc) ==> s.box.holder >= 0 && SenderAt(s, s.box.holder, Spin) && !s.box.done
  {
    hide Runs, Initial, StartedOk, CopiesOk, Apply;
    InitialInv(s0);
    RunInv(s0, es, s);
    if Enabled(s, Release(t)) {
      assert SenderOk(s.senders[t], t, s.box.holder, s.asked, s.outcome);
    }
    if Serving(s.ap.pc) { HandlerServesHolder(s); }
  }

  /** An accepted RUN stays armed until the main loop takes it; only a RUN accepted after a STOP replaces it. */
  lemma AcceptedNotDropped(s: System, e: Step)
    requires Inv(s) && Enabled(s, e) && s.ap.armed >= 0 && Apply(s, e).ap.armed != s.ap.armed
    ensures
      || (e.Main? && s.ap.pc.Locked? && s.ap.state.Start? && Apply(s, e).ap.taken == s.ap.armed && Apply(s, e).ap.local == s.asked[s.ap.armed].run)
      || (e.Handle? && s.ap.pc.RunCopy? && s.ap.state.Waiting?)
  {
    hide StartedOk, SendersOk;
  }

  // ---------------------------------------------------------------- pausing

  predicate Idling(pc: ApPc) { !Busy(pc) && !pc.User? }

  /** Paused, and neither in a function or process nor about to return to one. */
  ghost predicate Quiet(s: System)
  {
    s.ap.state.Paused? && Idling(s.ap.pc) && (s.ap.pc.Entered? ==> Idling(s.ap.saved))
  }

  /** A PAUSE, once served, leaves the processor quiet, whatever it was running. */
  lemma PauseQuiets(s: System, junk: RunReq)
    requires Inv(s) && s.ap.pc.SetState? && s.asked[Current(s)].kind == PAUSE
    ensures Quiet(HandleStep(s, junk))
  {
    hide StartedOk, SendersOk, CopiesOk;
    HandlerServesHolder(s);
  }

  /** No request that sets the state is served along the run. */
  ghost predicate Undisturbed(s: System, es: seq<Step>)
    decreases |es|
  {
    es == [] || (Enabled(s, es[0]) && !(es[0].Handle? && s.ap.pc.SetState?) && Undisturbed(Apply(s, es[0]), es[1..]))
  }

  /** Until the next PAUSE, CONT or STOP, a paused processor starts no function and enters no process;
      RUN requests that arrive meanwhile are refused. */
  lemma {:induction false} PausedStaysIdle(s: System, es: seq<Step>, s': System)
    requires Inv(s) && Quiet(s) && Runs(s, es, s') && Undisturbed(s, es)
    ensures Quiet(s') && s'.started == s.started
    decreases |es|
  {
    hide Inv;
    if es != [] {
      StepInv(s, es[0]);
      QuietStep(s, es[0]);
      PausedStaysIdle(Apply(s, es[0]), es[1..], s');
    }
  }

  lemma QuietStep(s: System, e: Step)
    requires Inv(s) && Quiet(s) && Enabled(s, e) && !(e.Handle? && s.ap.pc.SetState?)
    ensures Quiet(Apply(s, e)) && Apply(s, e).started == s.started
    ensures e.Handle? && s.ap.pc.RunCheck? ==> Apply(s, e).ap.pc.Unlock? && 0 <= Current(s) < |Apply(s, e).outcome| && Apply(s, e).outcome[Current(s)].Refused?
  {
    hide StartedOk, SenderOk, CopiesOk;
    if Serving(s.ap.pc) { HandlerServesHolder(s); }
  }

  // ---------------------------------------------------------------- what serving a request comes to

  /** At the check, a RUN is refused exactly when the processor is not waiting. */
  lemma RunDecided(s: System, junk: RunReq)
    requires Inv(s) && s.ap.pc.RunCheck?
    ensures 0 <= Current(s) < |HandleStep(s, junk).outcome|
    ensures HandleStep(s, junk).outcome[Current(s)].Refused? <==> !s.ap.state.Waiting?
    ensures s.ap.state.Waiting? ==> HandleStep(s, junk).ap.pc.RunCopy? && HandleStep(s, junk).outcome[Current(s)].Pending?
  {
    hide StartedOk, CopiesOk;
    HandlerServesHolder(s);
  }

  /** Steps of the processor itself. */
  function Own(es: seq<Step>): nat
  {
    if es == [] then 0 else (if es[0].Main? || es[0].Handle? then 1 else 0) + Own(es[1..])
  }

  predicate NoInterrupt(es: seq<Step>) { forall i | 0 <= i < |es| :: !es[i].Interrupt? }

  /** The processor, interrupted at a0 while waiting, after k own steps on the RUN request c: it takes its lock, copies
      and arms the request, acknowledges it, takes it up in the main loop, runs it, and waits again. */
  function RunAp(a0: Ap, c: int, run: RunReq, k: nat): Ap
  {
    if k == 0 then a0
    else if k == 1 then a0.(pc := RunLock)
    else if k <= 3 then a0.(pc := if k == 2 then RunCheck else RunCopy, locked := true)
    else if k == 4 then a0.(pc := RunArm, locked := true, rreq := run, armed := c)
    else if k <= 7 then a0.(pc := if k == 5 then Unlock else if k == 6 then Ack else Exit, locked := k == 5, state := Start, rreq := run, armed := c)
    else
      var a := a0.(state := Start, rreq := run, armed := c, local := NONE, taken := -1, locked := false, intr := true);
      if k == 8 then a.(pc := Top)
      else if k == 9 then a.(pc := Locked, locked := true, intr := false)
      else if k <= 11 then a.(pc := if k == 10 then Report else Launch, rreq := NONE, armed := -1, local := run, taken := c)
      else if k == 12 then a.(pc := InFn, rreq := NONE, armed := -1)
      else if k == 13 then a.(pc := After, rreq := NONE, armed := -1, intr := false)
      else if k == 14 then a.(pc := Finish, rreq := NONE, armed := -1, intr := false, locked := true)
      else a.(pc := Top, rreq := NONE, armed := -1, state := Waiting)
  }

  ghost predicate RunPhase(s0: System, s: System, c: nat, k: nat)
    requires c < |s0.asked|
  {
    var run := s0.asked[c].run;
    && s.ap == RunAp(s0.ap, c, run, k) && s0.asked <= s.asked && c < |s.outcome|
    && (k <= 6 ==> Current(s) == c && s.box.kind == RUN)
    && (k >= 5 ==> s.outcome[c].Accepted?)
    && s.started == (if k < 12 then s0.started else s0.started + [c]) && s.ran == (if k < 12 then s0.ran else s0.ran + [run])
  }

  /** The interrupted state in which a RUN is about to be served. */
  ghost predicate RunArrives(s0: System, c: nat)
  {
    && Inv(s0) && s0.ap.pc.Entered? && s0.ap.state.Waiting? && s0.box.kind == RUN && Current(s0) == c < |s0.asked|
    && c < |s0.outcome| && s0.asked[c].run.fn != 0
  }

  predicate OfSender(e: Step) { !e.Interrupt? && !e.Main? && !e.Handle? }

  /** A sender's step changes nothing about the processor or about the request being served. */
  lemma SenderQuiet(s: System, e: Step)
    requires Inv(s) && Enabled(s, e) && OfSender(e)
    ensures
      var s' := Apply(s, e);
      && s'.ap == s.ap && s'.started == s.started && s'.ran == s.ran && s.asked <= s'.asked && s.outcome <= s'.outcome
      && (Serving(s.ap.pc) ==> Current(s') == Current(s) && s'.box.kind == s.box.kind)
  {
    hide StartedOk, CopiesOk;
    if Serving(s.ap.pc) { HandlerServesHolder(s); }
    if !e.Call? { assert SenderOk(s.senders[e.t], e.t, s.box.holder, s.asked, s.outcome); }
  }

  /** One step of the handler on an accepted RUN. */
  lemma RunHandled(s0: System, s: System, c: nat, k: nat, junk: RunReq)
    requires RunArrives(s0, c) && Inv(s) && RunPhase(s0, s, c, k) && k < 8
    ensures RunPhase(s0, HandleStep(s, junk), c, k + 1)
  {
    hide SendersOk, BoxOk, PcOk, CopiesOk, StartedOk;
    assert s.asked[c] == s0.asked[c];
    if k <= 6 { HandlerServesHolder(s); }
  }

  /** One step of the main loop on an armed RUN. */
  lemma RunTaken(s0: System, s: System, c: nat, k: nat, idle: bool)
    requires RunArrives(s0, c) && Inv(s) && RunPhase(s0, s, c, k) && 8 <= k < 15
    ensures RunPhase(s0, MainStep(s, idle), c, k + 1)
  {
    hide SendersOk, BoxOk, PcOk, CopiesOk, StartedOk;
  }

  lemma RunStep(s0: System, s: System, c: nat, k: nat, e: Step)
    requires RunArrives(s0, c) && Inv(s) && RunPhase(s0, s, c, k) && Enabled(s, e) && !e.Interrupt? && k <= 15 && (!OfSender(e) ==> k < 15)
    ensures RunPhase(s0, Apply(s, e), c, if e.Main? || e.Handle? then k + 1 else k)
  {
    hide Inv;
    match e
    case Main(idle) => RunTaken(s0, s, c, k, idle);
    case Handle(junk) => RunHandled(s0, s, c, k, junk);
    case _ => SenderQuiet(s, e);
  }

  lemma {:induction false} RunPhases(s0: System, s: System, c: nat, k: nat, es: seq<Step>, s': System)
    requires RunArrives(s0, c) && Inv(s) && RunPhase(s0, s, c, k) && Runs(s, es, s') && NoInterrupt(es) && k + Own(es) <= 15
    ensures Inv(s') && RunPhase(s0, s', c, k + Own(es))
    decreases |es|
  {
    hide Inv, RunPhase, RunArrives, Enabled, Apply;
    if es != [] {
      assert !es[0].Interrupt?;
      StepInv(s, es[0]);
      RunStep(s0, s, c, k, es[0]);
      RunPhases(s0, Apply(s, es[0]), c, if es[0].Main? || es[0].Handle? then k + 1 else k, es[1..], s');
    }
  }

  /** A RUN served while the processor waits.  Whatever the senders do meanwhile, after eight steps of its own the
      processor has accepted the request, armed its function and argument and acknowledged it; if no interrupt follows,
      after twelve it is running that function, and after fifteen it waits again. */
  lemma RunIsServed(s0: System, c: nat, es: seq<Step>, s': System)
    requires RunArrives(s0, c) && Runs(s0, es, s') && NoInterrupt(es) && Own(es) <= 15
    ensures Own(es) >= 5 ==> c < |s'.outcome| && s'.outcome[c].Accepted?
    ensures 5 <= Own(es) <= 9 ==> s'.ap.state.Start? && s'.ap.armed == c && s'.ap.rreq == s0.asked[c].run
    ensures s'.started == if Own(es) < 12 then s0.started else s0.started + [c]
    ensures Own(es) == 12 ==> s'.ap.pc.InFn? && s'.ran == s0.ran + [s0.asked[c].run]
    ensures Own(es) == 15 ==> s'.ap.pc.Top? && s'.ap.state.Waiting? && s'.ap.intr
  {
    hide Inv, Runs;
    RunPhases(s0, s0, c, 0, es, s');
  }

  // ---------------------------------------------------------------- the other requests

  function NewState(kind: int, before: ApState): ApState
  {
    if kind == PAUSE then Paused else if kind == CONT then Running else if kind == STOP then Waiting else before
  }

  /** The processor after k own steps on a request that only sets the state, or on a RUN that it refuses. */
  function SetAp(a0: Ap, kind: int, k: nat): Ap
  {
    if k == 0 then a0
    else if k == 1 then a0.(pc := if kind == RUN then RunLock else SetLock)
    else if k == 2 then a0.(pc := if kind == RUN then RunCheck else SetState, locked := true)
    else
      var a := a0.(state := NewState(kind, a0.state), locked := false);
      if k == 3 then a.(pc := Unlock, locked := true)
      else if k == 4 then a.(pc := Ack)
      else if k == 5 then a.(pc := Exit)
      else a.(pc := Top, intr := true, local := NONE, taken := -1)
  }

  ghost predicate SetPhase(s0: System, s: System, c: nat, k: nat)
  {
    && s.ap == SetAp(s0.ap, s0.box.kind, k) && c < |s.outcome| && s.started == s0.started && s.ran == s0.ran
    && (k <= 4 ==> Current(s) == c && s.box.kind == s0.box.kind)
    && (k >= 3 ==> s.outcome[c] == if s0.box.kind == RUN then Refused else Applied)
  }

  /** A PAUSE, CONT or STOP, or a RUN that meets a processor not waiting. */
  ghost predicate SetArrives(s0: System, c: nat)
  {
    && Inv(s0) && s0.ap.pc.Entered? && Current(s0) == c
    && (PAUSE <= s0.box.kind <= STOP || (s0.box.kind == RUN && !s0.ap.state.Waiting?))
  }

  lemma SetHandled(s0: System, s: System, c: nat, k: nat, junk: RunReq)
    requires SetArrives(s0, c) && Inv(s) && SetPhase(s0, s, c, k) && k < 6
    ensures SetPhase(s0, HandleStep(s, junk), c, k + 1)
  {
    hide SendersOk, BoxOk, PcOk, CopiesOk, StartedOk;
    if k <= 4 { HandlerServesHolder(s); }
  }

  lemma SetStep(s0: System, s: System, c: nat, k: nat, e: Step)
    requires SetArrives(s0, c) && Inv(s) && SetPhase(s0, s, c, k) && Enabled(s, e) && !e.Interrupt? && k <= 6 && (!OfSender(e) ==> k < 6)
    ensures SetPhase(s0, Apply(s, e), c, if e.Main? || e.Handle? then k + 1 else k)
  {
    hide Inv;
    match e
    case Main(idle) => assert false;
    case Handle(junk) => SetHandled(s0, s, c, k, junk);
    case _ => SenderQuiet(s, e);
  }

  lemma {:induction false} SetPhases(s0: System, s: System, c: nat, k: nat, es: seq<Step>, s': System)
    requires SetArrives(s0, c) && Inv(s) && SetPhase(s0, s, c, k) && Runs(s, es, s') && NoInterrupt(es) && k + Own(es) <= 6
    ensures Inv(s') && SetPhase(s0, s', c, k + Own(es))
    decreases |es|
  {
    hide Inv, SetPhase, SetArrives, Enabled, Apply;
    if es != [] {
      assert !es[0].Interrupt?;
      StepInv(s, es[0]);
      SetStep(s0, s, c, k, es[0]);
      SetPhases(s0, Apply(s, es[0]), c, if es[0].Main? || es[0].Handle? then k + 1 else k, es[1..], s');
    }
  }

  /** Whatever the senders do meanwhile, after six own steps the processor is back in the main loop: a served PAUSE has
      left it paused, a CONT running, a STOP waiting; a RUN that did not find it waiting is refused and changes nothing. */
  lemma StateIsSet(s0: System, c: nat, es: seq<Step>, s': System)
    requires SetArrives(s0, c) && c < |s0.outcome| && Runs(s0, es, s') && NoInterrupt(es) && Own(es) == 6
    ensures s'.ap.pc.Top? && s'.ap.intr && s'.started == s0.started && c < |s'.outcome|
    ensures s0.box.kind == PAUSE ==> s'.ap.state.Paused? && s'.outcome[c].Applied?
    ensures s0.box.kind == CONT ==> s'.ap.state.Running? && s'.outcome[c].Applied?
    ensures s0.box.kind == STOP ==> s'.ap.state.Waiting? && s'.outcome[c].Applied?
    ensures s0.box.kind == RUN ==> s'.outcome[c].Refused? && s'.ap.state == s0.ap.state && s'.ap.armed == s0.ap.armed && s'.ap.rreq == s0.ap.rreq
  {
    hide Inv, Runs;
    SetPhases(s0, s0, c, 0, es, s');
  }

  /** A running processor enters a process if the scheduler has one for it, a waiting or paused one never does. */
  lemma EntersProcess(s: System, idle: bool)
    requires Inv(s) && s.ap.pc.Locked?
    ensures MainStep(s, idle).ap.pc.User? <==> s.ap.state.Running? && !idle
    ensures MainStep(s, idle).ap.pc.Report? <==> s.ap.state.Start?
  {
  }

  // ---------------------------------------------------------------- sending

  /** The steps of a sender up to the interrupt it causes. */
  function Sending(t: nat, req: Request): seq<Step>
  {
    [Call(t, req), Acquire(t), ClearDone(t), StoreKind(t), StoreData(t), SendIpi(t), Interrupt]
  }

  /** With the mailbox free and interrupts on, sending a request brings the processor into the handler, with that request
      to serve and nothing else changed. */
  lemma SendingArrives(s: System, t: nat, req: Request) returns (s': System)
    requires Inv(s) && SenderAt(s, t, Idle) && s.box.holder == -1 && s.ap.intr
    ensures Runs(s, Sending(t, req), s') && Inv(s')
    ensures s'.ap == s.ap.(saved := s.ap.pc, pc := Entered, intr := false) && s'.box.kind == req.kind
    ensures Current(s') == |s.asked| && s'.asked == s.asked + [req] && s'.started == s.started && s'.ran == s.ran
    ensures |s'.outcome| == |s'.asked|
  {
    hide SendersOk, BoxOk, PcOk, CopiesOk, StartedOk;
    assert |s.outcome| == |s.asked| by { SameLength(s); }
    var es := Sending(t, req);
    var s1 := Stepped(s, es, Call(t, req));
    var s2 := Stepped(s1, es[1..], Acquire(t));
    var s3 := Stepped(s2, es[2..], ClearDone(t));
    var s4 := Stepped(s3, es[3..], StoreKind(t));
    var s5 := Stepped(s4, es[4..], StoreData(t));
    var s6 := Stepped(s5, es[5..], SendIpi(t));
    s' := Stepped(s6, es[6..], Interrupt);
    assert es[6..][1..] == [] && es[5..][1..] == es[6..] && es[4..][1..] == es[5..] && es[3..][1..] == es[4..];
    assert es[2..][1..] == es[3..] && es[1..][1..] == es[2..];
    assert Runs(s6, es[6..], s');
    assert Runs(s5, es[5..], s');
    assert Runs(s4, es[4..], s');
    assert Runs(s3, es[3..], s');
    assert Runs(s2, es[2..], s');
    assert Runs(s1, es[1..], s');
  }

  lemma SameLength(s: System)
    requires Inv(s)
    ensures |s.outcome| == |s.asked|
  {
  }

  lemma Stepped(s: System, es: seq<Step>, e: Step) returns (s': System)
    requires Inv(s) && Enabled(s, e) && es != [] && es[0] == e
    ensures s' == Apply(s, e) && Inv(s')
  {
    hide Inv;
    s' := Apply(s, e);
    StepInv(s, e);
  }

  /** Send a RUN to a waiting processor: after twelve steps of its own, whatever other senders do, it runs that function
      with that argument. */
  lemma SentRunStarts(s: System, t: nat, req: Request, s1: System, es: seq<Step>, s': System)
    requires Inv(s) && SenderAt(s, t, Idle) && s.box.holder == -1 && s.ap.intr && s.ap.state.Waiting?
    requires req.kind == RUN && req.run.fn != 0
    requires Runs(s, Sending(t, req), s1) && Runs(s1, es, s') && NoInterrupt(es) && Own(es) == 12
    ensures s'.ap.pc.InFn? && s'.started == s.started + [|s.asked|] && s'.ran == s.ran + [req.run]
  {
    hide Inv, Sending;
    var s2 := SendingArrives(s, t, req);
    RunsOnce(s, Sending(t, req), s1, s2);
    RunIsServed(s1, |s.asked|, es, s');
  }

  lemma {:induction false} RunsOnce(s: System, es: seq<Step>, a: System, b: System)
    requires Runs(s, es, a) && Runs(s, es, b)
    ensures a == b
    decreases |es|
  {
    hide Enabled, Apply;
    if es != [] { RunsOnce(Apply(s, es[0]), es[1..], a, b); }
  }

  /** An acknowledged sender leaves and frees the mailbox. */
  lemma AnsweredLeaves(s: System, t: nat)
    requires Inv(s) && SenderAt(s, t, Spin) && s.box.done
    ensures Enabled(s, SeeDone(t)) && Enabled(Apply(s, SeeDone(t)), Release(t))
    ensures
      var s' := Apply(Apply(s, SeeDone(t)), Release(t));
      SenderAt(s', t, Idle) && s'.box.holder == -1 && s'.ap == s.ap
  {
  }
}
