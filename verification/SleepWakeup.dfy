/** sleep and wakeup on one channel, by any number of processes in any interleaving. A waiter
    takes lk, sleeps while nothing is there, takes one and lets lk go; a waker takes lk, puts
    one there, and calls wakeup either before or after it lets lk go. Kills wake sleepers at
    any time. Spin locks are taken and released in steps of their own. */
module SleepWakeup {
  import opened Options

  datatype Pc =
    | Idle
    | WantLk                     // acquire(lk)
    | Test                       // while(nothing there)
    | Take                       // take one
    | LetGo                      // release(lk)
    | SleepPt                    // sleep: acquire(&ptable.lock)
    | SleepRel                   // sleep: release(lk)
    | SleepMark                  // sleep: chan and state = SLEEPING
    | Sched                      // sched: the scheduler releases ptable.lock
    | Off                        // not running
    | Woken                      // running again with ptable.lock: release it
    | WantPut                    // acquire(lk)
    | Put                        // put one there
    | EarlyRel                   // release(lk) before wakeup
    | WakeLk(inside: bool)       // wakeup: acquire(&ptable.lock), lk held or not
    | Scan(at: nat, inside: bool)

  /** A process; `holds` is whether it has taken and not put back. */
  datatype Proc = Proc(pc: Pc, sleeping: bool, holds: bool)

  datatype State = State(lk: Option<nat>, pt: Option<nat>, value: nat, procs: seq<Proc>)

  /** What can happen next; `early` chooses the order of wakeup and release. */
  datatype Action = StartWait(p: nat) | StartPut(p: nat) | Go(p: nat, early: bool) | Kill(p: nat)

  predicate NeedsLk(pc: Pc) {
    pc == WantLk || pc == WantPut
  }

  predicate HoldsLk(pc: Pc) {
    || pc == Test || pc == Take || pc == LetGo || pc == SleepPt || pc == SleepRel || pc == Put || pc == EarlyRel
    || (pc.WakeLk? && pc.inside) || (pc.Scan? && pc.inside)
  }

  predicate NeedsPt(pc: Pc) {
    pc == SleepPt || pc == Off || pc.WakeLk?
  }

  predicate HoldsPt(pc: Pc) {
    pc == SleepRel || pc == SleepMark || pc == Sched || pc == Woken || pc.Scan?
  }

  function At(s: State, p: nat, pc: Pc): State
    requires p < |s.procs|
  {
    s.(procs := s.procs[p := s.procs[p].(pc := pc)])
  }

  function Awake(s: State, p: nat): State
    requires p < |s.procs|
  {
    s.(procs := s.procs[p := s.procs[p].(sleeping := false)])
  }

  /** Can process p go on? */
  predicate Enabled(s: State, p: nat) {
    && p < |s.procs| && s.procs[p].pc != Idle
    && (NeedsLk(s.procs[p].pc) ==> s.lk == None)
    && (NeedsPt(s.procs[p].pc) ==> s.pt == None)
    && (s.procs[p].pc == Off ==> !s.procs[p].sleeping)
  }

  /** One step of process p. */
  function Step(s: State, p: nat, early: bool): State
    requires Enabled(s, p)
  {
    match s.procs[p].pc
    case WantLk => At(s, p, Test).(lk := Some(p))
    case Test => At(s, p, if s.value > 0 then Take else SleepPt)
    case Take =>
      var left := if s.value > 0 then s.value - 1 else 0;
      s.(value := left, procs := s.procs[p := s.procs[p].(pc := LetGo, holds := true)])
    case LetGo => At(s, p, Idle).(lk := None)
    case SleepPt => At(s, p, SleepRel).(pt := Some(p))
    case SleepRel => At(s, p, SleepMark).(lk := None)
    case SleepMark => s.(procs := s.procs[p := s.procs[p].(pc := Sched, sleeping := true)])
    case Sched => At(s, p, Off).(pt := None)
    case Off => At(s, p, Woken).(pt := Some(p))
    case Woken => At(s, p, WantLk).(pt := None)
    case WantPut => At(s, p, Put).(lk := Some(p))
    case Put =>
      var pc := if early then EarlyRel else WakeLk(true);
      s.(value := s.value + 1, procs := s.procs[p := s.procs[p].(pc := pc, holds := false)])
    case EarlyRel => At(s, p, WakeLk(false)).(lk := None)
    case WakeLk(inside) => At(s, p, Scan(0, inside)).(pt := Some(p))
    case Scan(j, inside) =>
      if j < |s.procs| then Awake(At(s, p, Scan(j + 1, inside)), j)
      else At(s, p, if inside then LetGo else Idle).(pt := None)
    case Idle => s
  }

  predicate Allowed(s: State, a: Action) {
    match a
    case StartWait(p) => p < |s.procs| && s.procs[p].pc == Idle
    case StartPut(p) => p < |s.procs| && s.procs[p].pc == Idle
    case Go(p, _) => Enabled(s, p)
    case Kill(p) => p < |s.procs| && s.pt == None
  }

  function Next(s: State, a: Action): State
    requires Allowed(s, a)
  {
    match a
    case StartWait(p) => At(s, p, WantLk)
    case StartPut(p) => At(s, p, WantPut)
    case Go(p, early) => Step(s, p, early)
    case Kill(p) => Awake(s, p)
  }

  predicate Initial(s: State) {
    && s.lk == None && s.pt == None
    && forall p :: 0 <= p < |s.procs| ==> s.procs[p].pc == Idle && !s.procs[p].sleeping && !s.procs[p].holds
  }

  /** All the states of a run. */
  ghost predicate Run(states: seq<State>, acts: seq<Action>) {
    && |states| == |acts| + 1 && Initial(states[0])
    && forall k :: 0 <= k < |acts| ==> Allowed(states[k], acts[k]) && states[k + 1] == Next(states[k], acts[k])
  }

  /** Waker q has put something there and has not yet come past p in its scan. */
  predicate Pending(s: State, q: nat, p: nat) {
    && q < |s.procs|
    && match s.procs[q].pc
       case EarlyRel => true
       case WakeLk(_) => true
       case Scan(j, _) => j <= p
       case _ => false
  }

  /** p sleeps, or has made up its mind to. */
  predicate Sleepy(s: State, p: nat)
    requires p < |s.procs|
  {
    s.procs[p].sleeping || s.procs[p].pc == SleepMark
  }

  ghost predicate WillBeWoken(s: State, p: nat) {
    exists q :: Pending(s, q, p)
  }

  /** The locks a process holds are those its place in the code says. */
  predicate LockAt(s: State, p: nat)
    requires p < |s.procs|
  {
    (HoldsLk(s.procs[p].pc) <==> s.lk == Some(p)) && (HoldsPt(s.procs[p].pc) <==> s.pt == Some(p))
  }

  /** What a process has found out under lk still holds. */
  predicate TestAt(s: State, p: nat)
    requires p < |s.procs|
  {
    && (s.procs[p].pc == SleepPt || s.procs[p].pc == SleepRel ==> s.value == 0)
    && (s.procs[p].pc == Take ==> s.value > 0)
    && (s.procs[p].sleeping ==> s.procs[p].pc == Sched || s.procs[p].pc == Off)
  }

  ghost predicate Locks(s: State) {
    && (s.lk.Some? ==> s.lk.value < |s.procs|) && (s.pt.Some? ==> s.pt.value < |s.procs|)
    && forall p :: 0 <= p < |s.procs| ==> LockAt(s, p) && TestAt(s, p)
  }

  ghost predicate NoneLost(s: State) {
    forall p :: 0 <= p < |s.procs| && Sleepy(s, p) && s.value > 0 ==> WillBeWoken(s, p)
  }

  ghost predicate Inv(s: State) {
    Locks(s) && NoneLost(s)
  }

  /** A step changes the place of one process, and at most wakes another. */
  lemma StepFrame(s: State, p: nat, early: bool, r: nat)
    requires Enabled(s, p) && r < |s.procs|
    ensures var s' := Step(s, p, early);
            && |s'.procs| == |s.procs|
            && (r != p ==> s'.procs[r].pc == s.procs[r].pc && s'.procs[r].holds == s.procs[r].holds)
            && (s'.procs[r].sleeping ==> s.procs[r].sleeping || (r == p && s.procs[p].pc == SleepMark))
            && (s'.value != s.value ==> s.procs[p].pc == Put || s.procs[p].pc == Take)
            && (s'.lk != s.lk ==> (s.lk == None && s'.lk == Some(p)) || (HoldsLk(s.procs[p].pc) && s'.lk == None))
            && (s'.pt != s.pt ==> (s.pt == None && s'.pt == Some(p)) || (HoldsPt(s.procs[p].pc) && s'.pt == None))
  {
  }

  lemma StepOther(s: State, p: nat, early: bool, r: nat)
    requires Locks(s) && Enabled(s, p) && r < |s.procs| && r != p
    ensures var s' := Step(s, p, early); |s'.procs| == |s.procs| && LockAt(s', r) && TestAt(s', r)
  {
    StepFrame(s, p, early, r);
    assert LockAt(s, p) && LockAt(s, r) && TestAt(s, r);
    hide Step;
  }

  lemma StepSelf(s: State, p: nat, early: bool)
    requires Enabled(s, p) && LockAt(s, p) && TestAt(s, p)
    ensures var s' := Step(s, p, early); |s'.procs| == |s.procs| && LockAt(s', p) && TestAt(s', p)
  {
    hide Step, TestAt, HoldsLk, HoldsPt;
    StepLk(s, p, early);
    StepPt(s, p, early);
    StepTest(s, p, early);
  }

  lemma StepLk(s: State, p: nat, early: bool)
    requires Enabled(s, p) && (HoldsLk(s.procs[p].pc) <==> s.lk == Some(p))
    ensures var s' := Step(s, p, early); |s'.procs| == |s.procs| && (HoldsLk(s'.procs[p].pc) <==> s'.lk == Some(p))
  {
    hide Step, HoldsLk;
    if s.procs[p].pc.WakeLk? || s.procs[p].pc.Scan? {
      WakeupKeepsLk(s, p, early);
    } else {
      OthersLk(s, p, early);
    }
  }

  lemma WakeupKeepsLk(s: State, p: nat, early: bool)
    requires Enabled(s, p) && (s.procs[p].pc.WakeLk? || s.procs[p].pc.Scan?)
    ensures var s' := Step(s, p, early);
            |s'.procs| == |s.procs| && s'.lk == s.lk && (HoldsLk(s'.procs[p].pc) <==> HoldsLk(s.procs[p].pc))
  {
    hide NeedsPt;
  }

  lemma OthersLk(s: State, p: nat, early: bool)
    requires Enabled(s, p) && !s.procs[p].pc.WakeLk? && !s.procs[p].pc.Scan?
    requires HoldsLk(s.procs[p].pc) <==> s.lk == Some(p)
    ensures var s' := Step(s, p, early); |s'.procs| == |s.procs| && (HoldsLk(s'.procs[p].pc) <==> s'.lk == Some(p))
  {
    hide NeedsPt;
  }

  lemma StepPt(s: State, p: nat, early: bool)
    requires Enabled(s, p) && (HoldsPt(s.procs[p].pc) <==> s.pt == Some(p))
    ensures var s' := Step(s, p, early); |s'.procs| == |s.procs| && (HoldsPt(s'.procs[p].pc) <==> s'.pt == Some(p))
  {
    hide NeedsLk;
  }

  lemma StepTest(s: State, p: nat, early: bool)
    requires Enabled(s, p) && TestAt(s, p)
    ensures var s' := Step(s, p, early); |s'.procs| == |s.procs| && TestAt(s', p)
  {
    hide HoldsLk, HoldsPt;
  }

  lemma StepKeepsNoneLost(s: State, p: nat, early: bool, r: nat)
    requires Inv(s) && Enabled(s, p) && r < |s.procs|
    ensures var s' := Step(s, p, early);
            |s'.procs| == |s.procs| && (Sleepy(s', r) && s'.value > 0 ==> WillBeWoken(s', r))
  {
    var s' := Step(s, p, early);
    StepFrame(s, p, early, r);
    assert LockAt(s, p) && TestAt(s, p) && LockAt(s, r) && TestAt(s, r);
    if Sleepy(s', r) && s'.value > 0 {
      if s.procs[p].pc == Put {
        assert Pending(s', p, r);
      } else {
        StillPending(s, p, early, r);
      }
    }
  }

  /** Only the scan that comes to a sleeping process stops being on its way to it. */
  lemma StillPending(s: State, p: nat, early: bool, r: nat)
    requires Inv(s) && Enabled(s, p) && r < |s.procs| && s.procs[p].pc != Put
    requires var s' := Step(s, p, early); |s'.procs| == |s.procs| && Sleepy(s', r) && s'.value > 0
    ensures WillBeWoken(Step(s, p, early), r)
  {
    SleepyBefore(s, p, early, r);
    assert WillBeWoken(s, r);
    var q :| Pending(s, q, r);
    PendingStays(s, p, early, q, r);
  }

  lemma SleepyBefore(s: State, p: nat, early: bool, r: nat)
    requires Locks(s) && Enabled(s, p) && r < |s.procs| && s.procs[p].pc != Put
    requires var s' := Step(s, p, early); |s'.procs| == |s.procs| && Sleepy(s', r) && s'.value > 0
    ensures Sleepy(s, r) && s.value > 0
  {
    hide HoldsLk, HoldsPt;
    StepFrame(s, p, early, r);
    assert TestAt(s, p) && TestAt(s, r);
  }

  lemma PendingStays(s: State, p: nat, early: bool, q: nat, r: nat)
    requires Locks(s) && Enabled(s, p) && r < |s.procs| && Sleepy(s, r) && Pending(s, q, r)
    requires var s' := Step(s, p, early); |s'.procs| == |s.procs| && Sleepy(s', r)
    ensures Pending(Step(s, p, early), q, r)
  {
    hide HoldsLk;
    StepFrame(s, p, early, q);
    assert LockAt(s, q) && LockAt(s, r) && TestAt(s, r);
  }

  lemma StepKeepsInv(s: State, p: nat, early: bool)
    requires Inv(s) && Enabled(s, p)
    ensures Inv(Step(s, p, early))
  {
    var s' := Step(s, p, early);
    StepFrame(s, p, early, p);
    assert LockAt(s, p) && TestAt(s, p);
    StepSelf(s, p, early);
    hide Step, LockAt, TestAt;
    forall r | 0 <= r < |s'.procs|
      ensures LockAt(s', r) && TestAt(s', r) && (Sleepy(s', r) && s'.value > 0 ==> WillBeWoken(s', r))
    {
      if r != p {
        StepOther(s, p, early, r);
      }
      StepKeepsNoneLost(s, p, early, r);
    }
  }

  /** Being killed, or starting something, loses no wakeup either. */
  lemma NextKeepsInv(s: State, a: Action)
    requires Inv(s) && Allowed(s, a)
    ensures Inv(Next(s, a)) && |Next(s, a).procs| == |s.procs|
  {
    var s' := Next(s, a);
    if a.Go? {
      StepFrame(s, a.p, a.early, a.p);
      StepKeepsInv(s, a.p, a.early);
    } else {
      forall r | 0 <= r < |s.procs|
        ensures LockAt(s', r) && TestAt(s', r) && (Sleepy(s', r) && s'.value > 0 ==> WillBeWoken(s', r))
      {
        assert LockAt(s, r) && TestAt(s, r);
        if Sleepy(s', r) && s'.value > 0 {
          assert WillBeWoken(s, r);
          var q :| Pending(s, q, r);
          assert Pending(s', q, r);
        }
      }
    }
  }

  lemma {:induction false} RunKeepsInv(states: seq<State>, acts: seq<Action>, k: nat)
    requires Run(states, acts) && k < |states|
    ensures Inv(states[k])
  {
    if k > 0 {
      RunKeepsInv(states, acts, k - 1);
      NextKeepsInv(states[k - 1], acts[k - 1]);
    }
  }

  /** No lost wakeup: whoever sleeps although something is there is about to be woken by a
      waker that has not finished. */
  lemma NoLostWakeup(states: seq<State>, acts: seq<Action>, k: nat, p: nat)
    requires Run(states, acts) && k < |states| && p < |states[k].procs|
    requires states[k].procs[p].sleeping && states[k].value > 0
    ensures exists q :: Pending(states[k], q, p)
  {
    RunKeepsInv(states, acts, k);
    assert Sleepy(states[k], p);
    assert WillBeWoken(states[k], p);
  }

  /** The locks are free, everybody is idle or asleep, and nobody sleeps if something is there. */
  ghost predicate Quiet(s: State) {
    && s.lk == None && s.pt == None
    && forall p :: 0 <= p < |s.procs| ==> s.procs[p].pc == Idle || (s.procs[p].sleeping && s.value == 0)
  }

  /** With ptable.lock free, whoever is neither idle nor waiting for lk or to be woken can go on. */
  lemma NotQuiet(s: State, p: nat) returns (q: nat)
    requires Inv(s) && s.lk == None && s.pt == None && p < |s.procs|
    requires s.procs[p].pc != Idle && (s.procs[p].sleeping ==> s.value > 0)
    ensures Enabled(s, q)
  {
    assert LockAt(s, p) && TestAt(s, p);
    if s.procs[p].sleeping {
      assert Sleepy(s, p) && WillBeWoken(s, p);
      q :| Pending(s, q, p);
      assert LockAt(s, q) && TestAt(s, q);
    } else {
      q := p;
    }
  }

  /** No deadlock: in every state of every run some process can go on, or all is quiet. */
  lemma NoDeadlock(states: seq<State>, acts: seq<Action>, k: nat)
    requires Run(states, acts) && k < |states|
    ensures Quiet(states[k]) || exists p :: Enabled(states[k], p)
  {
    var s := states[k];
    RunKeepsInv(states, acts, k);
    if s.pt.Some? {
      assert LockAt(s, s.pt.value) && TestAt(s, s.pt.value);
      assert Enabled(s, s.pt.value);
    } else if s.lk.Some? {
      assert LockAt(s, s.lk.value) && TestAt(s, s.lk.value);
      assert Enabled(s, s.lk.value);
    } else if !Quiet(s) {
      var p :| 0 <= p < |s.procs| && s.procs[p].pc != Idle && (s.procs[p].sleeping ==> s.value > 0);
      var q := NotQuiet(s, p);
    }
  }

  /** A run in which the channel is a sleep lock: one thing is there while the lock is free;
      only who has it puts it back, and calls wakeup before it lets lk go. */
  ghost predicate LockRun(states: seq<State>, acts: seq<Action>) {
    && Run(states, acts) && states[0].value == 1
    && forall k :: 0 <= k < |acts| ==> Disciplined(states[k], acts[k])
  }

  predicate Disciplined(s: State, a: Action) {
    && (a.StartPut? ==> a.p < |s.procs| && s.procs[a.p].holds)
    && (a.Go? ==> !a.early)
  }

  /** Exactly one of: the lock is free, or one process has it. */
  ghost predicate OneOwner(s: State) {
    && s.value <= 1
    && (s.value == 1 ==> forall p :: 0 <= p < |s.procs| ==> !s.procs[p].holds)
    && (s.value == 0 ==> exists p :: 0 <= p < |s.procs| && s.procs[p].holds)
    && (forall p, q :: 0 <= p < |s.procs| && 0 <= q < |s.procs| && s.procs[p].holds && s.procs[q].holds ==> p == q)
  }

  predicate Inside(p: Proc) {
    && (p.pc == WantPut || p.pc == Put ==> p.holds)
    && p.pc != EarlyRel && (p.pc.WakeLk? ==> p.pc.inside) && (p.pc.Scan? ==> p.pc.inside)
  }

  ghost predicate LockInv(s: State) {
    Inv(s) && OneOwner(s) && forall p :: 0 <= p < |s.procs| ==> Inside(s.procs[p])
  }

  lemma StepKeepsInside(s: State, p: nat, r: nat)
    requires Enabled(s, p) && r < |s.procs| && Inside(s.procs[p]) && Inside(s.procs[r])
    ensures var s' := Step(s, p, false); |s'.procs| == |s.procs| && Inside(s'.procs[r])
  {
    hide Step;
    StepFrame(s, p, false, r);
    StepInside(s, p);
  }

  lemma StepInside(s: State, p: nat)
    requires Enabled(s, p) && Inside(s.procs[p])
    ensures var s' := Step(s, p, false); |s'.procs| == |s.procs| && Inside(s'.procs[p])
  {
    hide HoldsLk, HoldsPt;
  }

  lemma StepKeepsOwner(s: State, p: nat)
    requires LockInv(s) && Enabled(s, p)
    ensures OneOwner(Step(s, p, false))
  {
    hide Step, WillBeWoken, LockAt;
    var s' := Step(s, p, false);
    StepTakes(s, p);
    assert TestAt(s, p) && Inside(s.procs[p]);
    forall r | 0 <= r < |s.procs| && r != p
      ensures s'.procs[r].holds == s.procs[r].holds
    {
      StepFrame(s, p, false, r);
    }
  }

  lemma StepTakes(s: State, p: nat)
    requires Enabled(s, p) && TestAt(s, p)
    ensures var s' := Step(s, p, false);
            && |s'.procs| == |s.procs|
            && (s.procs[p].pc == Take ==> s'.procs[p].holds && s'.value == s.value - 1)
            && (s.procs[p].pc == Put ==> !s'.procs[p].holds && s'.value == s.value + 1)
            && (s.procs[p].pc != Take && s.procs[p].pc != Put ==>
                  s'.procs[p].holds == s.procs[p].holds && s'.value == s.value)
  {
    hide HoldsLk, HoldsPt;
  }

  lemma StartKeepsOwner(s: State, a: Action)
    requires OneOwner(s) && Allowed(s, a) && !a.Go?
    ensures OneOwner(Next(s, a))
  {
    var s' := Next(s, a);
    assert |s'.procs| == |s.procs| && forall r :: 0 <= r < |s.procs| ==> s'.procs[r].holds == s.procs[r].holds;
    if s.value == 0 {
      var p :| 0 <= p < |s.procs| && s.procs[p].holds;
      assert s'.procs[p].holds;
    }
  }

  lemma NextKeepsLockInv(s: State, a: Action)
    requires LockInv(s) && Allowed(s, a) && Disciplined(s, a)
    ensures LockInv(Next(s, a))
  {
    var s' := Next(s, a);
    NextKeepsInv(s, a);
    if a.Go? {
      hide Inv, OneOwner, Inside, Step;
      StepKeepsOwner(s, a.p);
      forall r | 0 <= r < |s'.procs|
        ensures Inside(s'.procs[r])
      {
        StepKeepsInside(s, a.p, r);
      }
    } else {
      hide Inv, OneOwner;
      StartKeepsOwner(s, a);
    }
  }

  lemma {:induction false} LockRunKeepsInv(states: seq<State>, acts: seq<Action>, k: nat)
    requires LockRun(states, acts) && k < |states|
    ensures LockInv(states[k])
  {
    if k == 0 {
      RunKeepsInv(states, acts, k);
    } else {
      LockRunKeepsInv(states, acts, k - 1);
      NextKeepsLockInv(states[k - 1], acts[k - 1]);
    }
  }

  /** Sleep locks exclude each other. */
  lemma MutualExclusion(states: seq<State>, acts: seq<Action>, k: nat, p: nat, q: nat)
    requires LockRun(states, acts) && k < |states| && p < |states[k].procs| && q < |states[k].procs|
    requires states[k].procs[p].holds && states[k].procs[q].holds
    ensures p == q && states[k].value == 0
  {
    LockRunKeepsInv(states, acts, k);
  }

  /** Nobody sleeps for a free sleep lock while its spin lock is free. */
  lemma AsleepImpliesHeld(states: seq<State>, acts: seq<Action>, k: nat, p: nat)
    requires LockRun(states, acts) && k < |states| && p < |states[k].procs|
    requires states[k].procs[p].sleeping && states[k].lk == None
    ensures exists o :: 0 <= o < |states[k].procs| && states[k].procs[o].holds
  {
    var s := states[k];
    LockRunKeepsInv(states, acts, k);
    assert s.value > 0 ==> WillBeWoken(s, p) by {
      assert Sleepy(s, p);
    }
    assert forall q :: 0 <= q < |s.procs| ==> LockAt(s, q) && Inside(s.procs[q]);
    assert forall q :: !Pending(s, q, p);
  }
}
