/** begin_op, log_write and end_op as steps of any number of operations in any order:
    why the log never overflows, and when the size guard of log_write is enough. The guard is
    read without the lock, so that other operations come between it and the rest of log_write. */
module LogReservation {
  import opened Counting
  import opened CrashRecovery

  type Pid = nat

  /** The log while operations run: the blocks logged since the last commit, for each
      outstanding operation how many of them it was the first to log, and the blocks of calls
      of log_write that have passed the guard. */
  datatype State =
    State(blocks: set<nat>, ops: map<Pid, nat>, passed: map<Pid, nat>, outstanding: int, committing: bool)

  datatype Step = Begin(p: Pid) | Check(p: Pid, block: nat) | Append(p: Pid) | End(p: Pid) | CommitDone

  datatype Outcome = Next(s: State) | Sleep | Panic

  const Start := State({}, map[], map[], 0, false)

  /** What the code does on one step, with `size` the number of log blocks in the superblock. */
  function Take(s: State, a: Step, size: nat): Outcome
    requires Allowed(s, a)
  {
    match a
    case Begin(p) =>
      if s.committing || |s.blocks| + (s.outstanding + 1) * MAXOPBLOCKS > LOGSIZE then Sleep
      else Next(s.(ops := s.ops[p := 0], outstanding := s.outstanding + 1))
    case Check(p, b) =>
      if |s.blocks| >= LOGSIZE || |s.blocks| >= size - 1 || s.outstanding < 1 then Panic
      else Next(s.(passed := s.passed[p := b]))
    case Append(p) =>
      var b, rest := s.passed[p], s.passed - {p};
      if b in s.blocks then Next(s.(passed := rest))
      else Next(s.(blocks := s.blocks + {b}, ops := s.ops[p := s.ops[p] + 1], passed := rest))
    case End(p) =>
      if s.committing then Panic
      else Next(s.(ops := s.ops - {p}, outstanding := s.outstanding - 1, committing := s.outstanding - 1 == 0))
    case CommitDone =>
      Next(s.(blocks := {}, committing := false))
  }

  /** What the callers keep to: an operation begins once, calls log_write and ends between, one
      thing at a time, and logs at most MAXOPBLOCKS blocks that are not in the log already; the
      committer is the one that ended last. */
  ghost predicate Allowed(s: State, a: Step) {
    match a
    case Begin(p) => p !in s.ops
    case Check(p, b) => p in s.ops && p !in s.passed && (b !in s.blocks ==> s.ops[p] < MAXOPBLOCKS)
    case Append(p) => p in s.ops && p in s.passed
    case End(p) => p in s.ops && p !in s.passed
    case CommitDone => s.committing
  }

  /** A run that nothing has stopped; a step that sleeps is not taken. */
  ghost predicate Run(states: seq<State>, steps: seq<Step>, size: nat) {
    && |states| == |steps| + 1 && states[0] == Start
    && forall i :: 0 <= i < |steps| ==>
         Allowed(states[i], steps[i]) && Take(states[i], steps[i], size) == Next(states[i + 1])
  }

  ghost function Used(ops: map<Pid, nat>): nat
    decreases |ops|
  {
    if ops == map[] then 0
    else
      var p :| p in ops;
      ops[p] + Used(ops - {p})
  }

  lemma {:induction false} UsedSplit(ops: map<Pid, nat>, p: Pid)
    requires p in ops
    ensures Used(ops) == ops[p] + Used(ops - {p})
    decreases |ops|
  {
    var q :| q in ops && Used(ops) == ops[q] + Used(ops - {q});
    if q != p {
      UsedSplit(ops - {q}, p);
      UsedSplit(ops - {p}, q);
      assert ops - {q} - {p} == ops - {p} - {q};
    }
  }

  lemma UsedUpdate(ops: map<Pid, nat>, p: Pid, k: nat)
    ensures Used(ops[p := k]) == k + Used(ops - {p})
  {
    UsedSplit(ops[p := k], p);
    assert ops[p := k] - {p} == ops - {p};
  }

  /** What no outstanding operation has used yet of its reservation. */
  ghost function Unused(s: State): int {
    |s.ops| * MAXOPBLOCKS - Used(s.ops)
  }

  /** Logged blocks and unused reservations together fit the log, a commit runs only with no
      operation outstanding, and whoever has passed the guard has something left to use. */
  ghost predicate Inv(s: State) {
    && s.outstanding == |s.ops|
    && |s.blocks| + Unused(s) <= LOGSIZE
    && (s.committing ==> s.ops == map[])
    && (forall p :: p in s.ops ==> s.ops[p] <= MAXOPBLOCKS)
    && (forall p :: p in s.passed ==> p in s.ops && (s.passed[p] !in s.blocks ==> s.ops[p] < MAXOPBLOCKS))
  }

  lemma BeginKeeps(s: State, p: Pid)
    requires Inv(s) && p !in s.ops && |s.blocks| + (s.outstanding + 1) * MAXOPBLOCKS <= LOGSIZE && !s.committing
    ensures Inv(s.(ops := s.ops[p := 0], outstanding := s.outstanding + 1))
  {
    hide Used;
    assert s.ops - {p} == s.ops;
    UsedUpdate(s.ops, p, 0);
    assert |s.ops[p := 0]| == |s.ops| + 1;
  }

  lemma AppendKeeps(s: State, p: Pid)
    requires Inv(s) && p in s.ops && p in s.passed && s.passed[p] !in s.blocks
    ensures Inv(s.(blocks := s.blocks + {s.passed[p]}, ops := s.ops[p := s.ops[p] + 1], passed := s.passed - {p}))
  {
    UsedSplit(s.ops, p);
    UsedUpdate(s.ops, p, s.ops[p] + 1);
    assert s.ops[p := s.ops[p] + 1].Keys == s.ops.Keys;
  }

  lemma EndKeeps(s: State, p: Pid)
    requires Inv(s) && p in s.ops && p !in s.passed
    ensures Inv(s.(ops := s.ops - {p}, outstanding := s.outstanding - 1, committing := s.outstanding - 1 == 0))
  {
    UsedSplit(s.ops, p);
    assert (s.ops - {p}).Keys == s.ops.Keys - {p};
  }

  lemma StepKeepsInv(s: State, a: Step, size: nat)
    requires Inv(s) && Allowed(s, a) && Take(s, a, size).Next?
    ensures Inv(Take(s, a, size).s)
  {
    match a
    case Begin(p) => BeginKeeps(s, p);
    case Check(p, b) =>
    case Append(p) =>
      if s.passed[p] !in s.blocks {
        AppendKeeps(s, p);
      }
    case End(p) => EndKeeps(s, p);
    case CommitDone =>
  }

  /** No interleaving of operations logs more than LOGSIZE blocks. */
  lemma {:induction false} RunKeepsInv(states: seq<State>, steps: seq<Step>, size: nat, i: nat)
    requires Run(states, steps, size) && i < |states|
    ensures Inv(states[i]) && |states[i].blocks| <= LOGSIZE
  {
    if i > 0 {
      RunKeepsInv(states, steps, size, i - 1);
      assert Take(states[i - 1], steps[i - 1], size) == Next(states[i - 1 + 1]);
      StepKeepsInv(states[i - 1], steps[i - 1], size);
    }
    UsedBound(states[i].ops);
  }

  lemma {:induction false} UsedBound(ops: map<Pid, nat>)
    requires forall p :: p in ops ==> ops[p] <= MAXOPBLOCKS
    ensures Used(ops) <= |ops| * MAXOPBLOCKS
    decreases |ops|
  {
    if ops != map[] {
      var q :| q in ops;
      UsedSplit(ops, q);
      UsedBound(ops - {q});
    }
  }

  /** Appending a block that is new to the log finds a slot in its array. */
  lemma RoomToAppend(states: seq<State>, steps: seq<Step>, size: nat, p: Pid)
    requires Run(states, steps, size) && Allowed(states[|steps|], Append(p))
    ensures var s := states[|steps|];
            s.passed[p] !in s.blocks ==> |s.blocks| < LOGSIZE
  {
    var s := states[|steps|];
    RunKeepsInv(states, steps, size, |steps|);
    UsedSplit(s.ops, p);
    UsedBound(s.ops - {p});
  }

  /** In a run, ending an operation never finds a commit under way, and a write of a block that
      the log does not hold passes the size guard if the log has room for LOGSIZE blocks. */
  lemma NoPanic(states: seq<State>, steps: seq<Step>, size: nat, a: Step)
    requires Run(states, steps, size) && Allowed(states[|steps|], a)
    ensures a.End? ==> Take(states[|steps|], a, size) != Panic
    ensures a.Check? && a.block !in states[|steps|].blocks && size > LOGSIZE ==>
              Take(states[|steps|], a, size) != Panic
  {
    var s := states[|steps|];
    RunKeepsInv(states, steps, size, |steps|);
    if a.Check? && a.block !in s.blocks {
      UsedSplit(s.ops, a.p);
      UsedBound(s.ops - {a.p});
    }
  }

  /** Some run leads to a call of log_write for a block not yet logged on which the guard
      panics. */
  ghost predicate NewBlockCanPanic(size: nat) {
    exists states: seq<State>, steps: seq<Step>, p: Pid, b: nat ::
      Run(states, steps, size) && b !in states[|steps|].blocks && PanicsNext(states, steps, size, p, b)
  }

  /** The same for a block that is logged already. */
  ghost predicate LoggedBlockCanPanic(size: nat) {
    exists states: seq<State>, steps: seq<Step>, p: Pid, b: nat ::
      Run(states, steps, size) && b in states[|steps|].blocks && PanicsNext(states, steps, size, p, b)
  }

  ghost predicate PanicsNext(states: seq<State>, steps: seq<Step>, size: nat, p: Pid, b: nat) {
    && |states| == |steps| + 1
    && Allowed(states[|steps|], Check(p, b))
    && Take(states[|steps|], Check(p, b), size) == Panic
  }

  /** The logged blocks have slots on the disk: `size - 1` of them. */
  ghost predicate Fits(s: State, size: nat) {
    s.blocks == {} || |s.blocks| < size
  }

  ghost predicate CanOverrun(size: nat) {
    exists states: seq<State>, steps: seq<Step> :: Run(states, steps, size) && !Fits(states[|steps|], size)
  }

  /** Three operations log the blocks 0 to LOGSIZE - 1: block k is operation Owner(k)'s, which
      keeps two operations with something left as long as it can be. */
  function Owner(k: nat): Pid {
    if k < 10 then 0 else if k < 19 || k == 28 then 1 else 2
  }

  function Share(k: nat, p: Pid): nat {
    if p == 0 then Min(k, 10)
    else if p == 1 then (if k < 10 then 0 else Min(k - 10, 9)) + (if k > 28 then 1 else 0)
    else (if k < 19 then 0 else Min(k - 19, 9)) + (if k > 29 then 1 else 0)
  }

  ghost function Filling(k: nat): State {
    State(Below(k), map[0 := Share(k, 0), 1 := Share(k, 1), 2 := Share(k, 2)], map[], 3, false)
  }

  lemma ShareGrows(k: nat)
    requires k < LOGSIZE
    ensures 0 <= Owner(k) < 3 && Share(k, Owner(k)) < MAXOPBLOCKS
    ensures forall q :: 0 <= q < 3 ==> Share(k + 1, q) == Share(k, q) + (if q == Owner(k) then 1 else 0)
  {
  }

  lemma OpsGrow(k: nat)
    requires k < LOGSIZE
    ensures var ops, p := Filling(k).ops, Owner(k);
            p in ops && ops[p] < MAXOPBLOCKS && Filling(k + 1).ops == ops[p := ops[p] + 1]
  {
    ShareGrows(k);
    hide Share, Owner;
    Bumped(Share(k, 0), Share(k, 1), Share(k, 2), Owner(k));
  }

  lemma Bumped(a: nat, b: nat, c: nat, p: Pid)
    requires p < 3
    ensures var m: map<Pid, nat> := map[0 := a, 1 := b, 2 := c];
            p in m && m[p := m[p] + 1] ==
              map[0 := a + (if p == 0 then 1 else 0), 1 := b + (if p == 1 then 1 else 0),
                  2 := c + (if p == 2 then 1 else 0)]
  {
  }

  /** The state between the two halves of log_write for block k. */
  ghost function Passing(k: nat): State {
    Filling(k).(passed := map[Owner(k) := k])
  }

  lemma FillingStep(k: nat, size: nat)
    requires k < LOGSIZE && k + 1 < size
    ensures Allowed(Filling(k), Check(Owner(k), k)) && Allowed(Passing(k), Append(Owner(k)))
    ensures Take(Filling(k), Check(Owner(k), k), size) == Next(Passing(k))
    ensures Take(Passing(k), Append(Owner(k)), size) == Next(Filling(k + 1))
  {
    OpsGrow(k);
    assert Passing(k).passed - {Owner(k)} == map[];
  }

  lemma ThreeBegin(size: nat) returns (states: seq<State>, steps: seq<Step>)
    ensures Run(states, steps, size) && states[|steps|] == Filling(0)
  {
    var one := Start.(ops := map[0 := 0], outstanding := 1);
    var two := one.(ops := map[0 := 0, 1 := 0], outstanding := 2);
    states := [Start, one, two, Filling(0)];
    steps := [Begin(0), Begin(1), Begin(2)];
    assert Take(two, Begin(2), size) == Next(Filling(0));
  }

  lemma Extend(states: seq<State>, steps: seq<Step>, size: nat, a: Step, s: State)
    requires Run(states, steps, size)
    requires Allowed(states[|steps|], a) && Take(states[|steps|], a, size) == Next(s)
    ensures Run(states + [s], steps + [a], size)
  {
    hide Take, Allowed;
  }

  lemma {:induction false} FillingRun(k: nat, size: nat) returns (states: seq<State>, steps: seq<Step>)
    requires k <= LOGSIZE && k < size
    ensures Run(states, steps, size) && states[|steps|] == Filling(k)
  {
    hide Filling, Passing, Take, Allowed;
    if k == 0 {
      states, steps := ThreeBegin(size);
    } else {
      var p := Owner(k - 1);
      states, steps := FillingRun(k - 1, size);
      FillingStep(k - 1, size);
      Extend(states, steps, size, Check(p, k - 1), Passing(k - 1));
      states, steps := states + [Passing(k - 1)], steps + [Check(p, k - 1)];
      Extend(states, steps, size, Append(p), Filling(k));
      states, steps := states + [Filling(k)], steps + [Append(p)];
    }
  }

  /** The size guard is exact for new blocks: no operation within its budget can run into it
      if and only if the log has more than LOGSIZE blocks, header included. */
  lemma GuardFiresIffLogTooSmall(size: nat)
    ensures NewBlockCanPanic(size) <==> size <= LOGSIZE
  {
    if NewBlockCanPanic(size) {
      var states: seq<State>, steps: seq<Step>, p: Pid, b: nat :|
        Run(states, steps, size) && b !in states[|steps|].blocks && PanicsNext(states, steps, size, p, b);
      NoPanic(states, steps, size, Check(p, b));
    }
    if size <= LOGSIZE {
      GuardFires(size);
    }
  }

  lemma GuardFires(size: nat)
    requires size <= LOGSIZE
    ensures NewBlockCanPanic(size)
  {
    if size == 0 {
      var one := Start.(ops := map[0 := 0], outstanding := 1);
      var states, steps := [Start, one], [Begin(0)];
      assert Run(states, steps, size) && PanicsNext(states, steps, size, 0, 0);
    } else {
      var k := size - 1;
      var states, steps := FillingRun(k, size);
      OpsGrow(k);
      assert PanicsNext(states, steps, size, Owner(k), k);
    }
  }

  /** One more call of log_write by operation p has passed the guard, and has appended. */
  ghost function Passed(s: State, p: Pid, b: nat): State {
    s.(passed := s.passed[p := b])
  }

  ghost function Appended(s: State, p: Pid): State
    requires p in s.passed && p in s.ops
  {
    s.(blocks := s.blocks + {s.passed[p]}, ops := s.ops[p := s.ops[p] + 1], passed := s.passed - {p})
  }

  lemma BothMayCheck(k: nat)
    requires k < LOGSIZE - 1
    ensures var s := Filling(k);
            && |s.blocks| == k && k !in s.blocks && k + 1 !in s.blocks && s.passed == map[]
            && s.outstanding == 3 && !s.committing && 1 in s.ops && 2 in s.ops
            && s.ops[1] < MAXOPBLOCKS && s.ops[2] < MAXOPBLOCKS
  {
  }

  /** Two calls of log_write pass the guard from the same state, with one slot left. */
  lemma BothPass(k: nat, size: nat) returns (states: seq<State>, steps: seq<Step>)
    requires k < LOGSIZE - 1 && size == k + 2
    ensures Run(states, steps, size) && |states[|steps|].blocks| == size
  {
    hide Filling;
    states, steps := FillingRun(k, size);
    BothMayCheck(k);
    states, steps := PassOne(states, steps, size, 1, k);
    states, steps := PassOne(states, steps, size, 2, k + 1);
    states, steps := AppendOne(states, steps, size, 1);
    states, steps := AppendOne(states, steps, size, 2);
  }

  lemma PassOne(states: seq<State>, steps: seq<Step>, size: nat, p: Pid, b: nat)
    returns (states': seq<State>, steps': seq<Step>)
    requires Run(states, steps, size) && Allowed(states[|steps|], Check(p, b))
    requires Take(states[|steps|], Check(p, b), size) != Panic
    ensures Run(states', steps', size) && states'[|steps'|] == Passed(states[|steps|], p, b)
  {
    var s := Passed(states[|steps|], p, b);
    Extend(states, steps, size, Check(p, b), s);
    states', steps' := states + [s], steps + [Check(p, b)];
  }

  lemma AppendOne(states: seq<State>, steps: seq<Step>, size: nat, p: Pid)
    returns (states': seq<State>, steps': seq<Step>)
    requires Run(states, steps, size) && Allowed(states[|steps|], Append(p))
    requires states[|steps|].passed[p] !in states[|steps|].blocks
    ensures Run(states', steps', size) && states'[|steps'|] == Appended(states[|steps|], p)
  {
    var s := Appended(states[|steps|], p);
    Extend(states, steps, size, Append(p), s);
    states', steps' := states + [s], steps + [Append(p)];
  }

  /** The guard does not keep the log within its blocks on disk, because it is read without the
      lock: some run logs more blocks than there are slots, if and only if the log has at most
      LOGSIZE blocks and enough of them for any write to pass. */
  lemma OverrunIffLogTooSmall(size: nat)
    ensures CanOverrun(size) <==> 2 <= size <= LOGSIZE
  {
    if CanOverrun(size) {
      var states: seq<State>, steps: seq<Step> :| Run(states, steps, size) && !Fits(states[|steps|], size);
      RunKeepsInv(states, steps, size, |steps|);
      if size < 2 {
        NoneLogged(states, steps, size, |steps|);
      }
    }
    if 2 <= size <= LOGSIZE {
      var states, steps := BothPass(size - 2, size);
      assert !Fits(states[|steps|], size);
    }
  }

  /** With no slot at all every call of log_write panics. */
  lemma {:induction false} NoneLogged(states: seq<State>, steps: seq<Step>, size: nat, i: nat)
    requires Run(states, steps, size) && i < |states| && size < 2
    ensures states[i].blocks == {} && states[i].passed == map[]
  {
    if i > 0 {
      NoneLogged(states, steps, size, i - 1);
      assert Take(states[i - 1], steps[i - 1], size) == Next(states[i - 1 + 1]);
    }
  }

  /** The guard reads the count before it looks for the block: it stops operations that write a
      block already logged, in some run of every log into which anything can be written. */
  lemma LoggedBlockPanicsIff(size: nat)
    ensures LoggedBlockCanPanic(size) <==> 2 <= size
  {
    if LoggedBlockCanPanic(size) && size < 2 {
      var states: seq<State>, steps: seq<Step>, p: Pid, b: nat :|
        Run(states, steps, size) && b in states[|steps|].blocks && PanicsNext(states, steps, size, p, b);
      NoneLogged(states, steps, size, |steps|);
    }
    if 2 <= size {
      var k := Min(size - 1, LOGSIZE);
      var states, steps := FillingRun(k, size);
      assert 0 in states[|steps|].blocks;
      assert PanicsNext(states, steps, size, 0, 0);
    }
  }

  /** A write that the log would absorb panics exactly if the log is full. */
  lemma LoggedBlockPanicsNow(states: seq<State>, steps: seq<Step>, size: nat, p: Pid, b: nat)
    requires Run(states, steps, size)
    requires Allowed(states[|steps|], Check(p, b)) && b in states[|steps|].blocks
    ensures Take(states[|steps|], Check(p, b), size) == Panic <==>
              |states[|steps|].blocks| == LOGSIZE || |states[|steps|].blocks| >= size - 1
  {
    var s := states[|steps|];
    RunKeepsInv(states, steps, size, |steps|);
    assert s.ops != map[] && |s.ops| >= 1 by {
      UsedSplit(s.ops, p);
      assert |s.ops - {p}| == |s.ops| - 1;
    }
  }
}
