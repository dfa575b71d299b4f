/** Process table entries as values, and what every reachable table satisfies. */
module ProcessStates {
  import opened Options

  datatype ProcState = UNUSED | EMBRYO | SLEEPING | RUNNABLE | RUNNING | ZOMBIE

  /** A sleep channel: a process, as wait uses it, or anything else. */
  datatype Chan = ProcChan(p: nat) | Other(k: nat)

  datatype Proc = Proc(state: ProcState, pid: nat, parent: Option<nat>, chan: Option<Chan>, killed: bool)
  {
    predicate Live() {
      state == SLEEPING || state == RUNNABLE || state == RUNNING
    }

    /** Past fork. */
    predicate Started() {
      state != UNUSED && state != EMBRYO
    }

    predicate SleepsOn(c: Chan) {
      state == SLEEPING && chan == Some(c)
    }
  }

  predicate LiveAt(t: seq<Proc>, p: nat) {
    p < |t| && t[p].Live()
  }

  /** q is a child of p. */
  predicate ChildOf(t: seq<Proc>, q: nat, p: nat) {
    q < |t| && t[q].parent == Some(p)
  }

  /** A started process other than init has a live parent, and so has an embryo that has one;
      an unused slot has none. */
  predicate ParentAt(t: seq<Proc>, init: nat, forking: seq<Option<nat>>, p: nat)
    requires p < |t| == |forking|
  {
    && (t[p].Started() && p != init ==> t[p].parent.Some?)
    && t[p].parent != Some(p)
    && (t[p].parent.Some? ==> LiveAt(t, t[p].parent.value) && t[p].state != UNUSED)
    && (t[p].parent.Some? && t[p].state == EMBRYO ==> forking[t[p].parent.value] == Some(p))
  }

  /** A process in fork is live, and what it makes is an embryo. */
  predicate ForkAt(t: seq<Proc>, forking: seq<Option<nat>>, p: nat)
    requires p < |t| == |forking|
  {
    forking[p].Some? ==> LiveAt(t, p) && forking[p].value < |t| && t[forking[p].value].state == EMBRYO
  }

  ghost predicate Family(t: seq<Proc>, init: nat, forking: seq<Option<nat>>) {
    && LiveAt(t, init) && t[init].parent == None && |forking| == |t|
    && (forall p :: 0 <= p < |t| ==> ParentAt(t, init, forking, p) && ForkAt(t, forking, p))
    && (forall p, q :: 0 <= p < |t| && 0 <= q < |t| && forking[p].Some? && forking[p] == forking[q] ==> p == q)
  }

  /** Nobody sleeps in wait with a child to reap. */
  ghost predicate NoSleepingReaper(t: seq<Proc>) {
    && (forall p: nat, q: nat :: p < |t| && t[p].SleepsOn(ProcChan(q)) ==> q == p)
    && (forall p: nat, q: nat :: p < |t| && ChildOf(t, q, p) && t[q].state == ZOMBIE ==> !t[p].SleepsOn(ProcChan(p)))
  }

  /** A process is RUNNING if and only if it is on a CPU, and then on one only. */
  ghost predicate OneCpu(t: seq<Proc>, cpu: seq<Option<nat>>) {
    && (forall c :: 0 <= c < |cpu| && cpu[c].Some? ==> cpu[c].value < |t| && t[cpu[c].value].state == RUNNING)
    && (forall p :: 0 <= p < |t| && t[p].state == RUNNING ==> OnCpu(cpu, p))
    && (forall c, d :: 0 <= c < |cpu| && 0 <= d < |cpu| && cpu[c].Some? && cpu[c] == cpu[d] ==> c == d)
  }

  ghost predicate OnCpu(cpu: seq<Option<nat>>, p: nat) {
    exists c :: 0 <= c < |cpu| && cpu[c] == Some(p)
  }

  ghost predicate ZombiePid(t: seq<Proc>, x: nat) {
    exists p :: 0 <= p < |t| && t[p].state == ZOMBIE && t[p].pid == x
  }

  /** Pids are unique; the exited are the reaped and the zombies, and nobody in the table has
      been reaped. */
  ghost predicate Accounts(t: seq<Proc>, nextpid: nat, exited: set<nat>, reaped: set<nat>) {
    && (forall p :: 0 <= p < |t| && t[p].state != UNUSED ==> t[p].pid < nextpid && t[p].pid !in reaped)
    && (forall p, q ::
          (0 <= p < |t| && 0 <= q < |t| && t[p].state != UNUSED && t[q].state != UNUSED && t[p].pid == t[q].pid)
          ==> p == q)
    && (forall x :: x in reaped ==> x < nextpid)
    && (forall x: nat :: x in exited <==> x in reaped || ZombiePid(t, x))
  }

  /** Only states among the live ones, and channels, have changed. */
  ghost predicate Rescheduled(t: seq<Proc>, t': seq<Proc>) {
    && |t'| == |t|
    && forall i :: 0 <= i < |t| ==> t'[i] == t[i].(state := t'[i].state, chan := t'[i].chan, killed := t'[i].killed)
                                    && (t'[i].state == t[i].state || (t[i].Live() && t'[i].Live()))
  }

  lemma RescheduledFamily(t: seq<Proc>, t': seq<Proc>, init: nat, forking: seq<Option<nat>>)
    requires Family(t, init, forking) && Rescheduled(t, t')
    ensures Family(t', init, forking)
  {
    forall p | 0 <= p < |t|
      ensures ParentAt(t', init, forking, p) && ForkAt(t', forking, p)
    {
      assert ParentAt(t, init, forking, p) && ForkAt(t, forking, p);
    }
  }

  lemma RescheduledAccounts(t: seq<Proc>, t': seq<Proc>, nextpid: nat, exited: set<nat>, reaped: set<nat>)
    requires Accounts(t, nextpid, exited, reaped) && Rescheduled(t, t')
    ensures Accounts(t', nextpid, exited, reaped)
  {
    forall x: nat
      ensures ZombiePid(t', x) <==> ZombiePid(t, x)
    {
      if ZombiePid(t, x) {
        var p :| 0 <= p < |t| && t[p].state == ZOMBIE && t[p].pid == x;
        assert t'[p].state == ZOMBIE;
      }
    }
  }

  lemma RescheduledReaper(t: seq<Proc>, t': seq<Proc>)
    requires NoSleepingReaper(t) && Rescheduled(t, t')
    requires forall p: nat, q: nat :: p < |t| && t'[p].SleepsOn(ProcChan(q)) ==> t[p].SleepsOn(ProcChan(q))
    ensures NoSleepingReaper(t')
  {
    forall p: nat, q: nat | p < |t'| && ChildOf(t', q, p) && t'[q].state == ZOMBIE
      ensures !t'[p].SleepsOn(ProcChan(p))
    {
      assert ChildOf(t, q, p) && t[q].state == ZOMBIE;
    }
  }

  /** wakeup1, for one process. */
  function WokenBy(p: Proc, c: Chan): Proc {
    if p.SleepsOn(c) then p.(state := RUNNABLE) else p
  }

  /** What exit does to another process: wake the parent in wait, give children to init, and
      wake init in wait if one of them is a zombie. */
  function AfterExit(p: Proc, cur: nat, parent: nat, init: nat, orphanZombie: bool): Proc {
    var q := WokenBy(p, ProcChan(parent));
    var r := if q.parent == Some(cur) then q.(parent := Some(init)) else q;
    if orphanZombie then WokenBy(r, ProcChan(init)) else r
  }

  /** The table after process cur has exited. */
  ghost predicate ExitedTable(t: seq<Proc>, t': seq<Proc>, cur: nat, init: nat) {
    && cur < |t| == |t'| && t[cur].parent.Some?
    && forall i :: 0 <= i < |t| ==>
         var p := AfterExit(t[i], cur, t[cur].parent.value, init, OrphanZombie(t, cur));
         t'[i] == if i == cur then p.(state := ZOMBIE) else p
  }

  ghost predicate OrphanZombie(t: seq<Proc>, cur: nat) {
    exists i :: 0 <= i < |t| && t[i].parent == Some(cur) && t[i].state == ZOMBIE
  }

  /** Exit changes one process from live to zombie, and otherwise only who is whose child. */
  lemma ExitAt(t: seq<Proc>, t': seq<Proc>, cur: nat, init: nat, i: nat)
    requires ExitedTable(t, t', cur, init) && i < |t| && t[cur].state == RUNNING
    ensures t'[i].Live() <==> t[i].Live() && i != cur
    ensures t'[i].state == UNUSED <==> t[i].state == UNUSED
    ensures t'[i].state == EMBRYO <==> t[i].state == EMBRYO
    ensures t'[i].state == ZOMBIE <==> t[i].state == ZOMBIE || i == cur
    ensures t'[i].parent == if t[i].parent == Some(cur) then Some(init) else t[i].parent
    ensures forall c :: t'[i].SleepsOn(c) ==> t[i].SleepsOn(c) && c != ProcChan(t[cur].parent.value)
    ensures t'[i].SleepsOn(ProcChan(init)) ==> !OrphanZombie(t, cur)
  {
  }

  lemma ExitFamily(t: seq<Proc>, t': seq<Proc>, cur: nat, init: nat, forking: seq<Option<nat>>)
    requires Family(t, init, forking) && ExitedTable(t, t', cur, init)
    requires cur != init && t[cur].state == RUNNING && forking[cur] == None
    ensures Family(t', init, forking)
  {
    forall i | 0 <= i < |t|
      ensures ParentAt(t', init, forking, i) && ForkAt(t', forking, i)
    {
      assert ParentAt(t, init, forking, i) && ForkAt(t, forking, i);
      ExitAt(t, t', cur, init, i);
      ExitAt(t, t', cur, init, init);
      if t[i].parent.Some? {
        ExitAt(t, t', cur, init, t[i].parent.value);
      }
      if forking[i].Some? {
        ExitAt(t, t', cur, init, forking[i].value);
      }
    }
    ExitAt(t, t', cur, init, init);
  }

  lemma ExitReaper(t: seq<Proc>, t': seq<Proc>, cur: nat, init: nat)
    requires NoSleepingReaper(t) && ExitedTable(t, t', cur, init) && t[cur].state == RUNNING
    requires t[cur].parent != Some(cur)
    ensures NoSleepingReaper(t')
  {
    forall p: nat, q: nat | p < |t'| && t'[p].SleepsOn(ProcChan(q))
      ensures q == p
    {
      ExitAt(t, t', cur, init, p);
    }
    forall p: nat, q: nat | p < |t'| && ChildOf(t', q, p) && t'[q].state == ZOMBIE
      ensures !t'[p].SleepsOn(ProcChan(p))
    {
      ExitAt(t, t', cur, init, p);
      ExitAt(t, t', cur, init, q);
      assert q != cur && t[q].parent == Some(cur) ==> OrphanZombie(t, cur);
      assert q != cur && t[q].parent != Some(cur) ==> ChildOf(t, q, p);
    }
  }

  lemma ExitAccounts(t: seq<Proc>, t': seq<Proc>, cur: nat, init: nat, nextpid: nat, exited: set<nat>, reaped: set<nat>)
    requires Accounts(t, nextpid, exited, reaped) && ExitedTable(t, t', cur, init) && t[cur].state == RUNNING
    ensures Accounts(t', nextpid, exited + {t[cur].pid}, reaped)
  {
    hide OrphanZombie;
    assert forall i :: 0 <= i < |t| ==> t'[i].pid == t[i].pid && (t'[i].state == UNUSED <==> t[i].state == UNUSED);
    forall x: nat
      ensures ZombiePid(t', x) <==> ZombiePid(t, x) || x == t[cur].pid
    {
      assert t'[cur].state == ZOMBIE && t'[cur].pid == t[cur].pid;
      if ZombiePid(t, x) {
        var p :| 0 <= p < |t| && t[p].state == ZOMBIE && t[p].pid == x;
        assert t'[p].state == ZOMBIE && t'[p].pid == x;
      }
    }
  }

  lemma ExitCpu(t: seq<Proc>, t': seq<Proc>, cur: nat, init: nat, cpu: seq<Option<nat>>, c: nat)
    requires OneCpu(t, cpu) && ExitedTable(t, t', cur, init) && c < |cpu| && cpu[c] == Some(cur)
    ensures OneCpu(t', cpu[c := None])
  {
    hide OrphanZombie;
    assert forall i :: 0 <= i < |t| && i != cur ==> (t'[i].state == RUNNING <==> t[i].state == RUNNING);
    OffCpu(t, t', cpu, c, cur);
  }

  /** A process leaves its CPU. */
  lemma OffCpu(t: seq<Proc>, t': seq<Proc>, cpu: seq<Option<nat>>, c: nat, cur: nat)
    requires OneCpu(t, cpu) && c < |cpu| && cpu[c] == Some(cur) && |t'| == |t|
    requires t'[cur].state != RUNNING
    requires forall i :: 0 <= i < |t| && i != cur ==> (t'[i].state == RUNNING <==> t[i].state == RUNNING)
    ensures OneCpu(t', cpu[c := None])
  {
    var cpu' := cpu[c := None];
    forall p | 0 <= p < |t'| && t'[p].state == RUNNING
      ensures OnCpu(cpu', p)
    {
      assert OnCpu(cpu, p);
      var d :| 0 <= d < |cpu| && cpu[d] == Some(p);
      assert cpu'[d] == Some(p);
    }
  }

  /** Every reachable table. */
  ghost predicate Sound(t: seq<Proc>, cpu: seq<Option<nat>>, init: nat, forking: seq<Option<nat>>,
                        nextpid: nat, exited: set<nat>, reaped: set<nat>)
  {
    Family(t, init, forking) && NoSleepingReaper(t) && OneCpu(t, cpu) && Accounts(t, nextpid, exited, reaped)
  }

  /** Whoever has exited and not been reaped has a live parent, and it is not asleep in wait. */
  lemma ZombieHasReaper(t: seq<Proc>, cpu: seq<Option<nat>>, init: nat, forking: seq<Option<nat>>,
                        nextpid: nat, exited: set<nat>, reaped: set<nat>, x: nat) returns (q: nat, p: nat)
    requires Sound(t, cpu, init, forking, nextpid, exited, reaped) && x in exited && x !in reaped
    ensures q < |t| && t[q].state == ZOMBIE && t[q].pid == x && ChildOf(t, q, p)
    ensures LiveAt(t, p) && !t[p].SleepsOn(ProcChan(p))
  {
    assert ZombiePid(t, x);
    q :| 0 <= q < |t| && t[q].state == ZOMBIE && t[q].pid == x;
    assert ParentAt(t, init, forking, q);
    p := t[q].parent.value;
    assert ChildOf(t, q, p);
  }

  /** The slot of a reaped process. */
  function Cleared(p: Proc): Proc {
    p.(state := UNUSED, pid := 0, parent := None, killed := false)
  }

  /** A change of one slot that keeps it off the CPUs and off the sleepers. */
  lemma SlotKeeps(t: seq<Proc>, q: nat, x: Proc, cpu: seq<Option<nat>>)
    requires q < |t| && OneCpu(t, cpu) && NoSleepingReaper(t)
    requires t[q].state != RUNNING && x.state != RUNNING && x.state != SLEEPING && x.state != ZOMBIE
    requires x.parent == t[q].parent || x.state != ZOMBIE
    ensures OneCpu(t[q := x], cpu) && NoSleepingReaper(t[q := x])
  {
    var t' := t[q := x];
    forall p: nat, r: nat | p < |t'| && ChildOf(t', r, p) && t'[r].state == ZOMBIE
      ensures !t'[p].SleepsOn(ProcChan(p))
    {
      assert ChildOf(t, r, p);
    }
  }

  lemma ReapAccounts(t: seq<Proc>, nextpid: nat, exited: set<nat>, reaped: set<nat>, q: nat)
    requires Accounts(t, nextpid, exited, reaped) && q < |t| && t[q].state == ZOMBIE
    ensures Accounts(t[q := Cleared(t[q])], nextpid, exited, reaped + {t[q].pid})
    ensures t[q].pid in exited && t[q].pid !in reaped
  {
    var t' := t[q := Cleared(t[q])];
    assert ZombiePid(t, t[q].pid);
    forall x: nat
      ensures x in exited <==> x in reaped + {t[q].pid} || ZombiePid(t', x)
    {
      if ZombiePid(t, x) && x != t[q].pid {
        var p :| 0 <= p < |t| && t[p].state == ZOMBIE && t[p].pid == x;
        assert t'[p].state == ZOMBIE && t'[p].pid == x;
      }
      if ZombiePid(t', x) {
        var p :| 0 <= p < |t'| && t'[p].state == ZOMBIE && t'[p].pid == x;
        assert t[p].state == ZOMBIE && t[p].pid == x;
      }
    }
  }

  /** One slot that is not live changes, and is not live or is newly started. */
  lemma SlotFamily(t: seq<Proc>, init: nat, forking: seq<Option<nat>>, q: nat, t': seq<Proc>,
                   forking': seq<Option<nat>>)
    requires Family(t, init, forking) && q < |t| == |t'| && !t[q].Live() && |forking'| == |t|
    requires forall p :: 0 <= p < |t| && p != q ==> t'[p] == t[p]
    requires ParentAt(t', init, forking', q)
    requires forall p :: 0 <= p < |t| ==> ForkAt(t', forking', p)
    requires forall p, r :: 0 <= p < |t| && 0 <= r < |t| && forking'[p].Some? && forking'[p] == forking'[r] ==> p == r
    requires forall p, r :: 0 <= p < |t| && 0 <= r < |t| && r != q && forking[p] == Some(r) ==> forking'[p] == Some(r)
    ensures Family(t', init, forking')
  {
    forall p | 0 <= p < |t|
      ensures ParentAt(t', init, forking', p)
    {
      if p != q {
        assert ParentAt(t, init, forking, p);
      }
    }
  }

  lemma ReapFamily(t: seq<Proc>, init: nat, forking: seq<Option<nat>>, q: nat)
    requires Family(t, init, forking) && q < |t| && t[q].state == ZOMBIE
    ensures Family(t[q := Cleared(t[q])], init, forking)
  {
    var t' := t[q := Cleared(t[q])];
    forall p | 0 <= p < |t|
      ensures ForkAt(t', forking, p)
    {
      assert ForkAt(t, forking, p);
    }
    SlotFamily(t, init, forking, q, t', forking);
  }

  lemma ReapKeeps(t: seq<Proc>, cpu: seq<Option<nat>>, init: nat, forking: seq<Option<nat>>,
                  nextpid: nat, exited: set<nat>, reaped: set<nat>, q: nat)
    requires Sound(t, cpu, init, forking, nextpid, exited, reaped) && q < |t| && t[q].state == ZOMBIE
    ensures Sound(t[q := Cleared(t[q])], cpu, init, forking, nextpid, exited, reaped + {t[q].pid})
    ensures t[q].pid in exited && t[q].pid !in reaped
  {
    hide Family, NoSleepingReaper, OneCpu, Accounts;
    SlotKeeps(t, q, Cleared(t[q]), cpu);
    ReapFamily(t, init, forking, q);
    ReapAccounts(t, nextpid, exited, reaped, q);
  }

  /** Slots that are not zombies before or after do not touch the accounts of the exited. */
  lemma NoZombieChange(t: seq<Proc>, q: nat, x: Proc, y: nat)
    requires q < |t| && t[q].state != ZOMBIE && x.state != ZOMBIE
    ensures ZombiePid(t[q := x], y) <==> ZombiePid(t, y)
  {
    if ZombiePid(t, y) {
      var p :| 0 <= p < |t| && t[p].state == ZOMBIE && t[p].pid == y;
      assert t[q := x][p].state == ZOMBIE && t[q := x][p].pid == y;
    }
    if ZombiePid(t[q := x], y) {
      var p :| 0 <= p < |t| && t[q := x][p].state == ZOMBIE && t[q := x][p].pid == y;
      assert t[p].state == ZOMBIE && t[p].pid == y;
    }
  }

  lemma SlotAccounts(t: seq<Proc>, q: nat, x: Proc, nextpid: nat, nextpid': nat, exited: set<nat>, reaped: set<nat>)
    requires Accounts(t, nextpid, exited, reaped) && q < |t| && t[q].state != ZOMBIE && x.state != ZOMBIE
    requires x.state == UNUSED || (t[q].state != UNUSED && x.pid == t[q].pid) || (x.pid == nextpid < nextpid')
    requires nextpid <= nextpid'
    ensures Accounts(t[q := x], nextpid', exited, reaped)
  {
    forall y: nat
      ensures ZombiePid(t[q := x], y) <==> ZombiePid(t, y)
    {
      NoZombieChange(t, q, x, y);
    }
    hide ZombiePid;
  }

  /** Where fork is: it has an embryo, the embryo has its parent, the embryo is started. */
  function Embryo(p: Proc, pid: nat): Proc {
    p.(state := EMBRYO, pid := pid)
  }

  lemma BeginFamily(t: seq<Proc>, init: nat, forking: seq<Option<nat>>, cur: nat, np: nat, pid: nat)
    requires Family(t, init, forking) && np < |t| && t[np].state == UNUSED && LiveAt(t, cur) && forking[cur] == None
    ensures Family(t[np := Embryo(t[np], pid)], init, forking[cur := Some(np)])
  {
    assert ParentAt(t, init, forking, np);
    var t', forking' := t[np := Embryo(t[np], pid)], forking[cur := Some(np)];
    forall p | 0 <= p < |t|
      ensures ForkAt(t', forking', p) && forking[p] != Some(np)
    {
      assert ForkAt(t, forking, p);
    }
    SlotFamily(t, init, forking, np, t', forking');
  }

  /** The embryo's slot changes and fork goes on, or ends. */
  lemma EmbryoFamily(t: seq<Proc>, init: nat, forking: seq<Option<nat>>, cur: nat, x: Proc, on: bool)
    requires Family(t, init, forking) && cur < |t| && forking[cur].Some?
    requires on ==> x.state == EMBRYO && x.parent == Some(cur)
    requires !on ==> (x.state == UNUSED && x.parent == None) || (x.state == RUNNABLE && x.parent == Some(cur))
    ensures forking[cur].value < |t|
    ensures Family(t[forking[cur].value := x], init, if on then forking else forking[cur := None])
  {
    var np, forking' := forking[cur].value, if on then forking else forking[cur := None];
    assert ForkAt(t, forking, cur);
    var t' := t[np := x];
    forall p | 0 <= p < |t|
      ensures ForkAt(t', forking', p)
    {
      assert ForkAt(t, forking, p);
    }
    SlotFamily(t, init, forking, np, t', forking');
  }

  /** allocproc: a slot becomes an embryo with the next pid. */
  lemma BeginKeeps(t: seq<Proc>, cpu: seq<Option<nat>>, init: nat, forking: seq<Option<nat>>,
                   nextpid: nat, exited: set<nat>, reaped: set<nat>, cur: nat, np: nat)
    requires Sound(t, cpu, init, forking, nextpid, exited, reaped) && np < |t| && t[np].state == UNUSED
    requires LiveAt(t, cur) && |forking| == |t| && forking[cur] == None
    ensures Sound(t[np := Embryo(t[np], nextpid)], cpu, init, forking[cur := Some(np)], nextpid + 1, exited, reaped)
  {
    hide Family, NoSleepingReaper, OneCpu, Accounts;
    BeginFamily(t, init, forking, cur, np, nextpid);
    SlotKeeps(t, np, Embryo(t[np], nextpid), cpu);
    SlotAccounts(t, np, Embryo(t[np], nextpid), nextpid, nextpid + 1, exited, reaped);
  }

  /** fork gives up, gives the embryo its parent, or starts it. */
  lemma EmbryoKeeps(t: seq<Proc>, cpu: seq<Option<nat>>, init: nat, forking: seq<Option<nat>>,
                    nextpid: nat, exited: set<nat>, reaped: set<nat>, cur: nat, x: Proc, on: bool)
    requires Sound(t, cpu, init, forking, nextpid, exited, reaped) && cur < |t| == |forking| && forking[cur].Some?
    requires on ==> x.state == EMBRYO && x.parent == Some(cur)
    requires !on ==> (x.state == UNUSED && x.parent == None) || (x.state == RUNNABLE && x.parent == Some(cur))
    requires forking[cur].value < |t| && x.pid == t[forking[cur].value].pid
    ensures var forking' := if on then forking else forking[cur := None];
            Sound(t[forking[cur].value := x], cpu, init, forking', nextpid, exited, reaped)
  {
    var np := forking[cur].value;
    assert ForkAt(t, forking, cur);
    hide Family, NoSleepingReaper, OneCpu, Accounts;
    EmbryoFamily(t, init, forking, cur, x, on);
    SlotKeeps(t, np, x, cpu);
    SlotAccounts(t, np, x, nextpid, nextpid, exited, reaped);
  }

  /** A live process of the table is given a CPU. */
  lemma OnToCpu(t: seq<Proc>, t': seq<Proc>, cpu: seq<Option<nat>>, c: nat, p: nat)
    requires OneCpu(t, cpu) && c < |cpu| && cpu[c] == None && p < |t| == |t'|
    requires t[p].state != RUNNING && t'[p].state == RUNNING
    requires forall i :: 0 <= i < |t| && i != p ==> t'[i].state == t[i].state
    ensures OneCpu(t', cpu[c := Some(p)])
  {
    var cpu' := cpu[c := Some(p)];
    forall q | 0 <= q < |t'| && t'[q].state == RUNNING
      ensures OnCpu(cpu', q)
    {
      if q == p {
        assert cpu'[c] == Some(p);
      } else {
        assert OnCpu(cpu, q);
        var d :| 0 <= d < |cpu| && cpu[d] == Some(q);
        assert cpu'[d] == Some(q);
      }
    }
  }

  /** The process on a CPU gives it up, to be runnable or to sleep; not to sleep in wait with a
      child to reap. */
  lemma LeaveKeeps(t: seq<Proc>, cpu: seq<Option<nat>>, init: nat, forking: seq<Option<nat>>,
                   nextpid: nat, exited: set<nat>, reaped: set<nat>, c: nat, cur: nat, x: Proc)
    requires Sound(t, cpu, init, forking, nextpid, exited, reaped) && c < |cpu| && cpu[c] == Some(cur) && cur < |t|
    requires x == t[cur].(state := x.state, chan := x.chan) && (x.state == RUNNABLE || x.state == SLEEPING)
    requires forall q: nat :: x.SleepsOn(ProcChan(q)) ==> q == cur
    requires x.SleepsOn(ProcChan(cur)) ==> forall q: nat :: ChildOf(t, q, cur) ==> t[q].state != ZOMBIE
    ensures Sound(t[cur := x], cpu[c := None], init, forking, nextpid, exited, reaped)
  {
    var t' := t[cur := x];
    assert t[cur].state == RUNNING;
    OffCpu(t, t', cpu, c, cur);
    RescheduledFamily(t, t', init, forking);
    RescheduledAccounts(t, t', nextpid, exited, reaped);
    forall p: nat, q: nat | p < |t'| && ChildOf(t', q, p) && t'[q].state == ZOMBIE
      ensures !t'[p].SleepsOn(ProcChan(p))
    {
      assert ChildOf(t, q, p) && t[q].state == ZOMBIE;
    }
  }

  /** The scheduler takes a runnable process. */
  lemma DispatchKeeps(t: seq<Proc>, cpu: seq<Option<nat>>, init: nat, forking: seq<Option<nat>>,
                      nextpid: nat, exited: set<nat>, reaped: set<nat>, c: nat, p: nat)
    requires Sound(t, cpu, init, forking, nextpid, exited, reaped) && c < |cpu| && cpu[c] == None
    requires p < |t| && t[p].state == RUNNABLE
    ensures Sound(t[p := t[p].(state := RUNNING)], cpu[c := Some(p)], init, forking, nextpid, exited, reaped)
  {
    var t' := t[p := t[p].(state := RUNNING)];
    hide Family, Accounts, OneCpu;
    OnToCpu(t, t', cpu, c, p);
    RescheduledFamily(t, t', init, forking);
    RescheduledAccounts(t, t', nextpid, exited, reaped);
    RescheduledReaper(t, t');
  }

  /** Sleepers become runnable; channels of others are cleared; killed flags are set. */
  lemma WakeKeeps(t: seq<Proc>, t': seq<Proc>, cpu: seq<Option<nat>>, init: nat, forking: seq<Option<nat>>,
                  nextpid: nat, exited: set<nat>, reaped: set<nat>)
    requires Sound(t, cpu, init, forking, nextpid, exited, reaped) && Rescheduled(t, t')
    requires forall i :: 0 <= i < |t| ==>
               t'[i].state == t[i].state || (t[i].state == SLEEPING && t'[i].state == RUNNABLE)
    requires forall i :: 0 <= i < |t| && t'[i].state == SLEEPING ==> t'[i].chan == t[i].chan
    ensures Sound(t', cpu, init, forking, nextpid, exited, reaped)
  {
    hide Family, Accounts;
    RescheduledFamily(t, t', init, forking);
    RescheduledAccounts(t, t', nextpid, exited, reaped);
    RescheduledReaper(t, t');
  }

  lemma ExitKeeps(t: seq<Proc>, t': seq<Proc>, cpu: seq<Option<nat>>, init: nat, forking: seq<Option<nat>>,
                  nextpid: nat, exited: set<nat>, reaped: set<nat>, c: nat, cur: nat)
    requires Sound(t, cpu, init, forking, nextpid, exited, reaped) && ExitedTable(t, t', cur, init) && cur != init
    requires c < |cpu| && cpu[c] == Some(cur) && |forking| == |t| && forking[cur] == None
    ensures Sound(t', cpu[c := None], init, forking, nextpid, exited + {t[cur].pid}, reaped)
  {
    assert t[cur].state == RUNNING && ParentAt(t, init, forking, cur);
    hide Family, Accounts, OneCpu, NoSleepingReaper, ExitedTable;
    ExitFamily(t, t', cur, init, forking);
    ExitReaper(t, t', cur, init);
    ExitAccounts(t, t', cur, init, nextpid, exited, reaped);
    ExitCpu(t, t', cur, init, cpu, c);
  }
}
