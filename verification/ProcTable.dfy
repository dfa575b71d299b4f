/** The process table. Each method is what runs between taking and giving up ptable.lock, or
    one of fork's writes in between; CPUs call them in any order the lock allows. `lock` is
    the CPU that holds it, `forking` which embryo a process is making, `exited` and `reaped`
    the pids that exit and wait have been through. */
module ProcTable {
  import opened Options
  import opened ProcessStates

  datatype Waited = Reaped(pid: nat) | NoChild | Slept

  /** A running process other than init has a parent. */
  lemma HasParent(t: seq<Proc>, cpu: seq<Option<nat>>, init: nat, forking: seq<Option<nat>>,
                  nextpid: nat, exited: set<nat>, reaped: set<nat>, c: nat, p: nat)
    requires Sound(t, cpu, init, forking, nextpid, exited, reaped) && p < |t| && p != init
    requires c < |cpu| && cpu[c] == Some(p)
    ensures |forking| == |t| && ParentAt(t, init, forking, p) && t[p].parent.Some?
  {
    assert |forking| == |t| && ParentAt(t, init, forking, p);
  }

  class ProcTable {
    const init: nat
    var procs: seq<Proc>
    var cpu: seq<Option<nat>>
    var lock: Option<nat>
    var nextpid: nat
    ghost var forking: seq<Option<nat>>
    ghost var exited: set<nat>
    ghost var reaped: set<nat>

    ghost predicate Valid()
      reads this
    {
      Sound(procs, cpu, init, forking, nextpid, exited, reaped)
    }

    /** CPU c runs process cur. */
    predicate Runs(c: nat, cur: nat)
      reads this
    {
      c < |cpu| && cpu[c] == Some(cur) && cur < |procs|
    }

    /** The table after userinit: init alone, ready to run. */
    constructor (nproc: nat, ncpu: nat)
      requires 0 < nproc
      ensures Valid() && lock == None && init == 0
      ensures |procs| == nproc && |cpu| == ncpu && procs[0].state == RUNNABLE
      ensures forall i :: 0 < i < nproc ==> procs[i].state == UNUSED
    {
      init, lock, nextpid := 0, None, 2;
      var unused := Proc(UNUSED, 0, None, None, false);
      procs := seq(nproc, i => if i == 0 then unused.(state := RUNNABLE, pid := 1) else unused);
      cpu := seq(ncpu, _ => None);
      forking, exited, reaped := seq(nproc, _ => None), {}, {};
    }

    /** The part of allocproc under the lock: the first unused slot becomes an embryo. */
    method AllocProc(c: nat, cur: nat) returns (r: Option<nat>)
      requires Valid() && lock == None && Runs(c, cur) && |forking| == |procs| && forking[cur] == None
      modifies this`procs, this`nextpid, this`forking
      ensures Valid() && (r.None? <==> forall i :: 0 <= i < |old(procs)| ==> old(procs)[i].state != UNUSED)
      ensures r.None? ==> procs == old(procs) && nextpid == old(nextpid) && forking == old(forking)
      ensures r.Some? ==>
                && r.value < |old(procs)| && old(procs)[r.value].state == UNUSED
                && (forall i :: 0 <= i < r.value ==> old(procs)[i].state != UNUSED)
                && procs == old(procs)[r.value := Embryo(old(procs)[r.value], old(nextpid))]
                && nextpid == old(nextpid) + 1 && forking == old(forking)[cur := r]
    {
      assert LiveAt(procs, cur);
      hide Sound;
      var p := 0;
      while p < |procs|
        invariant 0 <= p <= |procs| && procs == old(procs) && nextpid == old(nextpid) && forking == old(forking)
        invariant forall i :: 0 <= i < p ==> procs[i].state != UNUSED
      {
        if procs[p].state == UNUSED {
          BeginKeeps(procs, cpu, init, forking, nextpid, exited, reaped, cur, p);
          procs := procs[p := Embryo(procs[p], nextpid)];
          nextpid := nextpid + 1;
          forking := forking[cur := Some(p)];
          return Some(p);
        }
        p := p + 1;
      }
      return None;
    }

    /** fork without memory: the embryo's slot is unused again. */
    method AbandonFork(cur: nat, np: nat)
      requires Valid() && cur < |procs| == |forking| && forking[cur] == Some(np)
      requires np < |procs| && procs[np].parent == None
      modifies this`procs, this`forking
      ensures Valid() && procs == old(procs)[np := old(procs)[np].(state := UNUSED)]
      ensures forking == old(forking)[cur := None]
    {
      EmbryoKeeps(procs, cpu, init, forking, nextpid, exited, reaped, cur, procs[np].(state := UNUSED), false);
      procs := procs[np := procs[np].(state := UNUSED)];
      forking := forking[cur := None];
    }

    /** fork's write of the parent, without the lock. */
    method SetParent(cur: nat, np: nat)
      requires Valid() && cur < |procs| == |forking| && forking[cur] == Some(np) && np < |procs|
      modifies this`procs
      ensures Valid() && procs == old(procs)[np := old(procs)[np].(parent := Some(cur))]
    {
      assert ForkAt(procs, forking, cur);
      EmbryoKeeps(procs, cpu, init, forking, nextpid, exited, reaped, cur, procs[np].(parent := Some(cur)), true);
      procs := procs[np := procs[np].(parent := Some(cur))];
    }

    /** The end of fork: the child is runnable, and a child of the caller. */
    method FinishFork(cur: nat, np: nat) returns (pid: nat)
      requires Valid() && lock == None && cur < |procs| == |forking| && forking[cur] == Some(np)
      requires np < |procs| && procs[np].parent == Some(cur)
      modifies this`procs, this`forking
      ensures Valid() && procs == old(procs)[np := old(procs)[np].(state := RUNNABLE)]
      ensures forking == old(forking)[cur := None] && pid == procs[np].pid
    {
      EmbryoKeeps(procs, cpu, init, forking, nextpid, exited, reaped, cur, procs[np].(state := RUNNABLE), false);
      procs := procs[np := procs[np].(state := RUNNABLE)];
      forking := forking[cur := None];
      return procs[np].pid;
    }

    /** Wake all processes sleeping on a channel; the lock is held. */
    method Wakeup1(ch: Chan)
      modifies this`procs
      ensures |procs| == |old(procs)| && forall i :: 0 <= i < |procs| ==> procs[i] == WokenBy(old(procs)[i], ch)
    {
      var p := 0;
      while p < |procs|
        invariant 0 <= p <= |procs| == |old(procs)|
        invariant forall i :: 0 <= i < |procs| ==>
                    procs[i] == if i < p then WokenBy(old(procs)[i], ch) else old(procs)[i]
      {
        if procs[p].state == SLEEPING && procs[p].chan == Some(ch) {
          procs := procs[p := procs[p].(state := RUNNABLE)];
        }
        p := p + 1;
      }
    }

    method Wakeup(ch: Chan)
      requires Valid() && lock == None
      modifies this`procs
      ensures Valid() && |procs| == |old(procs)|
      ensures forall i :: 0 <= i < |procs| ==> procs[i] == WokenBy(old(procs)[i], ch)
    {
      Wakeup1(ch);
      WakeKeeps(old(procs), procs, cpu, init, forking, nextpid, exited, reaped);
    }

    /** Mark the first slot with this pid as killed, and wake it. */
    method Kill(pid: nat) returns (found: bool)
      requires Valid() && lock == None
      modifies this`procs
      ensures Valid() && |procs| == |old(procs)|
      ensures found <==> exists i :: 0 <= i < |procs| && old(procs)[i].pid == pid
      ensures !found ==> procs == old(procs)
      ensures found ==> exists i :: 0 <= i < |procs| && old(procs)[i].pid == pid && Killed(old(procs), procs, i)
    {
      hide Sound;
      var p := 0;
      while p < |procs|
        invariant 0 <= p <= |procs| && procs == old(procs)
        invariant forall i :: 0 <= i < p ==> procs[i].pid != pid
      {
        if procs[p].pid == pid {
          var x := procs[p].(killed := true);
          if x.state == SLEEPING {
            x := x.(state := RUNNABLE);
          }
          WakeKeeps(procs, procs[p := x], cpu, init, forking, nextpid, exited, reaped);
          procs := procs[p := x];
          assert old(procs)[p].pid == pid && Killed(old(procs), procs, p);
          return true;
        }
        p := p + 1;
      }
      return false;
    }

    /** Exit the current process; false is the panic "init exiting". The CPU is left to its
        scheduler, with the lock. */
    method Exit(c: nat, cur: nat) returns (ok: bool)
      requires Valid() && lock == None && Runs(c, cur) && |forking| == |procs| && forking[cur] == None
      modifies this`procs, this`cpu, this`lock, this`exited
      ensures ok <==> cur != init
      ensures !ok ==> procs == old(procs) && cpu == old(cpu) && lock == old(lock) && exited == old(exited)
      ensures ok ==>
                Valid() && ExitedTable(old(procs), procs, cur, init) && exited == old(exited) + {old(procs)[cur].pid}
      ensures ok ==> cpu == old(cpu)[c := None] && lock == Some(c)
    {
      hide Sound;
      if cur == init {
        return false;
      }
      HasParent(procs, cpu, init, forking, nextpid, exited, reaped, c, cur);
      lock := Some(c);
      var parent := procs[cur].parent.value;
      Wakeup1(ProcChan(parent));
      Abandon(old(procs), cur, parent);
      procs := procs[cur := procs[cur].(state := ZOMBIE)];
      ExitKeeps(old(procs), procs, cpu, init, forking, nextpid, exited, reaped, c, cur);
      exited := exited + {old(procs)[cur].pid};
      cpu := cpu[c := None];
      return true;
    }

    /** Pass abandoned children to init, which is woken for each that is a zombie. */
    method Abandon(ghost t: seq<Proc>, cur: nat, ghost parent: nat)
      requires |procs| == |t| && forall i :: 0 <= i < |t| ==> procs[i] == WokenBy(t[i], ProcChan(parent))
      modifies this`procs
      ensures |procs| == |t|
      ensures forall i :: 0 <= i < |t| ==>
                procs[i] == AfterExit(t[i], cur, parent, init, OrphanZombie(t, cur))
    {
      ghost var woke := false;
      var p := 0;
      while p < |procs|
        invariant 0 <= p <= |procs| == |t|
        invariant woke <==> exists i :: 0 <= i < p && t[i].parent == Some(cur) && t[i].state == ZOMBIE
        invariant forall i :: 0 <= i < p ==> procs[i] == AfterExit(t[i], cur, parent, init, woke)
        invariant forall i :: p <= i < |t| ==>
                    procs[i] == if woke then WokenBy(WokenBy(t[i], ProcChan(parent)), ProcChan(init))
                                else WokenBy(t[i], ProcChan(parent))
      {
        if procs[p].parent == Some(cur) {
          procs := procs[p := procs[p].(parent := Some(init))];
          if procs[p].state == ZOMBIE {
            Wakeup1(ProcChan(init));
            woke := true;
          }
        }
        p := p + 1;
      }
    }

    /** One turn of wait, with the lock: reap the first zombie child, give up for want of
        children or because the caller is killed, or sleep. */
    method WaitTurn(c: nat, cur: nat) returns (r: Waited)
      requires Valid() && lock == Some(c) && Runs(c, cur) && |forking| == |procs| && forking[cur] == None
      modifies this`procs, this`cpu, this`lock, this`reaped
      ensures Valid()
      ensures r.Reaped? ==>
                exists q: nat :: ZombieChild(old(procs), q, cur) && old(procs)[q].pid == r.pid
                            && (forall j :: 0 <= j < q ==> !ZombieChild(old(procs), j, cur))
                            && procs == old(procs)[q := Cleared(old(procs)[q])]
      ensures r.Reaped? ==> r.pid in exited && r.pid !in old(reaped) && reaped == old(reaped) + {r.pid}
      ensures r.Reaped? ==> cpu == old(cpu) && lock == None
      ensures !r.Reaped? ==> reaped == old(reaped) && forall q: nat :: !ZombieChild(old(procs), q, cur)
      ensures r == NoChild ==> procs == old(procs) && cpu == old(cpu) && lock == None
      ensures r == NoChild <==> (forall q: nat :: !ZombieChild(old(procs), q, cur))
                                && (old(procs)[cur].killed || forall q: nat :: !ChildOf(old(procs), q, cur))
      ensures r == Slept ==> cpu == old(cpu)[c := None] && lock == Some(c)
      ensures r == Slept ==>
                procs == old(procs)[cur := old(procs)[cur].(state := SLEEPING, chan := Some(ProcChan(cur)))]
    {
      hide Sound;
      var p, havekids := 0, false;
      while p < |procs|
        invariant 0 <= p <= |procs| && procs == old(procs) && cpu == old(cpu) && lock == old(lock)
        invariant reaped == old(reaped)
        invariant havekids <==> exists q: nat :: q < p && ChildOf(procs, q, cur)
        invariant forall q: nat :: q < p ==> !ZombieChild(procs, q, cur)
      {
        if procs[p].parent == Some(cur) {
          assert ChildOf(procs, p, cur);
          havekids := true;
          if procs[p].state == ZOMBIE {
            ReapKeeps(procs, cpu, init, forking, nextpid, exited, reaped, p);
            assert ZombieChild(old(procs), p, cur);
            r := Reaped(procs[p].pid);
            reaped := reaped + {procs[p].pid};
            procs := procs[p := Cleared(procs[p])];
            lock := None;
            return;
          }
        }
        p := p + 1;
      }
      assert forall q: nat :: ChildOf(procs, q, cur) ==> q < p && !ZombieChild(procs, q, cur);
      if !havekids || procs[cur].killed {
        lock := None;
        return NoChild;
      }
      var x := procs[cur].(state := SLEEPING, chan := Some(ProcChan(cur)));
      LeaveKeeps(procs, cpu, init, forking, nextpid, exited, reaped, c, cur, x);
      procs := procs[cur := x];
      cpu := cpu[c := None];
      return Slept;
    }

    /** Give up the CPU for a round. */
    method Yield(c: nat, cur: nat)
      requires Valid() && lock == None && Runs(c, cur)
      modifies this`procs, this`cpu, this`lock
      ensures Valid() && procs == old(procs)[cur := old(procs)[cur].(state := RUNNABLE)]
      ensures cpu == old(cpu)[c := None] && lock == Some(c)
    {
      lock := Some(c);
      LeaveKeeps(procs, cpu, init, forking, nextpid, exited, reaped, c, cur, procs[cur].(state := RUNNABLE));
      procs := procs[cur := procs[cur].(state := RUNNABLE)];
      cpu := cpu[c := None];
    }

    /** sleep on something that is no process. */
    method Sleep(c: nat, cur: nat, k: nat)
      requires Valid() && lock == Some(c) && Runs(c, cur)
      modifies this`procs, this`cpu
      ensures Valid() && procs == old(procs)[cur := old(procs)[cur].(state := SLEEPING, chan := Some(Other(k)))]
      ensures cpu == old(cpu)[c := None]
    {
      var x := procs[cur].(state := SLEEPING, chan := Some(Other(k)));
      LeaveKeeps(procs, cpu, init, forking, nextpid, exited, reaped, c, cur, x);
      procs := procs[cur := x];
      cpu := cpu[c := None];
    }

    /** The end of sleep: the channel is cleared. */
    method Tidy(c: nat, cur: nat)
      requires Valid() && lock == Some(c) && Runs(c, cur)
      modifies this`procs
      ensures Valid() && procs == old(procs)[cur := old(procs)[cur].(chan := None)]
    {
      WakeKeeps(procs, procs[cur := procs[cur].(chan := None)], cpu, init, forking, nextpid, exited, reaped);
      procs := procs[cur := procs[cur].(chan := None)];
    }

    method Acquire(c: nat)
      requires Valid() && lock == None && c < |cpu|
      modifies this`lock
      ensures Valid() && lock == Some(c)
    {
      lock := Some(c);
    }

    method Release(c: nat)
      requires Valid() && lock == Some(c)
      modifies this`lock
      ensures Valid() && lock == None
    {
      lock := None;
    }

    /** The scheduler's scan, from a position on: the next runnable process gets the CPU, and
        the lock with it; if there is none the lock is given up. */
    method Dispatch(c: nat, from: nat) returns (r: Option<nat>)
      requires Valid() && lock == Some(c) && c < |cpu| && cpu[c] == None && from <= |procs|
      modifies this`procs, this`cpu, this`lock
      ensures Valid()
      ensures r.None? ==> procs == old(procs) && cpu == old(cpu) && lock == None
      ensures r.None? <==> forall i :: from <= i < |old(procs)| ==> old(procs)[i].state != RUNNABLE
      ensures r.Some? ==>
                && from <= r.value < |old(procs)| && old(procs)[r.value].state == RUNNABLE
                && (forall i :: from <= i < r.value ==> old(procs)[i].state != RUNNABLE)
                && procs == old(procs)[r.value := old(procs)[r.value].(state := RUNNING)]
                && cpu == old(cpu)[c := r] && lock == Some(c)
    {
      hide Sound;
      var p := from;
      while p < |procs|
        invariant from <= p <= |procs| && procs == old(procs) && cpu == old(cpu) && lock == old(lock)
        invariant forall i :: from <= i < p ==> procs[i].state != RUNNABLE
      {
        if procs[p].state == RUNNABLE {
          DispatchKeeps(procs, cpu, init, forking, nextpid, exited, reaped, c, p);
          cpu := cpu[c := Some(p)];
          procs := procs[p := procs[p].(state := RUNNING)];
          return Some(p);
        }
        p := p + 1;
      }
      lock := None;
      return None;
    }
  }

  predicate ZombieChild(t: seq<Proc>, q: nat, p: nat) {
    ChildOf(t, q, p) && t[q].state == ZOMBIE
  }

  ghost predicate Killed(t: seq<Proc>, t': seq<Proc>, i: nat) {
    && i < |t| && (forall j :: 0 <= j < i ==> t[j].pid != t[i].pid)
    && t' == t[i := t[i].(killed := true, state := if t[i].state == SLEEPING then RUNNABLE else t[i].state)]
  }
}
