/** kernel/proc.c as it runs: the table is an array scanned slot by slot, and each method is one critical
  section of ptable.lock (or one unlocked write of fork) taking the machine of ProcMachine by one step. */
module ProcTable {
  import opened Wrappers
  import opened ProcMachine
  import opened ProcTree

  /** Slot i is asleep where exit of cur wakes: in its parent's wait, or in init's when a child of cur that
    init inherits has exited already. */
  predicate Roused(ps: seq<Proc>, cur: nat, i: nat)
    requires i < |ps| && cur < |ps|
  {
    && ps[i].state == Sleeping && ps[i].chan.OfProc?
    && (ps[cur].parent == Some(ps[i].chan.slot)
        || (ps[i].chan.slot == INIT
            && exists k :: 0 <= k < |ps| && ps[k].parent == Some(cur) && ps[k].state == Zombie))
  }

  /** One slot after exit of cur. */
  ghost predicate Left(ps: seq<Proc>, cur: nat, i: nat, q: Proc)
    requires i < |ps| && cur < |ps|
  {
    && q == ps[i].(state := q.state, parent := if ps[i].parent == Some(cur) then Some(INIT) else ps[i].parent)
    && q.state == if i == cur then Zombie else if Roused(ps, cur, i) then Runnable else ps[i].state
  }

  lemma ExitSlot(t: Table, cur: nat, i: nat)
    requires Inv(t) && Enabled(t, Exit(cur)) && i < NPROC
    ensures Left(t.procs, cur, i, Step(t, Exit(cur)).procs[i])
  {
    assert Here(t, cur);
    assert Step(t, Exit(cur)).procs[i] == AfterExit(t.procs, cur, i);
  }

  class ProcTable {
    const procs: array<Proc>
    var nextpid: nat
    ghost var exited: set<nat>
    ghost var reaped: seq<nat>

    ghost function View(): Table
      reads this, procs
    {
      Table(procs[..], nextpid, exited, reaped)
    }

    ghost predicate Valid()
      reads this, procs
    {
      procs.Length == NPROC && Inv(View())
    }

    /** Every slot but z and w is as it was. */
    twostate predicate OthersKept(z: nat, w: nat)
      requires procs.Length == NPROC
      reads procs
    {
      forall j: nat :: j < NPROC && j != z && j != w ==> procs[j] == old(procs[j])
    }

    /** pinit and userinit. */
    constructor ()
      ensures Valid() && View() == Boot() && fresh(procs) && nextpid == 2
      ensures procs[0] == Proc(Runnable, 1, None, NoChan, false, User)
      ensures forall i :: 0 < i < NPROC ==> procs[i] == Proc(Unused, 0, None, NoChan, false, User)
    {
      procs := new Proc[NPROC](i => if i == INIT then Proc(Runnable, 1, None, NoChan, false, User)
                                    else Proc(Unused, 0, None, NoChan, false, User));
      nextpid, exited, reaped := 2, {}, [];
      new;
      BootInv();
      assert procs[..] == Boot().procs;
    }

    /** allocproc up to the release of the lock; fails only with no free slot. */
    method Allocproc(cur: nat) returns (np: nat, ok: bool)
      requires Valid() && Runs(View(), cur) && procs[cur].at == User
      modifies this`nextpid, procs
      ensures Valid()
      ensures ok ==> old(Enabled(View(), Alloc(cur, np))) && View() == old(Step(View(), Alloc(cur, np)))
      ensures ok ==> && np < NPROC && old(procs[np].state) == Unused
                     && (forall j: nat :: j < np ==> old(procs[j].state) != Unused)
                     && procs[np] == old(procs[np]).(state := Embryo, pid := old(nextpid))
                     && procs[cur] == old(procs[cur]).(at := Claimed(np))
                     && nextpid == old(nextpid) + 1 && OthersKept(np, cur)
      ensures !ok ==> View() == old(View()) && forall i :: 0 <= i < NPROC ==> procs[i].state != Unused
    {
      ghost var t := View();
      np := 0;
      while np < NPROC && procs[np].state != Unused
        invariant np <= NPROC && forall j :: 0 <= j < np ==> procs[j].state != Unused
      {
        np := np + 1;
      }
      ok := np < NPROC;
      if ok {
        StepKeeps(t, Alloc(cur, np));
        hide Inv;
        procs[cur] := procs[cur].(at := Claimed(np));
        procs[np] := procs[np].(state := Embryo, pid := nextpid);
        nextpid := nextpid + 1;
        assert procs[..] == Step(t, Alloc(cur, np)).procs;
      }
    }

    /** allocproc or fork out of memory: the slot is free again, its number stays. */
    method AbortFork(cur: nat)
      requires Valid() && Enabled(View(), Abort(cur))
      modifies procs
      ensures Valid() && View() == old(Step(View(), Abort(cur)))
      ensures var np := old(procs[cur].at.np);
              && procs[np] == old(procs[np]).(state := Unused)
              && procs[cur] == old(procs[cur]).(at := User) && OthersKept(np, cur)
    {
      ghost var t := View();
      StepKeeps(t, Abort(cur));
      assert Here(t, cur) && Here(t, t.procs[cur].at.np);
      hide Inv;
      var np := procs[cur].at.np;
      procs[np] := procs[np].(state := Unused);
      procs[cur] := procs[cur].(at := User);
      assert procs[..] == Step(t, Abort(cur)).procs;
    }

    method AdoptChild(cur: nat)
      requires Valid() && Enabled(View(), Adopt(cur))
      modifies procs
      ensures Valid() && View() == old(Step(View(), Adopt(cur)))
      ensures var np := old(procs[cur].at.np);
              && procs[np] == old(procs[np]).(parent := Some(cur))
              && procs[cur] == old(procs[cur]).(at := Adopted(np)) && OthersKept(np, cur)
    {
      ghost var t := View();
      StepKeeps(t, Adopt(cur));
      assert Here(t, cur) && Here(t, t.procs[cur].at.np);
      hide Inv;
      var np := procs[cur].at.np;
      procs[np] := procs[np].(parent := Some(cur));
      procs[cur] := procs[cur].(at := Adopted(np));
      assert procs[..] == Step(t, Adopt(cur)).procs;
    }

    /** The end of fork, which returns the child's pid. */
    method PublishChild(cur: nat) returns (pid: nat)
      requires Valid() && Enabled(View(), Publish(cur))
      modifies procs
      ensures Valid() && View() == old(Step(View(), Publish(cur)))
      ensures pid == old(procs[procs[cur].at.np].pid) && pid !in reaped && pid !in exited
      ensures var np := old(procs[cur].at.np);
              && procs[np] == old(procs[np]).(state := Runnable)
              && procs[cur] == old(procs[cur]).(at := User) && OthersKept(np, cur)
    {
      ghost var t := View();
      StepKeeps(t, Publish(cur));
      assert Here(t, t.procs[cur].at.np) && Here(t, cur);
      hide Inv;
      var np := procs[cur].at.np;
      pid := procs[np].pid;
      procs[np] := procs[np].(state := Runnable);
      procs[cur] := procs[cur].(at := User);
      assert procs[..] == Step(t, Publish(cur)).procs;
    }

    /** Exactly the slots asleep on the channel become runnable; nothing else changes. */
    method Wakeup1(chan: Chan)
      requires procs.Length == NPROC
      modifies procs
      ensures forall i :: 0 <= i < NPROC && old(procs[i].state) == Sleeping && old(procs[i].chan) == chan
                ==> procs[i] == old(procs[i]).(state := Runnable)
      ensures forall i :: 0 <= i < NPROC && !(old(procs[i].state) == Sleeping && old(procs[i].chan) == chan)
                ==> procs[i] == old(procs[i])
      ensures forall i :: 0 <= i < NPROC ==> !(procs[i].state == Sleeping && procs[i].chan == chan)
      ensures forall i :: 0 <= i < NPROC ==> procs[i] == Woken(old(procs[i]), chan)
    {
      for i := 0 to NPROC
        invariant forall k :: 0 <= k < i ==> procs[k] == Woken(old(procs[k]), chan)
        invariant forall k :: i <= k < NPROC ==> procs[k] == old(procs[k])
      {
        if procs[i].state == Sleeping && procs[i].chan == chan {
          procs[i] := procs[i].(state := Runnable);
        }
      }
    }

    /** wakeup: afterwards nobody is asleep on the channel, whoever was is runnable, all else is as before. */
    method WakeupOn(id: nat)
      requires Valid()
      modifies procs
      ensures Valid() && View() == old(Step(View(), Wakeup(id)))
      ensures forall i :: 0 <= i < NPROC && old(procs[i].state) == Sleeping && old(procs[i].chan) == Other(id)
                ==> procs[i] == old(procs[i]).(state := Runnable)
      ensures forall i :: 0 <= i < NPROC && !(old(procs[i].state) == Sleeping && old(procs[i].chan) == Other(id))
                ==> procs[i] == old(procs[i])
      ensures forall i :: 0 <= i < NPROC ==> !(procs[i].state == Sleeping && procs[i].chan == Other(id))
    {
      ghost var t := View();
      StepKeeps(t, Wakeup(id));
      hide Inv;
      Wakeup1(Other(id));
      assert procs[..] == Step(t, Wakeup(id)).procs;
    }

    /** The locked part of exit. Init must not exit: it panics. The caller is a zombie, its children are
      init's, and the processes woken are its parent asleep in wait, and init if a zombie was handed over. */
    method ExitProc(cur: nat) returns (ok: bool)
      requires Valid() && Runs(View(), cur) && procs[cur].at == User
      modifies this`exited, procs
      ensures Valid() && ok == (cur != INIT)
      ensures View() == if ok then old(Step(View(), Exit(cur))) else old(View())
      ensures ok ==> exited == old(exited) + {old(procs[cur].pid)}
      ensures ok ==> forall i :: 0 <= i < NPROC ==> Left(old(procs[..]), cur, i, procs[i])
    {
      ok := cur != INIT;
      if !ok { return; }
      ghost var t := View();
      StepKeeps(t, Exit(cur));
      forall i | 0 <= i < NPROC ensures Left(t.procs, cur, i, Step(t, Exit(cur)).procs[i]) {
        ExitSlot(t, cur, i);
      }
      hide Inv, Left;
      Wakeup1(ChanOf(procs[cur].parent));
      PassChildren(cur);
      exited := exited + {procs[cur].pid};
      procs[cur] := procs[cur].(state := Zombie);
      assert procs[..] == Step(t, Exit(cur)).procs;
    }

    /** The loop of exit over the table. */
    method PassChildren(cur: nat)
      requires procs.Length == NPROC && cur != INIT
      modifies procs
      ensures forall i :: 0 <= i < NPROC ==> procs[i] == Passed(old(procs[i]), cur, old(HasZombie(procs[..], cur)))
    {
      ghost var ps := procs[..];
      ghost var seen := false;
      for i := 0 to NPROC
        invariant seen == exists k :: 0 <= k < i && ps[k].parent == Some(cur) && ps[k].state == Zombie
        invariant forall k :: 0 <= k < i ==> procs[k] == Passed(ps[k], cur, seen)
        invariant forall k :: i <= k < NPROC ==> procs[k] == if seen then Woken(ps[k], OfProc(INIT)) else ps[k]
      {
        if procs[i].parent == Some(cur) {
          procs[i] := procs[i].(parent := Some(INIT));
          if procs[i].state == Zombie {
            Wakeup1(OfProc(INIT));
            seen := true;
          }
        }
      }
    }

    /** wait from its lock of the table to its return or its sleep. */
    method WaitChild(cur: nat) returns (outcome: Outcome)
      requires Valid() && Enabled(View(), Wait(cur))
      modifies this`reaped, procs
      ensures Valid() && View() == old(Step(View(), Wait(cur))) && outcome == old(WaitOutcome(View(), cur))
      ensures forall z: nat :: z < NPROC && old(ZombieChild(procs[..], cur, z)) ==>
                && outcome == Returned(old(procs[z].pid)) && reaped == old(reaped) + [old(procs[z].pid)]
                && procs[z] == Proc(Unused, 0, None, old(procs[z].chan), false, User)
                && procs[cur] == old(procs[cur]).(at := User) && OthersKept(z, cur)
      ensures old(!HasZombie(procs[..], cur)) ==>
                && outcome == (if old(HasKids(procs[..], cur) && !procs[cur].killed) then Slept else Returned(-1))
                && procs[cur] == (if outcome == Slept
                                  then old(procs[cur]).(state := Sleeping, chan := OfProc(cur), at := InWait)
                                  else old(procs[cur]).(at := User))
                && reaped == old(reaped) && OthersKept(cur, cur)
    {
      ghost var t := View();
      StepKeeps(t, Wait(cur));
      hide Inv;
      var havekids := false;
      var p: nat := 0;
      while p < NPROC
        invariant p <= NPROC && View() == t
        invariant forall j :: 0 <= j < p ==> !(procs[j].parent == Some(cur) && procs[j].state == Zombie)
        invariant havekids == exists j :: 0 <= j < p && procs[j].parent == Some(cur)
      {
        if procs[p].parent == Some(cur) {
          havekids := true;
          if procs[p].state == Zombie {
            assert HasZombie(t.procs, cur) && FirstZombie(t.procs, cur, 0) == p;
            var pid := procs[p].pid;
            procs[p] := procs[p].(pid := 0, parent := None, killed := false, state := Unused, at := User);
            procs[cur] := procs[cur].(at := User);
            reaped := reaped + [pid];
            assert procs[..] == Step(t, Wait(cur)).procs;
            return Returned(pid);
          }
        }
        p := p + 1;
      }
      assert !HasZombie(t.procs, cur) && havekids == HasKids(t.procs, cur);
      if !havekids || procs[cur].killed {
        procs[cur] := procs[cur].(at := User);
        assert procs[..] == Step(t, Wait(cur)).procs;
        return Returned(-1);
      }
      procs[cur] := procs[cur].(state := Sleeping, chan := OfProc(cur), at := InWait);
      assert procs[..] == Step(t, Wait(cur)).procs;
      outcome := Slept;
    }

    /** Returns 0 exactly when some slot, in use or not, has the pid. The first such slot is killed and not
      asleep any more; a slot that was not asleep keeps its state, and no other slot changes. */
    method KillPid(pid: nat) returns (r: int)
      requires Valid()
      modifies procs
      ensures Valid() && View() == old(Step(View(), Kill(pid)))
      ensures r == if exists i :: 0 <= i < NPROC && old(procs[i].pid) == pid then 0 else -1
      ensures forall z: nat :: z < NPROC && old(procs[z].pid) == pid
                               && (forall j :: 0 <= j < z ==> old(procs[j].pid) != pid)
                ==> && procs[z].killed && procs[z].state != Sleeping
                    && procs[z] == old(procs[z]).(killed := true, state := procs[z].state)
                    && procs[z].state == (if old(procs[z].state) == Sleeping then Runnable else old(procs[z].state))
                    && OthersKept(z, z)
      ensures r == -1 ==> View() == old(View())
    {
      ghost var t := View();
      StepKeeps(t, Kill(pid));
      hide Inv;
      var p: nat := 0;
      while p < NPROC
        invariant p <= NPROC && View() == t && forall j :: 0 <= j < p ==> procs[j].pid != pid
      {
        if procs[p].pid == pid {
          assert Named(t.procs, pid) && FirstPid(t.procs, pid, 0) == p;
          procs[p] := procs[p].(killed := true);
          if procs[p].state == Sleeping {
            procs[p] := procs[p].(state := Runnable);
          }
          assert procs[..] == Step(t, Kill(pid)).procs;
          return 0;
        }
        p := p + 1;
      }
      r := -1;
    }

    method GoToSleep(cur: nat, id: nat)
      requires Valid() && Enabled(View(), SleepOn(cur, id))
      modifies procs
      ensures Valid() && View() == old(Step(View(), SleepOn(cur, id)))
      ensures procs[cur] == old(procs[cur]).(state := Sleeping, chan := Other(id)) && OthersKept(cur, cur)
    {
      ghost var t := View();
      StepKeeps(t, SleepOn(cur, id));
      hide Inv;
      procs[cur] := procs[cur].(chan := Other(id));
      procs[cur] := procs[cur].(state := Sleeping);
      assert procs[..] == Step(t, SleepOn(cur, id)).procs;
    }

    /** One slot of the scheduler's loop. */
    method Resume(p: nat) returns (chosen: bool)
      requires Valid() && p < NPROC
      modifies procs
      ensures Valid() && chosen == old(Enabled(View(), Schedule(p)))
      ensures View() == if chosen then old(Step(View(), Schedule(p))) else old(View())
      ensures chosen <==> old(procs[p].state) == Runnable
      ensures procs[p] == (if chosen then old(procs[p]).(state := Running) else old(procs[p])) && OthersKept(p, p)
    {
      ghost var t := View();
      chosen := procs[p].state == Runnable;
      if chosen {
        StepKeeps(t, Schedule(p));
        hide Inv;
        procs[p] := procs[p].(state := Running);
        assert procs[..] == Step(t, Schedule(p)).procs;
      }
    }

    method YieldCpu(cur: nat)
      requires Valid() && Enabled(View(), Yield(cur))
      modifies procs
      ensures Valid() && View() == old(Step(View(), Yield(cur)))
      ensures procs[cur] == old(procs[cur]).(state := Runnable) && OthersKept(cur, cur)
    {
      ghost var t := View();
      StepKeeps(t, Yield(cur));
      hide Inv;
      procs[cur] := procs[cur].(state := Runnable);
      assert procs[..] == Step(t, Yield(cur)).procs;
    }
  }
}
