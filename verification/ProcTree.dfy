/** What every interleaving of fork, exit, wait, kill, sleep and wakeup keeps. */
module ProcTree {
  import opened Wrappers
  import opened ProcMachine

  // ---------------------------------------------------------------- one slot after a step

  predicate InFork(e: Event) {
    e.Alloc? || e.Abort? || e.Adopt? || e.Publish?
  }

  /** Steps that wake, block or resume processes and leave the tree alone. */
  predicate Scheduling(e: Event) {
    e.SleepOn? || e.Wakeup? || e.Schedule? || e.Yield? || e.Kill?
  }

  /** The slot the caller of fork has claimed. */
  function Slot(t: Table, e: Event): nat
    requires Shape(t) && InFork(e) && Enabled(t, e)
  {
    if e.Alloc? then e.np else t.procs[e.cur].at.np
  }

  ghost predicate NumbersBelow(t: Table) {
    forall pid :: pid in t.exited || pid in t.reaped ==> pid < t.nextpid
  }

  lemma Below(t: Table)
    requires Inv(t)
    ensures NumbersBelow(t)
  {
  }

  predicate Seated(t: Table, i: nat)
    requires i < |t.procs|
  {
    Claims(t.procs, i) && SleepsRight(t.procs, i)
  }

  lemma ForkPlaced(t: Table, e: Event, i: nat)
    requires Shape(t) && InFork(e) && Enabled(t, e) && i < NPROC
    requires Placed(t.procs, i) && Here(t, e.cur) && Here(t, Slot(t, e))
    ensures Placed(Step(t, e).procs, i)
  {
  }

  lemma ForkSeated(t: Table, e: Event, i: nat)
    requires Shape(t) && InFork(e) && Enabled(t, e) && i < NPROC
    requires Here(t, i) && Here(t, e.cur) && Placed(t.procs, Slot(t, e)) && Apart(t.procs, i, e.cur)
    ensures Seated(Step(t, e), i)
  {
  }

  lemma ForkNumbered(t: Table, e: Event, i: nat)
    requires Shape(t) && InFork(e) && Enabled(t, e) && i < NPROC && NumbersBelow(t)
    requires Numbered(t, i) && Numbered(t, e.cur) && Numbered(t, Slot(t, e)) && Claims(t.procs, e.cur)
    ensures Numbered(Step(t, e), i)
  {
  }

  lemma SchedulingPlaced(t: Table, e: Event, i: nat)
    requires Shape(t) && Scheduling(e) && Enabled(t, e) && i < NPROC && Placed(t.procs, i)
    ensures Placed(Step(t, e).procs, i)
  {
  }

  lemma SchedulingSeated(t: Table, e: Event, i: nat)
    requires Shape(t) && Scheduling(e) && Enabled(t, e) && i < NPROC && Here(t, i)
    ensures Seated(Step(t, e), i) && Numbered(Step(t, e), i)
  {
  }

  lemma ExitFacts(t: Table, cur: nat, i: nat)
    requires Shape(t) && Enabled(t, Exit(cur)) && i < NPROC
    ensures var p, q := t.procs[i], Step(t, Exit(cur)).procs[i];
            && q.pid == p.pid && q.at == p.at
            && q.parent == (if p.parent == Some(cur) then Some(INIT) else p.parent)
            && (if i == cur then q.state == Zombie else (Alive(p) && Alive(q)) || q.state == p.state)
            && (q.state == Sleeping ==> p.state == Sleeping && q.chan == p.chan && p.chan != ChanOf(t.procs[cur].parent)
                                        && (HasZombie(t.procs, cur) ==> p.chan != OfProc(INIT)))
  {
    assert Step(t, Exit(cur)).procs[i] == AfterExit(t.procs, cur, i);
  }

  lemma ExitPlaced(t: Table, cur: nat, i: nat)
    requires Shape(t) && Enabled(t, Exit(cur)) && i < NPROC
    requires Here(t, i) && Here(t, cur) && Here(t, INIT) && Apart(t.procs, i, INIT)
    ensures Placed(Step(t, Exit(cur)).procs, i)
  {
    ExitFacts(t, cur, i);
    ExitFacts(t, cur, INIT);
    if t.procs[i].parent.Some? && t.procs[i].parent.value < NPROC {
      ExitFacts(t, cur, t.procs[i].parent.value);
    }
    var d := Step(t, Exit(cur));
    assert Shape(d);
    hide Step, Claims, SleepsRight, AfterExit;
  }

  lemma ExitSeated(t: Table, cur: nat, i: nat)
    requires Shape(t) && Enabled(t, Exit(cur)) && i < NPROC && Here(t, i) && Here(t, cur)
    requires Apart(t.procs, i, cur)
    ensures Seated(Step(t, Exit(cur)), i) && Numbered(Step(t, Exit(cur)), i)
  {
    var d := Step(t, Exit(cur));
    assert d.procs[i] == AfterExit(t.procs, cur, i);
  }

  lemma WaitPlaced(t: Table, cur: nat, i: nat)
    requires Shape(t) && Enabled(t, Wait(cur)) && i < NPROC
    requires Here(t, i) && Here(t, cur) && Apart(t.procs, i, cur)
    requires HasZombie(t.procs, cur) ==>
                       Here(t, FirstZombie(t.procs, cur, 0)) && Apart(t.procs, i, FirstZombie(t.procs, cur, 0))
    ensures Placed(Step(t, Wait(cur)).procs, i)
  {
  }

  lemma WaitSeated(t: Table, cur: nat, i: nat)
    requires Shape(t) && Enabled(t, Wait(cur)) && i < NPROC
    requires Here(t, i) && Here(t, cur) && Apart(t.procs, i, cur)
    requires HasZombie(t.procs, cur) ==>
                       Here(t, FirstZombie(t.procs, cur, 0)) && Apart(t.procs, i, FirstZombie(t.procs, cur, 0))
    ensures Seated(Step(t, Wait(cur)), i) && Numbered(Step(t, Wait(cur)), i)
  {
  }

  // ---------------------------------------------------------------- two slots after a step

  lemma ForkApart(t: Table, e: Event, i: nat, j: nat)
    requires Shape(t) && InFork(e) && Enabled(t, e) && i < NPROC && j < NPROC && NumbersBelow(t)
    requires Here(t, i) && Here(t, j) && Here(t, e.cur) && Here(t, Slot(t, e)) && Apart(t.procs, i, j)
    ensures Apart(Step(t, e).procs, i, j)
  {
  }

  lemma SchedulingApart(t: Table, e: Event, i: nat, j: nat)
    requires Shape(t) && Scheduling(e) && Enabled(t, e) && i < NPROC && j < NPROC && Apart(t.procs, i, j)
    ensures Apart(Step(t, e).procs, i, j)
  {
  }

  lemma ExitApart(t: Table, cur: nat, i: nat, j: nat)
    requires Shape(t) && Enabled(t, Exit(cur)) && i < NPROC && j < NPROC && Apart(t.procs, i, j) && Here(t, cur)
    ensures Apart(Step(t, Exit(cur)).procs, i, j)
  {
    assert t.procs[j].parent == Some(cur) && t.procs[j].state == Zombie ==> HasZombie(t.procs, cur);
    ExitFacts(t, cur, i);
    ExitFacts(t, cur, j);
    var d := Step(t, Exit(cur));
    assert Shape(d);
    hide Step, AfterExit;
  }

  lemma WaitApart(t: Table, cur: nat, i: nat, j: nat)
    requires Shape(t) && Enabled(t, Wait(cur)) && i < NPROC && j < NPROC && Here(t, i) && Here(t, j)
             && Apart(t.procs, i, j)
    ensures Apart(Step(t, Wait(cur)).procs, i, j)
  {
  }

  // ---------------------------------------------------------------- exits and waits

  lemma AccountedKept(t: Table, d: Table)
    requires Accounted(t) && d.exited == t.exited && d.reaped == t.reaped && d.nextpid >= t.nextpid
    requires |d.procs| == |t.procs|
    requires forall i :: 0 <= i < |t.procs| && t.procs[i].state == Zombie
               ==> d.procs[i].state == Zombie && d.procs[i].pid == t.procs[i].pid
    ensures Accounted(d)
  {
    forall pid | pid in d.exited && pid !in d.reaped ensures ZombieHas(d.procs, pid) {
      assert ZombieHas(t.procs, pid);
    }
  }

  lemma ExitAccounted(t: Table, cur: nat)
    requires Inv(t) && Enabled(t, Exit(cur))
    ensures Accounted(Step(t, Exit(cur)))
  {
    var d := Step(t, Exit(cur));
    assert Here(t, cur);
    forall pid | pid in d.exited && pid !in d.reaped ensures ZombieHas(d.procs, pid) {
      if pid == t.procs[cur].pid {
        ExitFacts(t, cur, cur);
      } else {
        assert ZombieHas(t.procs, pid);
        var i :| 0 <= i < NPROC && t.procs[i].state == Zombie && t.procs[i].pid == pid;
        ExitFacts(t, cur, i);
      }
    }
  }

  lemma WaitAccounted(t: Table, cur: nat)
    requires Inv(t) && Enabled(t, Wait(cur))
    ensures Accounted(Step(t, Wait(cur)))
  {
    var d := Step(t, Wait(cur));
    if HasZombie(t.procs, cur) {
      var z := FirstZombie(t.procs, cur, 0);
      assert Here(t, z);
      forall pid | pid in d.exited && pid !in d.reaped ensures ZombieHas(d.procs, pid) {
        assert ZombieHas(t.procs, pid);
        var i :| 0 <= i < NPROC && t.procs[i].state == Zombie && t.procs[i].pid == pid;
        assert d.procs[i] == t.procs[i];
      }
    } else {
      AccountedKept(t, d);
    }
  }

  // ---------------------------------------------------------------- every step

  lemma ForkKeeps(t: Table, e: Event)
    requires Inv(t) && InFork(e) && Enabled(t, e)
    ensures Inv(Step(t, e))
  {
    var d := Step(t, e);
    Below(t);
    assert Here(t, e.cur) && Here(t, Slot(t, e));
    assert Accounted(d) by { AccountedKept(t, d); }
    forall i | 0 <= i < NPROC ensures Here(d, i) {
      assert Here(t, i) && Apart(t.procs, i, e.cur);
      ForkPlaced(t, e, i);
      ForkSeated(t, e, i);
      ForkNumbered(t, e, i);
    }
    forall i, j | 0 <= i < NPROC && 0 <= j < NPROC ensures Apart(d.procs, i, j) {
      assert Here(t, i) && Here(t, j);
      ForkApart(t, e, i, j);
    }
  }

  lemma SchedulingKeeps(t: Table, e: Event)
    requires Inv(t) && Scheduling(e) && Enabled(t, e)
    ensures Inv(Step(t, e))
  {
    var d := Step(t, e);
    assert Accounted(d) by { AccountedKept(t, d); }
    forall i | 0 <= i < NPROC ensures Here(d, i) {
      assert Here(t, i);
      SchedulingPlaced(t, e, i);
      SchedulingSeated(t, e, i);
    }
    forall i, j | 0 <= i < NPROC && 0 <= j < NPROC ensures Apart(d.procs, i, j) {
      SchedulingApart(t, e, i, j);
    }
  }

  lemma ExitKeeps(t: Table, cur: nat)
    requires Inv(t) && Enabled(t, Exit(cur))
    ensures Inv(Step(t, Exit(cur)))
  {
    var d := Step(t, Exit(cur));
    ExitAccounted(t, cur);
    assert Here(t, cur) && Here(t, INIT);
    forall i | 0 <= i < NPROC ensures Here(d, i) {
      assert Here(t, i) && Apart(t.procs, i, cur) && Apart(t.procs, i, INIT);
      ExitPlaced(t, cur, i);
      ExitSeated(t, cur, i);
    }
    forall i, j | 0 <= i < NPROC && 0 <= j < NPROC ensures Apart(d.procs, i, j) {
      ExitApart(t, cur, i, j);
    }
  }

  lemma WaitKeeps(t: Table, cur: nat)
    requires Inv(t) && Enabled(t, Wait(cur))
    ensures Inv(Step(t, Wait(cur)))
  {
    var d := Step(t, Wait(cur));
    WaitAccounted(t, cur);
    assert Here(t, cur);
    assert HasZombie(t.procs, cur) ==> Here(t, FirstZombie(t.procs, cur, 0));
    forall i | 0 <= i < NPROC ensures Here(d, i) {
      assert Here(t, i) && Apart(t.procs, i, cur);
      WaitPlaced(t, cur, i);
      WaitSeated(t, cur, i);
    }
    forall i, j | 0 <= i < NPROC && 0 <= j < NPROC ensures Apart(d.procs, i, j) {
      assert Here(t, i) && Here(t, j);
      WaitApart(t, cur, i, j);
    }
  }

  lemma StepKeeps(t: Table, e: Event)
    requires Inv(t) && Enabled(t, e)
    ensures Inv(Step(t, e))
  {
    match e
    case Exit(cur) => ExitKeeps(t, cur);
    case Wait(cur) => WaitKeeps(t, cur);
    case _ => if InFork(e) { ForkKeeps(t, e); } else { SchedulingKeeps(t, e); }
  }

  // ---------------------------------------------------------------- whole runs

  /** The table when userinit returns. */
  function Boot(): Table {
    Table(seq(NPROC, i requires 0 <= i < NPROC =>
            if i == INIT then Proc(Runnable, 1, None, NoChan, false, User)
            else Proc(Unused, 0, None, NoChan, false, User)),
          2, {}, [])
  }

  lemma BootInv()
    ensures Inv(Boot())
  {
  }

  /** The events of run, in order, take t to d. */
  ghost predicate Leads(t: Table, run: seq<Event>, d: Table)
    decreases |run|
  {
    if run == [] then t == d
    else exists m: Table :: Leads(t, run[..|run| - 1], m) && Shape(m)
                            && Enabled(m, run[|run| - 1]) && d == Step(m, run[|run| - 1])
  }

  lemma {:induction false} RunInv(t: Table, run: seq<Event>, d: Table)
    requires Inv(t) && Leads(t, run, d)
    ensures Inv(d)
    decreases |run|
  {
    hide Inv, Step, Enabled;
    if run != [] {
      var m: Table :| Leads(t, run[..|run| - 1], m) && Shape(m)
                      && Enabled(m, run[|run| - 1]) && d == Step(m, run[|run| - 1]);
      RunInv(t, run[..|run| - 1], m);
      StepKeeps(m, run[|run| - 1]);
    }
  }

  /** The ancestor n generations up. */
  function Ancestor(ps: seq<Proc>, i: nat, n: nat): Option<nat>
    decreases n
  {
    if n == 0 then Some(i)
    else if i < |ps| && ps[i].parent.Some? then Ancestor(ps, ps[i].parent.value, n - 1)
    else None
  }

  predicate Published(p: Proc) {
    Alive(p) || p.state == Zombie
  }

  /** Every process descends from init, in fewer generations than its pid. */
  lemma {:induction false} TreeRooted(t: Table, i: nat)
    requires Inv(t) && i < NPROC && Published(t.procs[i])
    ensures exists n: nat :: n < t.procs[i].pid && Ancestor(t.procs, i, n) == Some(INIT)
    decreases t.procs[i].pid
  {
    assert Here(t, i);
    if i == INIT {
      assert Ancestor(t.procs, i, 0) == Some(INIT);
    } else {
      var q := t.procs[i].parent.value;
      TreeRooted(t, q);
      var n: nat :| n < t.procs[q].pid && Ancestor(t.procs, q, n) == Some(INIT);
      assert Ancestor(t.procs, i, n + 1) == Some(INIT);
    }
  }

  /** Over every run from boot: a process other than init that can run or has exited has a parent that can
    run and was created before it, and descends from init. */
  lemma {:induction false} ParentsLive(run: seq<Event>, t: Table, i: nat)
    requires Leads(Boot(), run, t) && 0 < i < NPROC && Shape(t) && Published(t.procs[i])
    ensures t.procs[i].parent.Some? && Above(t.procs, t.procs[i].parent.value, i)
    ensures exists n: nat :: n < t.procs[i].pid && Ancestor(t.procs, i, n) == Some(INIT)
  {
    BootInv();
    RunInv(Boot(), run, t);
    assert Here(t, i);
    TreeRooted(t, i);
  }

  /** Over every run from boot: nobody sleeps in wait beside a child that has exited. */
  lemma {:induction false} WaitNeverMisses(run: seq<Event>, t: Table, i: nat)
    requires Leads(Boot(), run, t) && i < NPROC && Shape(t)
    requires t.procs[i].state == Sleeping && t.procs[i].chan == OfProc(i)
    ensures !HasZombie(t.procs, i)
  {
    BootInv();
    RunInv(Boot(), run, t);
    forall j | 0 <= j < NPROC ensures !(t.procs[j].parent == Some(i) && t.procs[j].state == Zombie) {
      assert Apart(t.procs, i, j);
    }
  }

  /** Over every run from boot: each pid that exited is still a zombie's or has been returned by exactly
    one wait, and wait returns no other pid. */
  lemma {:induction false} ReapedOnce(run: seq<Event>, t: Table, pid: nat)
    requires Leads(Boot(), run, t)
    ensures pid in t.exited <==> ZombieHas(t.procs, pid) || pid in t.reaped
    ensures !(ZombieHas(t.procs, pid) && pid in t.reaped)
    ensures multiset(t.reaped)[pid] <= 1
  {
    BootInv();
    RunInv(Boot(), run, t);
    if ZombieHas(t.procs, pid) {
      var i :| 0 <= i < |t.procs| && t.procs[i].state == Zombie && t.procs[i].pid == pid;
      assert Here(t, i);
    }
    DistinctOnce(t.reaped, pid);
  }

  lemma {:induction false} DistinctOnce(s: seq<nat>, x: nat)
    requires forall j, k :: 0 <= j < k < |s| ==> s[j] != s[k]
    ensures multiset(s)[x] == if x in s then 1 else 0
  {
    if s != [] {
      var n := |s| - 1;
      DistinctOnce(s[..n], x);
      assert s == s[..n] + [s[n]];
    }
  }

  // ---------------------------------------------------------------- kill

  /** kill marks a process exactly when one in use has the pid. For any other pid it still succeeds when a
    free slot has kept that number: 0, or that of a fork that failed. */
  lemma KillExact(t: Table, pid: nat)
    requires Inv(t) && Named(t.procs, pid)
    ensures var z := FirstPid(t.procs, pid, 0);
            InUse(t.procs[z]) <==> exists i :: 0 <= i < NPROC && InUse(t.procs[i]) && t.procs[i].pid == pid
  {
    var z := FirstPid(t.procs, pid, 0);
    assert Here(t, z);
    forall i | 0 <= i < NPROC && InUse(t.procs[i]) && t.procs[i].pid == pid ensures i == z {
      assert Here(t, i);
      assert Apart(t.procs, i, z);
    }
  }

  /** kill(0) right after boot marks a free slot, and the next child is born killed. */
  lemma BornKilled()
    ensures var t := Step(Step(Boot(), Schedule(INIT)), Kill(0));
            && Enabled(Boot(), Schedule(INIT)) && Enabled(t, Alloc(INIT, 1))
            && Step(t, Alloc(INIT, 1)).procs[1].killed
  {
    var s := Step(Boot(), Schedule(INIT));
    assert s.procs[1].pid == 0;
    assert FirstPid(s.procs, 0, 0) == 1;
  }

  /** The state before the last event of a run. */
  ghost function Before(t: Table, run: seq<Event>, d: Table): (m: Table)
    requires run != [] && Leads(t, run, d)
    ensures Leads(t, run[..|run| - 1], m) && Shape(m)
    ensures Enabled(m, run[|run| - 1]) && d == Step(m, run[|run| - 1])
  {
    var m: Table :| Leads(t, run[..|run| - 1], m) && Shape(m)
                    && Enabled(m, run[|run| - 1]) && d == Step(m, run[|run| - 1]);
    m
  }

  /** A kill that finds slot i, in use or not. */
  ghost predicate Strikes(t: Table, e: Event, i: nat) {
    e.Kill? && Named(t.procs, e.pid) && FirstPid(t.procs, e.pid, 0) == i
  }

  /** A wait that frees slot i. */
  ghost predicate Frees(t: Table, e: Event, i: nat)
    requires Shape(t)
  {
    e.Wait? && HasZombie(t.procs, e.cur) && FirstZombie(t.procs, e.cur, 0) == i
  }

  /** In the run some kill has found slot i since a wait last freed it. */
  ghost predicate Marked(t: Table, run: seq<Event>, d: Table, i: nat)
    requires Leads(t, run, d)
    decreases |run|
  {
    run != [] &&
    var m, e := Before(t, run, d), run[|run| - 1];
    Strikes(m, e, i) || (!Frees(m, e, i) && Marked(t, run[..|run| - 1], m, i))
  }

  lemma KilledNext(t: Table, e: Event, i: nat)
    requires Shape(t) && Enabled(t, e) && i < NPROC
    requires e.Abort? || e.Adopt? || e.Publish? ==> t.procs[e.cur].at.np != e.cur
    ensures Step(t, e).procs[i].killed <==> Strikes(t, e, i) || (!Frees(t, e, i) && t.procs[i].killed)
  {
    if e.Exit? { assert Step(t, e).procs[i] == AfterExit(t.procs, e.cur, i); }
  }

  /** Over every run from boot a slot is marked exactly when some kill has found it, free or in use, since it
    was last freed by wait. So a child starts out killed exactly when one found its slot before it was there. */
  lemma {:induction false} KilledIsMarked(run: seq<Event>, t: Table, i: nat)
    requires Leads(Boot(), run, t) && i < NPROC
    ensures Shape(t) && (t.procs[i].killed <==> Marked(Boot(), run, t, i))
    decreases |run|
  {
    hide Inv, Step, Enabled, Boot, Strikes, Frees;
    if run == [] {
      BootUnmarked(i);
    } else {
      var m, e := Before(Boot(), run, t), run[|run| - 1];
      KilledIsMarked(run[..|run| - 1], m, i);
      BootInv();
      RunInv(Boot(), run[..|run| - 1], m);
      StepKeeps(m, e);
      StepShape(m, e);
      NotItself(m, e);
      KilledNext(m, e, i);
    }
  }

  lemma BootUnmarked(i: nat)
    requires i < NPROC
    ensures Shape(Boot()) && !Boot().procs[i].killed
  {
  }

  lemma StepShape(t: Table, e: Event)
    requires Inv(t) && Enabled(t, e)
    ensures Shape(Step(t, e))
  {
    StepKeeps(t, e);
  }

  lemma NotItself(t: Table, e: Event)
    requires Inv(t) && Enabled(t, e)
    ensures e.Abort? || e.Adopt? || e.Publish? ==> t.procs[e.cur].at.np != e.cur
  {
    assert e.Abort? || e.Adopt? || e.Publish? ==> Here(t, e.cur);
  }

  lemma BornKilledExactly(run: seq<Event>, t: Table, cur: nat, np: nat)
    requires Leads(Boot(), run, t) && Shape(t) && Enabled(t, Alloc(cur, np))
    ensures Step(t, Alloc(cur, np)).procs[np].killed <==> Marked(Boot(), run, t, np)
  {
    KilledIsMarked(run, t, np);
  }

  // ---------------------------------------------------------------- sleepers

  predicate AsleepOn(p: Proc, id: nat) {
    p.state == Sleeping && p.chan == Other(id)
  }

  /** A slot is asleep on a channel after a step exactly when the step put it to sleep there, or it was asleep
    there and the step was neither a wakeup of the channel nor a kill that finds the slot. Who is roused is
    runnable, and otherwise only marked by the kill. */
  lemma AsleepNext(t: Table, e: Event, i: nat, id: nat)
    requires Inv(t) && Enabled(t, e) && i < NPROC
    ensures var p, q := t.procs[i], Step(t, e).procs[i];
            && (AsleepOn(q, id) <==> e == SleepOn(i, id) || (AsleepOn(p, id) && e != Wakeup(id) && !Strikes(t, e, i)))
            && (AsleepOn(p, id) && !AsleepOn(q, id) ==> q == p.(state := Runnable, killed := q.killed))
  {
    assert Here(t, i);
    assert e.Abort? || e.Adopt? || e.Publish? ==> Here(t, e.cur);
    hide Inv;
    match e
    case Exit(cur) =>
      assert Step(t, e).procs[i] == AfterExit(t.procs, cur, i);
    case _ =>
  }

  /** After a step a slot is asleep only if it was, and no kill found it, or if the step put it to sleep: in
    wait only a process that is not marked. */
  lemma SleepingNext(t: Table, e: Event, i: nat)
    requires Inv(t) && Enabled(t, e) && i < NPROC && Step(t, e).procs[i].state == Sleeping
    ensures var p, q := t.procs[i], Step(t, e).procs[i];
            if e.SleepOn? && e.cur == i then q.chan.Other?
            else if e.Wait? && e.cur == i then !q.killed
            else p.state == Sleeping && p.chan == q.chan && p.killed == q.killed && !Strikes(t, e, i)
  {
    assert Here(t, i);
    assert e.Abort? || e.Adopt? || e.Publish? ==> Here(t, e.cur);
    hide Inv;
    match e
    case Exit(cur) =>
      assert Step(t, e).procs[i] == AfterExit(t.procs, cur, i);
    case _ =>
  }

  /** In the run slot i has called sleep on something other than a process since the last kill that found it. */
  ghost predicate SleptSince(t: Table, run: seq<Event>, d: Table, i: nat)
    requires Leads(t, run, d)
    decreases |run|
  {
    run != [] &&
    var m, e := Before(t, run, d), run[|run| - 1];
    (e.SleepOn? && e.cur == i) || (!Strikes(m, e, i) && SleptSince(t, run[..|run| - 1], m, i))
  }

  /** Over every run from boot: no kill leaves a slot it found asleep. A marked process that is asleep has
    called sleep again since the last kill that found it, and never in wait. */
  lemma {:induction false} KillRouses(run: seq<Event>, t: Table, i: nat)
    requires Leads(Boot(), run, t) && i < NPROC && Shape(t) && t.procs[i].state == Sleeping && t.procs[i].killed
    ensures t.procs[i].chan.Other? && SleptSince(Boot(), run, t, i)
    decreases |run|
  {
    hide Inv, Step, Enabled, Boot, Strikes;
    if run == [] {
      BootUnmarked(i);
    } else {
      var m, e := Before(Boot(), run, t), run[|run| - 1];
      BootInv();
      RunInv(Boot(), run[..|run| - 1], m);
      SleepingNext(m, e, i);
      if !(e.SleepOn? && e.cur == i) {
        KillRouses(run[..|run| - 1], m, i);
      }
    }
  }
}
