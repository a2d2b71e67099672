/** sleep and wakeup of kernel/proc.c on the process table itself: processes follow the protocol of Monitor
  on one channel, but who is SLEEPING is for the slots of ProcMachine to say, and every critical section of
  ptable.lock may come in between. A process that has called sched() inside sleep stands at Asleep until the
  scheduler picks it; its slot tells whether it has been woken. */
module SleepTable {
  import opened Wrappers
  import M = Monitor
  import P = ProcMachine
  import ProcTree
  import Waits

  datatype Kernel<R> = Kernel(s: M.State<R>, t: P.Table)

  datatype Event<A> =
    | Own(m: M.Event<A>)     // what one process does with lk and ptable.lock only
    | WakeChan(p: nat)       // wakeup: wakeup1(chan) and the release of ptable.lock
    | OnTable(e: P.Event)    // any other step of the table

  /** Steps of the protocol that touch no slot of the table. */
  predicate Private<A>(m: M.Event<A>) {
    !(m.Doze? || m.Resume? || m.EndWakeup? || m.Kill?)
  }

  predicate IsRunning(t: P.Table, p: nat) {
    p < |t.procs| && t.procs[p].state == P.Running
  }

  /** When a process may take a step of the table. ptable.lock is free, except that fork writes its own slot
    without it and sleep comes with it; sleep on the channel comes from Drowsy; a process leaves the kernel's
    other business alone while it is in the protocol, and is not preempted while it holds a lock. */
  predicate Permitted<R>(s: M.State<R>, chan: nat, e: P.Event) {
    match e
    case SleepOn(cur, id) => if id == chan then M.At(s, cur, M.Drowsy) else M.At(s, cur, M.Outside) && s.table == None
    case Wakeup(id) => id != chan && s.table == None
    case Exit(cur) => M.At(s, cur, M.Outside) && s.table == None
    case Wait(cur) => M.At(s, cur, M.Outside) && s.table == None
    case Yield(cur) => cur < |s.pc| && !M.HoldsLock(s.pc[cur]) && s.table == None
    case Abort(_) => true
    case Adopt(_) => true
    case _ => s.table == None
  }

  ghost predicate Enabled<R, A>(sys: M.System<R, A>, chan: nat, k: Kernel<R>, e: Event<A>) {
    match e
    case Own(m) => Private(m) && M.Enabled(sys, k.s, m) && (m.Free? || IsRunning(k.t, m.p))
    case WakeChan(p) => M.At(k.s, p, M.Waking) && IsRunning(k.t, p) && P.Shape(k.t)
    case OnTable(a) => P.Shape(k.t) && P.Enabled(k.t, a) && Permitted(k.s, chan, a)
  }

  /** Where the protocol stands after a step of the table: sleep gives up ptable.lock, and a process picked
    by the scheduler inside sleep comes back with it. */
  function Follow<R>(s: M.State<R>, chan: nat, e: P.Event): M.State<R> {
    match e
    case SleepOn(cur, id) =>
      if id == chan && cur < |s.pc| then s.(table := None, pc := s.pc[cur := M.Asleep]) else s
    case Schedule(p) => if M.At(s, p, M.Asleep) then s.(table := Some(p), pc := s.pc[p := M.Resuming]) else s
    case _ => s
  }

  ghost function Step<R, A>(sys: M.System<R, A>, chan: nat, k: Kernel<R>, e: Event<A>): Kernel<R>
    requires Enabled(sys, chan, k, e)
  {
    match e
    case Own(m) => Kernel(M.Step(sys, k.s, m), k.t)
    case WakeChan(p) => Kernel(k.s.(table := None, pc := k.s.pc[p := M.Leaving]), P.Step(k.t, P.Wakeup(chan)))
    case OnTable(a) => Kernel(Follow(k.s, chan, a), P.Step(k.t, a))
  }

  // ---------------------------------------------------------------- the monitor in the table

  /** A process inside sched() is asleep while its slot says so, and woken after that. */
  function Look(pc: M.Pc, p: P.Proc, chan: nat): M.Pc {
    if pc == M.Asleep && !ProcTree.AsleepOn(p, chan) then M.Woken else pc
  }

  function Seen<R>(k: Kernel<R>, chan: nat): M.State<R>
    requires |k.s.pc| == |k.t.procs|
  {
    k.s.(pc := seq(|k.s.pc|, i requires 0 <= i < |k.s.pc| => Look(k.s.pc[i], k.t.procs[i], chan)))
  }

  /** The slots asleep on the channel are those of processes inside sched(); the others there are runnable. */
  predicate Linked(pc: M.Pc, p: P.Proc, chan: nat) {
    && pc != M.Woken
    && (ProcTree.AsleepOn(p, chan) ==> pc == M.Asleep)
    && (pc == M.Asleep ==> ProcTree.AsleepOn(p, chan) || p.state == P.Runnable)
  }

  ghost predicate Inv<R>(k: Kernel<R>, chan: nat) {
    && P.Inv(k.t) && |k.s.pc| == P.NPROC
    && forall i :: 0 <= i < P.NPROC ==> Linked(k.s.pc[i], k.t.procs[i], chan)
  }

  /** The step of Monitor that a step is, or none. */
  ghost function Move<R, A>(chan: nat, k: Kernel<R>, e: Event<A>): Option<M.Event<A>> {
    match e
    case Own(m) => Some(m)
    case WakeChan(p) => Some(M.Event<A>.EndWakeup(p))
    case OnTable(SleepOn(cur, id)) => if id == chan then Some(M.Event<A>.Doze(cur)) else None
    case OnTable(Schedule(p)) => if M.At(k.s, p, M.Asleep) then Some(M.Event<A>.Resume(p)) else None
    case OnTable(Kill(pid)) =>
      if P.Named(k.t.procs, pid) && ProcTree.AsleepOn(k.t.procs[P.FirstPid(k.t.procs, pid, 0)], chan)
      then Some(M.Event<A>.Kill(P.FirstPid(k.t.procs, pid, 0))) else None
    case _ => None
  }

  ghost predicate Simulates<R, A>(sys: M.System<R, A>, chan: nat, k: Kernel<R>, e: Event<A>, d: Kernel<R>)
    requires |k.s.pc| == |k.t.procs| && |d.s.pc| == |d.t.procs|
  {
    match Move(chan, k, e)
    case None => Seen(d, chan) == Seen(k, chan)
    case Some(m) => M.Enabled(sys, Seen(k, chan), m) && Seen(d, chan) == M.Step(sys, Seen(k, chan), m)
  }

  // ---------------------------------------------------------------- one step

  /** A runnable process stays so until it is scheduled. */
  lemma RunnableNext(t: P.Table, e: P.Event, i: nat)
    requires P.Inv(t) && P.Enabled(t, e) && i < P.NPROC && t.procs[i].state == P.Runnable && e != P.Schedule(i)
    ensures P.Step(t, e).procs[i].state == P.Runnable
  {
    assert e.Abort? || e.Adopt? || e.Publish? ==> P.Here(t, e.cur);
    hide P.Inv;
    if e.Exit? { assert P.Step(t, e).procs[i] == P.AfterExit(t.procs, e.cur, i); }
  }

  lemma OwnSimulates<R, A>(sys: M.System<R, A>, chan: nat, k: Kernel<R>, m: M.Event<A>)
    requires Inv(k, chan) && Enabled(sys, chan, k, Own(m))
    ensures var d := Step(sys, chan, k, Own(m)); Inv(d, chan) && Simulates(sys, chan, k, Own(m), d)
  {
    assert P.Shape(k.t);
    hide P.Inv;
    var d := Step(sys, chan, k, Own(m));
    assert Seen(d, chan).pc == M.Step(sys, Seen(k, chan), m).pc;
  }

  lemma WakeSimulates<R, A>(sys: M.System<R, A>, chan: nat, k: Kernel<R>, p: nat)
    requires Inv(k, chan) && Enabled(sys, chan, k, WakeChan(p))
    ensures var e := Event<A>.WakeChan(p); var d := Step(sys, chan, k, e);
            Inv(d, chan) && Simulates(sys, chan, k, e, d)
  {
    var e, a := Event<A>.WakeChan(p), P.Wakeup(chan);
    var d := Step(sys, chan, k, e);
    ProcTree.StepKeeps(k.t, a);
    forall i | 0 <= i < P.NPROC
      ensures Linked(d.s.pc[i], d.t.procs[i], chan) && !ProcTree.AsleepOn(d.t.procs[i], chan)
    {
      ProcTree.AsleepNext(k.t, a, i, chan);
      if k.t.procs[i].state == P.Runnable { RunnableNext(k.t, a, i); }
    }
    hide P.Inv, P.Step;
    assert Seen(d, chan).pc == M.Step(sys, Seen(k, chan), M.Event<A>.EndWakeup(p)).pc;
  }

  /** What a step of the table does to the place one process seems to be at. */
  /** Where process i seems to be after a step of the table. */
  ghost function NextPc<R>(k: Kernel<R>, chan: nat, e: P.Event, i: nat): M.Pc
    requires i < |k.s.pc| && i < |k.t.procs|
  {
    if e == P.SleepOn(i, chan) then M.Asleep
    else if e == P.Schedule(i) && k.s.pc[i] == M.Asleep then M.Resuming
    else if ProcTree.Strikes(k.t, e, i) && ProcTree.AsleepOn(k.t.procs[i], chan) then M.Woken
    else Look(k.s.pc[i], k.t.procs[i], chan)
  }

  lemma SlotNext<R>(k: Kernel<R>, chan: nat, e: P.Event, i: nat)
    requires Inv(k, chan) && P.Enabled(k.t, e) && Permitted(k.s, chan, e) && i < P.NPROC
    ensures var s, q := Follow(k.s, chan, e), P.Step(k.t, e).procs[i];
            |s.pc| == P.NPROC && Linked(s.pc[i], q, chan) && Look(s.pc[i], q, chan) == NextPc(k, chan, e, i)
  {
    ProcTree.AsleepNext(k.t, e, i, chan);
    if k.t.procs[i].state == P.Runnable && e != P.Schedule(i) { RunnableNext(k.t, e, i); }
    hide P.Inv, P.Step, ProcTree.Strikes;
    assert Linked(k.s.pc[i], k.t.procs[i], chan);
    assert P.Enabled(k.t, e);
  }

  lemma TableNext<R, A>(sys: M.System<R, A>, chan: nat, k: Kernel<R>, a: P.Event)
    requires Inv(k, chan) && Enabled(sys, chan, k, Event<A>.OnTable(a))
    ensures var d := Step(sys, chan, k, Event<A>.OnTable(a));
            && Inv(d, chan) && d.s.pc == Follow(k.s, chan, a).pc
            && forall i :: 0 <= i < P.NPROC ==> Seen(d, chan).pc[i] == NextPc(k, chan, a, i)
  {
    var d := Step(sys, chan, k, Event<A>.OnTable(a));
    ProcTree.StepKeeps(k.t, a);
    assert P.Shape(d.t);
    hide P.Inv, P.Step, Linked, Look, NextPc;
    forall i | 0 <= i < P.NPROC
      ensures Linked(d.s.pc[i], d.t.procs[i], chan)
      ensures Look(d.s.pc[i], d.t.procs[i], chan) == NextPc(k, chan, a, i)
    {
      SlotNext(k, chan, a, i);
    }
  }

  lemma SleepSimulates<R, A>(sys: M.System<R, A>, chan: nat, k: Kernel<R>, a: P.Event)
    requires Inv(k, chan) && Enabled(sys, chan, k, Event<A>.OnTable(a)) && (a.SleepOn? || a.Schedule?)
    ensures var e := Event<A>.OnTable(a); var d := Step(sys, chan, k, e);
            Inv(d, chan) && Simulates(sys, chan, k, e, d)
  {
    var e := Event<A>.OnTable(a);
    var d := Step(sys, chan, k, e);
    TableNext(sys, chan, k, a);
    assert P.Shape(k.t) && P.Shape(d.t);
    hide P.Inv, P.Step, Linked;
    match Move(chan, k, e)
    case None => assert Seen(d, chan).pc == Seen(k, chan).pc;
    case Some(m) => assert Seen(d, chan).pc == M.Step(sys, Seen(k, chan), m).pc;
  }

  lemma KillSimulates<R, A>(sys: M.System<R, A>, chan: nat, k: Kernel<R>, pid: nat)
    requires Inv(k, chan) && Enabled(sys, chan, k, Event<A>.OnTable(P.Kill(pid)))
    ensures var e := Event<A>.OnTable(P.Kill(pid)); var d := Step(sys, chan, k, e);
            Inv(d, chan) && Simulates(sys, chan, k, e, d)
  {
    var e := Event<A>.OnTable(P.Kill(pid));
    var d := Step(sys, chan, k, e);
    TableNext(sys, chan, k, P.Kill(pid));
    assert P.Shape(k.t) && P.Shape(d.t);
    hide P.Inv, P.Step;
    match Move(chan, k, e)
    case None => assert Seen(d, chan).pc == Seen(k, chan).pc;
    case Some(m) => assert Seen(d, chan).pc == M.Step(sys, Seen(k, chan), m).pc;
  }

  lemma TableSimulates<R, A>(sys: M.System<R, A>, chan: nat, k: Kernel<R>, a: P.Event)
    requires Inv(k, chan) && Enabled(sys, chan, k, Event<A>.OnTable(a))
    ensures var e := Event<A>.OnTable(a); var d := Step(sys, chan, k, e);
            Inv(d, chan) && Simulates(sys, chan, k, e, d)
  {
    var e := Event<A>.OnTable(a);
    if a.SleepOn? || a.Schedule? {
      SleepSimulates(sys, chan, k, a);
    } else if a.Kill? {
      KillSimulates(sys, chan, k, a.pid);
    } else {
      TableNext(sys, chan, k, a);
      var d := Step(sys, chan, k, e);
      assert P.Shape(k.t) && P.Shape(d.t);
      hide P.Inv, P.Step, P.Enabled, Linked;
      assert Seen(d, chan).pc == Seen(k, chan).pc;
    }
  }

  // ---------------------------------------------------------------- whole runs

  datatype Outcome<R> = Reached(k: Kernel<R>) | Stuck

  /** From the boot of the system, with nobody near the lock. */
  ghost function Exec<R, A>(sys: M.System<R, A>, chan: nat, r: R, run: seq<Event<A>>): Outcome<R> {
    if run == [] then Reached(Kernel(M.Start(r, P.NPROC), ProcTree.Boot()))
    else
      match Exec(sys, chan, r, run[..|run| - 1])
      case Stuck => Stuck
      case Reached(k) =>
        if Enabled(sys, chan, k, run[|run| - 1]) then Reached(Step(sys, chan, k, run[|run| - 1])) else Stuck
  }

  lemma StartSeen<R>(r: R, chan: nat)
    ensures var k := Kernel(M.Start(r, P.NPROC), ProcTree.Boot());
            Inv(k, chan) && Seen(k, chan) == M.Start(r, P.NPROC)
  {
    ProcTree.BootInv();
    var k := Kernel(M.Start(r, P.NPROC), ProcTree.Boot());
    hide P.Inv;
    assert Seen(k, chan).pc == M.Start(r, P.NPROC).pc;
  }

  /** The step of the table that a step is, or none. */
  function TableMove<A>(chan: nat, e: Event<A>): Option<P.Event> {
    match e
    case Own(_) => None
    case WakeChan(_) => Some(P.Wakeup(chan))
    case OnTable(a) => Some(a)
  }

  lemma StepSimulates<R, A>(sys: M.System<R, A>, chan: nat, k: Kernel<R>, e: Event<A>)
    requires Inv(k, chan) && Enabled(sys, chan, k, e)
    ensures |k.s.pc| == |k.t.procs|
    ensures var d := Step(sys, chan, k, e);
            && Inv(d, chan) && Simulates(sys, chan, k, e, d)
            && match TableMove(chan, e)
               case None => d.t == k.t
               case Some(a) => P.Shape(k.t) && P.Enabled(k.t, a) && d.t == P.Step(k.t, a)
  {
    assert P.Shape(k.t);
    match e
    case Own(m) => OwnSimulates(sys, chan, k, m);
    case WakeChan(p) => WakeSimulates(sys, chan, k, p);
    case OnTable(a) => TableSimulates(sys, chan, k, a);
  }

  /** Every run of the protocol on the process table is a run of Monitor, in which the sleepers are the slots
    asleep on the channel, and a run of the process table. */
  lemma {:induction false} RunSimulates<R, A>(sys: M.System<R, A>, chan: nat, r: R, run: seq<Event<A>>, k: Kernel<R>)
    returns (ms: seq<M.Event<A>>, ts: seq<P.Event>)
    requires Exec(sys, chan, r, run) == Reached(k)
    ensures Inv(k, chan)
    ensures M.Exec(sys, M.Start(r, P.NPROC), ms) == M.Reached(Seen(k, chan))
    ensures ProcTree.Leads(ProcTree.Boot(), ts, k.t)
    decreases |run|
  {
    hide Inv, Step, Enabled, P.Inv, P.Step, P.Enabled, M.Step, M.Enabled, Seen;
    StartSeen(r, chan);
    ms, ts := [], [];
    if run != [] {
      var m, e := Exec(sys, chan, r, run[..|run| - 1]).k, run[|run| - 1];
      ms, ts := RunSimulates(sys, chan, r, run[..|run| - 1], m);
      StepSimulates(sys, chan, m, e);
      match Move(chan, m, e) {
        case None =>
        case Some(a) =>
          M.ExecSnoc(sys, M.Start(r, P.NPROC), ms, Seen(m, chan), a);
          ms := ms + [a];
      }
      match TableMove(chan, e) {
        case None =>
        case Some(a) =>
          assert (ts + [a])[..|ts|] == ts;
          ts := ts + [a];
      }
    }
  }

  /** No lost wakeup on the process table: whatever else the processes do, with the lock free a slot that is
    SLEEPING on the channel still has its reason to wait. */
  lemma NoSleeperForgotten<R(!new), A(!new)>(
      sys: M.System<R, A>, chan: nat, r: R, run: seq<Event<A>>, k: Kernel<R>, i: nat)
    requires M.Disciplined(sys) && Exec(sys, chan, r, run) == Reached(k)
    requires k.s.lk == None && i < |k.t.procs|
    requires k.t.procs[i].state == P.Sleeping && k.t.procs[i].chan == P.Other(chan)
    ensures sys.blocked(k.s.r)
  {
    var ms, _ := RunSimulates(sys, chan, r, run, k);
    assert Linked(k.s.pc[i], k.t.procs[i], chan);
    M.NoLostWakeup(sys, r, P.NPROC, ms, Seen(k, chan), i);
  }

  /** No process of the table sleeps on a sleep-lock that is free. */
  lemma SleepLockSleepers(chan: nat, run: seq<Event<Waits.LockOp>>, k: Kernel<Waits.LockWord>, i: nat)
    requires Exec(Waits.SleepLock(), chan, Waits.LockWord(false, 0, {}), run) == Reached(k)
    requires k.s.lk == None && i < |k.t.procs|
    requires k.t.procs[i].state == P.Sleeping && k.t.procs[i].chan == P.Other(chan)
    ensures k.s.r.locked
  {
    NoSleeperForgotten(Waits.SleepLock(), chan, Waits.LockWord(false, 0, {}), run, k, i);
  }

  // ---------------------------------------------------------------- without the discipline

  lemma ExecSnoc<R, A>(sys: M.System<R, A>, chan: nat, r: R, run: seq<Event<A>>, k: Kernel<R>, e: Event<A>)
    returns (d: Kernel<R>)
    requires Exec(sys, chan, r, run) == Reached(k) && Enabled(sys, chan, k, e)
    ensures Exec(sys, chan, r, run + [e]) == Reached(d) && d == Step(sys, chan, k, e)
  {
    assert (run + [e])[..|run|] == run;
    d := Step(sys, chan, k, e);
  }

  /** init and its first child, both running and both outside. */
  ghost predicate TwoRunning<R>(k: Kernel<R>, r: R) {
    && P.Shape(k.t) && k.s == M.Start(r, P.NPROC) && IsRunning(k.t, 0) && IsRunning(k.t, 1)
    && k.t.procs[0].at == P.User
  }

  lemma TwoProcesses<R, A>(sys: M.System<R, A>, chan: nat, r: R) returns (run: seq<Event<A>>, k: Kernel<R>)
    ensures Exec(sys, chan, r, run) == Reached(k) && TwoRunning(k, r)
  {
    k := Kernel(M.Start(r, P.NPROC), ProcTree.Boot());
    run := [];
    var script := [P.Schedule(0), P.Alloc(0, 1), P.Adopt(0), P.Publish(0), P.Schedule(1)];
    for i := 0 to 5
      invariant Exec(sys, chan, r, run) == Reached(k) && P.Shape(k.t) && k.s == M.Start(r, P.NPROC)
      invariant k.t.procs[0].state == if i == 0 then P.Runnable else P.Running
      invariant k.t.procs[0].at == if i == 2 then P.Claimed(1) else if i == 3 then P.Adopted(1) else P.User
      invariant k.t.procs[1].state == if i < 2 then P.Unused else if i < 4 then P.Embryo
                                      else if i == 4 then P.Runnable else P.Running
    {
      k := ExecSnoc(sys, chan, r, run, k, OnTable(script[i]));
      run := run + [OnTable(script[i])];
    }
  }

  /** The first has gone to sleep while the condition held. */
  lemma OneSleeps<R, A>(sys: M.System<R, A>, chan: nat, r: R) returns (run: seq<Event<A>>, k: Kernel<R>)
    requires sys.blocked(r)
    ensures Exec(sys, chan, r, run) == Reached(k) && |k.t.procs| == |k.s.pc| == P.NPROC
    ensures k.s.r == r && k.s.lk == None && M.At(k.s, 1, M.Outside) && IsRunning(k.t, 1)
    ensures ProcTree.AsleepOn(k.t.procs[0], chan)
  {
    run, k := TwoProcesses(sys, chan, r);
    var script: seq<M.Event<A>> := [M.Lock(0), M.Wait(0), M.TakeTable(0), M.DropLock(0)];
    for i := 0 to 4
      invariant Exec(sys, chan, r, run) == Reached(k) && P.Shape(k.t) && |k.s.pc| == P.NPROC && k.s.r == r
      invariant IsRunning(k.t, 0) && IsRunning(k.t, 1) && k.t.procs[0].at == P.User && k.s.pc[1] == M.Outside
      invariant k.s.lk == if 1 <= i <= 3 then Some(0) else None
      invariant k.s.table == if i >= 3 then Some(0) else None
      invariant k.s.pc[0] == if i == 0 then M.Outside else if i == 1 then M.Inside else if i == 2 then M.ToSleep
                             else if i == 3 then M.HandOver else M.Drowsy
    {
      k := ExecSnoc(sys, chan, r, run, k, Own(script[i]));
      run := run + [Own(script[i])];
    }
    k := ExecSnoc(sys, chan, r, run, k, OnTable(P.SleepOn(0, chan)));
    run := run + [OnTable(P.SleepOn(0, chan))];
  }

  /** A slot is SLEEPING on the channel although the lock is free and the condition is gone. */
  predicate Forgotten<R, A>(sys: M.System<R, A>, chan: nat, k: Kernel<R>, i: nat) {
    && k.s.lk == None && i < |k.t.procs| && !sys.blocked(k.s.r)
    && k.t.procs[i].state == P.Sleeping && k.t.procs[i].chan == P.Other(chan)
  }

  lemma UndisciplinedForgets<R, A>(sys: M.System<R, A>, chan: nat, r: R, a: A)
    returns (run: seq<Event<A>>, k: Kernel<R>)
    requires sys.enabled(r, a) && sys.blocked(r) && !sys.blocked(sys.apply(r, a))
    requires !sys.wakes(a) || sys.lockFree(a)
    ensures Exec(sys, chan, r, run) == Reached(k) && Forgotten(sys, chan, k, 0)
  {
    run, k := OneSleeps(sys, chan, r);
    if sys.lockFree(a) {
      k := ExecSnoc(sys, chan, r, run, k, Own(M.Event<A>.Free(a)));
      run := run + [Own(M.Event<A>.Free(a))];
    } else {
      k := ExecSnoc(sys, chan, r, run, k, Own(M.Event<A>.Lock(1)));
      run := run + [Own(M.Event<A>.Lock(1))];
      k := ExecSnoc(sys, chan, r, run, k, Own(M.Event<A>.Update(1, a)));
      run := run + [Own(M.Event<A>.Update(1, a))];
      k := ExecSnoc(sys, chan, r, run, k, Own(M.Event<A>.Unlock(1)));
      run := run + [Own(M.Event<A>.Unlock(1))];
    }
  }

  /** In some run some slot is forgotten. */
  ghost predicate CanForget<R(!new), A(!new)>(sys: M.System<R, A>, chan: nat) {
    exists r: R, run: seq<Event<A>>, i: nat :: Forgets(sys, chan, r, run, i)
  }

  ghost predicate Forgets<R, A>(sys: M.System<R, A>, chan: nat, r: R, run: seq<Event<A>>, i: nat) {
    var o := Exec(sys, chan, r, run);
    o.Reached? && Forgotten(sys, chan, o.k, i)
  }

  /** The discipline of Monitor is exactly what the process table needs, on any channel. */
  lemma DisciplineIsExact<R(!new), A(!new)>(sys: M.System<R, A>, chan: nat)
    ensures M.Disciplined(sys) <==> !CanForget(sys, chan)
  {
    if M.Disciplined(sys) {
      forall r: R, run: seq<Event<A>>, i: nat ensures !Forgets(sys, chan, r, run, i) {
        if Forgets(sys, chan, r, run, i) {
          NoSleeperForgotten(sys, chan, r, run, Exec(sys, chan, r, run).k, i);
        }
      }
    } else {
      var r, a :| sys.enabled(r, a) && sys.blocked(r) && !sys.blocked(sys.apply(r, a))
          && (!sys.wakes(a) || sys.lockFree(a));
      var run, k := UndisciplinedForgets(sys, chan, r, a);
      assert Forgets(sys, chan, r, run, 0);
    }
  }
}
