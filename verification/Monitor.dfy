/** sleep and wakeup of kernel/proc.c (lines 385-459) at the grain of single lock operations.

  A waiter runs `acquire(lk); while (blocked) sleep(chan, lk); update; release(lk)`; everybody else
  runs `acquire(lk); update; [wakeup(chan);] release(lk)`. Inside sleep the caller takes ptable.lock
  before it lets go of lk, and sets SLEEPING only then; wakeup and kill need ptable.lock too. The
  theorem is about any shared state R and any set of updates A: see `NoLostWakeup`. */
module Monitor {
  import opened Wrappers

  /** `blocked` is the condition of the waiting loop. An update with `wakes` calls wakeup before it
    releases lk; one with `lockFree` happens without lk. */
  datatype System<!R, !A> = System(
    blocked: R -> bool, enabled: (R, A) -> bool, apply: (R, A) -> R, wakes: A -> bool, lockFree: A -> bool)

  datatype Pc =
    | Outside      // anywhere else
    | Inside       // holds lk
    | ToSleep      // in sleep(), holds lk, wants ptable.lock
    | HandOver     // in sleep(), holds lk and ptable.lock
    | Drowsy       // in sleep(), holds ptable.lock only
    | Asleep       // SLEEPING on chan
    | Woken        // RUNNABLE again
    | Resuming     // back from sched(), holds ptable.lock
    | Returning    // ptable.lock released, wants lk
    | ToWake       // in wakeup(), holds lk, wants ptable.lock
    | Waking       // in wakeup(), holds both
    | Leaving      // holds lk, about to release it

  datatype State<R> = State(r: R, lk: Option<nat>, table: Option<nat>, pc: seq<Pc>)

  datatype Event<A> =
    | Lock(p: nat)          // acquire(lk)
    | Update(p: nat, a: A)
    | Free(a: A)            // a lock-free update
    | Wait(p: nat)          // the loop condition holds: call sleep
    | TakeTable(p: nat)     // sleep: acquire(&ptable.lock)
    | DropLock(p: nat)      // sleep: release(lk)
    | Doze(p: nat)          // sleep: state = SLEEPING, sched
    | Resume(p: nat)        // the scheduler picks it
    | Tidy(p: nat)          // sleep: release(&ptable.lock)
    | Retake(p: nat)        // sleep: acquire(lk)
    | StartWakeup(p: nat)   // wakeup: acquire(&ptable.lock)
    | EndWakeup(p: nat)     // wakeup1 and release(&ptable.lock)
    | Unlock(p: nat)        // release(lk)
    | Kill(p: nat)          // kill: a sleeper becomes RUNNABLE

  predicate HoldsLock(pc: Pc) {
    pc.Inside? || pc.ToSleep? || pc.HandOver? || pc.ToWake? || pc.Waking? || pc.Leaving?
  }

  predicate HoldsTable(pc: Pc) {
    pc.HandOver? || pc.Drowsy? || pc.Resuming? || pc.Waking?
  }

  predicate At<R>(s: State<R>, p: nat, pc: Pc) {
    p < |s.pc| && s.pc[p] == pc
  }

  predicate Enabled<R, A>(sys: System<R, A>, s: State<R>, e: Event<A>) {
    match e
    case Lock(p) => At(s, p, Outside) && s.lk == None
    case Update(p, a) => At(s, p, Inside) && sys.enabled(s.r, a) && !sys.lockFree(a)
    case Free(a) => sys.enabled(s.r, a) && sys.lockFree(a)
    case Wait(p) => At(s, p, Inside) && sys.blocked(s.r)
    case TakeTable(p) => At(s, p, ToSleep) && s.table == None
    case DropLock(p) => At(s, p, HandOver)
    case Doze(p) => At(s, p, Drowsy)
    case Resume(p) => At(s, p, Woken) && s.table == None
    case Tidy(p) => At(s, p, Resuming)
    case Retake(p) => At(s, p, Returning) && s.lk == None
    case StartWakeup(p) => At(s, p, ToWake) && s.table == None
    case EndWakeup(p) => At(s, p, Waking)
    case Unlock(p) => At(s, p, Leaving)
    case Kill(p) => At(s, p, Asleep) && s.table == None
  }

  /** wakeup1: every sleeper becomes RUNNABLE. */
  function WakeAll(pc: seq<Pc>): (r: seq<Pc>)
    ensures |r| == |pc| && forall i :: 0 <= i < |r| ==> r[i] == if pc[i] == Asleep then Woken else pc[i]
  {
    seq(|pc|, i requires 0 <= i < |pc| => if pc[i] == Asleep then Woken else pc[i])
  }

  function Step<R, A>(sys: System<R, A>, s: State<R>, e: Event<A>): State<R>
    requires Enabled(sys, s, e)
  {
    match e
    case Lock(p) => s.(lk := Some(p), pc := s.pc[p := Inside])
    case Update(p, a) => s.(r := sys.apply(s.r, a), pc := s.pc[p := if sys.wakes(a) then ToWake else Leaving])
    case Free(a) => s.(r := sys.apply(s.r, a))
    case Wait(p) => s.(pc := s.pc[p := ToSleep])
    case TakeTable(p) => s.(table := Some(p), pc := s.pc[p := HandOver])
    case DropLock(p) => s.(lk := None, pc := s.pc[p := Drowsy])
    case Doze(p) => s.(table := None, pc := s.pc[p := Asleep])
    case Resume(p) => s.(table := Some(p), pc := s.pc[p := Resuming])
    case Tidy(p) => s.(table := None, pc := s.pc[p := Returning])
    case Retake(p) => s.(lk := Some(p), pc := s.pc[p := Inside])
    case StartWakeup(p) => s.(table := Some(p), pc := s.pc[p := Waking])
    case EndWakeup(p) => s.(table := None, pc := WakeAll(s.pc)[p := Leaving])
    case Unlock(p) => s.(lk := None, pc := s.pc[p := Outside])
    case Kill(p) => s.(pc := s.pc[p := Woken])
  }

  datatype Outcome<R> = Reached(s: State<R>) | Stuck

  function Exec<R, A>(sys: System<R, A>, s: State<R>, es: seq<Event<A>>): Outcome<R> {
    if es == [] then Reached(s)
    else
      match Exec(sys, s, es[..|es| - 1])
      case Stuck => Stuck
      case Reached(t) => if Enabled(sys, t, es[|es| - 1]) then Reached(Step(sys, t, es[|es| - 1])) else Stuck
  }

  /** n processes, none of them near the lock. */
  function Start<R>(r: R, n: nat): State<R> {
    State(r, None, None, seq(n, _ => Outside))
  }

  /** The discipline: an update that can end a wait calls wakeup, and one made without the lock
    cannot end a wait. */
  ghost predicate Disciplined<R(!new), A(!new)>(sys: System<R, A>) {
    forall r, a | sys.enabled(r, a) && sys.blocked(r) && !sys.blocked(sys.apply(r, a)) ::
      sys.wakes(a) && !sys.lockFree(a)
  }

  /** lk is held by the process whose program counter says so, and by nobody else. */
  ghost predicate LockInv<R>(s: State<R>) {
    && (forall p: nat :: p < |s.pc| ==> (HoldsLock(s.pc[p]) <==> s.lk == Some(p)))
    && (s.lk.Some? ==> s.lk.value < |s.pc|)
  }

  ghost predicate TableInv<R>(s: State<R>) {
    && (forall p: nat :: p < |s.pc| ==> (HoldsTable(s.pc[p]) <==> s.table == Some(p)))
    && (s.table.Some? ==> s.table.value < |s.pc|)
  }

  predicate WakeupDue<R>(s: State<R>) {
    s.lk.Some? && s.lk.value < |s.pc| && (s.pc[s.lk.value].ToWake? || s.pc[s.lk.value].Waking?)
  }

  ghost predicate Inv<R, A>(sys: System<R, A>, s: State<R>) {
    && LockInv(s) && TableInv(s)
    && (forall p: nat :: p < |s.pc| && (s.pc[p].ToSleep? || s.pc[p].HandOver?) ==> sys.blocked(s.r))
    && (forall p: nat :: p < |s.pc| && (s.pc[p].Drowsy? || s.pc[p].Asleep?) ==> sys.blocked(s.r) || WakeupDue(s))
  }

  lemma LockKept<R, A>(sys: System<R, A>, s: State<R>, e: Event<A>)
    requires LockInv(s) && Enabled(sys, s, e)
    ensures LockInv(Step(sys, s, e)) && |Step(sys, s, e).pc| == |s.pc|
  {
  }

  lemma TableKept<R, A>(sys: System<R, A>, s: State<R>, e: Event<A>)
    requires TableInv(s) && Enabled(sys, s, e)
    ensures TableInv(Step(sys, s, e))
  {
  }

  lemma StepKeeps<R(!new), A(!new)>(sys: System<R, A>, s: State<R>, e: Event<A>)
    requires Disciplined(sys) && Inv(sys, s) && Enabled(sys, s, e)
    ensures Inv(sys, Step(sys, s, e)) && |Step(sys, s, e).pc| == |s.pc|
  {
    LockKept(sys, s, e);
    TableKept(sys, s, e);
    var t := Step(sys, s, e);
    forall p: nat | p < |t.pc|
      ensures t.pc[p].ToSleep? || t.pc[p].HandOver? ==> sys.blocked(t.r)
      ensures t.pc[p].Drowsy? || t.pc[p].Asleep? ==> sys.blocked(t.r) || WakeupDue(t)
    {
      assert s.pc[p].Drowsy? || s.pc[p].Asleep? ==> sys.blocked(s.r) || WakeupDue(s);
    }
  }

  lemma {:induction false} ExecInv<R(!new), A(!new)>(sys: System<R, A>, r: R, n: nat, es: seq<Event<A>>, s: State<R>)
    requires Disciplined(sys) && Exec(sys, Start(r, n), es) == Reached(s)
    ensures Inv(sys, s) && |s.pc| == n
  {
    if es != [] {
      var t := Exec(sys, Start(r, n), es[..|es| - 1]).s;
      ExecInv(sys, r, n, es[..|es| - 1], t);
      StepKeeps(sys, t, es[|es| - 1]);
    }
  }

  /** No lost wakeup: in every interleaving of any number of processes, kills included, when lk is
    free a process that is still SLEEPING on the channel still has its reason to wait. */
  lemma NoLostWakeup<R(!new), A(!new)>(sys: System<R, A>, r: R, n: nat, es: seq<Event<A>>, s: State<R>, p: nat)
    requires Disciplined(sys) && Exec(sys, Start(r, n), es) == Reached(s)
    requires s.lk == None && At(s, p, Asleep)
    ensures sys.blocked(s.r)
  {
    ExecInv(sys, r, n, es, s);
  }

  /** Two processes; the first has gone to sleep while the condition held. */
  lemma OneSleeps<R, A>(sys: System<R, A>, r: R) returns (es: seq<Event<A>>, s: State<R>)
    requires sys.blocked(r)
    ensures Exec(sys, Start(r, 2), es) == Reached(s) && s == State(r, None, None, [Asleep, Outside])
  {
    es, s := [], Start(r, 2);
    var script: seq<Event<A>> := [Lock(0), Wait(0), TakeTable(0), DropLock(0), Doze(0)];
    for i := 0 to 5
      invariant Exec(sys, Start(r, 2), es) == Reached(s) && |s.pc| == 2 && s.r == r && s.pc[1] == Outside
      invariant s.lk == if 1 <= i <= 3 then Some(0) else None
      invariant s.table == if i == 3 || i == 4 then Some(0) else None
      invariant s.pc[0] == if i == 0 then Outside else if i == 1 then Inside else if i == 2 then ToSleep
                           else if i == 3 then HandOver else if i == 4 then Drowsy else Asleep
    {
      assert (es + [script[i]])[..|es|] == es;
      es, s := es + [script[i]], Step(sys, s, script[i]);
    }
  }

  lemma ExecSnoc<R, A>(sys: System<R, A>, s0: State<R>, es: seq<Event<A>>, s: State<R>, e: Event<A>)
    requires Exec(sys, s0, es) == Reached(s) && Enabled(sys, s, e)
    ensures Exec(sys, s0, es + [e]) == Reached(Step(sys, s, e))
  {
    assert (es + [e])[..|es|] == es;
  }

  /** The discipline is needed: if an update that ends a wait does not call wakeup, or is made without
    the lock, two processes can reach a state where one sleeps while both locks are free and the
    condition is gone. */
  lemma UndisciplinedLoses<R, A>(sys: System<R, A>, r: R, a: A) returns (es: seq<Event<A>>, s: State<R>)
    requires sys.enabled(r, a) && sys.blocked(r) && !sys.blocked(sys.apply(r, a))
    requires !sys.wakes(a) || sys.lockFree(a)
    ensures Exec(sys, Start(r, 2), es) == Reached(s)
    ensures s.lk == None && s.table == None && At(s, 0, Asleep) && At(s, 1, Outside) && !sys.blocked(s.r)
  {
    var start := Start(r, 2);
    es, s := OneSleeps(sys, r);
    if sys.lockFree(a) {
      ExecSnoc(sys, start, es, s, Event<A>.Free(a));
      es, s := es + [Event<A>.Free(a)], Step(sys, s, Event<A>.Free(a));
    } else {
      ExecSnoc(sys, start, es, s, Lock(1));
      es, s := es + [Lock(1)], Step(sys, s, Event<A>.Lock(1));
      ExecSnoc(sys, start, es, s, Update(1, a));
      es, s := es + [Update(1, a)], Step(sys, s, Update(1, a));
      ExecSnoc(sys, start, es, s, Unlock(1));
      es, s := es + [Unlock(1)], Step(sys, s, Event<A>.Unlock(1));
    }
  }

  /** In some run a process sleeps although the lock is free and the condition is gone. */
  ghost predicate CanLose<R(!new), A(!new)>(sys: System<R, A>) {
    exists r: R, n: nat, es: seq<Event<A>>, p: nat :: Loses(sys, r, n, es, p)
  }

  predicate Loses<R, A>(sys: System<R, A>, r: R, n: nat, es: seq<Event<A>>, p: nat) {
    var o := Exec(sys, Start(r, n), es);
    o.Reached? && o.s.lk == None && At(o.s, p, Asleep) && !sys.blocked(o.s.r)
  }

  /** The discipline is exactly what it takes. */
  lemma DisciplineIsExact<R(!new), A(!new)>(sys: System<R, A>)
    ensures Disciplined(sys) <==> !CanLose(sys)
  {
    if Disciplined(sys) {
      forall r: R, n: nat, es: seq<Event<A>>, p: nat ensures !Loses(sys, r, n, es, p) {
        if Loses(sys, r, n, es, p) { NoLostWakeup(sys, r, n, es, Exec(sys, Start(r, n), es).s, p); }
      }
    } else {
      var r, a :| sys.enabled(r, a) && sys.blocked(r) && !sys.blocked(sys.apply(r, a))
          && (!sys.wakes(a) || sys.lockFree(a));
      var es, s := UndisciplinedLoses(sys, r, a);
      assert Loses(sys, r, 2, es, 0);
    }
  }
}
