/** The process table of kernel/proc.c as a machine: a step is one critical section of ptable.lock, or one
  of the unlocked writes fork makes to the slot it has claimed. */
module ProcMachine {
  import opened Wrappers

  const NPROC: nat := 64     // include/param.h:4
  const INIT: nat := 0       // the slot userinit gets, initproc

  datatype Status = Unused | Embryo | Sleeping | Runnable | Running | Zombie

  /** What a process sleeps on: a process is the channel of its own wait; `Other` is any other address. */
  datatype Chan = NoChan | OfProc(slot: nat) | Other(id: nat)

  /** How far a process is in a system call of this file. */
  datatype Where = User | Claimed(np: nat) | Adopted(np: nat) | InWait

  datatype Proc = Proc(state: Status, pid: nat, parent: Option<nat>, chan: Chan, killed: bool, at: Where)

  /** `exited` holds the pids that have exited, `reaped` the results of wait in order. */
  datatype Table = Table(procs: seq<Proc>, nextpid: nat, exited: set<nat>, reaped: seq<nat>)

  predicate Alive(p: Proc) {
    p.state == Sleeping || p.state == Runnable || p.state == Running
  }

  predicate InUse(p: Proc) {
    p.state != Unused
  }

  // ---------------------------------------------------------------- invariant

  predicate Shape(t: Table) {
    |t.procs| == NPROC
  }

  /** A process that has been published has a living parent created before it; init has none. */
  predicate Placed(ps: seq<Proc>, i: nat)
    requires i < |ps|
  {
    var p := ps[i];
    match p.state
    case Unused => p.parent == None && p.at == User && i != INIT
    case Embryo => p.at == User && i != INIT
                   && (p.parent.Some? ==> p.parent.value < |ps| && ps[p.parent.value].at == Adopted(i))
    case _ =>
      if i == INIT then p.parent == None && p.state != Zombie && p.pid == 1
      else p.parent.Some? && Above(ps, p.parent.value, i) && (p.state == Zombie ==> p.at == User)
  }

  predicate Above(ps: seq<Proc>, q: nat, i: nat)
    requires i < |ps|
  {
    q < |ps| && Alive(ps[q]) && ps[q].pid < ps[i].pid
  }

  /** The slot a process in fork has claimed is its own embryo. */
  predicate Claims(ps: seq<Proc>, i: nat)
    requires i < |ps|
  {
    var p := ps[i];
    match p.at
    case Claimed(np) => np < |ps| && ps[np].state == Embryo && ps[np].parent == None && Above(ps, i, np) && Alive(p)
    case Adopted(np) => np < |ps| && ps[np].state == Embryo && ps[np].parent == Some(i) && Above(ps, i, np) && Alive(p)
    case InWait => Alive(p)
    case User => true
  }

  predicate SameClaim(p: Proc, q: Proc) {
    (p.at.Claimed? || p.at.Adopted?) && (q.at.Claimed? || q.at.Adopted?) && p.at.np == q.at.np
  }

  /** Nobody sleeps in wait while a child of his is a zombie. */
  predicate Attentive(ps: seq<Proc>, i: nat, j: nat)
    requires i < |ps| && j < |ps|
  {
    ps[i].state == Sleeping && ps[i].chan == OfProc(i) ==> !(ps[j].parent == Some(i) && ps[j].state == Zombie)
  }

  /** Only wait sleeps on a process, its own. */
  predicate SleepsRight(ps: seq<Proc>, i: nat)
    requires i < |ps|
  {
    ps[i].state == Sleeping && ps[i].chan.OfProc? ==> ps[i].chan == OfProc(i) && ps[i].at == InWait
  }

  predicate Numbered(t: Table, i: nat)
    requires i < |t.procs|
  {
    var p := t.procs[i];
    && p.pid < t.nextpid
    && (InUse(p) ==> p.pid > 0 && p.pid !in t.reaped)
    && (InUse(p) ==> (p.state == Zombie <==> p.pid in t.exited))
  }

  predicate ZombieHas(ps: seq<Proc>, pid: nat) {
    exists i :: 0 <= i < |ps| && ps[i].state == Zombie && ps[i].pid == pid
  }

  predicate Accounted(t: Table) {
    && (forall j, k :: 0 <= j < k < |t.reaped| ==> t.reaped[j] != t.reaped[k])
    && (forall j :: 0 <= j < |t.reaped| ==> t.reaped[j] in t.exited)
    && (forall pid :: pid in t.exited ==> pid < t.nextpid && (pid in t.reaped || ZombieHas(t.procs, pid)))
  }

  predicate Here(t: Table, i: nat)
    requires i < |t.procs|
  {
    Placed(t.procs, i) && Claims(t.procs, i) && SleepsRight(t.procs, i) && Numbered(t, i)
  }

  predicate Apart(ps: seq<Proc>, i: nat, j: nat)
    requires i < |ps| && j < |ps|
  {
    && Attentive(ps, i, j)
    && (i != j ==> !SameClaim(ps[i], ps[j]) && (ps[i].pid != ps[j].pid || ps[i].pid == 0))
  }

  ghost predicate Inv(t: Table) {
    && Shape(t)
    && (forall i :: 0 <= i < NPROC ==> Here(t, i))
    && (forall i, j :: 0 <= i < NPROC && 0 <= j < NPROC ==> Apart(t.procs, i, j))
    && Accounted(t)
  }

  // ---------------------------------------------------------------- steps

  datatype Event =
    | Alloc(cur: nat, np: nat)      // allocproc under the lock
    | Abort(cur: nat)               // no kernel stack or no page table
    | Adopt(cur: nat)               // np->parent = curproc
    | Publish(cur: nat)             // the end of fork
    | Exit(cur: nat)
    | Wait(cur: nat)                // from a lock of ptable.lock in wait to its release or to sleep
    | SleepOn(cur: nat, id: nat)    // sleep on something that is not a process
    | Wakeup(id: nat)
    | Kill(pid: nat)
    | Schedule(cur: nat)
    | Yield(cur: nat)

  predicate Runs(t: Table, cur: nat)
    requires Shape(t)
  {
    cur < NPROC && t.procs[cur].state == Running
  }

  predicate FirstFree(ps: seq<Proc>, np: nat) {
    np < |ps| && ps[np].state == Unused && forall j :: 0 <= j < np ==> ps[j].state != Unused
  }

  ghost predicate Enabled(t: Table, e: Event)
    requires Shape(t)
  {
    match e
    case Alloc(cur, np) => Runs(t, cur) && t.procs[cur].at == User && FirstFree(t.procs, np)
    case Abort(cur) => Runs(t, cur) && t.procs[cur].at.Claimed? && t.procs[cur].at.np < NPROC
    case Adopt(cur) => Runs(t, cur) && t.procs[cur].at.Claimed? && t.procs[cur].at.np < NPROC
    case Publish(cur) => Runs(t, cur) && t.procs[cur].at.Adopted? && t.procs[cur].at.np < NPROC
    case Exit(cur) => Runs(t, cur) && t.procs[cur].at == User && cur != INIT
    case Wait(cur) => Runs(t, cur) && (t.procs[cur].at == User || t.procs[cur].at == InWait)
    case SleepOn(cur, _) => Runs(t, cur) && t.procs[cur].at == User
    case Wakeup(_) => true
    case Kill(_) => true
    case Schedule(cur) => cur < NPROC && t.procs[cur].state == Runnable
    case Yield(cur) => Runs(t, cur)
  }

  /** wakeup1, one slot of it. */
  function Woken(p: Proc, chan: Chan): Proc {
    if p.state == Sleeping && p.chan == chan then p.(state := Runnable) else p
  }

  function ChanOf(parent: Option<nat>): Chan {
    if parent.Some? then OfProc(parent.value) else NoChan
  }

  predicate HasZombie(ps: seq<Proc>, cur: nat) {
    exists i :: 0 <= i < |ps| && ps[i].parent == Some(cur) && ps[i].state == Zombie
  }

  /** A child of cur goes to init, and init wakes up if some child was a zombie. */
  function Passed(p: Proc, cur: nat, zombie: bool): Proc {
    var q := if p.parent == Some(cur) then p.(parent := Some(INIT)) else p;
    if zombie then Woken(q, OfProc(INIT)) else q
  }

  /** What exit of cur does to slot i. */
  function AfterExit(ps: seq<Proc>, cur: nat, i: nat): Proc
    requires i < |ps| && cur < |ps|
  {
    var p := Passed(Woken(ps[i], ChanOf(ps[cur].parent)), cur, HasZombie(ps, cur));
    if i == cur then p.(state := Zombie) else p
  }

  predicate ZombieChild(ps: seq<Proc>, cur: nat, i: nat) {
    && i < |ps| && ps[i].parent == Some(cur) && ps[i].state == Zombie
    && forall j :: 0 <= j < i ==> !(ps[j].parent == Some(cur) && ps[j].state == Zombie)
  }

  predicate HasKids(ps: seq<Proc>, cur: nat) {
    exists i :: 0 <= i < |ps| && ps[i].parent == Some(cur)
  }

  function Freed(p: Proc): Proc {
    Proc(Unused, 0, None, p.chan, false, User)
  }

  predicate FirstNamed(ps: seq<Proc>, pid: nat, i: nat) {
    i < |ps| && ps[i].pid == pid && forall j :: 0 <= j < i ==> ps[j].pid != pid
  }

  predicate Named(ps: seq<Proc>, pid: nat) {
    exists i :: 0 <= i < |ps| && ps[i].pid == pid
  }

  function Struck(p: Proc): Proc {
    p.(killed := true, state := if p.state == Sleeping then Runnable else p.state)
  }

  ghost function FirstZombie(ps: seq<Proc>, cur: nat, i: nat): (z: nat)
    requires i <= |ps| && HasZombie(ps, cur)
    requires forall j :: 0 <= j < i ==> !(ps[j].parent == Some(cur) && ps[j].state == Zombie)
    ensures ZombieChild(ps, cur, z)
    decreases |ps| - i
  {
    if ps[i].parent == Some(cur) && ps[i].state == Zombie then i else FirstZombie(ps, cur, i + 1)
  }

  ghost function FirstPid(ps: seq<Proc>, pid: nat, i: nat): (z: nat)
    requires i <= |ps| && Named(ps, pid)
    requires forall j :: 0 <= j < i ==> ps[j].pid != pid
    ensures FirstNamed(ps, pid, z)
    decreases |ps| - i
  {
    if ps[i].pid == pid then i else FirstPid(ps, pid, i + 1)
  }

  /** What wait returns at the end of its step: a pid, -1, or nothing because the caller went to sleep. */
  datatype Outcome = Returned(pid: int) | Slept

  ghost function WaitOutcome(t: Table, cur: nat): Outcome
    requires Shape(t) && cur < NPROC
  {
    if HasZombie(t.procs, cur) then Returned(t.procs[FirstZombie(t.procs, cur, 0)].pid)
    else if !HasKids(t.procs, cur) || t.procs[cur].killed then Returned(-1)
    else Slept
  }

  ghost function Step(t: Table, e: Event): Table
    requires Shape(t) && Enabled(t, e)
  {
    var ps := t.procs;
    match e
    case Alloc(cur, np) =>
      t.(procs := ps[cur := ps[cur].(at := Claimed(np))][np := ps[np].(state := Embryo, pid := t.nextpid)],
         nextpid := t.nextpid + 1)
    case Abort(cur) =>
      var np := ps[cur].at.np;
      t.(procs := ps[np := ps[np].(state := Unused)][cur := ps[cur].(at := User)])
    case Adopt(cur) =>
      var np := ps[cur].at.np;
      t.(procs := ps[np := ps[np].(parent := Some(cur))][cur := ps[cur].(at := Adopted(np))])
    case Publish(cur) =>
      var np := ps[cur].at.np;
      t.(procs := ps[np := ps[np].(state := Runnable)][cur := ps[cur].(at := User)])
    case Exit(cur) =>
      t.(procs := seq(NPROC, i requires 0 <= i < NPROC => AfterExit(ps, cur, i)), exited := t.exited + {ps[cur].pid})
    case Wait(cur) =>
      (match WaitOutcome(t, cur)
       case Slept => t.(procs := ps[cur := ps[cur].(state := Sleeping, chan := OfProc(cur), at := InWait)])
       case Returned(_) =>
         if HasZombie(ps, cur) then
           var z := FirstZombie(ps, cur, 0);
           t.(procs := ps[z := Freed(ps[z])][cur := ps[cur].(at := User)], reaped := t.reaped + [ps[z].pid])
         else t.(procs := ps[cur := ps[cur].(at := User)]))
    case SleepOn(cur, id) => t.(procs := ps[cur := ps[cur].(state := Sleeping, chan := Other(id))])
    case Wakeup(id) => t.(procs := seq(NPROC, i requires 0 <= i < NPROC => Woken(ps[i], Other(id))))
    case Kill(pid) =>
      if Named(ps, pid) then
        var z := FirstPid(ps, pid, 0);
        t.(procs := ps[z := Struck(ps[z])])
      else t
    case Schedule(cur) => t.(procs := ps[cur := ps[cur].(state := Running)])
    case Yield(cur) => t.(procs := ps[cur := ps[cur].(state := Runnable)])
  }
}
