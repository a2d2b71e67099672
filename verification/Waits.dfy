/** Where the kernel waits: sleep-locks, begin_op, and the two ends of a pipe, as Monitor systems. */
module Waits {
  import opened Wrappers
  import opened Params
  import opened Monitor

  // ---------------------------------------------------------------- kernel/sleeplock.c

  /** locked and pid of struct sleeplock; `holders` are the processes between acquiresleep and
    releasesleep. */
  datatype LockWord = LockWord(locked: bool, pid: nat, holders: set<nat>)

  datatype LockOp = Acquire(pid: nat) | Release(pid: nat)

  function SleepLock(): System<LockWord, LockOp> {
    System(
      (r: LockWord) => r.locked,
      (r: LockWord, a: LockOp) => if a.Acquire? then !r.locked else a.pid in r.holders,
      (r: LockWord, a: LockOp) => if a.Acquire? then LockWord(true, a.pid, r.holders + {a.pid})
                              else LockWord(false, 0, r.holders - {a.pid}),
      (a: LockOp) => a.Release?,
      (a: LockOp) => false)
  }

  class Sleeplock {
    var locked: bool
    var pid: nat
    ghost var holders: set<nat>
    ghost var wakeups: nat      // calls of wakeup(lk)

    ghost function View(): LockWord
      reads this
    {
      LockWord(locked, pid, holders)
    }

    /** What `SleepLockInv` proves of every reachable lock. */
    ghost predicate Valid()
      reads this
    {
      holders == if locked then {pid} else {}
    }

    /** initsleeplock */
    constructor ()
      ensures Valid() && View() == LockWord(false, 0, {})
    {
      locked, pid, holders, wakeups := false, 0, {}, 0;
    }

    method Wakeup()
      modifies this`wakeups
      ensures wakeups == old(wakeups) + 1
    {
      wakeups := wakeups + 1;
    }

    /** One round of the loop of acquiresleep: take the lock, or go to sleep. */
    method TryAcquire(me: nat) returns (got: bool)
      requires Valid()
      modifies this`locked, this`pid, this`holders
      ensures Valid() && (got ==> me in holders)
      ensures got <==> !old(locked)
      ensures got <==> !old(SleepLock().blocked(View()))
      ensures View() == if got then SleepLock().apply(old(View()), Acquire(me)) else old(View())
    {
      if locked {
        return false;
      }
      locked := true;
      pid := me;
      holders := holders + {me};
      return true;
    }

    /** releasesleep: the lock is free, and whoever sleeps on it is woken. */
    method Release(ghost me: nat)
      requires Valid() && me in holders
      modifies this
      ensures Valid() && !locked && holders == {}
      ensures wakeups == old(wakeups) + 1 && SleepLock().wakes(LockOp.Release(me))
      ensures View() == SleepLock().apply(old(View()), LockOp.Release(me))
    {
      locked := false;
      pid := 0;
      holders := holders - {me};
      Wakeup();
    }

    /** holdingsleep: true exactly for the process between acquiresleep and releasesleep. */
    method Holding(me: nat) returns (r: bool)
      requires Valid()
      ensures r <==> me in holders
    {
      r := locked && pid == me;
    }
  }

  /** At most one process owns a sleep-lock, holdingsleep says exactly who, and nobody sleeps on one
    that is free. */
  lemma {:induction false} SleepLockInv(n: nat, es: seq<Event<LockOp>>, s: State<LockWord>)
    requires Exec(SleepLock(), Start(LockWord(false, 0, {}), n), es) == Reached(s)
    ensures s.r.holders == if s.r.locked then {s.r.pid} else {}
  {
    if es != [] {
      var t := Exec(SleepLock(), Start(LockWord(false, 0, {}), n), es[..|es| - 1]).s;
      SleepLockInv(n, es[..|es| - 1], t);
      match es[|es| - 1]
      case Update(_, Acquire(p)) => assert {} + {p} == {p};
      case Update(_, Release(p)) => assert p in t.r.holders;
      case _ =>
    }
  }

  lemma SleepLockSafe(n: nat, es: seq<Event<LockOp>>, s: State<LockWord>)
    requires Exec(SleepLock(), Start(LockWord(false, 0, {}), n), es) == Reached(s)
    ensures |s.r.holders| <= 1
    ensures forall p: nat :: p in s.r.holders <==> s.r.locked && s.r.pid == p
    ensures s.lk == None && !s.r.locked ==> forall p: nat :: !At(s, p, Asleep)
  {
    SleepLockInv(n, es, s);
    forall p: nat ensures s.lk == None && At(s, p, Asleep) ==> s.r.locked {
      if s.lk == None && At(s, p, Asleep) { NoLostWakeup(SleepLock(), LockWord(false, 0, {}), n, es, s, p); }
    }
  }

  // ---------------------------------------------------------------- begin_op of kernel/log.c

  /** lh.n, outstanding and committing of struct log. */
  datatype LogWord = LogWord(n: nat, outstanding: nat, committing: bool)

  datatype LogOp =
    | Admit        // begin_op gets past its tests
    | Record       // log_write adds a block
    | Leave        // end_op, other calls remain: wakeup
    | LeaveLast    // end_op, last call: committing = 1, no wakeup
    | Erase        // commit(): lh.n = 0, without log.lock
    | Finish       // end_op after commit(): committing = 0, wakeup

  /** The tests of begin_op that make it sleep. */
  predicate MustWait(r: LogWord) {
    r.committing || !Fits(r.n, r.outstanding)
  }

  function LogGate(): System<LogWord, LogOp> {
    System(
      (r: LogWord) => MustWait(r),
      (r: LogWord, a: LogOp) =>
        match a
        case Admit => !MustWait(r)
        case Record => r.outstanding > 0
        case Leave => r.outstanding > 1
        case LeaveLast => r.outstanding == 1 && !r.committing
        case Erase => r.committing
        case Finish => r.committing,
      (r: LogWord, a: LogOp) =>
        match a
        case Admit => r.(outstanding := r.outstanding + 1)
        case Record => r.(n := r.n + 1)
        case Leave => r.(outstanding := if r.outstanding > 0 then r.outstanding - 1 else 0)
        case LeaveLast => r.(outstanding := 0, committing := true)
        case Erase => r.(n := 0)
        case Finish => r.(committing := false),
      (a: LogOp) => a.Leave? || a.Finish?,
      (a: LogOp) => a.Erase?)
  }

  /** Whenever log.lock is free, a call asleep in begin_op faces a commit or a full reservation. */
  lemma BeginOpSleepersWait(r: LogWord, n: nat, es: seq<Event<LogOp>>, s: State<LogWord>, p: nat)
    requires Exec(LogGate(), Start(r, n), es) == Reached(s) && s.lk == None && At(s, p, Asleep)
    ensures s.r.committing || !Fits(s.r.n, s.r.outstanding)
  {
    NoLostWakeup(LogGate(), r, n, es, s, p);
  }

  // ---------------------------------------------------------------- kernel/pipe.c

  const PIPESIZE: nat := 512

  /** Bytes in the pipe, readopen and writeopen. */
  datatype Fill = Fill(count: nat, readopen: bool, writeopen: bool)

  /** What happens between an acquire of p->lock and the next release or sleep. */
  datatype PipeOp =
    | Append(k: nat)      // pipewrite: k more bytes, then wakeup(&p->nread)
    | KilledAppend(k: nat) // pipewrite fills the pipe and returns -1: killed, or no reader left
    | Drain(k: nat)       // piperead: k bytes out, then wakeup(&p->nwrite)
    | CloseWrite          // pipeclose(p, 1): wakeup(&p->nread)
    | CloseRead           // pipeclose(p, 0): wakeup(&p->nwrite)

  predicate PipeEnabled(r: Fill, a: PipeOp, kills: bool) {
    match a
    case Append(k) => r.count + k <= PIPESIZE
    case KilledAppend(k) => r.count + k == PIPESIZE && (kills || !r.readopen)
    case Drain(k) => k <= r.count
    case CloseWrite => true
    case CloseRead => true
  }

  function PipeApply(r: Fill, a: PipeOp): Fill {
    match a
    case Append(k) => r.(count := r.count + k)
    case KilledAppend(k) => r.(count := r.count + k)
    case Drain(k) => r.(count := if k <= r.count then r.count - k else 0)
    case CloseWrite => r.(writeopen := false)
    case CloseRead => r.(readopen := false)
  }

  /** Readers sleep on &p->nread while the pipe is empty and may still be written. A reader that
    sleeps keeps the read end open, so nobody can wait here once `readopen` is 0. */
  function Readers(kills: bool): System<Fill, PipeOp> {
    System(
      (r: Fill) => r.count == 0 && r.writeopen && r.readopen,
      (r: Fill, a: PipeOp) => PipeEnabled(r, a, kills) && !a.CloseRead?,
      (r: Fill, a: PipeOp) => PipeApply(r, a),
      (a: PipeOp) => a.Append? || a.CloseWrite?,
      (a: PipeOp) => false)
  }

  /** Writers sleep on &p->nwrite while the pipe is full and may still be read. */
  function Writers(kills: bool): System<Fill, PipeOp> {
    System(
      (r: Fill) => r.count == PIPESIZE && r.readopen,
      (r: Fill, a: PipeOp) => PipeEnabled(r, a, kills),
      (r: Fill, a: PipeOp) => PipeApply(r, a),
      (a: PipeOp) => a.Drain? || a.CloseRead?,
      (a: PipeOp) => false)
  }

  /** Readers lose no wakeup exactly when no writer is killed: a killed writer that has just filled the
    pipe returns without waking them (kernel/pipe.c:81-83). */
  lemma ReadersNeedNoKills(kills: bool)
    ensures !CanLose(Readers(kills)) <==> !kills
  {
    DisciplineIsExact(Readers(kills));
    if kills {
      var r, a := Fill(0, true, true), KilledAppend(PIPESIZE);
      assert Readers(true).enabled(r, a) && Readers(true).blocked(r)
             && !Readers(true).blocked(Readers(true).apply(r, a));
    }
  }

  /** Writers lose no wakeup, kills or not. */
  lemma WritersAlwaysWoken(kills: bool)
    ensures !CanLose(Writers(kills))
  {
    DisciplineIsExact(Writers(kills));
  }
}
