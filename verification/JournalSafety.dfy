/** Crash atomicity of the journal over whole runs: see `CrashAtomicity` and `AllOrNothing`. */
module JournalSafety {
  import opened Journal

  /** The home blocks the committed transactions have produced so far. */
  function Committed(s: State, d0: Disk): Disk
    requires s.durable <= |s.writes|
  {
    Replay(d0, s.writes[..s.durable])
  }

  /** Every buffer that is not in the log equals its disk block. */
  ghost predicate CleanElsewhere(s: State)
    requires |s.mem| == |s.disk| == FSSIZE
  {
    forall b: nat :: Home(b) && b !in s.lh ==> s.mem[b] == s.disk[b]
  }

  /** The first k entries of the in-memory list are at their home blocks already. */
  predicate InstalledUpTo(s: State, v: Disk, k: nat)
    requires |s.disk| == |v| == FSSIZE && GoodList(s.lh)
  {
    k <= |s.lh| && forall j :: 0 <= j < k ==> s.disk[s.lh[j]] == v[s.lh[j]]
  }

  /** What each phase knows about disk, cache and in-memory list. */
  ghost predicate PhaseInv(s: State, d0: Disk)
    requires Shape(s) && |d0| == FSSIZE
    requires |Committed(s, d0)| == |Replay(d0, s.writes)| == FSSIZE
  {
    var h := Header(s.disk[START]);
    match s.phase
    case Running =>
      h == [] && CleanElsewhere(s) && SameHome(s.mem, Replay(d0, s.writes))
      && (s.active == [] ==> s.lh == [])
      && (s.lh == [] ==> s.durable == |s.writes|)
    case Copying(k) =>
      h == [] && CleanElsewhere(s) && SameHome(s.mem, Replay(d0, s.writes)) && s.active == []
      && k <= |s.lh| && forall j :: 0 <= j < k ==> s.disk[Slot(j)] == s.mem[s.lh[j]]
    case Installing(k) =>
      h == s.lh && CleanElsewhere(s) && SameHome(s.mem, Committed(s, d0)) && s.active == []
      && s.durable == |s.writes| && InstalledUpTo(s, Committed(s, d0), k)
    case Erasing =>
      s.lh == [] && s.active == [] && s.durable == |s.writes|
      && SameHome(s.disk, Committed(s, d0)) && SameHome(s.mem, s.disk)
    case Finishing =>
      h == [] && s.lh == [] && s.active == [] && s.durable == |s.writes|
      && SameHome(s.disk, Committed(s, d0)) && SameHome(s.mem, s.disk)
    case Booting =>
      s.lh == [] && s.active == [] && s.durable == |s.writes| && SameHome(s.mem, s.disk)
    case Replaying(k) =>
      h == s.lh && s.active == [] && s.durable == |s.writes| && SameHome(s.mem, s.disk)
      && InstalledUpTo(s, Committed(s, d0), k)
    case BootErasing =>
      s.lh == [] && s.active == [] && s.durable == |s.writes|
      && SameHome(s.disk, Committed(s, d0)) && SameHome(s.mem, s.disk)
  }

  /** No operation has writes on both sides of the durable point, and none that is still running
    has any before it. */
  predicate OpsInv(s: State) {
    && s.durable <= |s.writes|
    && (forall i :: 0 <= i < |s.writes| ==> s.writes[i].op < s.nextOp)
    && (forall k :: 0 <= k < |s.active| ==> s.active[k].id < s.nextOp)
    && (forall k, i :: 0 <= k < |s.active| && 0 <= i < s.durable ==> s.active[k].id != s.writes[i].op)
    && (forall i, j :: 0 <= i < s.durable <= j < |s.writes| ==> s.writes[i].op != s.writes[j].op)
  }

  ghost predicate Inv(s: State, d0: Disk) {
    && Shape(s) && GoodDisk(s.disk) && |d0| == FSSIZE
    && |Committed(s, d0)| == |Replay(d0, s.writes)| == FSSIZE
    && Presents(s.disk, Committed(s, d0))
    && PhaseInv(s, d0)
    && OpsInv(s)
  }

  /** The blocks a run starts from: what recovery makes of the first image. */
  function Origin(disk: Disk): Disk
    requires GoodDisk(disk)
  {
    Recovered(disk)
  }

  lemma BootInv(disk: Disk)
    requires GoodDisk(disk)
    ensures Inv(Boot(disk), Origin(disk))
  {
    var s := Boot(disk);
    assert s.writes[..s.durable] == [];
    RecoveredIsPresented(disk, Origin(disk));
  }

  lemma ReplaySnoc(d: Disk, ws: seq<Write>, w: Write)
    requires |d| == FSSIZE && w.block < FSSIZE
    ensures |Replay(d, ws)| == FSSIZE
    ensures Replay(d, ws + [w]) == Replay(d, ws)[w.block := w.data]
  {
    ReplayShape(d, ws);
    assert (ws + [w])[..|ws|] == ws;
  }

  lemma BeginKeeps(s: State, d0: Disk, budget: nat)
    requires Inv(s, d0) && Enabled(s, Begin, budget)
    ensures Inv(Step(s, Begin, budget), d0)
  {
  }

  lemma LogWriteKeeps(s: State, d0: Disk, i: nat, b: nat, data: Block, budget: nat)
    requires Inv(s, d0) && Enabled(s, LogWrite(i, b, data), budget)
    ensures Inv(LogWriteStep(s, i, b, data), d0)
  {
    var w := Write(s.active[i].id, b, data);
    var t := LogWriteStep(s, i, b, data);
    ReplaySnoc(d0, s.writes, w);
    assert t.writes[..t.durable] == s.writes[..s.durable];
  }

  lemma EndKeeps(s: State, d0: Disk, i: nat)
    requires Inv(s, d0) && i < |s.active|
    ensures Inv(EndStep(s, i), d0)
  {
    assert s.writes[..|s.writes|] == s.writes;
  }

  lemma CrashKeeps(s: State, d0: Disk)
    requires Inv(s, d0)
    ensures Inv(CrashStep(s), d0)
  {
    var t := CrashStep(s);
    assert t.writes[..t.durable] == s.writes[..s.durable];
  }

  /** write_log and the first write_head: the state flips from the old view to the new one at the
    header write and nowhere else. */
  lemma {:induction false} CopyKeeps(s: State, d0: Disk)
    requires Inv(s, d0) && s.phase.Copying?
    ensures Inv(TickStep(s), d0)
  {
    var t := TickStep(s);
    if s.phase.k == |s.lh| {
      HeaderRoundTrip(s.disk[START], s.lh);
      assert t.writes[..t.durable] == s.writes;
    }
  }

  /** Installing one slot changes one home block, to what the disk already presents there. */
  lemma InstallOneKeepsView(d: Disk, v: Disk, k: nat)
    requires GoodDisk(d) && |v| == FSSIZE && Presents(d, v)
    requires k < |Header(d[START])|
    ensures var h := Header(d[START]);
            var e := d[h[k] := d[Slot(k)]];
            GoodDisk(e) && Header(e[START]) == h && Presents(e, v) && e[h[k]] == v[h[k]]
  {
  }

  /** Writing the presented contents to one listed block keeps what cache and disk agree on. */
  lemma WriteListed(disk: Disk, mem: Disk, v: Disk, h: seq<nat>, k: nat)
    requires |disk| == |mem| == |v| == FSSIZE && GoodList(h) && k < |h|
    requires forall j :: 0 <= j < k ==> disk[h[j]] == v[h[j]]
    ensures var d, m := disk[h[k] := v[h[k]]], mem[h[k] := v[h[k]]];
            && (forall j :: 0 <= j < k + 1 ==> d[h[j]] == v[h[j]])
            && (SameHome(mem, v) ==> SameHome(m, v))
            && (SameHome(mem, disk) ==> SameHome(m, d))
            && ((forall b: nat :: Home(b) && b !in h ==> mem[b] == disk[b]) ==>
                 forall b: nat :: Home(b) && b !in h ==> m[b] == d[b])
  {
  }

  lemma InstallOneState(s: State, t: State, v: Disk)
    requires Shape(s) && |v| == FSSIZE
    requires (s.phase.Installing? || s.phase.Replaying?) && s.phase.k < |s.lh|
    requires s.disk[Slot(s.phase.k)] == v[s.lh[s.phase.k]]
    requires InstalledUpTo(s, v, s.phase.k) && t == TickStep(s)
    ensures Shape(t) && InstalledUpTo(t, v, s.phase.k + 1)
    ensures CleanElsewhere(s) ==> CleanElsewhere(t)
    ensures SameHome(s.mem, v) ==> SameHome(t.mem, v)
    ensures SameHome(s.mem, s.disk) ==> SameHome(t.mem, t.disk)
  {
    hide Distinct;
    WriteListed(s.disk, s.mem, v, s.lh, s.phase.k);
  }

  lemma {:induction false} InstallOneKeeps(s: State, d0: Disk)
    requires Inv(s, d0) && (s.phase.Installing? || s.phase.Replaying?)
    requires s.phase.k < |s.lh|
    ensures Inv(TickStep(s), d0)
  {
    InstallOneKeepsView(s.disk, Committed(s, d0), s.phase.k);
    InstallOneState(s, TickStep(s), Committed(s, d0));
  }

  lemma InstallDoneKeeps(s: State, d0: Disk)
    requires Inv(s, d0) && (s.phase.Installing? || s.phase.Replaying?)
    requires s.phase.k == |s.lh|
    ensures Inv(TickStep(s), d0)
  {
    forall b: nat | Home(b) ensures s.disk[b] == Committed(s, d0)[b] {
      if b in s.lh {
        var j :| 0 <= j < |s.lh| && s.lh[j] == b;
      }
    }
  }

  lemma {:induction false} InstallKeeps(s: State, d0: Disk)
    requires Inv(s, d0) && (s.phase.Installing? || s.phase.Replaying?)
    ensures Inv(TickStep(s), d0)
  {
    if s.phase.k < |s.lh| {
      InstallOneKeeps(s, d0);
    } else {
      InstallDoneKeeps(s, d0);
    }
  }

  lemma EraseKeeps(s: State, d0: Disk)
    requires Inv(s, d0) && (s.phase.Erasing? || s.phase.BootErasing?)
    ensures Inv(TickStep(s), d0)
  {
    HeaderRoundTrip(s.disk[START], []);
    assert s.writes[..|s.writes|] == s.writes;
  }

  lemma FinishKeeps(s: State, d0: Disk)
    requires Inv(s, d0) && (s.phase.Finishing? || s.phase.Booting?)
    ensures Inv(TickStep(s), d0)
  {
    assert s.writes[..|s.writes|] == s.writes;
  }

  lemma StepKeeps(s: State, d0: Disk, e: Event, budget: nat)
    requires Inv(s, d0) && Enabled(s, e, budget)
    ensures Inv(Step(s, e, budget), d0)
  {
    match e
    case Begin => BeginKeeps(s, d0, budget);
    case LogWrite(i, b, data) => LogWriteKeeps(s, d0, i, b, data, budget);
    case End(i) => EndKeeps(s, d0, i);
    case Crash => CrashKeeps(s, d0);
    case Tick =>
      match s.phase
      case Copying(_) => CopyKeeps(s, d0);
      case Installing(_) => InstallKeeps(s, d0);
      case Replaying(_) => InstallKeeps(s, d0);
      case Erasing => EraseKeeps(s, d0);
      case BootErasing => EraseKeeps(s, d0);
      case Finishing => FinishKeeps(s, d0);
      case Booting => FinishKeeps(s, d0);
  }

  lemma {:induction false} ExecInv(disk: Disk, es: seq<Event>, budget: nat, s: State)
    requires GoodDisk(disk) && Exec(Boot(disk), es, budget) == Reached(s)
    ensures Inv(s, Origin(disk))
  {
    if es == [] {
      BootInv(disk);
    } else {
      var prefix := es[..|es| - 1];
      var t := Exec(Boot(disk), prefix, budget).s;
      ExecInv(disk, prefix, budget, t);
      StepKeeps(t, Origin(disk), es[|es| - 1], budget);
    }
  }

  /** Crash atomicity. After any interleaving of begin_op, log_write, end_op, commit steps, recovery
    steps and crashes, recovery would turn the disk into the effect of exactly the log_writes of
    the committed transactions, in order; and while calls run, the cache holds the effect of all
    the log_writes no crash has undone. */
  lemma CrashAtomicity(disk: Disk, es: seq<Event>, budget: nat, s: State)
    requires GoodDisk(disk) && Exec(Boot(disk), es, budget) == Reached(s)
    ensures GoodDisk(s.disk) && s.durable <= |s.writes|
    ensures |Replay(Recovered(disk), s.writes)| == |s.mem| == FSSIZE
    ensures |Replay(Recovered(disk), s.writes[..s.durable])| == FSSIZE
    ensures SameHome(Recovered(s.disk), Replay(Recovered(disk), s.writes[..s.durable]))
    ensures s.phase == Running ==> SameHome(s.mem, Replay(Recovered(disk), s.writes))
  {
    ExecInv(disk, es, budget, s);
    RecoveredIsPresented(s.disk, Committed(s, Origin(disk)));
  }

  /** All or nothing. The log_writes of one call are all in committed transactions or none is, and
    a call that has not reached end_op has none there. */
  lemma AllOrNothing(disk: Disk, es: seq<Event>, budget: nat, s: State, i: nat, j: nat)
    requires GoodDisk(disk) && Exec(Boot(disk), es, budget) == Reached(s)
    requires i < |s.writes| && j < |s.writes| && s.writes[i].op == s.writes[j].op
    ensures i < s.durable <==> j < s.durable
    ensures i < s.durable ==> forall k :: 0 <= k < |s.active| ==> s.active[k].id != s.writes[i].op
  {
    ExecInv(disk, es, budget, s);
  }

  /** A transaction survives if and only if its first write_head reached the disk: that one block
    write, made when no call is running, moves the durable point to the end of the history. Every
    other step keeps the committed prefix, and a crash keeps nothing else. */
  lemma CommitPoint(disk: Disk, es: seq<Event>, budget: nat, s: State, e: Event)
    requires GoodDisk(disk) && Exec(Boot(disk), es, budget) == Reached(s)
    requires Shape(s) && Enabled(s, e, budget)
    ensures var t := Step(s, e, budget);
            var headWrite := e == Tick && s.phase == Copying(|s.lh|);
            && (headWrite ==> s.active == [] && s.lh != [] && t.durable == |s.writes| && t.writes == s.writes)
            && (!headWrite ==> t.durable == s.durable && s.durable <= |t.writes|
                               && t.writes[..s.durable] == s.writes[..s.durable])
            && (e == Crash ==> t.writes == s.writes[..s.durable])
            && (e != Crash ==> s.writes <= t.writes)
  {
    ExecInv(disk, es, budget, s);
    ExecNonEmptyCopy(disk, es, budget, s);
    CopyingQuiet(s, Origin(disk));
    hide Inv, Shape, Boot, Exec, Recovered, TooBig, Admits, DiskShape, GoodList, Distinct, HeadBlock;
    assert s.durable <= |s.writes| && |s.mem| == FSSIZE;
  }

  lemma CopyingQuiet(s: State, d0: Disk)
    requires Inv(s, d0)
    ensures s.durable <= |s.writes| && |s.mem| == FSSIZE && (s.phase.Copying? ==> s.active == [])
  {
  }

  /** A property of disks that does not look at the log area. */
  ghost predicate OfHome(P: Disk -> bool) {
    forall d: Disk, e: Disk :: |d| == |e| == FSSIZE && SameHome(d, e) && P(d) ==> P(e)
  }

  /** Whenever in the run the last call has ended and commit begins, the blocks as bread shows them have it. */
  ghost predicate HoldsAtCommits(P: Disk -> bool, disk: Disk, es: seq<Event>, budget: nat) {
    forall k: nat, t: State :: k <= |es| && Exec(Boot(disk), es[..k], budget) == Reached(t) && t.phase.Copying?
                               ==> P(t.mem)
  }

  /** What calls keep among themselves survives every crash: if a property of the home blocks holds at the start
    and whenever the last of some concurrent calls ends, recovery finds it at every moment of the run. */
  lemma {:induction false} ConsistencySurvives(P: Disk -> bool, disk: Disk, es: seq<Event>, budget: nat, s: State)
    requires GoodDisk(disk) && Exec(Boot(disk), es, budget) == Reached(s)
    requires OfHome(P) && P(Recovered(disk)) && HoldsAtCommits(P, disk, es, budget)
    ensures GoodDisk(s.disk) && P(Recovered(s.disk))
  {
    hide HoldsAtCommits, Step, Enabled, Shape, Exec, Recovered, Replay, OfHome, Boot, SameHome;
    CommittedHas(P, disk, es, budget, s);
    CrashAtomicity(disk, es, budget, s);
    RecoveredShape(s.disk);
    HomeOf(P, Replay(Recovered(disk), s.writes[..s.durable]), Recovered(s.disk));
  }

  lemma RecoveredShape(d: Disk)
    requires GoodDisk(d)
    ensures |Recovered(d)| == FSSIZE
  {
  }

  lemma HomeOf(P: Disk -> bool, d: Disk, e: Disk)
    requires OfHome(P) && |d| == |e| == FSSIZE && SameHome(e, d) && P(d)
    ensures P(e)
  {
  }

  lemma {:induction false} CommittedHas(P: Disk -> bool, disk: Disk, es: seq<Event>, budget: nat, s: State)
    requires GoodDisk(disk) && Exec(Boot(disk), es, budget) == Reached(s)
    requires OfHome(P) && P(Recovered(disk)) && HoldsAtCommits(P, disk, es, budget)
    ensures s.durable <= |s.writes| && P(Committed(s, Recovered(disk)))
  {
    if es == [] {
      assert s.writes[..s.durable] == [];
    } else {
      var before, e := es[..|es| - 1], es[|es| - 1];
      var m := Exec(Boot(disk), before, budget).s;
      forall k: nat, t: State | k <= |before| && Exec(Boot(disk), before[..k], budget) == Reached(t) && t.phase.Copying?
        ensures P(t.mem)
      {
        assert before[..k] == es[..k];
      }
      CommittedHas(P, disk, before, budget, m);
      ExecInv(disk, before, budget, m);
      CommitPoint(disk, before, budget, m, e);
      if e == Tick && m.phase == Copying(|m.lh|) {
        assert es[..|before|] == before;
        assert P(m.mem);
        assert s.writes[..s.durable] == m.writes;
      } else {
        assert s.writes[..s.durable] == m.writes[..m.durable];
      }
    }
  }

  /** commit() writes the header only for a non-empty transaction. */
  lemma {:induction false} ExecNonEmptyCopy(disk: Disk, es: seq<Event>, budget: nat, s: State)
    requires GoodDisk(disk) && Exec(Boot(disk), es, budget) == Reached(s)
    ensures s.phase.Copying? ==> s.lh != []
  {
    if es != [] {
      ExecNonEmptyCopy(disk, es[..|es| - 1], budget, Exec(Boot(disk), es[..|es| - 1], budget).s);
    }
  }

  /** No end_op of a running call panics with "log.committing". */
  lemma EndNeverMeetsCommit(disk: Disk, es: seq<Event>, budget: nat, s: State)
    requires GoodDisk(disk) && Exec(Boot(disk), es, budget) == Reached(s)
    requires s.active != []
    ensures s.phase == Running
  {
    ExecInv(disk, es, budget, s);
  }

  /** n steps of commit or recovery with nothing in between. */
  function Ticks(n: nat): seq<Event> {
    seq(n, _ => Tick)
  }

  lemma ExecTick(s: State, n: nat, budget: nat, t: State)
    requires Exec(s, Ticks(n), budget) == Reached(t) && Shape(t) && t.phase != Running
    ensures Exec(s, Ticks(n + 1), budget) == Reached(TickStep(t))
  {
    assert Ticks(n + 1)[..n] == Ticks(n);
  }

  lemma NoTicks(s: State, budget: nat)
    ensures Exec(s, Ticks(0), budget) == Reached(s)
  {
    assert Ticks(0) == [];
  }

  lemma BootIs(s: State)
    requires s == Boot(s.disk).(nextOp := s.nextOp, writes := s.writes, durable := s.durable)
    ensures s == State(s.disk, s.disk, [], [], Booting, s.nextOp, s.writes, s.durable)
  {
  }

  lemma {:induction false} ReplayTicks(s: State, k: nat, budget: nat)
    requires GoodDisk(s.disk) && s == Boot(s.disk).(nextOp := s.nextOp, writes := s.writes, durable := s.durable)
    requires s.durable == |s.writes| && k <= |Header(s.disk[START])|
    ensures var h := Header(s.disk[START]);
            Exec(s, Ticks(1 + k), budget) == Reached(
              s.(disk := Installed(s.disk, h, k), mem := Installed(s.disk, h, k), lh := h, phase := Replaying(k)))
  {
    BootIs(s);
    hide Header, HeadBlock, Distinct, Exec, Boot;
    var h := Header(s.disk[START]);
    if k == 0 {
      assert Exec(s, Ticks(0), budget) == Reached(s) by { NoTicks(s, budget); }
      ExecTick(s, 0, budget, s);
    } else {
      ReplayTicks(s, k - 1, budget);
      var p := Installed(s.disk, h, k - 1);
      ExecTick(s, k, budget, s.(disk := p, mem := p, lh := h, phase := Replaying(k - 1)));
    }
  }

  /** Recovery finishes: from the state a crash leaves, n + 3 steps reach the running file system, n
    being the length of the list on disk, and then the cache holds the recovered blocks and the
    log is empty. Together with `CrashAtomicity` this also covers crashes inside recovery. */
  lemma {:induction false} RecoveryFinishes(s: State, d0: Disk, budget: nat)
    requires Inv(s, d0)
    ensures var o := Exec(CrashStep(s), Ticks(|Header(s.disk[START])| + 3), budget);
            && o.Reached? && o.s.phase == Running && o.s.lh == []
            && DiskShape(o.s.disk) && Header(o.s.disk[START]) == []
            && |o.s.mem| == FSSIZE && SameHome(o.s.mem, Recovered(s.disk))
            && SameHome(o.s.disk, Recovered(s.disk))
  {
    var c := CrashStep(s);
    var h := Header(s.disk[START]);
    ReplayTicks(c, |h|, budget);
    var p := Installed(c.disk, h, |h|);
    var t := c.(disk := p, mem := p, lh := h, phase := Replaying(|h|));
    RecoveryEnds(c, t, |h|, budget);
  }

  lemma RecoveryEnds(c: State, t: State, n: nat, budget: nat)
    requires Exec(c, Ticks(1 + n), budget) == Reached(t)
    requires Shape(t) && t.phase == Replaying(n) && |t.lh| == n && t.mem == t.disk
    ensures var o := Exec(c, Ticks(n + 3), budget);
            && o.Reached? && o.s.phase == Running && o.s.lh == [] && o.s.mem == t.mem
            && DiskShape(o.s.disk) && Header(o.s.disk[START]) == [] && SameHome(o.s.disk, t.disk)
  {
    hide Distinct;
    ExecTick(c, n + 1, budget, t);
    ExecTick(c, n + 2, budget, TickStep(t));
    HeaderRoundTrip(t.disk[START], []);
  }
}
