/** kernel/log.c as written: `struct log` with its methods, on top of a disk and a buffer cache.

  The ghost field `run` is the list of all states so far, one per disk-block write (and per entry
  into or out of the log). `Valid` says that each of them follows from the one before by a step of
  the Journal machine, so everything JournalSafety proves of the machine holds of this code at
  every point where the power may fail. */
module Log {
  import opened Params
  import W = Waits
  import opened Journal
  import opened JournalSafety

  /** The states of a run from the first boot on `image`, each a step of the machine after the one before. */
  ghost predicate IsRun(run: seq<State>, image: Disk, budget: nat)
    decreases |run|
  {
    && run != []
    && if |run| == 1 then run[0] == Boot(image)
       else IsRun(run[..|run| - 1], image, budget) && Follows(run[|run| - 2], run[|run| - 1], budget)
  }

  ghost predicate Follows(s: State, t: State, budget: nat) {
    Shape(s) && exists e :: Enabled(s, e, budget) && t == Step(s, e, budget)
  }

  /** Every state of a run has the invariant of JournalSafety. */
  lemma {:induction false} RunInv(run: seq<State>, image: Disk, budget: nat, i: nat)
    requires GoodDisk(image) && IsRun(run, image, budget) && i < |run|
    ensures Inv(run[i], Origin(image))
    decreases |run|
  {
    hide Inv;
    if |run| == 1 {
      BootInv(image);
    } else if i < |run| - 1 {
      RunInv(run[..|run| - 1], image, budget, i);
      assert run[..|run| - 1][i] == run[i];
    } else {
      RunInv(run[..|run| - 1], image, budget, |run| - 2);
      var s := run[|run| - 2];
      assert s == run[..|run| - 1][|run| - 2];
      assert Follows(s, run[i], budget);
      var e :| Enabled(s, e, budget) && run[i] == Step(s, e, budget);
      StepKeeps(s, Origin(image), e, budget);
    }
  }

  /** So a power failure in any state of a run recovers to the committed writes, exactly. */
  lemma RunRecovers(run: seq<State>, image: Disk, budget: nat, i: nat)
    requires GoodDisk(image) && IsRun(run, image, budget) && i < |run|
    ensures GoodDisk(run[i].disk) && run[i].durable <= |run[i].writes|
    ensures |Replay(Recovered(image), run[i].writes[..run[i].durable])| == FSSIZE
    ensures SameHome(Recovered(run[i].disk), Replay(Recovered(image), run[i].writes[..run[i].durable]))
  {
    RunInv(run, image, budget, i);
    RecoveredIsPresented(run[i].disk, Committed(run[i], Origin(image)));
  }

  /** While a call runs, no commit is in progress. */
  lemma ActiveMeansRunning(run: seq<State>, image: Disk, budget: nat)
    requires GoodDisk(image) && run != [] && IsRun(run, image, budget) && run[|run| - 1].active != []
    ensures run[|run| - 1].phase == Running
  {
    RunInv(run, image, budget, |run| - 1);
  }

  /** When neither a call nor a commit is in progress the log is empty, everything is durable, and
    cache, disk and the committed writes agree. */
  lemma QuietState(run: seq<State>, image: Disk, budget: nat)
    requires GoodDisk(image) && run != [] && IsRun(run, image, budget)
    requires var s := run[|run| - 1]; s.phase == Finishing || (s.phase == Running && s.active == [])
    ensures var s := run[|run| - 1];
            && Shape(s) && s.lh == [] && s.durable == |s.writes| && SameHome(s.disk, s.mem)
            && Header(s.disk[START]) == []
            && |Replay(Recovered(image), s.writes)| == FSSIZE
            && SameHome(s.disk, Replay(Recovered(image), s.writes))
  {
    var s := run[|run| - 1];
    RunInv(run, image, budget, |run| - 1);
    assert s.writes[..|s.writes|] == s.writes;
  }

  lemma BootState(run: seq<State>, image: Disk, budget: nat)
    requires GoodDisk(image) && run != [] && IsRun(run, image, budget)
    requires run[|run| - 1].phase == Booting
    ensures var s := run[|run| - 1];
            && GoodDisk(s.disk) && s.active == []
            && |Replay(Recovered(image), s.writes)| == FSSIZE
            && SameHome(Recovered(s.disk), Replay(Recovered(image), s.writes))
  {
    var s := run[|run| - 1];
    RunInv(run, image, budget, |run| - 1);
    assert s.writes[..|s.writes|] == s.writes;
    RecoveredIsPresented(s.disk, Committed(s, Origin(image)));
  }

  lemma {:induction false} ExtendRun(run: seq<State>, image: Disk, e: Event, budget: nat)
    requires GoodDisk(image) && IsRun(run, image, budget) && Enabled(run[|run| - 1], e, budget)
    ensures Shape(run[|run| - 1])
    ensures IsRun(run + [Step(run[|run| - 1], e, budget)], image, budget)
    ensures Shape(Step(run[|run| - 1], e, budget))
  {
    RunInv(run, image, budget, |run| - 1);
    StepKeeps(run[|run| - 1], Origin(image), e, budget);
    var next := run + [Step(run[|run| - 1], e, budget)];
    assert next[..|next| - 1] == run;
  }

  predicate InCommit(p: Phase) {
    p.Copying? || p.Installing? || p.Erasing? || p.Finishing?
  }

  /** Clearing lh.n during a commit. */
  lemma EraseIs(w: W.LogWord)
    ensures w.committing ==> W.LogGate().enabled(w, W.Erase)
    ensures W.LogGate().apply(w, W.Erase) == w.(n := 0)
  {
  }

  class Log {
    var disk: Disk               // the device
    var cache: Disk              // what bread(dev, b) returns
    var n: nat                   // log.lh.n
    const block: array<nat>      // log.lh.block
    var outstanding: nat
    var committing: bool
    ghost var run: seq<State>
    ghost var wakeups: nat       // calls of wakeup(&log)
    ghost const image: Disk      // the disk at the first boot
    ghost const budget: nat      // distinct blocks a call may log

    ghost predicate Valid()
      reads this, block
    {
      && block.Length == LOGSIZE && n < NLOG
      && GoodDisk(image) && run != [] && IsRun(run, image, budget)
      && var s := run[|run| - 1];
      && Shape(s)
      && s.disk == disk && s.mem == cache && s.lh == block[..n]
      && |s.active| == outstanding
      && committing == InCommit(s.phase)
    }

    /** The log as the monitor of Waits sees it. */
    function Word(): W.LogWord
      reads this
    {
      W.LogWord(n, outstanding, committing)
    }

    method Wakeup()
      modifies this`wakeups
      ensures wakeups == old(wakeups) + 1
    {
      wakeups := wakeups + 1;
    }

    /** The state of the machine. */
    ghost function Now(): State
      requires run != []
      reads this
    {
      run[|run| - 1]
    }

    /** The machine boots on a disk that holds a log: initlog (kernel/log.c:53). */
    constructor (image: Disk, ghost budget: nat)
      requires GoodDisk(image)
      ensures Valid() && fresh(block) && run == [Boot(image)]
      ensures this.image == image && this.budget == budget
    {
      disk, cache := image, image;
      n := 0;
      block := new nat[LOGSIZE];
      outstanding, committing := 0, false;
      run, wakeups := [Boot(image)], 0;
      this.image := image;
      this.budget := budget;
    }

    /** One more step of the machine, made visible in the history. */
    ghost method Record(e: Event)
      requires GoodDisk(image) && run != [] && IsRun(run, image, budget) && Enabled(Now(), e, budget)
      modifies this`run
      ensures Shape(old(Now())) && run == old(run) + [Step(old(Now()), e, budget)]
      ensures IsRun(run, image, budget) && Shape(Now())
    {
      hide Step;
      ExtendRun(run, image, e, budget);
      run := run + [Step(Now(), e, budget)];
    }

    /** write_log: one disk write per logged block, none of which recovery can see. */
    method WriteLog()
      requires Valid() && Now().phase == Copying(0)
      modifies this`disk, this`run
      ensures Valid() && Now().phase == Copying(n)
      ensures |run| == |old(run)| + n && old(run) <= run
      ensures forall i :: |old(run)| <= i < |run| ==>
                run[i].durable == old(Now()).durable && run[i].writes == old(Now()).writes
    {
      hide IsRun;
      var tail := 0;
      while tail < n
        invariant tail <= n && Valid() && Now().phase == Copying(tail)
        invariant |run| == |old(run)| + tail && old(run) <= run
        invariant Now().durable == old(Now()).durable && Now().writes == old(Now()).writes
        invariant forall i :: |old(run)| <= i < |run| ==>
                run[i].durable == old(Now()).durable && run[i].writes == old(Now()).writes
      {
        assert Now().lh[tail] == block[tail];
        Record(Tick);
        disk := disk[START + tail + 1 := cache[block[tail]]];
        tail := tail + 1;
      }
    }

    /** write_head: the header block takes the in-memory list. */
    method WriteHead()
      requires Valid()
      requires Now().phase == Copying(n) || Now().phase == Erasing || Now().phase == BootErasing
      requires !Now().phase.Copying? ==> n == 0
      modifies this`disk, this`run
      ensures Valid() && run == old(run + [TickStep(Now())])
      ensures Header(disk[START]) == block[..n]
    {
      hide IsRun, Header;
      HeaderRoundTrip(disk[START], block[..n]);
      assert block[..0] == [];
      var hb := CopyHead(disk[START]);
      Record(Tick);
      disk := disk[START := hb];
    }

    /** The copying loop of write_head. */
    method CopyHead(head: Block) returns (hb: Block)
      requires |head| == WORDS && n <= LOGSIZE == block.Length
      ensures hb == HeadBlock(head, block[..n])
    {
      var i := 0;
      hb := head[0 := n];
      while i < n
        invariant i <= n && |hb| == WORDS
        invariant hb == [n] + block[..i] + head[1 + i..]
      {
        hb := hb[1 + i := block[i]];
        i := i + 1;
      }
    }

    /** install_trans, in a commit or in recovery: one disk write per logged block, and recovery
      from any of these states gives the same home blocks. */
    method InstallTrans()
      requires Valid() && (Now().phase == Installing(0) || Now().phase == Replaying(0))
      modifies this`disk, this`cache, this`run
      ensures Valid()
      ensures Now().phase == if old(Now()).phase.Installing? then Installing(n) else Replaying(n)
      ensures |run| == |old(run)| + n && old(run) <= run
      ensures Now().writes == old(Now()).writes && Now().active == old(Now()).active
      ensures forall i :: |old(run)| <= i < |run| ==>
                run[i].durable == old(Now()).durable && run[i].writes == old(Now()).writes
      ensures disk == Installed(old(disk), block[..n], n)
    {
      hide IsRun, GoodList, Header, Fits, Step, TickStep, DiskShape;
      var tail := 0;
      while tail < n
        invariant tail <= n && Valid()
        invariant Now().phase == if old(Now()).phase.Installing? then Installing(tail) else Replaying(tail)
        invariant |run| == |old(run)| + tail && old(run) <= run
        invariant Now().durable == old(Now()).durable && Now().writes == old(Now()).writes
        invariant Now().active == old(Now()).active
        invariant forall i :: |old(run)| <= i < |run| ==>
                run[i].durable == old(Now()).durable && run[i].writes == old(Now()).writes
        invariant disk == Installed(old(disk), block[..n], tail)
      {
        assert block[..n][tail] == block[tail];
        InstallOne(tail);
        tail := tail + 1;
      }
    }

    /** One round of it: a log block goes to its home. */
    method InstallOne(tail: nat)
      requires Valid() && tail < n && (Now().phase == Installing(tail) || Now().phase == Replaying(tail))
      modifies this`disk, this`cache, this`run
      ensures Valid() && |run| == |old(run)| + 1 && old(run) <= run
      ensures Now().phase == if old(Now()).phase.Installing? then Installing(tail + 1) else Replaying(tail + 1)
      ensures Now().durable == old(Now()).durable && Now().writes == old(Now()).writes
      ensures Now().active == old(Now()).active
      ensures Slot(tail) < |old(disk)| && block[tail] < |old(disk)|
              && disk == old(disk)[block[tail] := old(disk)[Slot(tail)]]
    {
      hide IsRun, Distinct, Header, Fits;
      assert block[..n][tail] == block[tail];
      Record(Tick);
      var lbuf := disk[START + tail + 1];
      cache := cache[block[tail] := lbuf];
      disk := disk[block[tail] := lbuf];
    }

    /** lh.n = 0 and a write_head, after everything is installed: the end of commit
      (kernel/log.c:186-187) and of recovery (kernel/log.c:112-113). */
    method ClearLog()
      requires Valid() && (Now().phase == Installing(n) || Now().phase == Replaying(n))
      modifies this`disk, this`n, this`run
      ensures Valid() && n == 0 && |run| == |old(run)| + 2 && old(run) <= run
      ensures Now().phase == if old(Now()).phase.Installing? then Finishing else Running
      ensures Now().active == old(Now()).active
      ensures forall i :: |old(run)| <= i < |run| ==>
                run[i].durable == old(Now()).durable && run[i].writes == old(Now()).writes
    {
      hide IsRun;
      Record(Tick);
      n := 0;
      assert block[..0] == [];
      WriteHead();
    }

    /** commit: n slot writes, the header, n home writes and the header again. If the power fails
      before the header write, recovery gives what the last transaction left; from that write on it
      gives the blocks this transaction put into the cache. */
    method Commit()
      requires Valid() && committing && Now().active == []
      requires Now().phase == if n == 0 then Finishing else Copying(0)
      modifies this`disk, this`cache, this`n, this`run
      ensures Valid() && n == 0 && Now().phase == Finishing && old(run) <= run
      ensures Now().durable == |Now().writes| && Now().writes == old(Now()).writes
      ensures |run| == |old(run)| + (if old(n) == 0 then 0 else 2 * old(n) + 3)
      ensures forall i :: |old(run)| <= i < |run| ==>
                run[i].durable == if i < |old(run)| + old(n) then old(Now()).durable else |old(Now()).writes|
      ensures forall b: nat :: Home(b) ==> disk[b] == cache[b]
      ensures W.LogGate().enabled(old(Word()), W.Erase) && Word() == W.LogGate().apply(old(Word()), W.Erase)
    {
      EraseIs(Word());
      hide IsRun, Installed, HeadBlock, GoodList, DiskShape, Header, W.LogGate;
      if n > 0 {
        WriteLog();
        WriteHead();
        InstallTrans();
        ClearLog();
      }
      QuietState(run, image, budget);
    }

    /** recover_from_log: whatever the crash left, afterwards disk and cache hold what the disk
      presented before, and the log is empty. */
    method RecoverFromLog()
      requires Valid() && Now().phase == Booting
      modifies this`disk, this`cache, this`n, this`run, block
      ensures Valid() && n == 0 && Now().phase == Running && old(run) <= run
      ensures forall i :: |old(run)| <= i < |run| ==>
                run[i].durable == old(Now()).durable && run[i].writes == old(Now()).writes
      ensures GoodDisk(old(disk)) && SameHome(disk, Recovered(old(disk))) && SameHome(cache, disk)
      ensures Header(disk[START]) == []
    {
      hide IsRun, Installed, HeadBlock, Replay, Recovered, GoodList, DiskShape;
      BootState(run, image, budget);
      ReadHead();
      InstallTrans();
      ClearLog();
      QuietState(run, image, budget);
    }

    /** read_head: the in-memory list becomes the one on disk. */
    method ReadHead()
      requires Valid() && Now().phase == Booting
      modifies this`n, this`run, block
      ensures Valid() && run == old(run + [TickStep(Now())])
      ensures block[..n] == Header(disk[START]) && Now().phase == Replaying(0)
    {
      hide IsRun;
      BootState(run, image, budget);
      var lh := disk[START];
      n := lh[0];
      CopyList(lh);
      Record(Tick);
    }

    /** The copying loop of read_head. */
    method CopyList(lh: Block)
      requires block.Length == LOGSIZE && |lh| == WORDS && lh[0] <= LOGSIZE && n == lh[0]
      modifies block
      ensures block[..n] == Header(lh)
    {
      ghost var h := Header(lh);
      var i := 0;
      while i < n
        invariant i <= n == |h| && block[..i] == h[..i]
      {
        block[i] := lh[1 + i];
        i := i + 1;
      }
      assert h[..|h|] == h;
    }

    /** One round of the loop in begin_op: either the call is admitted, or it must sleep, and it
      sleeps only for a commit or for want of space. */
    method TryBeginOp() returns (admitted: bool)
      requires Valid() && (Now().phase == Running || committing)
      modifies this`outstanding, this`run
      ensures Valid()
      ensures admitted <==> !old(committing) && n + (old(outstanding) + 1) * 10 <= 30
      ensures admitted ==> outstanding == old(outstanding) + 1 && run == old(run + [Step(Now(), Begin, budget)])
      ensures !admitted ==> outstanding == old(outstanding) && run == old(run)
      ensures admitted <==> !W.LogGate().blocked(old(Word()))
      ensures Word() == if admitted then W.LogGate().apply(old(Word()), W.Admit) else old(Word())
    {
      hide IsRun;
      if committing {
        return false;
      } else if n + (outstanding + 1) * MAXOPBLOCKS > LOGSIZE {
        return false;
      }
      Record(Begin);
      outstanding := outstanding + 1;
      return true;
    }

    /** log_write by the call with index i in the history, after it has put `data` into the buffer
      of block b; `panic` is the "too big a transaction" panic. */
    method LogWrite(b: nat, data: Block, ghost i: nat) returns (panic: bool)
      requires Valid() && Home(b) && |data| == WORDS
      requires i < |Now().active| && |Now().active[i].logged + {b}| <= budget
      modifies this`cache, this`n, this`run, block
      ensures Valid()
      ensures panic <==> old(n) >= NLOG - 1
      ensures panic ==> run == old(run) && n == old(n) && cache == old(cache)
      ensures !panic ==>
                && run == old(run) + [Step(old(Now()), Event.LogWrite(i, b, data), budget)]
                && block[..n] == RecordBlock(old(block[..n]), b)
      ensures Word() == if !panic && b !in old(block[..n]) then W.LogGate().apply(old(Word()), W.Record)
                        else old(Word())
    {
      hide IsRun;
      if n >= LOGSIZE || n >= NLOG - 1 {
        return true;
      }
      ActiveMeansRunning(run, image, budget);
      ghost var before := Now();
      Record(Event.LogWrite(i, b, data));
      cache := cache[b := data];
      var k := 0;
      while k < n && block[k] != b
        invariant k <= n
        invariant forall j :: 0 <= j < k ==> block[j] != b
      {
        k := k + 1;
      }
      assert b in before.lh ==> k < n;
      block[k] := b;
      if k == n {
        n := n + 1;
      }
      return false;
    }

    /** end_op: the last call to leave commits, and then everything logged so far is durable. */
    method EndOp(ghost i: nat)
      requires Valid() && i < |Now().active|
      modifies this`disk, this`cache, this`n, this`outstanding, this`committing, this`run, this`wakeups
      ensures Valid() && old(run) <= run && outstanding == old(outstanding) - 1
      ensures Now().phase == Running && Now().writes == old(Now()).writes
      ensures Now().active == Remove(old(Now()).active, i)
      ensures outstanding == 0 ==> n == 0 && Now().durable == |Now().writes|
                                   && forall b: nat :: Home(b) ==> disk[b] == cache[b]
      ensures outstanding > 0 ==> n == old(n) && disk == old(disk) && Now().durable == old(Now()).durable
      ensures wakeups == old(wakeups) + 1
    {
      hide IsRun, GoodList, DiskShape, Header, GoodDisk;
      var last := Leave(i);
      if last {
        Commit();
        FinishCommit();
      }
    }

    /** The first critical section of end_op: the call leaves, and wakes those in begin_op unless it is the last
      and has to commit. */
    method Leave(ghost i: nat) returns (last: bool)
      requires Valid() && i < |Now().active|
      modifies this`outstanding, this`committing, this`run, this`wakeups
      ensures Valid() && old(run) <= run && run == old(run + [Step(Now(), End(i), budget)])
      ensures outstanding == old(outstanding) - 1 && last == (outstanding == 0) == committing
      ensures Now().writes == old(Now()).writes && Now().durable == old(Now()).durable
      ensures Now().active == Remove(old(Now()).active, i)
      ensures Now().phase == if !last then Running else if n == 0 then Finishing else Copying(0)
      ensures var op := if last then W.LeaveLast else W.Leave;
              && W.LogGate().enabled(old(Word()), op) && Word() == W.LogGate().apply(old(Word()), op)
              && wakeups == old(wakeups) + if W.LogGate().wakes(op) then 1 else 0
    {
      hide IsRun;
      ActiveMeansRunning(run, image, budget);
      Record(End(i));
      outstanding := outstanding - 1;
      last := outstanding == 0;
      if last {
        committing := true;
      } else {
        Wakeup();
      }
    }

    /** The second critical section of end_op, after commit(). */
    method FinishCommit()
      requires Valid() && Now().phase == Finishing
      modifies this`committing, this`run, this`wakeups
      ensures Valid() && run == old(run + [TickStep(Now())])
      ensures W.LogGate().enabled(old(Word()), W.Finish) && Word() == W.LogGate().apply(old(Word()), W.Finish)
      ensures W.LogGate().wakes(W.Finish) && wakeups == old(wakeups) + 1
    {
      hide IsRun, GoodList, DiskShape, Header;
      Record(Tick);
      committing := false;
      Wakeup();
    }
  }
}
