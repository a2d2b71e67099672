/** The log on top of the buffer cache: log_write pins buffers, and commit and recovery copy from buffer to
  buffer and bwrite. What bread returns for a home block is then what the machine of Journal calls `mem`, and
  crash atomicity holds of the real device. */
module CachedLog {
  import opened Wrappers
  import C = CacheMachine
  import J = Journal
  import S = JournalSafety

  const ROOTDEV: nat := 1     // include/param.h:11

  function K(b: nat): C.Key {
    C.Key(ROOTDEV, b)
  }

  datatype Both = Both(j: J.State, c: C.Cache)

  // ---------------------------------------------------------------- what the next step of commit or recovery does

  /** The blocks that write_log or install_trans copies next, from and to. */
  function Moves(j: J.State): Option<(nat, nat)> {
    match j.phase
    case Copying(k) => if k < |j.lh| then Some((j.lh[k], J.Slot(k))) else None
    case Installing(k) => if k < |j.lh| then Some((J.Slot(k), j.lh[k])) else None
    case Replaying(k) => if k < |j.lh| then Some((J.Slot(k), j.lh[k])) else None
    case _ => None
  }

  /** write_head comes next. */
  predicate WritesHead(j: J.State) {
    (j.phase.Copying? && Moves(j).None?) || j.phase.Erasing? || j.phase.BootErasing?
  }

  /** A step that writes no block: the header is read, lh.n or committing is cleared. */
  predicate WritesNothing(j: J.State) {
    !j.phase.Running? && Moves(j).None? && !WritesHead(j)
  }

  datatype Event =
    | Cache(op: C.Event)                             // bread and brelse, of the log or of anybody
    | Call(call: J.Event)                            // begin_op, end_op
    | Log(pid: nat, b: nat, i: nat, data: J.Block)   // change a buffer and log_write it, under its lock
    | Quiet
    | Copy(pid: nat, from: nat, to: nat)             // memmove between two buffers, then bwrite
    | Head(pid: nat, b: nat)                         // write_head
    | Crash(c: C.Cache)                              // the cache the next boot starts with

  predicate Touches(e: C.Event) {
    e.Get? || e.Lock? || e.Fill? || e.Unlock? || e.Drop?
  }

  /** The process has bread the block and not yet released it. */
  ghost predicate Has(c: C.Cache, pid: nat, b: nat, block: nat)
    requires C.Shape(c)
  {
    C.Holds(c, pid, b) && c.bufs[b].valid && c.bufs[b].key == K(block)
  }

  ghost predicate Enabled(s: Both, e: Event, budget: nat)
    requires C.Shape(s.c)
  {
    match e
    case Cache(x) => Touches(x) && C.Enabled(s.c, x)
    case Call(x) => (x.Begin? || x.End?) && J.Enabled(s.j, x, budget)
    case Log(pid, b, i, data) =>
      && b < C.NBUF && s.c.bufs[b].key.dev == ROOTDEV && Has(s.c, pid, b, s.c.bufs[b].key.blockno)
      && J.Enabled(s.j, J.LogWrite(i, s.c.bufs[b].key.blockno, data), budget)
    case Quiet => WritesNothing(s.j)
    case Copy(pid, from, to) =>
      Moves(s.j).Some? && Has(s.c, pid, from, Moves(s.j).value.0) && Has(s.c, pid, to, Moves(s.j).value.1)
    case Head(pid, b) => WritesHead(s.j) && Has(s.c, pid, b, J.START)
    case Crash(c) => C.Start(c) && c.disk == s.c.disk
  }

  /** New bytes for a held buffer, then bwrite. */
  ghost function Rewritten(c: C.Cache, pid: nat, b: nat, block: nat, data: J.Block): C.Cache
    requires C.Shape(c) && Has(c, pid, b, block)
  {
    C.Step(C.Step(c, C.Store(pid, b, K(block), data)), C.Write(pid, b, K(block), data))
  }

  ghost function Step(s: Both, e: Event, budget: nat): Both
    requires C.Shape(s.c) && J.Shape(s.j) && Enabled(s, e, budget)
    requires e.Head? ==> |s.c.bufs[e.b].data| == J.WORDS
  {
    match e
    case Cache(x) => Both(s.j, C.Step(s.c, x))
    case Call(x) => Both(J.Step(s.j, x, budget), s.c)
    case Log(pid, b, i, data) =>
      var block := s.c.bufs[b].key.blockno;
      Both(J.Step(s.j, J.LogWrite(i, block, data), budget),
           C.Step(C.Step(s.c, C.Store(pid, b, K(block), data)), C.Pin(pid, b)))
    case Quiet => Both(J.TickStep(s.j), s.c)
    case Copy(pid, from, to) => Both(J.TickStep(s.j), Rewritten(s.c, pid, to, Moves(s.j).value.1, s.c.bufs[from].data))
    case Head(pid, b) => Both(J.TickStep(s.j), Rewritten(s.c, pid, b, J.START, J.HeadBlock(s.c.bufs[b].data, s.j.lh)))
    case Crash(c) => Both(J.CrashStep(s.j), c)
  }

  // ---------------------------------------------------------------- the two agree

  predicate At(s: Both, b: nat) {
    && b < |s.j.disk| && b < |s.j.mem| && s.c.disk(K(b)) == s.j.disk[b]
    && s.c.mem(K(b)) == if J.Home(b) then s.j.mem[b] else s.j.disk[b]
  }

  /** The device is the journal's disk; the cache's bytes are the journal's memory outside the log area and
    the device's inside it. */
  ghost predicate Agree(s: Both) {
    C.Inv(s.c) && J.Shape(s.j) && forall b: nat :: b < J.FSSIZE ==> At(s, b)
  }

  /** What a process that has read a block sees. */
  lemma Sees(s: Both, pid: nat, b: nat, block: nat)
    requires Agree(s) && Has(s.c, pid, b, block) && block < J.FSSIZE
    ensures s.c.bufs[b].data == if J.Home(block) then s.j.mem[block] else s.j.disk[block]
  {
    assert C.Clean(s.c.bufs[b], s.c.disk, s.c.mem) && At(s, block);
  }

  lemma RewrittenIs(c: C.Cache, pid: nat, b: nat, block: nat, data: J.Block)
    requires C.Inv(c) && Has(c, pid, b, block)
    ensures var d := Rewritten(c, pid, b, block, data);
            && C.Inv(d)
            && forall k :: d.disk(k) == (if k == K(block) then data else c.disk(k))
                           && d.mem(k) == (if k == K(block) then data else c.mem(k))
  {
    var e := C.Store(pid, b, K(block), data);
    C.StepKeeps(c, e);
    C.StepKeeps(C.Step(c, e), C.Write(pid, b, K(block), data));
  }

  /** The journal's event for one of ours. */
  function JournalEvent(s: Both, e: Event): J.Event {
    match e
    case Cache(_) => J.Tick
    case Call(x) => x
    case Log(_, b, i, data) => if b < |s.c.bufs| then J.LogWrite(i, s.c.bufs[b].key.blockno, data) else J.Tick
    case Crash(_) => J.Crash
    case _ => J.Tick
  }

  lemma TouchKeeps(c: C.Cache, e: C.Event)
    requires C.Inv(c) && C.Enabled(c, e) && Touches(e)
    ensures C.Inv(C.Step(c, e)) && C.Step(c, e).disk == c.disk && C.Step(c, e).mem == c.mem
  {
    C.StepKeeps(c, e);
  }

  lemma LogAgrees(s: Both, e: Event, budget: nat)
    requires Agree(s) && Enabled(s, e, budget) && e.Log?
    ensures C.Inv(Step(s, e, budget).c)
    ensures var t := Step(s, e, budget); J.Shape(t.j) ==> Agree(t)
  {
    var block := s.c.bufs[e.b].key.blockno;
    var x := C.Store(e.pid, e.b, K(block), e.data);
    C.StepKeeps(s.c, x);
    C.StepKeeps(C.Step(s.c, x), C.Pin(e.pid, e.b));
    var t := Step(s, e, budget);
    assert J.Home(block);
    hide C.Inv, J.Shape;
    if J.Shape(t.j) {
      forall b: nat | b < J.FSSIZE ensures At(t, b) { assert At(s, b); }
    }
  }

  lemma CopyAgrees(s: Both, e: Event, budget: nat)
    requires Agree(s) && Enabled(s, e, budget) && e.Copy?
    ensures var t := Step(s, e, budget); C.Inv(t.c) && (J.Shape(t.j) ==> Agree(t))
  {
    var m := Moves(s.j).value;
    Sees(s, e.pid, e.from, m.0);
    RewrittenIs(s.c, e.pid, e.to, m.1, s.c.bufs[e.from].data);
    var t := Step(s, e, budget);
    if J.Shape(t.j) {
      forall b: nat | b < J.FSSIZE ensures At(t, b) { assert At(s, b); }
    }
  }

  lemma HeadAgrees(s: Both, e: Event, budget: nat)
    requires Agree(s) && Enabled(s, e, budget) && e.Head? && (!s.j.phase.Copying? ==> s.j.lh == [])
    ensures |s.c.bufs[e.b].data| == J.WORDS
    ensures var t := Step(s, e, budget); C.Inv(t.c) && (J.Shape(t.j) ==> Agree(t))
  {
    Sees(s, e.pid, e.b, J.START);
    assert J.DiskShape(s.j.disk);
    RewrittenIs(s.c, e.pid, e.b, J.START, J.HeadBlock(s.c.bufs[e.b].data, s.j.lh));
    var t := Step(s, e, budget);
    if J.Shape(t.j) {
      forall b: nat | b < J.FSSIZE ensures At(t, b) { assert At(s, b); }
    }
  }

  lemma OthersAgree(s: Both, e: Event, budget: nat)
    requires Agree(s) && Enabled(s, e, budget) && (e.Cache? || e.Call? || e.Quiet? || e.Crash?)
    ensures var t := Step(s, e, budget); C.Inv(t.c) && (J.Shape(t.j) ==> Agree(t))
  {
    if e.Cache? { TouchKeeps(s.c, e.op); }
    if e.Crash? { C.StartInv(e.c); }
    var t := Step(s, e, budget);
    hide C.Inv;
    if J.Shape(t.j) {
      forall b: nat | b < J.FSSIZE ensures At(t, b) { assert At(s, b); }
    }
  }

  /** Every step keeps the agreement, and is a step of the journal or none. */
  lemma StepAgrees(s: Both, e: Event, budget: nat, d0: J.Disk)
    requires Agree(s) && S.Inv(s.j, d0) && Enabled(s, e, budget)
    ensures e.Head? ==> |s.c.bufs[e.b].data| == J.WORDS
    ensures Agree(Step(s, e, budget)) && S.Inv(Step(s, e, budget).j, d0)
    ensures !e.Cache? ==> J.Enabled(s.j, JournalEvent(s, e), budget)
    ensures Step(s, e, budget).j == if e.Cache? then s.j else J.Step(s.j, JournalEvent(s, e), budget)
  {
    if e.Head? { HeadAgrees(s, e, budget); }
    else if e.Copy? { CopyAgrees(s, e, budget); }
    else if e.Log? { LogAgrees(s, e, budget); }
    else { OthersAgree(s, e, budget); }
    if !e.Cache? { S.StepKeeps(s.j, d0, JournalEvent(s, e), budget); }
  }

  // ---------------------------------------------------------------- whole runs

  /** The machine boots on a device with a cache that knows nothing of it. */
  ghost predicate Boots(disk: J.Disk, s: Both) {
    && J.GoodDisk(disk) && s.j == J.Boot(disk) && C.Start(s.c)
    && forall b: nat :: b < J.FSSIZE ==> s.c.disk(K(b)) == disk[b]
  }

  ghost predicate Follows(m: Both, e: Event, s: Both, budget: nat) {
    && C.Shape(m.c) && J.Shape(m.j) && Enabled(m, e, budget)
    && (e.Head? ==> |m.c.bufs[e.b].data| == J.WORDS) && s == Step(m, e, budget)
  }

  /** The events of run lead to s, and `js` are the journal's among them. */
  ghost predicate Leads(first: Both, run: seq<Event>, js: seq<J.Event>, s: Both, budget: nat)
    decreases |run|
  {
    if run == [] then s == first && js == []
    else
      var e := run[|run| - 1];
      exists m: Both, ks: seq<J.Event> ::
        && Leads(first, run[..|run| - 1], ks, m, budget) && Follows(m, e, s, budget)
        && js == if e.Cache? then ks else ks + [JournalEvent(m, e)]
  }

  ghost function Before(first: Both, run: seq<Event>, js: seq<J.Event>, s: Both, budget: nat): (p: (Both, seq<J.Event>))
    requires run != [] && Leads(first, run, js, s, budget)
    ensures Leads(first, run[..|run| - 1], p.1, p.0, budget)
    ensures Follows(p.0, run[|run| - 1], s, budget)
    ensures js == if run[|run| - 1].Cache? then p.1 else p.1 + [JournalEvent(p.0, run[|run| - 1])]
  {
    var e := run[|run| - 1];
    var m: Both, ks: seq<J.Event> :|
      && Leads(first, run[..|run| - 1], ks, m, budget) && Follows(m, e, s, budget)
      && js == if e.Cache? then ks else ks + [JournalEvent(m, e)];
    (m, ks)
  }

  /** The two machines agree, and the journal's is the result of the events `js`. */
  ghost predicate Good(disk: J.Disk, js: seq<J.Event>, s: Both, budget: nat) {
    && J.GoodDisk(disk) && Agree(s) && S.Inv(s.j, S.Origin(disk))
    && J.Exec(J.Boot(disk), js, budget) == J.Reached(s.j)
  }

  lemma GoodStart(disk: J.Disk, s: Both, budget: nat)
    requires Boots(disk, s)
    ensures Good(disk, [], s, budget)
  {
    S.BootInv(disk);
    C.StartInv(s.c);
  }

  lemma ExecNext(j0: J.State, js: seq<J.Event>, e: J.Event, budget: nat, j: J.State)
    requires J.Exec(j0, js, budget) == J.Reached(j) && J.Shape(j) && J.Enabled(j, e, budget)
    ensures J.Exec(j0, js + [e], budget) == J.Reached(J.Step(j, e, budget))
  {
    assert (js + [e])[..|js|] == js;
  }

  lemma GoodNext(disk: J.Disk, ks: seq<J.Event>, m: Both, e: Event, t: Both, budget: nat)
    requires Good(disk, ks, m, budget) && Follows(m, e, t, budget)
    ensures Good(disk, if e.Cache? then ks else ks + [JournalEvent(m, e)], t, budget)
  {
    StepAgrees(m, e, budget, S.Origin(disk));
    hide S.Inv, J.Boot, J.Enabled, J.Step, Step, Enabled, S.Origin, J.GoodDisk, JournalEvent;
    if !e.Cache? { ExecNext(J.Boot(disk), ks, JournalEvent(m, e), budget, m.j); }
  }

  lemma {:induction false} RunAgrees(disk: J.Disk, first: Both, run: seq<Event>, js: seq<J.Event>, s: Both,
                                     budget: nat)
    requires Boots(disk, first) && Leads(first, run, js, s, budget)
    ensures Good(disk, js, s, budget)
    decreases |run|
  {
    hide Follows, Boots, Good, JournalEvent;
    if run == [] {
      GoodStart(disk, first, budget);
    } else {
      var e := run[|run| - 1];
      var p := Before(first, run, js, s, budget);
      RunAgrees(disk, first, run[..|run| - 1], p.1, p.0, budget);
      GoodNext(disk, p.1, p.0, e, s, budget);
    }
  }

  /** The device as recovery will find it. */
  ghost function Device(s: Both): J.Disk {
    seq(J.FSSIZE, b requires 0 <= b < J.FSSIZE => s.c.disk(K(b)))
  }

  /** Over every run of processes, log, commits, recoveries and crashes on the real cache: recovery of the
    device gives the committed log_writes in order, exactly. */
  lemma CrashAtomicityOverCache(disk: J.Disk, first: Both, run: seq<Event>, js: seq<J.Event>, s: Both, budget: nat)
    requires Boots(disk, first) && Leads(first, run, js, s, budget)
    ensures J.GoodDisk(Device(s)) && s.j.durable <= |s.j.writes|
    ensures |J.Replay(J.Recovered(disk), s.j.writes[..s.j.durable])| == J.FSSIZE
    ensures J.SameHome(J.Recovered(Device(s)), J.Replay(J.Recovered(disk), s.j.writes[..s.j.durable]))
  {
    RunAgrees(disk, first, run, js, s, budget);
    DeviceIs(s);
    S.CrashAtomicity(disk, js, budget, s.j);
  }

  lemma DeviceIs(s: Both)
    requires Agree(s)
    ensures Device(s) == s.j.disk
  {
    forall b: nat | b < J.FSSIZE ensures Device(s)[b] == s.j.disk[b] { assert At(s, b); }
  }

  /** And whoever has read a home block while the system runs has before him all the log_writes that no crash
    has undone. */
  lemma ReadersSeeTheLog(disk: J.Disk, first: Both, run: seq<Event>, js: seq<J.Event>, s: Both, budget: nat,
                         pid: nat, b: nat, block: nat)
    requires Boots(disk, first) && Leads(first, run, js, s, budget)
    requires C.Shape(s.c) && Has(s.c, pid, b, block) && J.Home(block) && s.j.phase == J.Running
    ensures |J.Replay(J.Recovered(disk), s.j.writes)| == J.FSSIZE
    ensures s.c.bufs[b].data == J.Replay(J.Recovered(disk), s.j.writes)[block]
  {
    RunAgrees(disk, first, run, js, s, budget);
    Sees(s, pid, b, block);
    S.CrashAtomicity(disk, js, budget, s.j);
  }
}
