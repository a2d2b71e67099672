/** The redo journal of kernel/log.c as a machine that makes at most one disk-block write per step.

  The disk is a sequence of blocks; `mem` is what `bread` returns for each block, that is, the
  disk overlaid with the pinned dirty buffers. A crash may fall between any two steps, those of
  recovery included: it keeps the disk and forgets everything else. */
module Journal {
  import opened Params

  const FSSIZE: nat := 25600      // include/param.h:20
  const WORDS: nat := 512         // BSIZE / sizeof(int)
  const START: nat := 2           // kernel/mkfs.c:100, the header block
  const NLOG: nat := LOGSIZE      // kernel/mkfs.c:33, header block included

  /** A disk block seen as 32-bit words, the view `struct logheader` takes of it. */
  type Block = seq<nat>
  type Disk = seq<Block>

  predicate DiskShape(d: Disk) {
    && |d| == FSSIZE
    && forall b :: 0 <= b < FSSIZE ==> |d[b]| == WORDS
  }

  /** Blocks outside the log area. */
  predicate Home(b: nat) {
    b < FSSIZE && !(START <= b < START + NLOG)
  }

  predicate Distinct(s: seq<nat>) {
    forall i, j :: 0 <= i < j < |s| ==> s[i] != s[j]
  }

  /** A list `install_trans` can follow: home blocks, no repetition, one log slot each. */
  predicate GoodList(h: seq<nat>) {
    && |h| <= NLOG - 1
    && Distinct(h)
    && forall i :: 0 <= i < |h| ==> Home(h[i])
  }

  /** The log slot of entry k. */
  function Slot(k: nat): nat { START + 1 + k }

  /** The block list a header block holds, as `read_head` copies it. */
  function Header(b: Block): seq<nat>
  {
    if |b| == WORDS && b[0] <= LOGSIZE then b[1..1 + b[0]] else []
  }

  /** `write_head` changes n and the first n entries of the header block and nothing else. */
  function HeadBlock(prev: Block, h: seq<nat>): Block
    requires |prev| == WORDS && |h| <= LOGSIZE
  {
    [|h|] + h + prev[1 + |h|..]
  }

  lemma HeaderRoundTrip(b: Block, h: seq<nat>)
    requires |b| == WORDS && |h| <= LOGSIZE
    ensures |HeadBlock(b, h)| == WORDS
    ensures Header(HeadBlock(b, h)) == h
  {
    assert HeadBlock(b, h)[1..1 + |h|] == h;
  }

  // ---------------------------------------------------------------- the machine

  /** A file-system call between begin_op and end_op, with the blocks it has logged. */
  datatype Op = Op(id: nat, logged: set<nat>)

  /** One log_write: operation `op` put `data` into the buffer of `block`. */
  datatype Write = Write(op: nat, block: nat, data: Block)

  datatype Phase =
    | Running              // committing == 0
    | Copying(k: nat)      // write_log has written k log slots
    | Installing(k: nat)   // the header is on disk and k home blocks are installed
    | Erasing              // lh.n = 0, about to clear the header on disk
    | Finishing            // commit() has returned, committing still 1
    | Booting              // before read_head
    | Replaying(k: nat)    // recovery has installed k home blocks
    | BootErasing          // recovery has set lh.n = 0

  /** `writes` and `durable` are history: the log_writes so far that a crash has not undone, and how
    many of them are in committed transactions. `nextOp` numbers the calls. */
  datatype State = State(
    disk: Disk, mem: Disk, lh: seq<nat>, active: seq<Op>, phase: Phase,
    nextOp: nat, writes: seq<Write>, durable: nat)

  datatype Event =
    | Begin                                       // begin_op takes the branch that admits it
    | LogWrite(i: nat, block: nat, data: Block)   // by the i-th active operation
    | End(i: nat)                                 // end_op of the i-th active operation
    | Tick                                        // the next step of commit or of recovery
    | Crash

  function Boot(disk: Disk): State {
    State(disk, disk, [], [], Booting, 0, [], 0)
  }

  /** The test of begin_op that lets a call in: no commit, and room for MAXOPBLOCKS more. */
  predicate Admits(s: State) {
    s.phase == Running && Fits(|s.lh|, |s.active|)
  }

  /** The test with which log_write panics with "too big a transaction". */
  predicate TooBig(s: State) {
    |s.lh| >= LOGSIZE || |s.lh| >= NLOG - 1
  }

  /** Can `e` happen in `s`, when a call may log up to `budget` distinct blocks? */
  predicate Enabled(s: State, e: Event, budget: nat) {
    match e
    case Begin => Admits(s)
    case LogWrite(i, b, data) =>
      && i < |s.active|
      && Home(b) && |data| == WORDS
      && |s.active[i].logged + {b}| <= budget
      && !TooBig(s)
    case End(i) => i < |s.active|
    case Tick => s.phase != Running
    case Crash => true
  }

  function RecordBlock(lh: seq<nat>, b: nat): seq<nat> {
    if b in lh then lh else lh + [b]
  }

  /** The next step of commit() (kernel/log.c:166-189) or recover_from_log() (kernel/log.c:109-114). */
  function TickStep(s: State): State
    requires Shape(s) && s.phase != Running
  {
    match s.phase
    case Running => s
    case Copying(k) =>
      if k < |s.lh| then
        s.(disk := s.disk[Slot(k) := s.mem[s.lh[k]]], phase := Copying(k + 1))
      else
        s.(disk := s.disk[START := HeadBlock(s.disk[START], s.lh)],
        phase := Installing(0), durable := |s.writes|)
    case Installing(k) =>
      if k < |s.lh| then
        s.(disk := s.disk[s.lh[k] := s.disk[Slot(k)]],
        mem := s.mem[s.lh[k] := s.disk[Slot(k)]], phase := Installing(k + 1))
      else
        s.(lh := [], phase := Erasing)
    case Erasing =>
      s.(disk := s.disk[START := HeadBlock(s.disk[START], [])], phase := Finishing)
    case Finishing =>
      s.(phase := Running)
    case Booting =>
      s.(lh := Header(s.disk[START]), phase := Replaying(0))
    case Replaying(k) =>
      if k < |s.lh| then
        s.(disk := s.disk[s.lh[k] := s.disk[Slot(k)]],
        mem := s.mem[s.lh[k] := s.disk[Slot(k)]], phase := Replaying(k + 1))
      else
        s.(lh := [], phase := BootErasing)
    case BootErasing =>
      s.(disk := s.disk[START := HeadBlock(s.disk[START], [])], phase := Running)
  }

  function Remove<T>(s: seq<T>, i: nat): seq<T>
    requires i < |s|
  {
    s[..i] + s[i + 1..]
  }

  /** The last end_op starts the commit; an empty transaction writes nothing. */
  function EndStep(s: State, i: nat): State
    requires i < |s.active|
  {
    var rest := Remove(s.active, i);
    s.(active := rest,
    phase := if rest != [] then s.phase else if s.lh == [] then Finishing else Copying(0))
  }

  function LogWriteStep(s: State, i: nat, b: nat, data: Block): State
    requires i < |s.active| && b < |s.mem|
  {
    var op := s.active[i];
    s.(mem := s.mem[b := data],
    lh := RecordBlock(s.lh, b),
    active := s.active[i := op.(logged := op.logged + {b})],
    writes := s.writes + [Write(op.id, b, data)])
  }

  /** A crash keeps the disk. What had not committed is gone from the history too. */
  function CrashStep(s: State): State
    requires s.durable <= |s.writes|
  {
    State(s.disk, s.disk, [], [], Booting, s.nextOp, s.writes[..s.durable], s.durable)
  }

  /** What every state is known to satisfy for a step to be defined. */
  predicate Shape(s: State) {
    && DiskShape(s.disk) && DiskShape(s.mem)
    && GoodList(s.lh)
    && s.durable <= |s.writes|
  }

  function Step(s: State, e: Event, budget: nat): State
    requires Shape(s) && Enabled(s, e, budget)
  {
    match e
    case Begin => s.(active := s.active + [Op(s.nextOp, {})], nextOp := s.nextOp + 1)
    case LogWrite(i, b, data) => LogWriteStep(s, i, b, data)
    case End(i) => EndStep(s, i)
    case Tick => TickStep(s)
    case Crash => CrashStep(s)
  }

  datatype Outcome = Reached(s: State) | Stuck

  /** The state after the events `es`, or Stuck if one of them could not happen. */
  function Exec(s: State, es: seq<Event>, budget: nat): Outcome {
    if es == [] then Reached(s)
    else
      match Exec(s, es[..|es| - 1], budget)
      case Stuck => Stuck
      case Reached(t) =>
        if Shape(t) && Enabled(t, es[|es| - 1], budget) then Reached(Step(t, es[|es| - 1], budget))
        else Stuck
  }

  // ---------------------------------------------------------------- what the disk means

  /** The disk after the log_writes `ws` are made directly, in order: the meaning of a history. */
  function Replay(d: Disk, ws: seq<Write>): Disk
  {
    if ws == [] then d
    else
      var p := Replay(d, ws[..|ws| - 1]);
      var w := ws[|ws| - 1];
      if w.block < |p| then p[w.block := w.data] else p
  }

  /** Home blocks after install_trans has copied the first k slots of the list h. */
  function Installed(d: Disk, h: seq<nat>, k: nat): Disk
    requires DiskShape(d) && GoodList(h) && k <= |h|
    ensures DiskShape(Installed(d, h, k))
  {
    if k == 0 then d
    else
      var p := Installed(d, h, k - 1);
      p[h[k - 1] := p[Slot(k - 1)]]
  }

  predicate GoodDisk(d: Disk) {
    DiskShape(d) && d[START][0] <= LOGSIZE && GoodList(Header(d[START]))
  }

  /** What recovery makes of the home blocks of a disk. */
  function Recovered(d: Disk): Disk
    requires GoodDisk(d)
  {
    Installed(d, Header(d[START]), |Header(d[START])|)
  }

  ghost predicate SameHome(d: Disk, e: Disk)
    requires |d| == |e| == FSSIZE
  {
    forall b: nat :: Home(b) ==> d[b] == e[b]
  }

  /** Without iterating: `v` is what the header and the slots of `d` say the home blocks are. */
  ghost predicate Presents(d: Disk, v: Disk)
    requires GoodDisk(d) && |v| == FSSIZE
  {
    var h := Header(d[START]);
    && (forall j :: 0 <= j < |h| ==> d[Slot(j)] == v[h[j]])
    && (forall b: nat :: Home(b) && b !in h ==> d[b] == v[b])
  }

  lemma {:induction false} InstalledIs(d: Disk, h: seq<nat>, k: nat)
    requires DiskShape(d) && GoodList(h) && k <= |h|
    ensures forall j :: 0 <= j < k ==> Installed(d, h, k)[h[j]] == d[Slot(j)]
    ensures forall b :: 0 <= b < FSSIZE && b !in h[..k] ==> Installed(d, h, k)[b] == d[b]
  {
    if k > 0 {
      InstalledIs(d, h, k - 1);
      assert h[..k] == h[..k - 1] + [h[k - 1]];
    }
  }

  /** Recovery computes exactly what the header and the slots say. */
  lemma {:induction false} RecoveredIsPresented(d: Disk, v: Disk)
    requires GoodDisk(d) && |v| == FSSIZE
    ensures Presents(d, v) <==> SameHome(Recovered(d), v)
  {
    var h := Header(d[START]);
    InstalledIs(d, h, |h|);
    assert h[..|h|] == h;
    if SameHome(Recovered(d), v) {
      forall j | 0 <= j < |h| ensures d[Slot(j)] == v[h[j]] {
        assert Home(h[j]);
        assert Recovered(d)[h[j]] == d[Slot(j)];
      }
      forall b: nat | Home(b) && b !in h ensures d[b] == v[b] {
        assert Recovered(d)[b] == d[b];
      }
    }
    if Presents(d, v) {
      forall b: nat | Home(b) ensures Recovered(d)[b] == v[b] {
        if b in h {
          var j :| 0 <= j < |h| && h[j] == b;
          assert Recovered(d)[h[j]] == d[Slot(j)];
        }
      }
    }
  }

  lemma {:induction false} ReplayShape(d: Disk, ws: seq<Write>)
    requires |d| == FSSIZE
    ensures |Replay(d, ws)| == FSSIZE
  {
    if ws != [] { ReplayShape(d, ws[..|ws| - 1]); }
  }
}
