/** Log space: how many distinct blocks may one call log before "too big a transaction" can fire?

  include/param.h calls MAXOPBLOCKS = 10 the maximum; begin_op reserves that much. But the header
  takes one of the LOGSIZE blocks mkfs gives the log, and `log_write` stops one block earlier still.
  `BudgetIsSafe` shows that nine distinct blocks per call are safe in every interleaving and ten
  are not. */
module JournalSpace {
  import opened Journal
  import opened JournalSafety

  /** What the running calls may still log, at nine blocks each. */
  function Reserved(active: seq<Op>): int {
    if active == [] then 0 else 9 - |active[0].logged| + Reserved(active[1..])
  }

  ghost predicate SpaceInv(s: State) {
    && (forall i :: 0 <= i < |s.active| ==>
        |s.active[i].logged| <= 9 && forall b :: b in s.active[i].logged ==> b in s.lh)
    && (s.active != [] ==> |s.lh| + Reserved(s.active) <= 28)
    && (!s.phase.Replaying? ==> |s.lh| <= 28)
  }

  lemma {:induction false} ReservedBound(active: seq<Op>)
    requires forall i :: 0 <= i < |active| ==> |active[i].logged| <= 9
    ensures 0 <= Reserved(active) <= 9 * |active|
  {
    if active != [] { ReservedBound(active[1..]); }
  }

  lemma {:induction false} ReservedAppend(active: seq<Op>, op: Op)
    ensures Reserved(active + [op]) == Reserved(active) + 9 - |op.logged|
  {
    if active == [] {
      assert [op][1..] == [];
    } else {
      assert (active + [op])[1..] == active[1..] + [op];
      ReservedAppend(active[1..], op);
    }
  }

  lemma {:induction false} ReservedUpdate(active: seq<Op>, i: nat, op: Op)
    requires i < |active|
    ensures Reserved(active[i := op]) == Reserved(active) + |active[i].logged| - |op.logged|
  {
    if i == 0 {
      assert active[0 := op][1..] == active[1..];
    } else {
      assert active[i := op][1..] == active[1..][i - 1 := op];
      ReservedUpdate(active[1..], i - 1, op);
    }
  }

  lemma {:induction false} ReservedRemove(active: seq<Op>, i: nat)
    requires i < |active|
    ensures Reserved(Remove(active, i)) == Reserved(active) - 9 + |active[i].logged|
  {
    if i == 0 {
      assert Remove(active, 0) == active[1..];
    } else {
      assert Remove(active, i)[1..] == Remove(active[1..], i - 1);
      ReservedRemove(active[1..], i - 1);
    }
  }

  lemma BeginSpace(s: State, d0: Disk)
    requires Inv(s, d0) && SpaceInv(s) && Admits(s)
    ensures SpaceInv(s.(active := s.active + [Op(s.nextOp, {})], nextOp := s.nextOp + 1))
  {
    ReservedAppend(s.active, Op(s.nextOp, {}));
    ReservedBound(s.active);
  }

  lemma LogWriteSpace(s: State, d0: Disk, i: nat, b: nat, data: Block)
    requires Inv(s, d0) && SpaceInv(s) && Enabled(s, LogWrite(i, b, data), 9)
    ensures SpaceInv(LogWriteStep(s, i, b, data))
  {
    var t := LogWriteStep(s, i, b, data);
    ReservedUpdate(s.active, i, t.active[i]);
    ReservedBound(t.active);
    if b in s.active[i].logged {
      assert s.active[i].logged + {b} == s.active[i].logged;
    }
  }

  lemma EndSpace(s: State, d0: Disk, i: nat)
    requires Inv(s, d0) && SpaceInv(s) && i < |s.active|
    ensures SpaceInv(EndStep(s, i))
  {
    ReservedRemove(s.active, i);
  }

  lemma {:induction false} StepSpace(s: State, d0: Disk, e: Event)
    requires Inv(s, d0) && SpaceInv(s) && Enabled(s, e, 9)
    ensures SpaceInv(Step(s, e, 9))
  {
    match e
    case Begin => BeginSpace(s, d0);
    case LogWrite(i, b, data) => LogWriteSpace(s, d0, i, b, data);
    case End(i) => EndSpace(s, d0, i);
    case Crash =>
    case Tick =>
  }

  lemma {:induction false} ExecSpace(disk: Disk, es: seq<Event>, budget: nat, s: State)
    requires GoodDisk(disk) && budget <= 9
    requires Exec(Boot(disk), es, budget) == Reached(s)
    ensures SpaceInv(s) && Inv(s, Origin(disk))
  {
    ExecInv(disk, es, budget, s);
    if es != [] {
      var prefix := es[..|es| - 1];
      var t := Exec(Boot(disk), prefix, budget).s;
      ExecSpace(disk, prefix, budget, t);
      StepSpace(t, Origin(disk), es[|es| - 1]);
    }
  }

  /** With at most nine distinct blocks per call the in-memory list never exceeds 28 blocks while
    calls run. */
  lemma ListStaysShort(disk: Disk, es: seq<Event>, budget: nat, s: State)
    requires GoodDisk(disk) && budget <= 9
    requires Exec(Boot(disk), es, budget) == Reached(s) && s.active != []
    ensures |s.lh| <= 28
  {
    ExecSpace(disk, es, budget, s);
    ReservedBound(s.active);
  }

  /** Nor while they are committed: only the list recovery finds on the first disk may be one longer. */
  lemma CommitStaysShort(disk: Disk, es: seq<Event>, budget: nat, s: State)
    requires GoodDisk(disk) && budget <= 9 && Exec(Boot(disk), es, budget) == Reached(s)
    ensures !s.phase.Replaying? ==> |s.lh| <= 28
  {
    ExecSpace(disk, es, budget, s);
  }

  /** A call is running and its next log_write would panic with "too big a transaction". */
  predicate Overflows(s: State) {
    s.active != [] && TooBig(s)
  }

  /** With at most `budget` distinct blocks per call no run overflows. */
  ghost predicate SafeBudget(budget: nat) {
    forall disk, es, s | GoodDisk(disk) && Exec(Boot(disk), es, budget) == Reached(s) :: !Overflows(s)
  }

  // ---------------------------------------------------------------- ten blocks are too many

  lemma ExecSnoc(s: State, es: seq<Event>, e: Event, budget: nat, t: State)
    requires Exec(s, es, budget) == Reached(t) && Shape(t) && Enabled(t, e, budget)
    ensures Exec(s, es + [e], budget) == Reached(Step(t, e, budget))
  {
    assert (es + [e])[..|es|] == es;
  }

  const BASE: nat := 100   // any home block will do

  /** The set of the m blocks from `first` on. */
  function BlockSet(first: nat, m: nat): set<nat>
    ensures |BlockSet(first, m)| == m
    ensures forall b :: b in BlockSet(first, m) <==> first <= b < first + m
  {
    if m == 0 then {} else BlockSet(first, m - 1) + {first + m - 1}
  }

  /** The list holds the n blocks BASE, BASE + 1, ... */
  predicate Filled(s: State, n: nat) {
    && Shape(s) && s.phase == Running && |s.lh| == n
    && forall j :: 0 <= j < n ==> s.lh[j] == BASE + j
  }

  /** Three calls are admitted on an empty log. */
  lemma ThreeBegin(disk: Disk, budget: nat) returns (es: seq<Event>, s: State)
    requires GoodDisk(disk) && Header(disk[START]) == []
    ensures Exec(Boot(disk), es, budget) == Reached(s) && Filled(s, 0)
    ensures |s.active| == 3 && forall i :: 0 <= i < 3 ==> s.active[i].logged == {}
  {
    es, s := [], Boot(disk);
    for n := 0 to 3
      invariant Exec(Boot(disk), es, budget) == Reached(s) && Shape(s) && s.lh == [] && s.active == []
      invariant s.phase == if n == 0 then Booting else if n == 1 then Replaying(0)
                           else if n == 2 then BootErasing else Running
      invariant Header(s.disk[START]) == []
    {
      HeaderRoundTrip(s.disk[START], []);
      ExecSnoc(Boot(disk), es, Tick, budget, s);
      es, s := es + [Tick], Step(s, Tick, budget);
    }
    for n := 0 to 3
      invariant Exec(Boot(disk), es, budget) == Reached(s) && Filled(s, 0) && |s.active| == n
      invariant forall i :: 0 <= i < n ==> s.active[i].logged == {}
    {
      ExecSnoc(Boot(disk), es, Begin, budget, s);
      es, s := es + [Begin], Step(s, Begin, budget);
    }
  }

  lemma LogOne(s: State, i: nat, n: nat, m: nat, data: Block, budget: nat)
    requires Filled(s, n) && n < 29 && i < |s.active| && m < 10 && m <= n && budget >= 10
    requires s.active[i].logged == BlockSet(BASE + n - m, m) && |data| == WORDS
    ensures Enabled(s, LogWrite(i, BASE + n, data), budget)
    ensures var t := LogWriteStep(s, i, BASE + n, data);
            && Filled(t, n + 1)
            && t.active == s.active[i := Op(s.active[i].id, BlockSet(BASE + n - m, m + 1))]
  {
    assert s.active[i].logged + {BASE + n} == BlockSet(BASE + n - m, m + 1);
    assert BASE + n !in s.lh;
  }

  /** The i-th call logs m new blocks, one after the other. */
  lemma {:induction false} LogMany(disk: Disk, es: seq<Event>, s: State, i: nat, n: nat, m: nat, data: Block,
                                   budget: nat)
    returns (es': seq<Event>, t: State)
    requires Exec(Boot(disk), es, budget) == Reached(s) && Filled(s, n)
    requires i < |s.active| && s.active[i].logged == {}
    requires m <= 10 <= budget && n + m <= 29 && |data| == WORDS
    ensures Exec(Boot(disk), es', budget) == Reached(t) && Filled(t, n + m) && |t.active| == |s.active|
    ensures t.active == s.active[i := Op(s.active[i].id, BlockSet(BASE + n, m))]
  {
    if m == 0 {
      es', t := es, s;
    } else {
      es', t := LogMany(disk, es, s, i, n, m - 1, data, budget);
      var e := LogWrite(i, BASE + n + m - 1, data);
      LogOne(t, i, n + m - 1, m - 1, data, budget);
      ExecSnoc(Boot(disk), es', e, budget, t);
      es', t := es' + [e], Step(t, e, budget);
    }
  }

  /** Three calls that log ten different blocks each: 10 + 10 + 9 blocks are in the list when the
    third call makes its tenth log_write. */
  lemma TenOverflows(disk: Disk, data: Block, budget: nat) returns (es: seq<Event>, s: State)
    requires GoodDisk(disk) && Header(disk[START]) == [] && budget >= 10 && |data| == WORDS
    ensures Exec(Boot(disk), es, budget) == Reached(s) && Overflows(s)
  {
    hide Exec, Shape, GoodDisk, BlockSet;
    es, s := ThreeBegin(disk, budget);
    es, s := LogMany(disk, es, s, 0, 0, 10, data, budget);
    es, s := LogMany(disk, es, s, 1, 10, 10, data, budget);
    es, s := LogMany(disk, es, s, 2, 20, 9, data, budget);
  }

  /** The exact bound: nine distinct blocks per call, one fewer than MAXOPBLOCKS. */
  lemma BudgetIsSafe(budget: nat)
    ensures SafeBudget(budget) <==> budget <= 9
  {
    if budget <= 9 {
      forall disk, es, s | GoodDisk(disk) && Exec(Boot(disk), es, budget) == Reached(s)
        ensures !Overflows(s)
      {
        if s.active != [] { ListStaysShort(disk, es, budget, s); }
      }
    } else {
      var zero: Block := seq(WORDS, _ => 0);
      var disk: Disk := seq(FSSIZE, _ => zero);
      assert Header(disk[START]) == [];
      var es, s := TenOverflows(disk, zero, budget);
    }
  }
}
