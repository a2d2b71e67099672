/** When can bget panic for want of a buffer? The log pins a buffer for each listed block until that block is
  installed; the rest must be referenced by processes. */
module CachePressure {
  import N = JournalSpace
  import opened CachedLog

  /** The blocks whose buffers commit has still to write home. */
  function Pinned(j: J.State): seq<nat> {
    match j.phase
    case Running => j.lh
    case Copying(_) => j.lh
    case Installing(k) => if k <= |j.lh| then j.lh[k..] else []
    case _ => []
  }

  predicate ListedOne(b: C.Buf, pinned: seq<nat>) {
    b.dirty ==> b.key.dev == ROOTDEV && b.key.blockno in pinned
  }

  /** Only buffers of those blocks are marked dirty. */
  predicate Listed(bufs: seq<C.Buf>, pinned: seq<nat>) {
    forall b :: 0 <= b < |bufs| ==> ListedOne(bufs[b], pinned)
  }

  // ---------------------------------------------------------------- every step keeps that

  lemma OnlyOne(c: C.Cache, b: nat, x: nat)
    requires C.Inv(c) && b < C.NBUF && x < C.NBUF && b != x && c.bufs[b].valid && c.bufs[x].key == c.bufs[b].key
    ensures !c.bufs[x].dirty
  {
    assert b in c.order && x in c.order;
    var i :| 0 <= i < |c.order| && c.order[i] == b;
    var j :| 0 <= j < |c.order| && c.order[j] == x;
  }

  lemma RewrittenBufs(c: C.Cache, pid: nat, b: nat, block: nat, data: J.Block)
    requires C.Inv(c) && Has(c, pid, b, block)
    ensures var d := Rewritten(c, pid, b, block, data);
            |d.bufs| == |c.bufs| && !d.bufs[b].dirty
            && forall x :: 0 <= x < |c.bufs| && x != b ==> d.bufs[x] == c.bufs[x]
  {
  }

  lemma TouchListed(c: C.Cache, e: C.Event, pinned: seq<nat>)
    requires C.Inv(c) && C.Enabled(c, e) && Touches(e) && Listed(c.bufs, pinned)
    ensures Listed(C.Step(c, e).bufs, pinned)
  {
    if e.Get? && !C.Hit(c, e.key, e.b) { assert C.Victim(c, e.b); }
    forall b | 0 <= b < |c.bufs| ensures ListedOne(C.Step(c, e).bufs[b], pinned) {
      assert ListedOne(c.bufs[b], pinned);
    }
  }

  lemma LogListed(s: Both, e: Event, budget: nat)
    requires C.Inv(s.c) && J.Shape(s.j) && Enabled(s, e, budget) && e.Log? && s.j.phase == J.Running
    requires Listed(s.c.bufs, Pinned(s.j))
    ensures Listed(Step(s, e, budget).c.bufs, Pinned(Step(s, e, budget).j))
  {
    var t := Step(s, e, budget);
    forall b | 0 <= b < |s.c.bufs| ensures ListedOne(t.c.bufs[b], Pinned(t.j)) {
      assert ListedOne(s.c.bufs[b], Pinned(s.j));
    }
  }

  lemma PinnedTick(j: J.State)
    requires J.Shape(j) && j.phase != J.Running && Moves(j).Some?
    ensures forall b :: b in Pinned(j) ==> b in Pinned(J.TickStep(j)) || (j.phase.Installing? && b == Moves(j).value.1)
  {
    hide J.GoodList;
    if j.phase.Installing? { assert Pinned(j) == [Moves(j).value.1] + Pinned(J.TickStep(j)); }
  }

  lemma CopyListed(s: Both, e: Event, budget: nat)
    requires C.Inv(s.c) && J.Shape(s.j) && Enabled(s, e, budget) && e.Copy? && Listed(s.c.bufs, Pinned(s.j))
    ensures Listed(Step(s, e, budget).c.bufs, Pinned(Step(s, e, budget).j))
  {
    var m := Moves(s.j).value;
    var t := Step(s, e, budget);
    RewrittenBufs(s.c, e.pid, e.to, m.1, s.c.bufs[e.from].data);
    PinnedTick(s.j);
    hide C.OneEach, C.Counted, C.Coherent, C.Recent, J.TickStep, Pinned, Rewritten, C.Once, J.DiskShape, J.GoodList;
    forall b | 0 <= b < |s.c.bufs| && b != e.to ensures ListedOne(t.c.bufs[b], Pinned(t.j)) {
      assert ListedOne(s.c.bufs[b], Pinned(s.j));
      if s.c.bufs[b].key == K(m.1) { OnlyOne(s.c, e.to, b); }
    }
  }

  lemma HeadListed(s: Both, e: Event, budget: nat)
    requires C.Inv(s.c) && J.Shape(s.j) && Enabled(s, e, budget) && e.Head? && Listed(s.c.bufs, Pinned(s.j))
    requires |s.c.bufs[e.b].data| == J.WORDS && (s.j.phase.Copying? ==> s.j.phase.k == |s.j.lh|)
    ensures Listed(Step(s, e, budget).c.bufs, Pinned(Step(s, e, budget).j))
  {
    var t := Step(s, e, budget);
    RewrittenBufs(s.c, e.pid, e.b, J.START, J.HeadBlock(s.c.bufs[e.b].data, s.j.lh));
    forall b | 0 <= b < |s.c.bufs| && b != e.b ensures ListedOne(t.c.bufs[b], Pinned(t.j)) {
      assert ListedOne(s.c.bufs[b], Pinned(s.j));
    }
  }

  lemma OthersListed(s: Both, e: Event, budget: nat, d0: J.Disk)
    requires C.Inv(s.c) && S.Inv(s.j, d0) && Enabled(s, e, budget) && Listed(s.c.bufs, Pinned(s.j))
    requires e.Cache? || e.Call? || e.Quiet? || e.Crash?
    ensures Listed(Step(s, e, budget).c.bufs, Pinned(Step(s, e, budget).j))
  {
    if e.Cache? { TouchListed(s.c, e.op, Pinned(s.j)); }
    var t := Step(s, e, budget);
    forall b | 0 <= b < |s.c.bufs| && !e.Cache? && !e.Crash? ensures ListedOne(t.c.bufs[b], Pinned(t.j)) {
      assert ListedOne(s.c.bufs[b], Pinned(s.j));
    }
  }

  lemma NextListed(s: Both, e: Event, t: Both, budget: nat, d0: J.Disk)
    requires Agree(s) && S.Inv(s.j, d0) && Follows(s, e, t, budget) && Listed(s.c.bufs, Pinned(s.j))
    requires s.j.phase.Copying? ==> s.j.phase.k <= |s.j.lh|
    requires e.Log? ==> s.j.phase == J.Running
    ensures Listed(t.c.bufs, Pinned(t.j))
  {
    hide J.TickStep, J.Step, Rewritten, C.Step, Listed, C.Inv, J.Shape;
    if e.Copy? { CopyListed(s, e, budget); }
    else if e.Head? { HeadListed(s, e, budget); }
    else if e.Log? { LogListed(s, e, budget); }
    else { OthersListed(s, e, budget, d0); }
  }

  lemma PhaseIs(j: J.State, d0: J.Disk)
    requires S.Inv(j, d0)
    ensures j.phase.Copying? ==> j.phase.k <= |j.lh|
    ensures j.active != [] ==> j.phase == J.Running
  {
  }

  lemma {:induction false} RunListed(disk: J.Disk, first: Both, run: seq<Event>, js: seq<J.Event>, s: Both,
                                     budget: nat)
    requires Boots(disk, first) && Leads(first, run, js, s, budget)
    ensures Listed(s.c.bufs, Pinned(s.j))
    decreases |run|
  {
    hide Follows, Good, JournalEvent, Listed, Agree, S.Inv;
    if run == [] {
      BootListed(disk, first);
    } else {
      var e := run[|run| - 1];
      var p := Before(first, run, js, s, budget);
      RunListed(disk, first, run[..|run| - 1], p.1, p.0, budget);
      RunAgrees(disk, first, run[..|run| - 1], p.1, p.0, budget);
      GoodListed(disk, p.1, p.0, e, s, budget);
    }
  }

  lemma GoodListed(disk: J.Disk, js: seq<J.Event>, s: Both, e: Event, t: Both, budget: nat)
    requires Good(disk, js, s, budget) && Follows(s, e, t, budget) && Listed(s.c.bufs, Pinned(s.j))
    ensures Listed(t.c.bufs, Pinned(t.j))
  {
    PhaseIs(s.j, S.Origin(disk));
    NextListed(s, e, t, budget, S.Origin(disk));
  }

  lemma BootListed(disk: J.Disk, s: Both)
    requires Boots(disk, s)
    ensures Listed(s.c.bufs, Pinned(s.j))
  {
  }

  // ---------------------------------------------------------------- counting buffers

  /** Buffers pinned by the log. */
  function Dirty(c: C.Cache): set<nat> {
    set b: nat | b < |c.bufs| && c.bufs[b].dirty
  }

  /** Buffers that are not, and that processes reference. */
  function Outside(c: C.Cache): set<nat> {
    set b: nat | b < |c.bufs| && !c.bufs[b].dirty && c.bufs[b].refcnt > 0
  }

  function Below(n: nat): (s: set<nat>)
    ensures |s| == n && forall b: nat :: b in s <==> b < n
  {
    if n == 0 then {} else Below(n - 1) + {n - 1}
  }

  lemma SubsetCount(a: set<nat>, b: set<nat>)
    requires a <= b
    ensures |a| <= |b| && (|a| == |b| ==> a == b)
    decreases b
  {
    if a != {} {
      var x :| x in a;
      SubsetCount(a - {x}, b - {x});
      assert a == (a - {x}) + {x} && b == (b - {x}) + {x};
    } else {
      assert |b| == 0 ==> b == {};
    }
  }

  lemma AllBusy(c: C.Cache, n: nat)
    requires |c.bufs| == n
    ensures |Outside(c)| + |Dirty(c)| <= n
    ensures |Outside(c)| + |Dirty(c)| == n <==> forall b :: 0 <= b < n ==> !C.Free(c.bufs[b])
  {
    var busy := Outside(c) + Dirty(c);
    assert |busy| == |Outside(c)| + |Dirty(c)|;
    SubsetCount(busy, Below(n));
    if busy == Below(n) {
      forall b: nat | b < n ensures !C.Free(c.bufs[b]) { assert b in busy; }
    } else {
      var b :| b in Below(n) && b !in busy;
      assert C.Free(c.bufs[b]);
    }
  }

  /** bget panics exactly when the block is not cached and pinned and referenced buffers are all there are. */
  lemma PanicsExactly(c: C.Cache, pid: nat, key: C.Key)
    requires C.Inv(c)
    ensures (forall b: nat :: b < C.NBUF ==> !C.Enabled(c, C.Get(pid, key, b)))
            <==> C.Missing(c, key) && |Outside(c)| + |Dirty(c)| == C.NBUF
  {
    C.PanicsWhenFull(c, pid, key);
    AllBusy(c, C.NBUF);
  }

  lemma {:induction false} DistinctBlocks(c: C.Cache, bs: set<nat>, pinned: seq<nat>)
    requires C.Inv(c) && bs <= Dirty(c)
    requires forall b :: b in bs ==> c.bufs[b].key.dev == ROOTDEV && c.bufs[b].key.blockno in pinned
    ensures |bs| <= |pinned|
    decreases |pinned|
  {
    if bs != {} {
      var b :| b in bs;
      var block := c.bufs[b].key.blockno;
      var i :| 0 <= i < |pinned| && pinned[i] == block;
      var rest := pinned[..i] + pinned[i + 1..];
      forall x | x in bs - {b} ensures c.bufs[x].key.blockno in rest {
        if c.bufs[x].key.blockno == block { DirtyApart(c, b, x); }
        var j :| 0 <= j < |pinned| && pinned[j] == c.bufs[x].key.blockno;
        assert rest[if j < i then j else j - 1] == pinned[j];
      }
      DistinctBlocks(c, bs - {b}, rest);
    }
  }

  lemma DirtyApart(c: C.Cache, b: nat, x: nat)
    requires C.Inv(c) && b in Dirty(c) && x in Dirty(c) && b != x
    ensures c.bufs[x].key != c.bufs[b].key
  {
    assert C.Clean(c.bufs[b], c.disk, c.mem);
    if c.bufs[x].key == c.bufs[b].key { OnlyOne(c, b, x); }
  }

  /** Over every run in which calls keep to nine blocks: while the log has blocks pinned it leaves two buffers, so
    as long as the processes' references to other blocks, those of commit included, hold at most one buffer,
    every bget finds one. More generally, a bget that panics needs as many such buffers as there are blocks not
    listed. */
  lemma BuffersSuffice(disk: J.Disk, first: Both, run: seq<Event>, js: seq<J.Event>, s: Both, budget: nat, pid: nat,
                       key: C.Key)
    requires Boots(disk, first) && Leads(first, run, js, s, budget)
    ensures C.Shape(s.c)
    ensures |Outside(s.c)| + |Pinned(s.j)| < C.NBUF || (budget <= 9 && |Outside(s.c)| <= 1)
            ==> exists b: nat :: b < C.NBUF && C.Enabled(s.c, C.Get(pid, key, b))
  {
    RunAgrees(disk, first, run, js, s, budget);
    RunListed(disk, first, run, js, s, budget);
    if budget <= 9 { N.CommitStaysShort(disk, js, budget, s.j); }
    PinnedFew(s.j);
    PanicsExactly(s.c, pid, key);
    hide C.Inv, S.Inv, C.Missing, C.Enabled, Pinned, J.Exec, Boots, Leads;
    forall b | b in Dirty(s.c) ensures s.c.bufs[b].key.dev == ROOTDEV && s.c.bufs[b].key.blockno in Pinned(s.j) {
      assert ListedOne(s.c.bufs[b], Pinned(s.j));
    }
    DistinctBlocks(s.c, Dirty(s.c), Pinned(s.j));
  }

  lemma PinnedFew(j: J.State)
    ensures |Pinned(j)| <= if j.phase.Replaying? then 0 else |j.lh|
  {
  }
}
