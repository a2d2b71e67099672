/** The bound of CachePressure is tight: a run of calls of nine blocks each, and two processes with a buffer each,
  after which commit meets "bget: no buffers". */
module PressureRun {
  import opened Wrappers
  import opened CachePressure
  import opened CachedLog

  const BASE: nat := 100     // any home blocks will do

  datatype Trace = Trace(run: seq<Event>, js: seq<J.Event>, s: Both)

  /** The run has got there. */
  ghost predicate Reaches(disk: J.Disk, first: Both, tr: Trace) {
    Boots(disk, first) && Leads(first, tr.run, tr.js, tr.s, 9) && C.Inv(tr.s.c) && J.Shape(tr.s.j)
  }

  lemma LeadsNext(first: Both, run: seq<Event>, js: seq<J.Event>, m: Both, e: Event, s: Both, budget: nat)
    requires Leads(first, run, js, m, budget) && Follows(m, e, s, budget)
    ensures Leads(first, run + [e], if e.Cache? then js else js + [JournalEvent(m, e)], s, budget)
  {
    hide Follows, JournalEvent;
    var r := run + [e];
    var ks := if e.Cache? then js else js + [JournalEvent(m, e)];
    var last := r[|r| - 1];
    assert r[..|r| - 1] == run && last == e;
    assert exists m': Both, js': seq<J.Event> ::
      Leads(first, r[..|r| - 1], js', m', budget) && Follows(m', last, s, budget)
      && ks == if last.Cache? then js' else js' + [JournalEvent(m', last)];
    assert Leads(first, r, ks, s, budget);
  }

  /** One event more. */
  lemma Go(disk: J.Disk, first: Both, tr: Trace, e: Event) returns (t: Trace)
    requires Reaches(disk, first, tr) && Enabled(tr.s, e, 9)
    ensures Reaches(disk, first, t)
    ensures C.Shape(tr.s.c) && J.Shape(tr.s.j) && (e.Head? ==> |tr.s.c.bufs[e.b].data| == J.WORDS)
    ensures t.s == Step(tr.s, e, 9)
  {
    RunAgrees(disk, first, tr.run, tr.js, tr.s, 9);
    StepAgrees(tr.s, e, 9, S.Origin(disk));
    hide Boots, Leads, S.Inv, C.Inv, J.Shape, Enabled, JournalEvent, J.Exec, S.Origin, J.Boot, Good;
    var s := Step(tr.s, e, 9);
    LeadsNext(first, tr.run, tr.js, tr.s, e, s, 9);
    t := Trace(tr.run + [e], if e.Cache? then tr.js else tr.js + [JournalEvent(tr.s, e)], s);
  }

  lemma ReachesShape(disk: J.Disk, first: Both, tr: Trace)
    requires Reaches(disk, first, tr)
    ensures C.Inv(tr.s.c) && C.Shape(tr.s.c) && J.Shape(tr.s.j)
  {
  }

  // ---------------------------------------------------------------- one process and one buffer

  /** A buffer as nobody uses it. */
  predicate Idle(b: C.Buf) {
    b.refcnt == 0 && b.holder == None
  }

  /** bget of a block that is in no buffer, while one is free. */
  lemma GetNew(disk: J.Disk, first: Both, tr: Trace, pid: nat, key: C.Key) returns (t: Trace, b: nat)
    requires Reaches(disk, first, tr) && C.Shape(tr.s.c) && C.Missing(tr.s.c, key)
    requires exists x :: 0 <= x < C.NBUF && C.Free(tr.s.c.bufs[x])
    ensures Reaches(disk, first, t) && C.Shape(t.s.c) && b < C.NBUF && C.Free(tr.s.c.bufs[b]) && t.s.j == tr.s.j
    ensures t.s.c.disk == tr.s.c.disk
    ensures t.s.c.bufs == tr.s.c.bufs[b := tr.s.c.bufs[b].(key := key, valid := false, dirty := false, refcnt := 1)]
    ensures C.Request(pid, key) in t.s.c.users[b]
  {
    var c := tr.s.c;
    C.PanicsWhenFull(c, pid, key);
    var x: nat :| x < C.NBUF && C.Enabled(c, C.Get(pid, key, x));
    b := x;
    assert C.Victim(c, b) && !C.Hit(c, key, b);
    t := Go(disk, first, tr, Cache(C.Get(pid, key, b)));
  }

  /** ... then its sleep lock and its bytes. */
  lemma LockAndFill(disk: J.Disk, first: Both, tr: Trace, pid: nat, b: nat) returns (t: Trace)
    requires Reaches(disk, first, tr) && C.Shape(tr.s.c) && b < C.NBUF
    requires tr.s.c.bufs[b].holder == None && !tr.s.c.bufs[b].valid
    requires C.Request(pid, tr.s.c.bufs[b].key) in tr.s.c.users[b]
    ensures Reaches(disk, first, t) && C.Shape(t.s.c) && t.s.j == tr.s.j && t.s.c.users == tr.s.c.users
    ensures var buf := tr.s.c.bufs[b];
            && t.s.c.bufs == tr.s.c.bufs[b := buf.(holder := Some(pid), valid := true, dirty := false,
                                                   data := tr.s.c.disk(buf.key))]
    ensures t.s.c.disk == tr.s.c.disk
  {
    t := Go(disk, first, tr, Cache(C.Lock(pid, b)));
    t := Go(disk, first, t, Cache(C.Fill(pid, b)));
  }

  /** brelse, of a buffer that is pinned or as on disk. */
  lemma Release(disk: J.Disk, first: Both, tr: Trace, pid: nat, b: nat) returns (t: Trace)
    requires Reaches(disk, first, tr) && C.Shape(tr.s.c) && C.Holds(tr.s.c, pid, b) && tr.s.c.bufs[b].refcnt == 1
    requires C.Request(pid, tr.s.c.bufs[b].key) in tr.s.c.users[b]
    requires tr.s.c.bufs[b].dirty || tr.s.c.bufs[b].data == tr.s.c.disk(tr.s.c.bufs[b].key)
    ensures Reaches(disk, first, t) && C.Shape(t.s.c) && t.s.j == tr.s.j && t.s.c.disk == tr.s.c.disk
    ensures t.s.c.bufs == tr.s.c.bufs[b := tr.s.c.bufs[b].(holder := None, refcnt := 0)]
  {
    hide C.OneEach, C.Counted, C.Coherent, C.Recent, C.Once, C.Front, Reaches, J.Shape, C.Inv;
    ReachesShape(disk, first, tr);
    t := Go(disk, first, tr, Cache(C.Unlock(pid, b)));
    ReachesShape(disk, first, t);
    t := Go(disk, first, t, Cache(C.Drop(pid, b)));
    ReachesShape(disk, first, t);
  }

  // ---------------------------------------------------------------- filling the log

  predicate IsLogged(key: C.Key, n: nat) {
    key.dev == ROOTDEV && BASE <= key.blockno < BASE + n
  }

  /** A buffer nobody uses, pinned exactly if it holds one of the n logged blocks; else it was never used, or holds
    the header. */
  predicate Calm(b: C.Buf, n: nat) {
    && Idle(b) && (b.dirty <==> IsLogged(b.key, n))
    && (IsLogged(b.key, n) || b.key == C.Key(0, 0) || b.key == K(J.START))
  }

  /** n blocks are listed and pinned, and all buffers are idle. */
  ghost predicate Listing(s: Both, n: nat) {
    && |s.c.bufs| == C.NBUF && (forall b :: 0 <= b < C.NBUF ==> Calm(s.c.bufs[b], n)) && |Dirty(s.c)| == n
    && s.j.phase == J.Running && |s.j.lh| == n && forall k :: 0 <= k < n ==> s.j.lh[k] == BASE + k
  }

  lemma SomeFree(c: C.Cache)
    requires |c.bufs| == C.NBUF && |Outside(c)| + |Dirty(c)| < C.NBUF
    ensures exists x :: 0 <= x < C.NBUF && C.Free(c.bufs[x])
  {
    AllBusy(c, C.NBUF);
  }

  lemma CalmFree(c: C.Cache, n: nat)
    requires |c.bufs| == C.NBUF && (forall b :: 0 <= b < C.NBUF ==> Calm(c.bufs[b], n)) && |Dirty(c)| == n < C.NBUF
    ensures exists x :: 0 <= x < C.NBUF && C.Free(c.bufs[x])
  {
    assert Outside(c) == {} by {
      forall b: nat | b < C.NBUF ensures b !in Outside(c) { assert Calm(c.bufs[b], n); }
    }
    SomeFree(c);
  }

  /** The i-th call logs the next block. */
  lemma LogNext(disk: J.Disk, first: Both, tr: Trace, n: nat, pid: nat, i: nat, data: J.Block) returns (t: Trace)
    requires Reaches(disk, first, tr) && Listing(tr.s, n) && n < 28 && |data| == J.WORDS
    requires i < |tr.s.j.active| && |tr.s.j.active[i].logged + {BASE + n}| <= 9
    ensures Reaches(disk, first, t) && Listing(t.s, n + 1)
    ensures t.s.j == J.LogWriteStep(tr.s.j, i, BASE + n, data)
  {
    hide J.Shape, C.Inv, Reaches, C.Free, J.LogWriteStep;
    ReachesShape(disk, first, tr);
    var key := K(BASE + n);
    var c := tr.s.c;
    CalmFree(c, n);
    assert C.Missing(c, key) by {
      forall b | 0 <= b < C.NBUF ensures c.bufs[b].key != key { assert Calm(c.bufs[b], n); }
    }
    var b;
    t, b := GetNew(disk, first, tr, pid, key);
    assert Calm(c.bufs[b], n);
    t := LockAndFill(disk, first, t, pid, b);
    ReachesShape(disk, first, t);
    t := LogHeld(disk, first, t, pid, b, i, data);
    t := Release(disk, first, t, pid, b);
    LoggedListing(tr.s, t.s, n, b, i, data);
  }

  lemma LogHeld(disk: J.Disk, first: Both, tr: Trace, pid: nat, b: nat, i: nat, data: J.Block) returns (t: Trace)
    requires Reaches(disk, first, tr) && C.Shape(tr.s.c) && J.Shape(tr.s.j)
    requires b < C.NBUF && Has(tr.s.c, pid, b, tr.s.c.bufs[b].key.blockno) && tr.s.c.bufs[b].key.dev == ROOTDEV
    requires J.Enabled(tr.s.j, J.LogWrite(i, tr.s.c.bufs[b].key.blockno, data), 9)
    ensures Reaches(disk, first, t) && C.Shape(t.s.c)
    ensures t.s.j == J.LogWriteStep(tr.s.j, i, tr.s.c.bufs[b].key.blockno, data)
    ensures t.s.c.bufs == tr.s.c.bufs[b := tr.s.c.bufs[b].(data := data, dirty := true)]
    ensures t.s.c.users == tr.s.c.users
  {
    t := Go(disk, first, tr, Log(pid, b, i, data));
  }

  lemma LoggedListing(s: Both, t: Both, n: nat, b: nat, i: nat, data: J.Block)
    requires Listing(s, n) && b < C.NBUF && C.Free(s.c.bufs[b]) && J.Shape(s.j) && i < |s.j.active|
    requires t.j == J.LogWriteStep(s.j, i, BASE + n, data)
    requires |t.c.bufs| == C.NBUF && forall x :: 0 <= x < C.NBUF && x != b ==> t.c.bufs[x] == s.c.bufs[x]
    requires t.c.bufs[b].key == K(BASE + n) && t.c.bufs[b].dirty && Idle(t.c.bufs[b])
    ensures Listing(t, n + 1)
  {
    hide J.Shape;
    forall x | 0 <= x < C.NBUF ensures Calm(t.c.bufs[x], n + 1) { assert Calm(s.c.bufs[x], n); }
    assert Dirty(t.c) == Dirty(s.c) + {b};
    assert b !in Dirty(s.c);
  }

  /** A call that has logged m of the blocks up to BASE + n. */
  function Recent(n: nat, m: nat): set<nat>
    requires m <= n
  {
    if m == 0 then {} else Recent(n - 1, m - 1) + {BASE + n - 1}
  }

  lemma {:induction false} RecentCount(n: nat, m: nat)
    requires m <= n
    ensures |Recent(n, m)| == m && forall b :: b in Recent(n, m) <==> BASE + n - m <= b < BASE + n
  {
    if m > 0 { RecentCount(n - 1, m - 1); }
  }

  /** The i-th call logs m blocks. */
  lemma {:induction false} LogMany(disk: J.Disk, first: Both, tr: Trace, n: nat, i: nat, m: nat, data: J.Block)
    returns (t: Trace)
    requires Reaches(disk, first, tr) && Listing(tr.s, n) && n + m <= 28 && m <= 9 && |data| == J.WORDS
    requires i < |tr.s.j.active| && tr.s.j.active[i].logged == {}
    ensures Reaches(disk, first, t) && Listing(t.s, n + m) && |t.s.j.active| == |tr.s.j.active|
    ensures t.s.j.active[i].logged == Recent(n + m, m)
    ensures forall k :: 0 <= k < |tr.s.j.active| && k != i ==> t.s.j.active[k] == tr.s.j.active[k]
    decreases m
  {
    hide Reaches, Listing;
    if m == 0 {
      t := tr;
    } else {
      t := LogMany(disk, first, tr, n, i, m - 1, data);
      RecentCount(n + m, m);
      t := LogNext(disk, first, t, n + m - 1, 0, i, data);
    }
  }

  /** begin_op. */
  lemma Begin(disk: J.Disk, first: Both, tr: Trace, n: nat) returns (t: Trace)
    requires Reaches(disk, first, tr) && Listing(tr.s, n) && n + (|tr.s.j.active| + 1) * 10 <= 30
    ensures Reaches(disk, first, t) && Listing(t.s, n) && t.s.c == tr.s.c && |t.s.j.active| == |tr.s.j.active| + 1
    ensures t.s.j.active[|tr.s.j.active|].logged == {}
    ensures forall k :: 0 <= k < |tr.s.j.active| ==> t.s.j.active[k] == tr.s.j.active[k]
  {
    ReachesShape(disk, first, tr);
    hide J.Shape, C.Inv;
    t := Go(disk, first, tr, Call(J.Begin));
  }

  lemma RemoveOne<T>(s: seq<T>, i: nat)
    requires i < |s| == 2
    ensures J.Remove(s, i) == [s[1 - i]]
  {
  }

  lemma ListingSame(s: Both, t: Both, n: nat)
    requires Listing(s, n) && t.c == s.c && t.j.phase == J.Running && t.j.lh == s.j.lh
    ensures Listing(t, n)
  {
  }

  /** end_op of the i-th of two calls. */
  lemma Leave(disk: J.Disk, first: Both, tr: Trace, n: nat, i: nat) returns (t: Trace)
    requires Reaches(disk, first, tr) && Listing(tr.s, n) && i < |tr.s.j.active| == 2
    ensures Reaches(disk, first, t) && Listing(t.s, n) && t.s.c == tr.s.c && t.s.j.active == [tr.s.j.active[1 - i]]
  {
    ListingRuns(tr.s, n);
    RemoveOne(tr.s.j.active, i);
    hide Reaches, Listing, J.Shape, C.Inv, J.Remove;
    t := Go(disk, first, tr, Call(J.End(i)));
    ListingSame(tr.s, t.s, n);
  }

  /** Four calls, none of more than nine blocks, list 28 and are about to end. */
  lemma FillLog(disk: J.Disk, first: Both, tr: Trace, data: J.Block) returns (t: Trace)
    requires Reaches(disk, first, tr) && Listing(tr.s, 0) && tr.s.j.active == [] && |data| == J.WORDS
    ensures Reaches(disk, first, t) && Listing(t.s, 28) && |t.s.j.active| == 2
  {
    hide Reaches, Listing, Recent;
    t := Begin(disk, first, tr, 0);
    t := Begin(disk, first, t, 0);
    t := LogMany(disk, first, t, 0, 0, 9, data);
    t := Leave(disk, first, t, 9, 0);
    t := Begin(disk, first, t, 9);
    t := LogMany(disk, first, t, 9, 1, 1, data);
    t := Leave(disk, first, t, 10, 1);
    t := Begin(disk, first, t, 10);
    t := LogMany(disk, first, t, 10, 0, 9, data);
    t := LogMany(disk, first, t, 19, 1, 9, data);
  }

  // ---------------------------------------------------------------- the two readers

  /** The 28 listed blocks are pinned, and k more buffers are referenced, by processes that have bread others. */
  ghost predicate Crowded(s: Both, k: nat) {
    && |s.c.bufs| == C.NBUF && |Dirty(s.c)| == 28 && |Outside(s.c)| == k
    && forall b :: 0 <= b < C.NBUF ==> s.c.bufs[b].key != K(J.Slot(0)) && (k < 2 ==> s.c.bufs[b].key != K(BASE + 99))
                                       && (k < 1 ==> s.c.bufs[b].key != K(BASE + 98))
  }

  lemma ListingCrowded(s: Both)
    requires Listing(s, 28)
    ensures Crowded(s, 0)
  {
    forall b: nat | b < C.NBUF ensures b !in Outside(s.c) && s.c.bufs[b].key != K(J.Slot(0))
                                       && s.c.bufs[b].key != K(BASE + 99) && s.c.bufs[b].key != K(BASE + 98) {
      assert Calm(s.c.bufs[b], 28);
    }
    assert Outside(s.c) == {};
  }

  lemma OneMore(disk: J.Disk, first: Both, tr: Trace, k: nat) returns (t: Trace)
    requires Reaches(disk, first, tr) && Crowded(tr.s, k) && k < 2
    ensures Reaches(disk, first, t) && Crowded(t.s, k + 1) && t.s.j == tr.s.j
  {
    ReachesShape(disk, first, tr);
    SomeFree(tr.s.c);
    assert C.Missing(tr.s.c, K(BASE + 98 + k));
    hide J.Shape, C.Inv, Reaches, Crowded, C.Missing, C.Free;
    var b;
    t, b := GetNew(disk, first, tr, k, K(BASE + 98 + k));
    CrowdedMore(tr.s, t.s, k, b);
  }

  lemma CrowdedMore(s: Both, t: Both, k: nat, b: nat)
    requires Crowded(s, k) && k < 2 && b < C.NBUF && C.Free(s.c.bufs[b])
    requires t.c.bufs == s.c.bufs[b := s.c.bufs[b].(key := K(BASE + 98 + k), valid := false, dirty := false,
                                                    refcnt := 1)]
    ensures Crowded(t, k + 1)
  {
    assert Dirty(t.c) == Dirty(s.c);
    assert Outside(t.c) == Outside(s.c) + {b} && b !in Outside(s.c);
  }

  /** Both calls end, and commit asks for the first log block. */
  lemma CommitPanics(disk: J.Disk, first: Both, tr: Trace, pid: nat) returns (t: Trace)
    requires Reaches(disk, first, tr) && Crowded(tr.s, 2) && |tr.s.j.active| == 2 && tr.s.j.phase == J.Running
    requires |tr.s.j.lh| == 28
    ensures Reaches(disk, first, t) && t.s.j.phase == J.Copying(0) && |t.s.j.lh| == 28 && |Outside(t.s.c)| == 2
    ensures C.Shape(t.s.c) && forall b: nat :: b < C.NBUF ==> !C.Enabled(t.s.c, C.Get(pid, K(J.Slot(0)), b))
  {
    ReachesShape(disk, first, tr);
    hide J.Shape, C.Inv;
    t := Go(disk, first, tr, Call(J.End(0)));
    t := Go(disk, first, t, Call(J.End(0)));
    ReachesShape(disk, first, t);
    assert C.Missing(t.s.c, K(J.Slot(0)));
    PanicsExactly(t.s.c, pid, K(J.Slot(0)));
  }

  // ---------------------------------------------------------------- from the boot on

  /** The machine boots on a disk with an empty log, up to the write of the header. */
  lemma ToHeader(disk: J.Disk, first: Both) returns (t: Trace)
    requires Boots(disk, first) && J.Header(disk[J.START]) == []
    ensures Reaches(disk, first, t) && t.s.c == first.c && t.s.j.phase == J.BootErasing
    ensures t.s.j.lh == [] && t.s.j.active == []
  {
    C.StartInv(first.c);
    t := Trace([], [], first);
    hide C.Inv, C.Start;
    t := Go(disk, first, t, Quiet);
    t := Go(disk, first, t, Quiet);
  }

  lemma StartIdle(c: C.Cache)
    requires C.Start(c)
    ensures |c.bufs| == C.NBUF && forall b :: 0 <= b < C.NBUF ==> Unused(c.bufs[b])
  {
  }

  predicate Unused(b: C.Buf) {
    b.key == C.Key(0, 0) && Idle(b) && !b.dirty && !b.valid
  }

  lemma UnusedMissing(c: C.Cache)
    requires C.Shape(c) && forall b :: 0 <= b < C.NBUF ==> Unused(c.bufs[b])
    ensures C.Missing(c, K(J.START)) && exists x :: 0 <= x < C.NBUF && C.Free(c.bufs[x])
  {
    assert C.Free(c.bufs[0]);
  }

  lemma ListingNone(c: C.Cache, t: Both, b: nat)
    requires C.Shape(c) && (forall x :: 0 <= x < C.NBUF ==> Unused(c.bufs[x])) && |t.c.bufs| == C.NBUF && b < C.NBUF
    requires forall x :: 0 <= x < C.NBUF && x != b ==> t.c.bufs[x] == c.bufs[x]
    requires t.c.bufs[b].key == K(J.START) && Idle(t.c.bufs[b]) && !t.c.bufs[b].dirty
    requires t.j.phase == J.Running && t.j.lh == []
    ensures Listing(t, 0)
  {
    forall x | 0 <= x < C.NBUF ensures Calm(t.c.bufs[x], 0) { assert x != b ==> Unused(c.bufs[x]); }
    assert Dirty(t.c) == {};
  }

  /** write_head through the cache. */
  lemma WriteHeader(disk: J.Disk, first: Both, tr: Trace, pid: nat, b: nat) returns (t: Trace)
    requires Reaches(disk, first, tr) && C.Shape(tr.s.c) && tr.s.j.phase == J.BootErasing && tr.s.j.lh == []
    requires b < C.NBUF && Has(tr.s.c, pid, b, J.START)
    ensures Reaches(disk, first, t) && C.Shape(t.s.c) && t.s.c.users == tr.s.c.users
    ensures |t.s.c.bufs| == |tr.s.c.bufs|
            && t.s.c.bufs[b] == tr.s.c.bufs[b].(dirty := false, data := t.s.c.bufs[b].data)
            && t.s.c.bufs[b].data == t.s.c.disk(K(J.START))
            && forall x :: 0 <= x < C.NBUF && x != b ==> t.s.c.bufs[x] == tr.s.c.bufs[x]
    ensures t.s.j.phase == J.Running && t.s.j.lh == [] && t.s.j.active == tr.s.j.active
  {
    ReachesShape(disk, first, tr);
    hide J.Shape, C.Inv;
    t := Go(disk, first, tr, Head(pid, b));
  }

  lemma Booted(disk: J.Disk, first: Both) returns (t: Trace)
    requires Boots(disk, first) && J.Header(disk[J.START]) == []
    ensures Reaches(disk, first, t) && Listing(t.s, 0) && t.s.j.active == []
  {
    t := ToHeader(disk, first);
    StartIdle(first.c);
    ReachesShape(disk, first, t);
    UnusedMissing(first.c);
    hide J.Shape, C.Inv, Reaches, Boots, C.Start, Listing, C.Missing, C.Free;
    var b;
    t, b := GetNew(disk, first, t, 0, K(J.START));
    t := LockAndFill(disk, first, t, 0, b);
    t := WriteHeader(disk, first, t, 0, b);
    t := Release(disk, first, t, 0, b);
    ListingNone(first.c, t.s, b);
  }

  /** With two references to buffers that are not pinned the promise of BuffersSuffice ends: from every disk with an
    empty log, four calls that log at most nine blocks each and two processes that have bread a block lead to a
    commit that finds no buffer for the first log block. */
  lemma TwoReadersPanic(disk: J.Disk, first: Both, data: J.Block, pid: nat) returns (run: seq<Event>, js: seq<J.Event>,
                                                                                    s: Both)
    requires Boots(disk, first) && J.Header(disk[J.START]) == [] && |data| == J.WORDS
    ensures Leads(first, run, js, s, 9) && s.j.phase == J.Copying(0) && |Outside(s.c)| == 2 && |Pinned(s.j)| == 28
    ensures C.Shape(s.c) && forall b: nat :: b < C.NBUF ==> !C.Enabled(s.c, C.Get(pid, K(J.Slot(0)), b))
  {
    var t := TwoMore(disk, first, data);
    t := CommitPanics(disk, first, t, pid);
    run, js, s := t.run, t.js, t.s;
  }

  lemma TwoMore(disk: J.Disk, first: Both, data: J.Block) returns (t: Trace)
    requires Boots(disk, first) && J.Header(disk[J.START]) == [] && |data| == J.WORDS
    ensures Reaches(disk, first, t) && Crowded(t.s, 2) && |t.s.j.active| == 2 && t.s.j.phase == J.Running
    ensures |t.s.j.lh| == 28
  {
    hide Listing, Crowded, Boots, Reaches;
    t := Booted(disk, first);
    t := FillLog(disk, first, t, data);
    ListingCrowded(t.s);
    ListingRuns(t.s, 28);
    t := OneMore(disk, first, t, 0);
    t := OneMore(disk, first, t, 1);
  }

  lemma ListingRuns(s: Both, n: nat)
    requires Listing(s, n)
    ensures s.j.phase == J.Running && |s.j.lh| == n
  {
  }
}
