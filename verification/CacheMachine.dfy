/** The buffer cache of kernel/bio.c as a machine: a step is one critical section of bcache.lock or of a
  buffer's sleep lock, or one disk transfer, so a run is any interleaving of processes. */
module CacheMachine {
  import opened Wrappers

  const NBUF: nat := 30    // include/param.h:15

  datatype Key = Key(dev: nat, blockno: nat)
  type Block = seq<nat>
  type Blocks = Key -> Block

  /** `holder` is the process in the sleep lock, if any. */
  datatype Buf = Buf(key: Key, valid: bool, dirty: bool, refcnt: nat, holder: Option<nat>, data: Block)

  /** A bget whose brelse has not yet given its reference back. */
  datatype Request = Request(pid: nat, key: Key)

  /** `order` is the list from head.next on, `stamp[b]` the time buffer b last became unused, `users[b]`
    the references to b, and `mem` the bytes last stored under a buffer's lock for each block. */
  datatype Cache = Cache(bufs: seq<Buf>, order: seq<nat>, stamp: seq<nat>, clock: nat,
                         users: seq<multiset<Request>>, disk: Blocks, mem: Blocks)

  /** What binit leaves. */
  function Fresh(data: Block): Buf {
    Buf(Key(0, 0), false, false, 0, None, data)
  }

  predicate Pristine(b: Buf) {
    b == Fresh(b.data)
  }

  function Updated(m: Blocks, key: Key, data: Block): Blocks {
    k => if k == key then data else m(k)
  }

  // ---------------------------------------------------------------- invariant

  predicate Shape(c: Cache) {
    |c.bufs| == |c.order| == |c.stamp| == |c.users| == NBUF && Once(c.order)
  }

  predicate Once(order: seq<nat>) {
    && (forall i :: 0 <= i < |order| ==> order[i] < NBUF)
    && (forall i, j :: 0 <= i < j < |order| ==> order[i] != order[j])
    && (forall b :: 0 <= b < NBUF ==> b in order)
  }

  /** A block is in one buffer only. Buffers that binit made and nobody has used since all name block 0 of
    device 0; they stand behind the one in use for that block. */
  ghost predicate OneEach(bufs: seq<Buf>, order: seq<nat>)
    requires forall i :: 0 <= i < |order| ==> order[i] < |bufs|
  {
    forall i, j :: 0 <= i < j < |order| && bufs[order[i]].key == bufs[order[j]].key ==> Pristine(bufs[order[j]])
  }

  /** refcnt counts the requests, all of them for the block the buffer holds; the holder is one of them. */
  ghost predicate Referenced(b: Buf, users: multiset<Request>) {
    && b.refcnt == |users|
    && (forall r :: r in users ==> r.key == b.key)
    && (b.holder.Some? ==> Request(b.holder.value, b.key) in users)
  }

  ghost predicate Counted(c: Cache)
    requires Shape(c)
  {
    forall b :: 0 <= b < NBUF ==> Referenced(c.bufs[b], c.users[b])
  }

  /** A valid buffer has what was last stored; unless it is pinned or locked, so has the disk. */
  ghost predicate Clean(b: Buf, disk: Blocks, mem: Blocks) {
    && (b.valid ==> b.data == mem(b.key))
    && (b.dirty ==> b.valid)
    && (b.valid && !b.dirty && b.holder.None? ==> b.data == disk(b.key))
  }

  ghost predicate Uncached(bufs: seq<Buf>, key: Key) {
    forall b :: 0 <= b < |bufs| ==> !(bufs[b].valid && bufs[b].key == key)
  }

  ghost predicate Coherent(c: Cache) {
    && (forall b :: 0 <= b < |c.bufs| ==> Clean(c.bufs[b], c.disk, c.mem))
    && (forall key: Key :: Uncached(c.bufs, key) ==> c.disk(key) == c.mem(key))
  }

  /** The list is in the order of last release, latest first. */
  predicate Recent(order: seq<nat>, stamp: seq<nat>, clock: nat)
    requires forall i :: 0 <= i < |order| ==> order[i] < |stamp|
  {
    && (forall i, j :: 0 <= i < j < |order| ==> stamp[order[i]] > stamp[order[j]])
    && (forall i :: 0 <= i < |order| ==> stamp[order[i]] < clock)
  }

  ghost predicate Inv(c: Cache) {
    && Shape(c) && OneEach(c.bufs, c.order) && Counted(c) && Coherent(c)
    && Recent(c.order, c.stamp, c.clock)
  }

  // ---------------------------------------------------------------- steps

  /** b is the first buffer in the list that holds the block. */
  ghost predicate Hit(c: Cache, key: Key, b: nat)
    requires Shape(c)
  {
    exists i :: 0 <= i < NBUF && c.order[i] == b && c.bufs[b].key == key
                && forall j :: 0 <= j < i ==> c.bufs[c.order[j]].key != key
  }

  ghost predicate Missing(c: Cache, key: Key)
    requires Shape(c)
  {
    forall b :: 0 <= b < NBUF ==> c.bufs[b].key != key
  }

  predicate Free(b: Buf) {
    b.refcnt == 0 && !b.dirty
  }

  /** b is the last buffer in the list that nobody references and no transaction has pinned. */
  ghost predicate Victim(c: Cache, b: nat)
    requires Shape(c)
  {
    exists i :: 0 <= i < NBUF && c.order[i] == b && Free(c.bufs[b])
                && forall j :: i < j < NBUF ==> !Free(c.bufs[c.order[j]])
  }

  datatype Event =
    | Get(pid: nat, key: Key, b: nat)       // bget under bcache.lock
    | Lock(pid: nat, b: nat)                // acquiresleep returns
    | Fill(pid: nat, b: nat)                // the read in bread
    | Store(pid: nat, b: nat, key: Key, data: Block)  // the holder changes the bytes
    | Pin(pid: nat, b: nat)                 // log_write
    | Write(pid: nat, b: nat, key: Key, data: Block)  // bwrite, of the bytes the buffer has
    | Unlock(pid: nat, b: nat)              // releasesleep in brelse
    | Drop(pid: nat, b: nat)                // brelse under bcache.lock

  ghost predicate Holds(c: Cache, pid: nat, b: nat)
    requires Shape(c)
  {
    b < NBUF && c.bufs[b].holder == Some(pid)
  }

  ghost predicate Waits(c: Cache, pid: nat, b: nat)
    requires Shape(c)
  {
    b < NBUF && Request(pid, c.bufs[b].key) in c.users[b] && !Holds(c, pid, b)
  }

  /** Bytes may be changed or pinned only once read; changed bytes are pinned or written before
    the lock is given up (bio.c:8-14). */
  ghost predicate Enabled(c: Cache, e: Event)
    requires Shape(c)
  {
    e.b < NBUF &&
    match e
    case Get(_, key, b) => Hit(c, key, b) || (Missing(c, key) && Victim(c, b))
    case Lock(pid, b) => Waits(c, pid, b) && c.bufs[b].holder.None?
    case Fill(pid, b) => Holds(c, pid, b)
    case Store(pid, b, key, _) => Holds(c, pid, b) && c.bufs[b].valid && c.bufs[b].key == key
    case Pin(pid, b) => Holds(c, pid, b) && c.bufs[b].valid
    case Write(pid, b, key, data) => Holds(c, pid, b) && c.bufs[b].key == key && c.bufs[b].data == data
    case Unlock(pid, b) => Holds(c, pid, b)
         && (c.bufs[b].valid ==> c.bufs[b].dirty || c.bufs[b].data == c.disk(c.bufs[b].key))
    case Drop(pid, b) => Waits(c, pid, b)
  }

  function Put(c: Cache, b: nat, buf: Buf): Cache
    requires b < |c.bufs|
  {
    c.(bufs := c.bufs[b := buf])
  }

  /** The list with its i-th buffer taken out and put at the front. */
  function Front(order: seq<nat>, i: nat): seq<nat>
    requires i < |order|
  {
    [order[i]] + order[..i] + order[i + 1..]
  }

  function Position(order: seq<nat>, b: nat): (i: nat)
    requires b in order
    ensures i < |order| && order[i] == b
  {
    if order[0] == b then 0 else 1 + Position(order[1..], b)
  }

  ghost function Step(c: Cache, e: Event): Cache
    requires Shape(c) && Enabled(c, e)
  {
    var buf := c.bufs[e.b];
    match e
    case Get(pid, key, b) =>
      var n := if Hit(c, key, b) then buf.(refcnt := buf.refcnt + 1)
               else buf.(key := key, valid := false, dirty := false, refcnt := 1);
      Put(c, b, n).(users := c.users[b := c.users[b] + multiset{Request(pid, key)}])
    case Lock(pid, b) => Put(c, b, buf.(holder := Some(pid)))
    case Fill(pid, b) => if buf.valid then c else Put(c, b, buf.(valid := true, dirty := false,
           data := c.disk(buf.key)))
    case Store(pid, b, key, data) => Put(c, b, buf.(data := data)).(mem := Updated(c.mem, key, data))
    case Pin(pid, b) => Put(c, b, buf.(dirty := true))
    case Write(pid, b, key, data) =>
      Put(c, b, buf.(valid := true, dirty := false)).(disk := Updated(c.disk, key, data), mem := Updated(c.mem, key,
          data))
    case Unlock(pid, b) => Put(c, b, buf.(holder := None))
    case Drop(pid, b) =>
      var d := Put(c, b, buf.(refcnt := Minus(buf.refcnt))).(users := c.users[b := c.users[b] - multiset{Request(pid,
            buf.key)}]);
      if buf.refcnt != 1 then d
      else d.(order := Front(c.order, Position(c.order, b)), stamp := c.stamp[b := c.clock], clock := c.clock + 1)
  }

  function Minus(n: nat): nat {
    if n == 0 then 0xffff_ffff else n - 1
  }

  // ---------------------------------------------------------------- every step keeps the invariant

  lemma GetKeeps(c: Cache, pid: nat, key: Key, b: nat)
    requires Inv(c) && b < NBUF && Enabled(c, Get(pid, key, b))
    ensures Inv(Step(c, Get(pid, key, b)))
  {
    var d := Step(c, Get(pid, key, b));
    if Hit(c, key, b) {
      forall k: Key | Uncached(d.bufs, k) ensures d.disk(k) == d.mem(k) {
        assert Uncached(c.bufs, k) by {
          forall x | 0 <= x < |c.bufs| ensures !(c.bufs[x].valid && c.bufs[x].key == k) {
            assert c.bufs[x].valid == d.bufs[x].valid;
          }
        }
      }
      assert OneEach(d.bufs, d.order);
    } else {
      assert |c.users[b]| == 0 && c.users[b] == multiset{};
      assert Uncached(c.bufs, key);
      forall k: Key | Uncached(d.bufs, k) ensures d.disk(k) == d.mem(k) {
        if c.bufs[b].valid && c.bufs[b].key == k {
          assert Clean(c.bufs[b], c.disk, c.mem);
        } else {
          assert Uncached(c.bufs, k) by {
            forall x | 0 <= x < |c.bufs| ensures !(c.bufs[x].valid && c.bufs[x].key == k) {
              assert x != b ==> c.bufs[x] == d.bufs[x];
            }
          }
        }
      }
      assert OneEach(d.bufs, d.order);
    }
  }

  /** A buffer in use is the only one that can be valid for its block. */
  lemma OnlyUser(c: Cache, b: nat, x: nat)
    requires Inv(c) && b < NBUF && x < NBUF && x != b
    requires c.bufs[b].key == c.bufs[x].key && !Pristine(c.bufs[b])
    ensures Pristine(c.bufs[x])
  {
    var i, j := Position(c.order, b), Position(c.order, x);
    assert i != j;
  }

  predicate OfOneBuffer(e: Event) {
    e.Fill? || e.Store? || e.Pin? || e.Write? || e.Unlock? || e.Lock?
  }

  lemma InUse(c: Cache, e: Event)
    requires Inv(c) && Enabled(c, e) && OfOneBuffer(e)
    ensures !Pristine(c.bufs[e.b])
  {
    assert Referenced(c.bufs[e.b], c.users[e.b]);
    assert e.Lock? ==> |c.users[e.b]| > 0;
  }

  lemma HolderCoherent(c: Cache, e: Event)
    requires Inv(c) && Enabled(c, e) && OfOneBuffer(e) && !Pristine(c.bufs[e.b])
    ensures Coherent(Step(c, e))
  {
    var d := Step(c, e);
    var b := e.b;
    if e.Fill? && !c.bufs[b].valid { UncachedHere(c, b); }
    forall x | 0 <= x < |d.bufs| ensures Clean(d.bufs[x], d.disk, d.mem) {
      assert Clean(c.bufs[x], c.disk, c.mem);
      if x != b && c.bufs[x].key == c.bufs[b].key { OnlyUser(c, b, x); }
    }
    forall k: Key | Uncached(d.bufs, k) ensures d.disk(k) == d.mem(k) {
      assert !(d.bufs[b].valid && d.bufs[b].key == k);
      assert Uncached(c.bufs, k) by {
        forall x | 0 <= x < |c.bufs| ensures !(c.bufs[x].valid && c.bufs[x].key == k) {
          assert !(d.bufs[x].valid && d.bufs[x].key == k);
        }
      }
    }
  }

  /** Steps of one process on one buffer. */
  lemma HolderKeeps(c: Cache, e: Event)
    requires Inv(c) && Enabled(c, e) && OfOneBuffer(e)
    ensures Inv(Step(c, e))
  {
    InUse(c, e);
    HolderCoherent(c, e);
    hide Coherent;
    var d := Step(c, e);
    assert OneEach(d.bufs, d.order);
    assert Counted(d);
  }

  /** What a buffer in use will be filled with is what was last stored. */
  lemma UncachedHere(c: Cache, b: nat)
    requires Inv(c) && b < NBUF && !Pristine(c.bufs[b]) && !c.bufs[b].valid
    ensures c.disk(c.bufs[b].key) == c.mem(c.bufs[b].key)
  {
    assert Uncached(c.bufs, c.bufs[b].key) by {
      forall x | 0 <= x < |c.bufs| ensures !(c.bufs[x].valid && c.bufs[x].key == c.bufs[b].key) {
        if x != b && c.bufs[x].key == c.bufs[b].key { OnlyUser(c, b, x); }
      }
    }
  }

  /** Where an entry of the moved list stood before. */
  function Was(i: nat, k: nat): nat {
    if k == 0 then i else if k <= i then k - 1 else k
  }

  lemma FrontIs(order: seq<nat>, i: nat)
    requires i < |order|
    ensures |Front(order, i)| == |order|
    ensures forall k :: 0 <= k < |order| ==> Front(order, i)[k] == order[Was(i, k)]
    ensures forall k, l :: 0 < k < l < |order| ==> 0 <= Was(i, k) < Was(i, l)
    ensures forall k :: 0 < k < |order| ==> Was(i, k) != i
  {
  }

  lemma FrontOnce(order: seq<nat>, i: nat)
    requires Once(order) && i < |order|
    ensures Once(Front(order, i))
  {
    FrontIs(order, i);
    var f := Front(order, i);
    forall k, l | 0 <= k < l < |f| ensures f[k] != f[l] {
      assert Was(i, k) != Was(i, l);
    }
    forall b | 0 <= b < NBUF ensures b in f {
      var p := Position(order, b);
      assert f[if p == i then 0 else if p < i then p + 1 else p] == b;
    }
  }

  lemma {:induction false} DropKeeps(c: Cache, pid: nat, b: nat)
    requires Inv(c) && Enabled(c, Drop(pid, b))
    ensures Inv(Step(c, Drop(pid, b)))
  {
    var d := Step(c, Drop(pid, b));
    var buf := c.bufs[b];
    var r := Request(pid, buf.key);
    assert Referenced(buf, c.users[b]);
    assert |c.users[b]| >= 1;
    assert Referenced(d.bufs[b], d.users[b]);
    forall k: Key | Uncached(d.bufs, k) ensures d.disk(k) == d.mem(k) {
      assert Uncached(c.bufs, k) by {
        forall x | 0 <= x < |c.bufs| ensures !(c.bufs[x].valid && c.bufs[x].key == k) {
          assert c.bufs[x].valid == d.bufs[x].valid;
        }
      }
    }
    if buf.refcnt == 1 {
      var i := Position(c.order, b);
      FrontIs(c.order, i);
      FrontOnce(c.order, i);
      DropOne(c, d, i);
    }
  }

  lemma DropOne(c: Cache, d: Cache, i: nat)
    requires Inv(c) && i < NBUF && c.bufs[c.order[i]].refcnt == 1
    requires |d.bufs| == NBUF && forall x :: 0 <= x < NBUF && x != c.order[i] ==> d.bufs[x] == c.bufs[x]
    requires d.bufs[c.order[i]] == c.bufs[c.order[i]].(refcnt := 0)
    requires d.order == Front(c.order, i) && d.stamp == c.stamp[c.order[i] := c.clock] && d.clock == c.clock + 1
    requires Once(d.order)
    ensures OneEach(d.bufs, d.order)
    ensures Recent(d.order, d.stamp, d.clock)
  {
    FrontIs(c.order, i);
    var f := d.order;
    forall k, l | 0 <= k < l < |f| && d.bufs[f[k]].key == d.bufs[f[l]].key ensures Pristine(d.bufs[f[l]]) {
      if k == 0 {
        assert f[l] != f[0];
        OnlyUser(c, f[0], f[l]);
      } else {
        assert f[k] == c.order[Was(i, k)] && f[l] == c.order[Was(i, l)];
      }
    }
    forall k, l | 0 <= k < l < |f| ensures d.stamp[f[k]] > d.stamp[f[l]] {
      assert f[l] == c.order[Was(i, l)] && f[l] != f[0];
      if k > 0 { assert f[k] == c.order[Was(i, k)] && f[k] != f[0]; }
    }
  }

  lemma {:induction false} StepKeeps(c: Cache, e: Event)
    requires Inv(c) && Enabled(c, e)
    ensures Inv(Step(c, e))
  {
    match e
    case Get(pid, key, b) => GetKeeps(c, pid, key, b);
    case Drop(pid, b) => DropKeeps(c, pid, b);
    case _ => HolderKeeps(c, e);
  }

  // ---------------------------------------------------------------- whole runs

  ghost predicate Start(c: Cache) {
    && |c.bufs| == |c.stamp| == |c.users| == NBUF
    && (forall b :: 0 <= b < NBUF ==> Pristine(c.bufs[b]) && c.users[b] == multiset{} && c.stamp[b] == b)
    && c.order == seq(NBUF, i requires 0 <= i < NBUF => NBUF - 1 - i)
    && c.clock == NBUF && c.mem == c.disk
  }

  lemma StartInv(c: Cache)
    requires Start(c)
    ensures Inv(c)
  {
    forall b | 0 <= b < NBUF ensures b in c.order {
      assert c.order[NBUF - 1 - b] == b;
    }
  }

  /** The events of run, in order, take c to d. */
  ghost predicate Leads(c: Cache, run: seq<Event>, d: Cache)
    decreases |run|
  {
    if run == [] then c == d
    else exists m: Cache :: Leads(c, run[..|run| - 1], m) && Shape(m)
                            && Enabled(m, run[|run| - 1]) && d == Step(m, run[|run| - 1])
  }

  ghost function Before(c: Cache, run: seq<Event>, d: Cache): (m: Cache)
    requires run != [] && Leads(c, run, d)
    ensures Leads(c, run[..|run| - 1], m) && Shape(m)
    ensures Enabled(m, run[|run| - 1]) && d == Step(m, run[|run| - 1])
  {
    var m: Cache :| Leads(c, run[..|run| - 1], m) && Shape(m)
                    && Enabled(m, run[|run| - 1]) && d == Step(m, run[|run| - 1]);
    m
  }

  lemma {:induction false} RunInv(c: Cache, run: seq<Event>, d: Cache)
    requires Inv(c) && Leads(c, run, d)
    ensures Inv(d)
    decreases |run|
  {
    if run != [] {
      var m := Before(c, run, d);
      RunInv(c, run[..|run| - 1], m);
      StepKeeps(m, run[|run| - 1]);
    }
  }

  /** The bytes the run stored or wrote last for a block, or those it had at first. */
  function Latest(first: Blocks, run: seq<Event>, key: Key): Block
    decreases |run|
  {
    if run == [] then first(key)
    else
      var e := run[|run| - 1];
      if (e.Store? || e.Write?) && e.key == key then e.data else Latest(first, run[..|run| - 1], key)
  }

  lemma MemStep(c: Cache, e: Event, key: Key)
    requires Shape(c) && Enabled(c, e)
    ensures Step(c, e).mem(key) == if (e.Store? || e.Write?) && e.key == key then e.data else c.mem(key)
  {
  }

  lemma {:induction false} MemIsLatest(c: Cache, run: seq<Event>, d: Cache, key: Key)
    requires Leads(c, run, d)
    ensures d.mem(key) == Latest(c.mem, run, key)
    decreases |run|
  {
    hide Enabled, Step;
    if run != [] {
      var m := Before(c, run, d);
      MemIsLatest(c, run[..|run| - 1], m, key);
      MemStep(m, run[|run| - 1], key);
    }
  }

  /** However the processes interleave and whatever is recycled in between, a buffer that has been read
    holds the bytes last stored for its block; and the disk holds them too, unless the one buffer for
    the block is pinned or locked. */
  lemma {:induction false} ReadsBack(c: Cache, run: seq<Event>, d: Cache, b: nat)
    requires Start(c) && Leads(c, run, d) && b < NBUF && Shape(d) && d.bufs[b].valid
    ensures d.bufs[b].data == Latest(c.disk, run, d.bufs[b].key)
    ensures !d.bufs[b].dirty && d.bufs[b].holder.None?
            ==> d.disk(d.bufs[b].key) == Latest(c.disk, run, d.bufs[b].key)
  {
    StartInv(c);
    RunInv(c, run, d);
    MemIsLatest(c, run, d, d.bufs[b].key);
    assert Clean(d.bufs[b], d.disk, d.mem);
  }

  lemma {:induction false} DiskKeepsUncached(c: Cache, run: seq<Event>, d: Cache, key: Key)
    requires Start(c) && Leads(c, run, d) && Uncached(d.bufs, key)
    ensures d.disk(key) == Latest(c.disk, run, key)
  {
    StartInv(c);
    RunInv(c, run, d);
    MemIsLatest(c, run, d, key);
  }

  /** At most one buffer for a block, and at most one ever used for the block all buffers start with. */
  lemma {:induction false} OneBuffer(c: Cache, run: seq<Event>, d: Cache, b: nat, x: nat)
    requires Start(c) && Leads(c, run, d) && b < NBUF && x < NBUF && b != x
    requires Shape(d) && d.bufs[b].key == d.bufs[x].key
    ensures d.bufs[b].key == Key(0, 0) && (Pristine(d.bufs[b]) || Pristine(d.bufs[x]))
  {
    StartInv(c);
    RunInv(c, run, d);
    if Pristine(d.bufs[b]) { } else { OnlyUser(d, b, x); }
    var i, j := Position(d.order, b), Position(d.order, x);
    assert i != j;
  }

  lemma PinnedStep(c: Cache, e: Event, b: nat)
    requires Inv(c) && Enabled(c, e) && b < NBUF && c.bufs[b].dirty && !(e.Write? && e.b == b)
    ensures Step(c, e).bufs[b].dirty && Step(c, e).bufs[b].key == c.bufs[b].key
    ensures Step(c, e).disk(c.bufs[b].key) == c.disk(c.bufs[b].key)
  {
    assert Clean(c.bufs[b], c.disk, c.mem);
    if e.Write? && c.bufs[e.b].key == c.bufs[b].key { OnlyUser(c, b, e.b); }
  }

  /** A pinned buffer is not recycled and its block not written, until a bwrite of that very buffer. */
  lemma {:induction false} PinnedStays(c: Cache, run: seq<Event>, d: Cache, b: nat)
    requires Inv(c) && Leads(c, run, d) && b < NBUF && c.bufs[b].dirty
    requires forall i :: 0 <= i < |run| ==> !(run[i].Write? && run[i].b == b)
    ensures Inv(d) && d.bufs[b].dirty && d.bufs[b].key == c.bufs[b].key
    ensures d.disk(c.bufs[b].key) == c.disk(c.bufs[b].key)
    decreases |run|
  {
    hide Inv, Enabled, Step;
    RunInv(c, run, d);
    if run != [] {
      var m := Before(c, run, d);
      PinnedStays(c, run[..|run| - 1], m, b);
      assert !(run[|run| - 1].Write? && run[|run| - 1].b == b);
      PinnedStep(m, run[|run| - 1], b);
    }
  }

  /** So a later bget of the block, by write_log or install_trans, finds that buffer. */
  lemma PinnedIsFound(c: Cache, pid: nat, key: Key, b: nat, x: nat)
    requires Inv(c) && b < NBUF && c.bufs[b].dirty && c.bufs[b].key == key
    requires x < NBUF && Enabled(c, Get(pid, key, x))
    ensures x == b
  {
    var i := Position(c.order, b);
    if x != b { OnlyUser(c, b, x); }
  }

  /** The recycled buffer is, of those that could be, the one released longest ago. */
  lemma VictimIsOldest(c: Cache, b: nat, x: nat)
    requires Inv(c) && Victim(c, b) && x < NBUF && Free(c.bufs[x])
    ensures b < NBUF && c.stamp[b] <= c.stamp[x]
  {
    var i :| 0 <= i < NBUF && c.order[i] == b && Free(c.bufs[b])
             && forall j :: i < j < NBUF ==> !Free(c.bufs[c.order[j]]);
    var p := Position(c.order, x);
    assert p <= i;
  }

  /** bget panics exactly when the block is in no buffer and every buffer is referenced or pinned. */
  lemma PanicsWhenFull(c: Cache, pid: nat, key: Key)
    requires Inv(c)
    ensures (forall b: nat :: b < NBUF ==> !Enabled(c, Get(pid, key, b)))
            <==> Missing(c, key) && forall b :: 0 <= b < NBUF ==> !Free(c.bufs[b])
  {
    if !Missing(c, key) {
      var b := FirstHit(c, key, 0);
      assert Enabled(c, Get(pid, key, b));
    } else if exists b :: 0 <= b < NBUF && Free(c.bufs[b]) {
      var b := LastFree(c, NBUF);
      assert Enabled(c, Get(pid, key, b));
    }
  }

  lemma SomeHit(c: Cache, key: Key)
    requires Shape(c) && !Missing(c, key)
    ensures exists i :: 0 <= i < NBUF && c.bufs[c.order[i]].key == key
  {
    var b :| 0 <= b < NBUF && c.bufs[b].key == key;
    assert c.order[Position(c.order, b)] == b;
  }

  lemma SomeFree(c: Cache)
    requires Shape(c) && exists b :: 0 <= b < NBUF && Free(c.bufs[b])
    ensures exists i :: 0 <= i < NBUF && Free(c.bufs[c.order[i]])
  {
    var b :| 0 <= b < NBUF && Free(c.bufs[b]);
    assert c.order[Position(c.order, b)] == b;
  }

  /** The scan forward from the head. */
  ghost function FirstHit(c: Cache, key: Key, i: nat): (b: nat)
    requires Inv(c) && i <= NBUF && !Missing(c, key)
    requires forall j :: 0 <= j < i ==> c.bufs[c.order[j]].key != key
    ensures b < NBUF && Hit(c, key, b)
    decreases NBUF - i
  {
    assert i < NBUF by { SomeHit(c, key); }
    if c.bufs[c.order[i]].key == key then c.order[i] else FirstHit(c, key, i + 1)
  }

  /** The scan backward. */
  ghost function LastFree(c: Cache, i: nat): (b: nat)
    requires Inv(c) && i <= NBUF && exists b :: 0 <= b < NBUF && Free(c.bufs[b])
    requires forall j :: i <= j < NBUF ==> !Free(c.bufs[c.order[j]])
    ensures b < NBUF && Victim(c, b)
  {
    assert i > 0 by { SomeFree(c); }
    if Free(c.bufs[c.order[i - 1]]) then c.order[i - 1] else LastFree(c, i - 1)
  }

  /** bget's choice is forced. */
  lemma OneChoice(c: Cache, pid: nat, key: Key, b: nat, x: nat)
    requires Inv(c) && Enabled(c, Get(pid, key, b)) && Enabled(c, Get(pid, key, x))
    ensures b == x
  {
  }
}
