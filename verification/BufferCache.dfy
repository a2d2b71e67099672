/** kernel/bio.c as it runs: an array of buffers threaded on a circular doubly linked list whose head is
  entry NBUF. Each method is one critical section, or one transfer, and takes the machine of CacheMachine by
  one step. */
module BufferCache {
  import opened Wrappers
  import opened CacheMachine

  const HEAD: nat := NBUF

  // ---------------------------------------------------------------- the list

  /** The list read round from the head and back. */
  function Round(order: seq<nat>): seq<nat> {
    [HEAD] + order + [HEAD]
  }

  predicate Circular(next: seq<nat>, prev: seq<nat>, order: seq<nat>) {
    && |next| == |prev| == NBUF + 1
    && (forall i :: 0 <= i < |order| ==> order[i] < NBUF)
    && (forall i, j :: 0 <= i < j < |order| ==> order[i] != order[j])
    && forall i :: 0 <= i <= |order| ==>
         next[Round(order)[i]] == Round(order)[i + 1] && prev[Round(order)[i + 1]] == Round(order)[i]
  }

  function Without(order: seq<nat>, i: nat): seq<nat>
    requires i < |order|
  {
    order[..i] + order[i + 1..]
  }

  /** b->next->prev = b->prev; b->prev->next = b->next */
  lemma UnlinkKeeps(next: seq<nat>, prev: seq<nat>, order: seq<nat>, i: nat)
    requires Circular(next, prev, order) && i < |order|
    ensures next[order[i]] <= NBUF && prev[order[i]] <= NBUF
    ensures Circular(next[prev[order[i]] := next[order[i]]], prev[next[order[i]] := prev[order[i]]], Without(order, i))
  {
    var r, w := Round(order), Round(Without(order, i));
    assert r[i + 1] == order[i];
    assert next[r[i + 1]] == r[i + 2] && prev[r[i + 1]] == r[i] by { assert next[r[i]] == r[i + 1]; }
    forall k | 0 <= k <= |order| - 1
      ensures next[prev[order[i]] := next[order[i]]][w[k]] == w[k + 1]
      ensures prev[next[order[i]] := prev[order[i]]][w[k + 1]] == w[k]
    {
      if k < i {
        assert w[k] == r[k] && w[k + 1] == r[k + 1];
      } else if k == i {
        assert w[k] == r[k] && w[k + 1] == r[k + 2];
      } else {
        assert w[k] == r[k + 1] && w[k + 1] == r[k + 2];
      }
    }
  }

  /** b->next = head.next; b->prev = &head; head.next->prev = b; head.next = b */
  lemma PushKeeps(next: seq<nat>, prev: seq<nat>, order: seq<nat>, b: nat)
    requires Circular(next, prev, order) && b < NBUF && b !in order
    ensures next[HEAD] <= NBUF
    ensures Circular(next[b := next[HEAD]][HEAD := b], prev[b := HEAD][next[HEAD] := b], [b] + order)
  {
    var r, w := Round(order), Round([b] + order);
    assert next[r[0]] == r[1];
    forall k | 0 <= k <= |order| + 1
      ensures next[b := next[HEAD]][HEAD := b][w[k]] == w[k + 1]
      ensures prev[b := HEAD][next[HEAD] := b][w[k + 1]] == w[k]
    {
      if k > 0 { assert w[k + 1] == r[k] && (k > 1 ==> w[k] == r[k - 1]); }
    }
  }

  lemma WalkOn(next: seq<nat>, prev: seq<nat>, order: seq<nat>, i: nat)
    requires Circular(next, prev, order) && i < |order|
    ensures next[order[i]] == if i + 1 < |order| then order[i + 1] else HEAD
    ensures prev[order[i]] == if i > 0 then order[i - 1] else HEAD
  {
    var r := Round(order);
    assert next[r[i + 1]] == r[i + 2];
    assert prev[r[i + 1]] == r[i] by { assert next[r[i]] == r[i + 1]; }
  }

  lemma WalkFrom(next: seq<nat>, prev: seq<nat>, order: seq<nat>)
    requires Circular(next, prev, order) && |order| > 0
    ensures next[HEAD] == order[0] && prev[HEAD] == order[|order| - 1]
  {
    var r := Round(order);
    assert next[r[0]] == r[1];
    assert prev[r[|order| + 1]] == r[|order|] by { assert next[r[|order|]] == r[|order| + 1]; }
  }

  /** The links binit makes: the last buffer of the array first. */
  method Binit(next: array<nat>, prev: array<nat>) returns (ghost order: seq<nat>)
    requires next != prev && next.Length == prev.Length == NBUF + 1
    modifies next, prev
    ensures order == seq(NBUF, i requires 0 <= i < NBUF => NBUF - 1 - i)
    ensures Circular(next[..], prev[..], order)
  {
    next[HEAD], prev[HEAD] := HEAD, HEAD;
    order := [];
    var b: nat := 0;
    while b < NBUF
      invariant b <= NBUF && order == seq(b, i requires 0 <= i < b => b - 1 - i)
      invariant Circular(next[..], prev[..], order)
    {
      PushFront(next, prev, order, b);
      order := [b] + order;
      b := b + 1;
    }
  }

  method PushFront(next: array<nat>, prev: array<nat>, ghost order: seq<nat>, b: nat)
    requires next != prev && Circular(next[..], prev[..], order) && b < NBUF && b !in order
    modifies next, prev
    ensures Circular(next[..], prev[..], [b] + order)
  {
    PushKeeps(next[..], prev[..], order, b);
    hide Circular;
    ghost var n: seq<nat>, p: seq<nat> := next[..], prev[..];
    var f: nat := next[HEAD];
    next[b] := f;
    prev[b] := HEAD;
    prev[f] := b;
    next[HEAD] := b;
    assert next[..] == n[b := f][HEAD := b] && prev[..] == p[b := HEAD][f := b];
  }

  method Unlink(next: array<nat>, prev: array<nat>, ghost order: seq<nat>, ghost i: nat, b: nat)
    requires next != prev && Circular(next[..], prev[..], order) && i < |order| && order[i] == b
    modifies next, prev
    ensures Circular(next[..], prev[..], Without(order, i))
  {
    UnlinkKeeps(next[..], prev[..], order, i);
    WalkOn(next[..], prev[..], order, i);
    ghost var n: seq<nat>, p: seq<nat> := next[..], prev[..];
    prev[next[b]] := prev[b];
    next[prev[b]] := next[b];
    assert prev[..] == p[n[b] := p[b]] && next[..] == n[p[b] := n[b]];
  }

  method MoveToFront(next: array<nat>, prev: array<nat>, ghost order: seq<nat>, b: nat) returns (ghost moved: seq<nat>)
    requires next != prev && Circular(next[..], prev[..], order) && b in order
    modifies next, prev
    ensures moved == Front(order, Position(order, b)) && Circular(next[..], prev[..], moved)
  {
    ghost var i := Position(order, b);
    FrontParts(order, i);
    Unlink(next, prev, order, i, b);
    PushFront(next, prev, Without(order, i), b);
    moved := Front(order, i);
  }

  lemma ShapeOf(c: Cache)
    requires Inv(c)
    ensures Shape(c) && |c.bufs| == |c.users| == |c.stamp| == |c.order| == NBUF
  {
  }

  lemma LinksOf(next: seq<nat>, prev: seq<nat>, order: seq<nat>)
    requires Circular(next, prev, order)
    ensures |next| == |prev| == NBUF + 1
  {
  }

  /** The two ways through bget. */
  lemma HitStep(c: Cache, pid: nat, key: Key, b: nat)
    requires Inv(c) && b < NBUF && Hit(c, key, b)
    ensures Enabled(c, Get(pid, key, b)) && Inv(Step(c, Get(pid, key, b)))
    ensures Step(c, Get(pid, key, b)) == c.(bufs := c.bufs[b := c.bufs[b].(refcnt := c.bufs[b].refcnt + 1)],
                                            users := c.users[b := c.users[b] + multiset{Request(pid, key)}])
  {
    StepKeeps(c, Get(pid, key, b));
  }

  lemma RecycleStep(c: Cache, pid: nat, key: Key, b: nat)
    requires Inv(c) && b < NBUF && Missing(c, key) && Victim(c, b)
    ensures Enabled(c, Get(pid, key, b)) && Inv(Step(c, Get(pid, key, b)))
    ensures Step(c, Get(pid, key, b))
         == c.(bufs := c.bufs[b := c.bufs[b].(key := key, valid := false, dirty := false, refcnt := 1)],
               users := c.users[b := c.users[b] + multiset{Request(pid, key)}])
  {
    assert !Hit(c, key, b);
    StepKeeps(c, Get(pid, key, b));
  }

  lemma NoStep(c: Cache, pid: nat, key: Key)
    requires Inv(c) && Missing(c, key) && forall x :: 0 <= x < NBUF ==> !Free(c.bufs[x])
    ensures forall x: nat :: x < NBUF ==> !Enabled(c, Get(pid, key, x))
  {
  }

  lemma OrderHas(c: Cache, b: nat)
    requires Inv(c) && b < NBUF
    ensures b in c.order
  {
  }

  lemma FrontParts(order: seq<nat>, i: nat)
    requires i < |order| && forall j, k :: 0 <= j < k < |order| ==> order[j] != order[k]
    ensures order[i] !in Without(order, i)
    ensures Front(order, i) == [order[i]] + Without(order, i)
  {
  }

  lemma DropStep(c: Cache, pid: nat, b: nat)
    requires Inv(c) && Waits(c, pid, b)
    ensures b < NBUF && Enabled(c, Drop(pid, b)) && Inv(Step(c, Drop(pid, b)))
    ensures var n := Minus(c.bufs[b].refcnt);
            Step(c, Drop(pid, b))
            == c.(bufs := c.bufs[b := c.bufs[b].(refcnt := n)],
                  users := c.users[b := c.users[b] - multiset{Request(pid, c.bufs[b].key)}],
                  order := if n != 0 then c.order else Front(c.order, Position(c.order, b)),
                  stamp := if n != 0 then c.stamp else c.stamp[b := c.clock],
                  clock := if n != 0 then c.clock else c.clock + 1)
  {
    assert Referenced(c.bufs[b], c.users[b]);
    StepKeeps(c, Drop(pid, b));
  }

  // ---------------------------------------------------------------- the cache

  class BufferCache {
    const next: array<nat>
    const prev: array<nat>
    const bufs: array<Buf>
    var disk: Blocks
    ghost var order: seq<nat>
    ghost var stamp: seq<nat>
    ghost var clock: nat
    ghost var users: seq<multiset<Request>>
    ghost var mem: Blocks

    ghost function View(): Cache
      reads this, bufs
    {
      Cache(bufs[..], order, stamp, clock, users, disk, mem)
    }

    ghost predicate Valid()
      reads this, next, prev, bufs
    {
      next != prev && Circular(next[..], prev[..], order) && Inv(View())
    }

    constructor (disk0: Blocks, data: Block)
      ensures Valid() && fresh(next) && fresh(prev) && fresh(bufs)
      ensures Start(View()) && disk == disk0
    {
      var n := new nat[NBUF + 1](_ => 0);
      var p := new nat[NBUF + 1](_ => 0);
      ghost var list := Binit(n, p);
      next, prev, disk, mem := n, p, disk0, disk0;
      bufs := new Buf[NBUF](_ => Fresh(data));
      order := list;
      stamp := seq(NBUF, i requires 0 <= i < NBUF => i);
      clock := NBUF;
      users := seq(NBUF, i requires 0 <= i < NBUF => multiset{});
      new;
      assert forall b :: 0 <= b < NBUF ==> Pristine(bufs[..][b]);
      StartInv(View());
    }

    /** The critical section of bget. The buffer is the first in the list with the block, else the last
      one free to be recycled; without either it panics and nothing has changed. */
    method Bget(pid: nat, dev: nat, blockno: nat) returns (ok: bool, b: nat)
      requires Valid()
      modifies this`users, bufs
      ensures Valid()
      ensures ok ==> b < NBUF && old(Enabled(View(), Get(pid, Key(dev, blockno), b)))
                     && View() == old(Step(View(), Get(pid, Key(dev, blockno), b)))
      ensures !ok ==> View() == old(View())
                      && forall x: nat :: x < NBUF ==> !Enabled(View(), Get(pid, Key(dev, blockno), x))
    {
      var key := Key(dev, blockno);
      ghost var c := View();
      ShapeOf(c);
      hide Inv, Shape, Hit, Missing, Victim, Enabled, Step, Circular, Free;
      b := FindCached(key);
      if b != HEAD {
        HitStep(c, pid, key, b);
        users := users[b := users[b] + multiset{Request(pid, key)}];
        bufs[b] := bufs[b].(refcnt := bufs[b].refcnt + 1);
        assert bufs[..] == c.bufs[b := bufs[b]];
        return true, b;
      }
      b := FindFree();
      if b != HEAD {
        RecycleStep(c, pid, key, b);
        users := users[b := users[b] + multiset{Request(pid, key)}];
        bufs[b] := bufs[b].(key := key, valid := false, dirty := false, refcnt := 1);
        assert bufs[..] == c.bufs[b := bufs[b]];
        return true, b;
      }
      NoStep(c, pid, key);
      ok := false;
    }

    /** The forward scan of bget; HEAD when the block is not cached. */
    method FindCached(key: Key) returns (b: nat)
      requires Valid()
      ensures if b == HEAD then Missing(View(), key) else b < NBUF && Hit(View(), key, b)
    {
      ShapeOf(View());
      LinksOf(next[..], prev[..], order);
      hide Inv, Circular;
      WalkFrom(next[..], prev[..], order);
      b := next[HEAD];
      ghost var i := 0;
      while b != HEAD
        invariant 0 <= i <= NBUF && b == if i < NBUF then order[i] else HEAD
        invariant forall j :: 0 <= j < i ==> bufs[order[j]].key != key
        decreases NBUF - i
      {
        if bufs[b].key == key {
          return;
        }
        WalkOn(next[..], prev[..], order, i);
        b := next[b];
        i := i + 1;
      }
      forall x | 0 <= x < NBUF ensures bufs[x].key != key { assert order[Position(order, x)] == x; }
    }

    /** The backward scan of bget; HEAD when every buffer is in use or pinned. */
    method FindFree() returns (b: nat)
      requires Valid()
      ensures if b == HEAD then forall x :: 0 <= x < NBUF ==> !Free(bufs[x]) else b < NBUF && Victim(View(), b)
    {
      ShapeOf(View());
      LinksOf(next[..], prev[..], order);
      hide Inv, Circular;
      WalkFrom(next[..], prev[..], order);
      b := prev[HEAD];
      ghost var i := NBUF;
      while b != HEAD
        invariant 0 <= i <= NBUF && b == if i > 0 then order[i - 1] else HEAD
        invariant forall j :: i <= j < NBUF ==> !Free(bufs[order[j]])
        decreases i
      {
        if bufs[b].refcnt == 0 && !bufs[b].dirty {
          return;
        }
        WalkOn(next[..], prev[..], order, i - 1);
        b := prev[b];
        i := i - 1;
      }
      forall x | 0 <= x < NBUF ensures !Free(bufs[x]) { assert order[Position(order, x)] == x; }
    }

    /** One try of acquiresleep by a process that bget gave the buffer to. */
    method AcquireSleep(pid: nat, b: nat) returns (acquired: bool)
      requires Valid() && Waits(View(), pid, b)
      modifies bufs
      ensures Valid() && acquired == old(bufs[b].holder.None?)
      ensures View() == if acquired then old(Step(View(), Lock(pid, b))) else old(View())
      ensures acquired ==> bufs[..] == old(bufs[..][b := bufs[b].(holder := Some(pid))])
    {
      acquired := bufs[b].holder.None?;
      if acquired {
        ghost var c := View();
        StepKeeps(c, Lock(pid, b));
        bufs[b] := bufs[b].(holder := Some(pid));
        assert bufs[..] == c.bufs[b := bufs[b]];
      }
    }

    /** bread once the lock is held: the caller sees the bytes last stored for the block it asked for. */
    method Bread(pid: nat, ghost key: Key, b: nat) returns (data: Block)
      requires Valid() && Holds(View(), pid, b) && Request(pid, key) in users[b]
      modifies this`disk, bufs
      ensures Valid() && View() == old(Step(View(), Fill(pid, b)))
      ensures bufs[b].valid && bufs[b].key == key && data == bufs[b].data == mem(key)
    {
      ghost var c := View();
      assert Referenced(c.bufs[b], c.users[b]);
      StepKeeps(c, Fill(pid, b));
      if !bufs[b].valid {
        Iderw(b);
        assert bufs[..] == c.bufs[b := bufs[b]];
      }
      data := bufs[b].data;
      assert Clean(bufs[b], disk, mem);
    }

    /** The transfer of kernel/ide.c:119-152 as one atomic step: write a dirty buffer, read an invalid one. */
    method Iderw(b: nat)
      requires b < bufs.Length
      modifies this`disk, bufs
      ensures var was := old(bufs[b]);
              var data := if was.valid || was.dirty then was.data else old(disk)(was.key);
              && bufs[..] == old(bufs[..])[b := was.(valid := true, dirty := false, data := data)]
              && disk == if was.dirty then Updated(old(disk), was.key, was.data) else old(disk)
    {
      var buf := bufs[b];
      if buf.valid && !buf.dirty { return; }
      if buf.dirty {
        disk := Updated(disk, buf.key, buf.data);
        bufs[b] := buf.(valid := true, dirty := false);
      } else {
        bufs[b] := buf.(valid := true, data := disk(buf.key));
      }
    }

    /** A process changes the bytes of a buffer it holds. */
    method StoreData(pid: nat, b: nat, data: Block)
      requires Valid() && Holds(View(), pid, b) && bufs[b].valid
      modifies this`mem, bufs
      ensures Valid() && View() == old(Step(View(), Store(pid, b, bufs[b].key, data)))
      ensures bufs[..] == old(bufs[..][b := bufs[b].(data := data)]) && mem == Updated(old(mem), bufs[b].key, data)
    {
      ghost var c := View();
      StepKeeps(c, Store(pid, b, bufs[b].key, data));
      mem := Updated(mem, bufs[b].key, data);
      bufs[b] := bufs[b].(data := data);
      assert bufs[..] == c.bufs[b := bufs[b]];
    }

    /** The B_DIRTY line of log_write (kernel/log.c:216). */
    method MarkDirty(pid: nat, b: nat)
      requires Valid() && Holds(View(), pid, b) && bufs[b].valid
      modifies bufs
      ensures Valid() && View() == old(Step(View(), Pin(pid, b)))
      ensures bufs[..] == old(bufs[..][b := bufs[b].(dirty := true)])
    {
      ghost var c := View();
      StepKeeps(c, Pin(pid, b));
      bufs[b] := bufs[b].(dirty := true);
      assert bufs[..] == c.bufs[b := bufs[b]];
    }

    method Bwrite(pid: nat, b: nat) returns (ok: bool)
      requires Valid() && b < NBUF
      modifies this`disk, this`mem, bufs
      ensures Valid() && ok == old(Holds(View(), pid, b))
      ensures View() == if ok then old(Step(View(), Write(pid, b, bufs[b].key, bufs[b].data))) else old(View())
    {
      ok := bufs[b].holder == Some(pid);
      if !ok { return; }
      ghost var c := View();
      StepKeeps(c, Write(pid, b, bufs[b].key, bufs[b].data));
      mem := Updated(mem, bufs[b].key, bufs[b].data);
      bufs[b] := bufs[b].(dirty := true);
      Iderw(b);
      assert bufs[..] == c.bufs[b := bufs[b]];
    }

    /** brelse up to releasesleep; panics on a buffer the caller does not hold. It does not check that changed
      bytes have been pinned or written, and the cache stays sound exactly if they have. */
    method ReleaseSleep(pid: nat, b: nat) returns (ok: bool)
      requires Valid() && b < NBUF
      modifies bufs
      ensures ok == old(Holds(View(), pid, b))
      ensures View() == if ok then old(Put(View(), b, bufs[b].(holder := None))) else old(View())
      ensures ok && old(Enabled(View(), Unlock(pid, b))) ==> View() == old(Step(View(), Unlock(pid, b)))
      ensures Valid() <==> !ok || old(Enabled(View(), Unlock(pid, b)))
    {
      ok := bufs[b].holder == Some(pid);
      if !ok { return; }
      ghost var c := View();
      if Enabled(c, Unlock(pid, b)) { StepKeeps(c, Unlock(pid, b)); }
      bufs[b] := bufs[b].(holder := None);
      assert bufs[..] == c.bufs[b := bufs[b]];
      assert Inv(View()) ==> Clean(bufs[b], disk, mem);
    }

    /** The rest of brelse: a buffer nobody refers to any more becomes the most recently used. */
    method Unreference(pid: nat, b: nat)
      requires Valid() && Waits(View(), pid, b)
      modifies this`users, this`order, this`stamp, this`clock, next, prev, bufs
      ensures Valid() && View() == old(Step(View(), Drop(pid, b)))
    {
      ghost var c := View();
      DropStep(c, pid, b);
      ShapeOf(c);
      OrderHas(c, b);
      hide Inv, Shape, Enabled, Step, Circular, Front, Position, Waits, Holds, Minus;
      ghost var d := Step(c, Drop(pid, b));
      var last := Dereference(pid, b);
      assert bufs[..] == d.bufs && users == d.users;
      if last {
        Requeue(b);
        assert order == d.order;
        assert stamp == d.stamp;
        assert clock == d.clock;
        assert View() == d;
        return;
      }
      assert View() == d;
    }

    method Dereference(pid: nat, b: nat) returns (last: bool)
      requires b < bufs.Length && b < |users|
      modifies this`users, bufs
      ensures users == old(users[b := users[b] - multiset{Request(pid, bufs[b].key)}])
      ensures bufs[..] == old(bufs[..][b := bufs[b].(refcnt := Minus(bufs[b].refcnt))])
      ensures last == (bufs[b].refcnt == 0)
    {
      users := users[b := users[b] - multiset{Request(pid, bufs[b].key)}];
      bufs[b] := bufs[b].(refcnt := Minus(bufs[b].refcnt));
      last := bufs[b].refcnt == 0;
    }

    method Requeue(b: nat)
      requires next != prev && Circular(next[..], prev[..], order) && b in order && b < |stamp|
      modifies this`order, this`stamp, this`clock, next, prev
      ensures Circular(next[..], prev[..], order)
      ensures order == Front(old(order), Position(old(order), b))
      ensures stamp == old(stamp)[b := old(clock)] && clock == old(clock) + 1
    {
      order := MoveToFront(next, prev, order, b);
      stamp, clock := stamp[b := clock], clock + 1;
    }
  }
}
