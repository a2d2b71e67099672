/** The bytes of files as readi and writei of kernel/fs.c see them, the blocks a write may log, and the bits
  itrunc clears. */
module FileBytes {
  import opened Layout
  import opened Paths

  /** The bitmap blocks, as numbers log_write gets. */
  function BitmapBlocks(): set<nat> { {BMAPSTART, BMAPSTART + 1} }

  /** The tables between an inode and its bn-th block. */
  function TableBlocks(fs: Fs, ino: nat, bn: nat): set<nat>
    requires WellFormed(fs) && ino < NINODES && bn < MAXFILE
  {
    var s := DataSlot(bn);
    match s
    case Addr(_) => {}
    case Ind(_) => {Ptr(fs, ino, Addr(NDIRECT))}
    case Dbl(_) => {}
    case Leaf(j, _) => {Ptr(fs, ino, Addr(NDIRECT + 1)), Ptr(fs, ino, Dbl(j))}
  }

  function DataBlock(fs: Fs, ino: nat, bn: nat): nat
    requires WellFormed(fs) && ino < NINODES && bn < MAXFILE
  {
    Ptr(fs, ino, DataSlot(bn))
  }

  /** The inode block of an inode: IBLOCK. */
  function InodeBlock(ino: nat): nat { ino / IPB + INODESTART }

  // ---------------------------------------------------------------- what a transaction must log

  /** Of the disk d, as it was when a transaction began, only logged blocks differ in e: bitmap blocks, blocks of
    files and blocks of inodes. */
  ghost predicate Covered(d: Fs, e: Fs, log: set<nat>) {
    && |e.bits| == |d.bits| && |e.blocks| == |d.blocks| && |e.inodes| == |d.inodes|
    && (forall b: nat | b < |d.bits| && e.bits[b] != d.bits[b] :: BMAPSTART + b / BPB in log)
    && (forall b: nat | b < |d.blocks| && e.blocks[b] != d.blocks[b] :: b in log)
    && (forall i: nat | i < |d.inodes| && e.inodes[i] != d.inodes[i] :: InodeBlock(i) in log)
  }

  lemma CoveredStart(d: Fs)
    ensures Covered(d, d, {})
  {
  }

  lemma CoveredAlloc(d: Fs, e: Fs, log: set<nat>, b: nat)
    requires Covered(d, e, log) && b < |e.bits| && b < |e.blocks|
    ensures Covered(d, e.(bits := e.bits[b := true], blocks := e.blocks[b := ZeroBlock()]),
                    log + {BMAPSTART + b / BPB, b})
  {
  }

  lemma CoveredStore(d: Fs, e: Fs, log: set<nat>, b: nat, data: Block)
    requires Covered(d, e, log) && b < |e.blocks|
    ensures Covered(d, e.(blocks := e.blocks[b := data]), log + {b})
  {
  }

  lemma CoveredFree(d: Fs, e: Fs, log: set<nat>, b: nat)
    requires Covered(d, e, log) && b < |e.bits|
    ensures Covered(d, e.(bits := e.bits[b := false]), log + {BMAPSTART + b / BPB})
  {
  }

  lemma CoveredInode(d: Fs, e: Fs, log: set<nat>, i: nat, n: Inode)
    requires Covered(d, e, log) && i < |e.inodes|
    ensures Covered(d, e.(inodes := e.inodes[i := n]), log + {InodeBlock(i)})
  {
  }

  /** A finished transaction: the disk before, what was given to log_write, and the disk after. */
  datatype Txn = Txn(before: Fs, logged: set<nat>, after: Fs)

  /** Transactions one after the other take the disk d0 to d, each logging every block it changes. */
  ghost predicate History(d0: Fs, ts: seq<Txn>, d: Fs)
    decreases |ts|
  {
    if ts == [] then d == d0
    else
      var t := ts[|ts| - 1];
      History(d0, ts[..|ts| - 1], t.before) && Covered(t.before, t.after, t.logged) && d == t.after
  }

  lemma HistoryNext(d0: Fs, ts: seq<Txn>, d: Fs, t: Txn)
    requires History(d0, ts, d) && t.before == d && Covered(d, t.after, t.logged)
    ensures History(d0, ts + [t], t.after)
  {
    assert (ts + [t])[..|ts|] == ts;
  }

  /** The transactions added to txns0 take the disk d0 to d. */
  ghost predicate Recorded(d0: Fs, txns0: seq<Txn>, txns: seq<Txn>, d: Fs) {
    txns0 <= txns && History(d0, txns[|txns0|..], d)
  }

  lemma RecordedStart(d: Fs, txns: seq<Txn>)
    ensures Recorded(d, txns, txns, d)
  {
  }

  lemma RecordedNext(d0: Fs, txns0: seq<Txn>, txns: seq<Txn>, d: Fs, t: Txn)
    requires Recorded(d0, txns0, txns, d) && t.before == d && Covered(d, t.after, t.logged)
    ensures Recorded(d0, txns0, txns + [t], t.after)
  {
    HistoryNext(d0, txns[|txns0|..], d, t);
    assert (txns + [t])[|txns0|..] == txns[|txns0|..] + [t];
  }

  // ---------------------------------------------------------------- writing

  function Min(a: nat, b: nat): nat { if a < b then a else b }

  /** The checks of writei (kernel/fs.c:547-552). */
  predicate Refused(size: uint32, off: uint32, n: uint32) {
    off > size || off + n >= 0x1_0000_0000 || off + n > MAXFILE * BSIZE
  }

  /** `s` with `data` put at `off`, longer if need be. */
  function Spliced(s: seq<byte>, off: nat, data: seq<byte>): seq<byte>
    requires off <= |s|
  {
    s[..off] + data + if off + |data| < |s| then s[off + |data|..] else []
  }

  function Patched(b: Block, at: nat, data: seq<byte>): Block
    requires |b| == BSIZE && at + |data| <= BSIZE
  {
    b[..at] + data + b[at + |data|..]
  }

  lemma SameBlock(at: nat, k: nat)
    requires at % BSIZE + k < BSIZE
    ensures (at + k) / BSIZE == at / BSIZE && (at + k) % BSIZE == at % BSIZE + k
  {
  }

  /** Bytes after `data` has been written at `off`: those, and the old ones elsewhere. */
  ghost predicate Wrote(fs: Fs, r: Fs, ino: nat, off: nat, data: seq<byte>)
    requires WellFormed(fs) && WellFormed(r)
  {
    forall i: nat, x: nat | i < NINODES && x < MAXFILE * BSIZE ::
      ByteAt(r, i, x) == if i == ino && off <= x < off + |data| then data[x - off] else ByteAt(fs, i, x)
  }

  /** One more piece, within one block. */
  lemma WroteMore(fs: Fs, fs2: Fs, r: Fs, ino: nat, off: nat, done: seq<byte>, more: seq<byte>, data: Block)
    requires WellFormed(fs) && Own(fs2) && WellFormed(r) && ino < NINODES
    requires Wrote(fs, fs2, ino, off, done)
    requires (off + |done|) / BSIZE < MAXFILE && (off + |done|) % BSIZE + |more| <= BSIZE
    requires Ptr(fs2, ino, DataSlot((off + |done|) / BSIZE)) != 0
    requires Ptr(fs2, ino, DataSlot((off + |done|) / BSIZE)) < FSSIZE
    requires data == Patched(fs2.blocks[Ptr(fs2, ino, DataSlot((off + |done|) / BSIZE))], (off + |done|) % BSIZE, more)
    requires forall i: nat, x: nat | i < NINODES && x < MAXFILE * BSIZE :: ByteAt(r, i, x) ==
                 if i == ino && x / BSIZE == (off + |done|) / BSIZE then data[x % BSIZE] else ByteAt(fs2, i, x)
    ensures Wrote(fs, r, ino, off, done + more)
  {
    hide Ptr, InUse, NoSharing, NoLeak;
    var at := off + |done|;
    forall i: nat, x: nat | i < NINODES && x < MAXFILE * BSIZE
      ensures ByteAt(r, i, x) ==
              if i == ino && off <= x < off + |done + more| then (done + more)[x - off] else ByteAt(fs, i, x)
    {
      assert ByteAt(fs2, i, x) == if i == ino && off <= x < off + |done| then done[x - off] else ByteAt(fs, i, x);
      if i == ino && x / BSIZE == at / BSIZE {
        assert x - at == x % BSIZE - at % BSIZE;
        if x % BSIZE < at % BSIZE || x % BSIZE >= at % BSIZE + |more| {
          assert data[x % BSIZE] == ByteAt(fs2, ino, x);
        }
      }
    }
  }

  /** The block after the last one touched when `tot` bytes have been written from `off` on. */
  function NextBlock(off: nat, tot: nat): nat {
    if tot == 0 then off / BSIZE else (off + tot - 1) / BSIZE + 1
  }

  lemma NextBlockStep(off: nat, tot: nat, m: nat)
    requires m > 0 && (off + tot) % BSIZE + m <= BSIZE && (tot > 0 ==> (off + tot) % BSIZE == 0)
    ensures (off + tot) / BSIZE == NextBlock(off, tot)
    ensures NextBlock(off, tot + m) == NextBlock(off, tot) + 1
  {
  }

  lemma LastBlock(off: nat, n: nat)
    requires off + n <= MAXFILE * BSIZE
    ensures off / BSIZE <= NextBlock(off, n) <= MAXFILE && NextBlock(off, 0) == off / BSIZE
    ensures n > 0 ==> off / BSIZE < NextBlock(off, n)
  {
  }

  lemma NextInside(off: nat, tot: nat, m: nat, n: nat)
    requires m > 0 && tot + m <= n && (off + tot) % BSIZE + m <= BSIZE
    requires m == n - tot || (off + tot) % BSIZE + m == BSIZE
    ensures NextBlock(off, tot + m) <= NextBlock(off, n)
    ensures tot + m < n ==> (off + tot + m) % BSIZE == 0
  {
  }

  /** The bytes readi returns: n, or those up to the end. */
  function Clipped(size: nat, off: nat, n: nat): nat
    requires off <= size
  {
    if off + n > size then size - off else n
  }

  /** The slots readi goes through. */
  function ReadPath(size: nat, off: nat, n: nat): set<Slot> {
    if off <= size && off + Clipped(size, off, n) <= MAXFILE * BSIZE then
      LastBlock(off, Clipped(size, off, n));
      PathTo(off / BSIZE, NextBlock(off, Clipped(size, off, n)))
    else {}
  }

  /** Every block in the range has been allocated. */
  ghost predicate Mapped(fs: Fs, ino: nat, first: nat, last: nat) {
    WellFormed(fs) && ino < NINODES && last <= MAXFILE
      && forall bn: nat | first <= bn < last :: Ptr(fs, ino, DataSlot(bn)) != 0
  }

  lemma DenseRead(fs: Fs, ino: nat, off: nat, count: nat)
    requires WellFormed(fs) && ino < NINODES && off + count <= fs.inodes[ino].size <= MAXFILE * BSIZE
    requires NextBlock(off, count) <= MAXFILE
    ensures Dense(fs, ino) ==> Mapped(fs, ino, off / BSIZE, NextBlock(off, count))
    ensures Mapped(fs, ino, off / BSIZE, NextBlock(off, count)) ==>
              forall room: nat :: CanFill(fs, room, ino, PathTo(off / BSIZE, NextBlock(off, count)))
  {
    hide Ptr, PathTo;
    if Dense(fs, ino) {
      forall bn: nat | off / BSIZE <= bn < NextBlock(off, count) ensures Ptr(fs, ino, DataSlot(bn)) != 0 {
        assert bn * BSIZE < fs.inodes[ino].size;
      }
    }
    if Mapped(fs, ino, off / BSIZE, NextBlock(off, count)) {
      PathToThere(fs, ino, off / BSIZE, NextBlock(off, count));
    }
  }

  lemma MappedCan(fs: Fs, ino: nat, first: nat, last: nat)
    requires WellFormed(fs) && ino < NINODES && last <= MAXFILE
    ensures Mapped(fs, ino, first, last) ==> forall room: nat :: CanFill(fs, room, ino, PathTo(first, last))
  {
    if Mapped(fs, ino, first, last) { PathToThere(fs, ino, first, last); }
  }

  lemma ReadOn(fs0: Fs, fs1: Fs, ino: nat, off: nat, dst: seq<byte>, part: seq<byte>)
    requires WellFormed(fs0) && WellFormed(fs1) && ino < NINODES && SameBytes(fs0, fs1)
    requires off + |dst| + |part| <= MAXFILE * BSIZE
    requires forall k :: 0 <= k < |dst| ==> dst[k] == ByteAt(fs0, ino, off + k)
    requires forall k :: 0 <= k < |part| ==> part[k] == ByteAt(fs1, ino, off + |dst| + k)
    ensures forall k :: 0 <= k < |dst + part| ==> (dst + part)[k] == ByteAt(fs0, ino, off + k)
  {
    hide ByteAt;
  }

  /** MIN(n - tot, BSIZE - off % BSIZE) in the loops of readi and writei. */
  function Piece(at: nat, left: nat): nat {
    Min(left, BSIZE - at % BSIZE)
  }

  /** The block of a byte. */
  function BlockOf(at: nat): nat {
    at / BSIZE
  }

  predicate WithinBlock(at: nat, m: nat) {
    BlockOf(at) < MAXFILE && at % BSIZE + m <= BSIZE
  }

  /** The bytes of the file from `at` on. */
  ghost predicate PartIs(fs: Fs, ino: nat, at: nat, part: seq<byte>) {
    && WellFormed(fs) && ino < NINODES && (part == [] || at + |part| <= MAXFILE * BSIZE)
    && forall k :: 0 <= k < |part| ==> part[k] == ByteAt(fs, ino, at + k)
  }

  lemma WithinIs(at: nat, m: nat)
    requires WithinBlock(at, m)
    ensures BlockOf(at) < MAXFILE
  {
  }

  /** readi after `tot` of `count` bytes. */
  ghost predicate Reading(fs0: Fs, a0: nat, r: Fs, a: nat, ino: nat, off: nat, count: nat, tot: nat, dst: seq<byte>) {
    && WellFormed(fs0) && ino < NINODES && tot <= count && |dst| == tot && off + count <= MAXFILE * BSIZE
    && NextBlock(off, tot) <= NextBlock(off, count) <= MAXFILE
    && (0 < tot < count ==> (off + tot) % BSIZE == 0)
    && Filled(fs0, a0, r, a, ino, PathTo(off / BSIZE, NextBlock(off, tot)))
    && (Mapped(fs0, ino, off / BSIZE, NextBlock(off, count)) ==> r == fs0)
    && forall k :: 0 <= k < tot ==> dst[k] == ByteAt(fs0, ino, off + k)
  }

  lemma ReadStarts(fs: Fs, a: nat, ino: nat, off: nat, count: nat)
    requires Own(fs) && ino < NINODES && off + count <= MAXFILE * BSIZE
    ensures Reading(fs, a, fs, a, ino, off, count, 0, [])
  {
    LastBlock(off, count);
    NothingYet(fs, a, ino, off / BSIZE);
  }

  /** The next piece: which block it is in, and when that block can be had. */
  lemma ReadNext(fs0: Fs, a0: nat, r: Fs, a: nat, ino: nat, off: nat, count: nat, tot: nat, dst: seq<byte>)
    requires Reading(fs0, a0, r, a, ino, off, count, tot, dst) && tot < count
    ensures BlockOf(off + tot) == NextBlock(off, tot) && 0 < Piece(off + tot, count - tot) <= count - tot
    ensures WithinBlock(off + tot, Piece(off + tot, count - tot)) && (tot > 0 ==> (off + tot) % BSIZE == 0)
    ensures !CanFill(r, a, ino, Path(BlockOf(off + tot)))
            ==> !CanFill(fs0, a0, ino, PathTo(off / BSIZE, NextBlock(off, count)))
    ensures Mapped(fs0, ino, off / BSIZE, NextBlock(off, count)) ==> DataBlock(r, ino, BlockOf(off + tot)) != 0
  {
    hide Ptr, Path, PathTo, InUse, NoSharing, NoLeak;
    LastBlock(off, count);
    NextBlockStep(off, tot, 1);
    NextBelow(off, tot, count);
    RangeStep(fs0, a0, r, a, ino, off / BSIZE, NextBlock(off, tot), NextBlock(off, count));
  }

  lemma NextBelow(off: nat, tot: nat, n: nat)
    requires tot < n && (tot > 0 ==> (off + tot) % BSIZE == 0) && off + n <= MAXFILE * BSIZE
    ensures off / BSIZE <= NextBlock(off, tot) < NextBlock(off, n) <= MAXFILE
  {
  }

  lemma ReadStep(fs0: Fs, a0: nat, fs1: Fs, a1: nat, r: Fs, a: nat, ino: nat, off: nat, count: nat, tot: nat,
                 dst: seq<byte>, part: seq<byte>)
    requires Reading(fs0, a0, fs1, a1, ino, off, count, tot, dst) && tot < count && |part| > 0
    requires BlockOf(off + tot) < MAXFILE && Filled(fs1, a1, r, a, ino, Path(BlockOf(off + tot)))
    requires |part| == Piece(off + tot, count - tot)
    requires PartIs(fs1, ino, off + tot, part)
    requires Mapped(fs0, ino, off / BSIZE, NextBlock(off, count)) ==> r == fs1
    ensures Reading(fs0, a0, r, a, ino, off, count, tot + |part|, dst + part)
  {
    hide Ptr, Path, PathTo, InUse, NoSharing, NoLeak, ByteAt, Spent, Mapped;
    ReadNext(fs0, a0, fs1, a1, ino, off, count, tot, dst);
    NextBlockStep(off, tot, |part|);
    NextInside(off, tot, |part|, count);
    FilledTwice(fs0, a0, fs1, a1, r, a, ino, PathTo(off / BSIZE, NextBlock(off, tot)), Path(BlockOf(off + tot)));
    PathToNext(off / BSIZE, NextBlock(off, tot));
    ReadOn(fs0, fs1, ino, off, dst, part);
  }

  lemma ReadEnds(fs0: Fs, a0: nat, r: Fs, a: nat, ino: nat, off: nat, count: nat, dst: seq<byte>)
    requires Reading(fs0, a0, r, a, ino, off, count, count, dst)
    ensures CanFill(fs0, a0, ino, PathTo(off / BSIZE, NextBlock(off, count)))
    ensures WellFormed(r) && SameBytes(fs0, r) && SameSizes(fs0, r) && |dst| == count
    ensures Spent(fs0, a0, r, a, ino, PathTo(off / BSIZE, NextBlock(off, count)))
    ensures forall k :: 0 <= k < count ==> dst[k] == ByteAt(fs0, ino, off + k)
  {
    hide Ptr, PathTo;
    FilledCan(fs0, a0, r, a, ino, PathTo(off / BSIZE, NextBlock(off, count)));
  }

  /** A read changes something exactly if a block in its way was missing, and the inode exactly if it was a
    pointer in the inode. */
  lemma ReadChanges(fs0: Fs, a0: nat, r: Fs, a: nat, ino: nat, off: nat, count: nat, dst: seq<byte>)
    requires Reading(fs0, a0, r, a, ino, off, count, count, dst)
    ensures WellFormed(r)
    ensures r == fs0 <==> Missing(fs0, ino, PathTo(off / BSIZE, NextBlock(off, count))) == {}
    ensures Missing(fs0, ino, PathTo(off / BSIZE, NextBlock(off, count))) == {}
            <==> Mapped(fs0, ino, off / BSIZE, NextBlock(off, count))
    ensures r.inodes[ino] == fs0.inodes[ino] <==> AddrsThere(fs0, ino, PathTo(off / BSIZE, NextBlock(off, count)))
    ensures r.inodes == fs0.inodes[ino := r.inodes[ino]]
  {
    hide Ptr, PathTo, AddrsThere, InUse, NoSharing, NoLeak, Only;
    var path := PathTo(off / BSIZE, NextBlock(off, count));
    SpentInode(fs0, a0, r, a, ino, path);
    if Missing(fs0, ino, path) == {} { MappedOf(fs0, ino, off / BSIZE, NextBlock(off, count)); }
    if Mapped(fs0, ino, off / BSIZE, NextBlock(off, count)) {
      PathToThere(fs0, ino, off / BSIZE, NextBlock(off, count));
    }
  }

  lemma NothingYet(fs: Fs, room: nat, ino: nat, first: nat)
    requires Own(fs) && ino < NINODES && first <= MAXFILE
    ensures Filled(fs, room, fs, room, ino, PathTo(first, first))
            && Spent(fs, room, fs, room, ino, PathTo(first, first))
  {
    SpentNone(fs, room, ino);
  }

  lemma PathToNext(first: nat, next: nat)
    requires first <= next < MAXFILE
    ensures PathTo(first, next) + Path(next) == PathTo(first, next + 1)
  {
  }

  /** Before the block `next`: whether it can be reached, and that failing there is failing at all. */
  lemma RangeStep(fs: Fs, a: nat, fs1: Fs, a1: nat, ino: nat, first: nat, next: nat, last: nat)
    requires first <= next < last <= MAXFILE && Spent(fs, a, fs1, a1, ino, PathTo(first, next))
    ensures !CanFill(fs1, a1, ino, Path(next)) ==> !CanFill(fs, a, ino, PathTo(first, last))
    ensures Mapped(fs, ino, first, last) ==>
                      Ptr(fs, ino, DataSlot(next)) != 0 && Ptr(fs1, ino, DataSlot(next)) != 0
  {
    hide Ptr, Path, InUse, NoSharing, NoLeak;
    PathValid(next);
    CanTwice(fs, a, fs1, a1, ino, PathTo(first, next), Path(next));
    PathToNext(first, next);
    PathToJoin(first, next + 1, last);
    if !CanFill(fs1, a1, ino, Path(next)) { CannotMore(fs, a, ino, PathTo(first, next + 1), PathTo(first, last)); }
  }

  lemma FilledCan(fs: Fs, a: nat, r: Fs, a': nat, ino: nat, slots: set<Slot>)
    requires Spent(fs, a, r, a', ino, slots)
    ensures CanFill(fs, a, ino, slots)
  {
  }

  /** Data and table blocks on the way to the blocks first..next of a file. */
  function Touched(fs: Fs, ino: nat, first: nat, next: nat): set<nat>
    requires WellFormed(fs) && ino < NINODES && next <= MAXFILE
  {
    if next <= first then {}
    else Touched(fs, ino, first, next - 1) + TableBlocks(fs, ino, next - 1) + {DataBlock(fs, ino, next - 1)}
  }

  /** Everything a writei of n bytes at off may log. */
  function WriteSet(fs: Fs, ino: nat, off: nat, n: nat): set<nat>
    requires WellFormed(fs) && ino < NINODES && off + n <= MAXFILE * BSIZE
  {
    BitmapBlocks() + {InodeBlock(ino)} + if n == 0 then {} else Touched(fs, ino, off / BSIZE, NextBlock(off, n))
  }

  lemma {:induction false} TouchedGrows(fs: Fs, r: Fs, ino: nat, first: nat, next: nat)
    requires WellFormed(fs) && WellFormed(r) && ino < NINODES && Grows(fs, r)
    requires Mapped(fs, ino, first, next)
    ensures Mapped(r, ino, first, next)
    ensures Touched(r, ino, first, next) == Touched(fs, ino, first, next)
    decreases next
  {
    if first < next {
      TouchedGrows(fs, r, ino, first, next - 1);
      var s := DataSlot(next - 1);
      GrowsAt(fs, r, ino, s);
      if !s.Addr? { GrowsAt(fs, r, ino, Parent(s)); }
      if s.Leaf? { GrowsAt(fs, r, ino, Parent(Parent(s))); }
    }
  }

  lemma {:induction false} ResizedPtr(fs: Fs, r: Fs, ino: nat, size: uint32, i: nat, s: Slot)
    requires WellFormed(fs) && ino < NINODES && r == fs.(inodes := fs.inodes[ino := fs.inodes[ino].(size := size)])
    requires i < NINODES && ValidSlot(s)
    ensures WellFormed(r) && Ptr(r, i, s) == Ptr(fs, i, s)
    decreases if s.Addr? then 0 else if s.Leaf? then 2 else 1
  {
    if !s.Addr? { ResizedPtr(fs, r, ino, size, i, Parent(s)); }
  }

  /** writei after `tot` bytes of src: those are in the file, the slots on the way filled and paid for, and
    nothing else logged. */
  ghost predicate Writing(fs0: Fs, a0: nat, r: Fs, a: nat, log0: set<nat>, log: set<nat>, ino: nat, off: nat,
                          src: seq<byte>, tot: nat)
  {
    && WellFormed(fs0) && ino < NINODES && tot <= |src| && off + |src| <= MAXFILE * BSIZE
    && NextBlock(off, tot) <= NextBlock(off, |src|) <= MAXFILE
    && (0 < tot < |src| ==> (off + tot) % BSIZE == 0)
    && Spent(fs0, a0, r, a, ino, PathTo(off / BSIZE, NextBlock(off, tot)))
    && SameSizes(fs0, r) && Wrote(fs0, r, ino, off, src[..tot])
    && (tot == 0 ==> r == fs0 && log == log0)
    && (tot > 0 ==> log <= log0 + BitmapBlocks() + Touched(r, ino, off / BSIZE, NextBlock(off, tot)))
  }

  lemma WriteStarts(fs: Fs, a: nat, log: set<nat>, ino: nat, off: nat, src: seq<byte>)
    requires Own(fs) && ino < NINODES && off + |src| <= MAXFILE * BSIZE
    ensures Writing(fs, a, fs, a, log, log, ino, off, src, 0)
  {
    LastBlock(off, |src|);
    NothingYet(fs, a, ino, off / BSIZE);
  }

  lemma WriteNext(fs0: Fs, a0: nat, r: Fs, a: nat, log0: set<nat>, log: set<nat>, ino: nat, off: nat, src: seq<byte>,
                  tot: nat)
    requires Writing(fs0, a0, r, a, log0, log, ino, off, src, tot) && tot < |src|
    ensures BlockOf(off + tot) == NextBlock(off, tot) && 0 < Piece(off + tot, |src| - tot) <= |src| - tot
    ensures WithinBlock(off + tot, Piece(off + tot, |src| - tot)) && (tot > 0 ==> (off + tot) % BSIZE == 0)
    ensures !CanFill(r, a, ino, Path(BlockOf(off + tot)))
            ==> !CanFill(fs0, a0, ino, PathTo(off / BSIZE, NextBlock(off, |src|)))
  {
    hide Ptr, Path, PathTo, InUse, NoSharing, NoLeak, Touched, Wrote;
    LastBlock(off, |src|);
    NextBlockStep(off, tot, 1);
    NextBelow(off, tot, |src|);
    RangeStep(fs0, a0, r, a, ino, off / BSIZE, NextBlock(off, tot), NextBlock(off, |src|));
  }

  /** One more piece: its block found, then overwritten. */
  lemma WriteStep(fs0: Fs, a0: nat, fs1: Fs, a1: nat, fs2: Fs, a: nat, r: Fs, log0: set<nat>, log1: set<nat>,
                  log: set<nat>,
                  ino: nat, off: nat, src: seq<byte>, tot: nat, m: nat)
    requires Writing(fs0, a0, fs1, a1, log0, log1, ino, off, src, tot) && tot < |src|
    requires m == Piece(off + tot, |src| - tot) && BlockOf(off + tot) < MAXFILE
    requires PieceDone(fs1, a1, fs2, a, r, log1, log, ino, off + tot, src[tot..tot + m])
    ensures Writing(fs0, a0, r, a, log0, log, ino, off, src, tot + m)
  {
    hide Ptr, Path, PathTo, InUse, NoSharing, NoLeak, ByteAt, Touched, TableBlocks;
    var first, next := off / BSIZE, NextBlock(off, tot);
    WriteNext(fs0, a0, fs1, a1, log0, log1, ino, off, src, tot);
    NextBlockStep(off, tot, m);
    NextInside(off, tot, m, |src|);
    SpentTwice(fs0, a0, fs1, a1, fs2, a, ino, PathTo(first, next), Path(next));
    PathToNext(first, next);
    SpentSame(fs0, a0, fs2, a, r, ino, PathTo(first, next + 1));
    assert src[..tot] + src[tot..tot + m] == src[..tot + m];
    WroteNext(fs0, fs1, fs2, r, ino, off, src[..tot], src[tot..tot + m]);
    WriteLogs(fs1, fs2, r, log0, log1, log, ino, first, next);
  }

  /** One round of the loop: from fs1 bmap makes fs2, from which the write makes r. */
  ghost predicate PieceDone(fs1: Fs, a1: nat, fs2: Fs, a: nat, r: Fs, log1: set<nat>, log: set<nat>, ino: nat, at: nat,
                            piece: seq<byte>)
  {
    && BlockOf(at) < MAXFILE && Filled(fs1, a1, fs2, a, ino, Path(BlockOf(at))) && Overwrote(fs2, r, ino, at, piece)
    && log <= log1 + BitmapBlocks() + TableBlocks(fs2, ino, BlockOf(at)) + {DataBlock(fs2, ino, BlockOf(at))}
  }

  /** r is fs2 with `piece` written inside the block that holds byte `at`. */
  ghost predicate Overwrote(fs2: Fs, r: Fs, ino: nat, at: nat, piece: seq<byte>) {
    && Own(fs2) && Own(r) && ino < NINODES && BlockOf(at) < MAXFILE && at % BSIZE + |piece| <= BSIZE
    && SamePtrs(fs2, r) && SameSizes(fs2, r)
    && NMETA <= DataBlock(fs2, ino, BlockOf(at)) < FSSIZE
    && var data := Patched(fs2.blocks[DataBlock(fs2, ino, BlockOf(at))], at % BSIZE, piece);
       forall i: nat, x: nat | i < NINODES && x < MAXFILE * BSIZE :: ByteAt(r, i, x) ==
           if i == ino && x / BSIZE == BlockOf(at) then data[x % BSIZE] else ByteAt(fs2, i, x)
  }

  lemma OverwroteStored(fs2: Fs, ino: nat, at: nat, piece: seq<byte>)
    requires Own(fs2) && ino < NINODES && WithinBlock(at, |piece|)
    requires NMETA <= DataBlock(fs2, ino, BlockOf(at)) < FSSIZE
    ensures var b := DataBlock(fs2, ino, BlockOf(at));
            Overwrote(fs2, Stored(fs2, b, Patched(fs2.blocks[b], at % BSIZE, piece)), ino, at, piece)
  {
    hide Ptr, InUse, NoSharing, NoLeak, ByteAt;
    var b := DataBlock(fs2, ino, BlockOf(at));
    StoredKeeps(fs2, ino, BlockOf(at), Patched(fs2.blocks[b], at % BSIZE, piece));
  }

  lemma OverwroteOwn(fs2: Fs, r: Fs, ino: nat, at: nat, piece: seq<byte>)
    requires Overwrote(fs2, r, ino, at, piece)
    ensures Own(r) && SameSizes(fs2, r)
  {
  }

  lemma SizesOf(fs: Fs, a: nat, r: Fs, a': nat, ino: nat, slots: set<Slot>)
    requires Filled(fs, a, r, a', ino, slots)
    ensures WellFormed(r) && WellFormed(fs) && SameSizes(fs, r)
  {
  }

  lemma WriteCan(fs0: Fs, a0: nat, r: Fs, a: nat, log0: set<nat>, log: set<nat>, ino: nat, off: nat, src: seq<byte>)
    requires Writing(fs0, a0, r, a, log0, log, ino, off, src, |src|)
    ensures CanFill(fs0, a0, ino, PathTo(off / BSIZE, NextBlock(off, |src|)))
  {
    FilledCan(fs0, a0, r, a, ino, PathTo(off / BSIZE, NextBlock(off, |src|)));
  }

  lemma WroteNext(fs0: Fs, fs1: Fs, fs2: Fs, r: Fs, ino: nat, off: nat, done: seq<byte>, more: seq<byte>)
    requires WellFormed(fs0) && WellFormed(fs1) && WellFormed(fs2) && Wrote(fs0, fs1, ino, off, done)
             && SameBytes(fs1, fs2)
    requires Overwrote(fs2, r, ino, off + |done|, more)
    ensures Wrote(fs0, r, ino, off, done + more)
  {
    hide Ptr, InUse, NoSharing, NoLeak, ByteAt;
    var b := DataBlock(fs2, ino, BlockOf(off + |done|));
    WroteMore(fs0, fs2, r, ino, off, done, more, Patched(fs2.blocks[b], (off + |done|) % BSIZE, more));
  }

  lemma WriteLogs(fs1: Fs, fs2: Fs, r: Fs, log0: set<nat>, log1: set<nat>, log: set<nat>, ino: nat, first: nat,
                  next: nat)
    requires WellFormed(fs1) && WellFormed(fs2) && WellFormed(r) && ino < NINODES && first <= next < MAXFILE
    requires Only(fs1, fs2, ino, Path(next)) && SamePtrs(fs2, r) && Missing(fs1, ino, PathTo(first, next)) == {}
    requires log1 <= log0 + BitmapBlocks() + Touched(fs1, ino, first, next) || log1 == log0
    requires log <= log1 + BitmapBlocks() + TableBlocks(fs2, ino, next) + {DataBlock(fs2, ino, next)}
    ensures log <= log0 + BitmapBlocks() + Touched(r, ino, first, next + 1)
  {
    hide Ptr, Path;
    OnlyGrows(fs1, fs2, ino, Path(next));
    MappedOf(fs1, ino, first, next);
    assert Grows(fs1, r);
    TouchedGrows(fs1, r, ino, first, next);
    SameTables(fs2, r, ino, next);
  }

  lemma SameTables(fs: Fs, r: Fs, ino: nat, bn: nat)
    requires WellFormed(fs) && WellFormed(r) && ino < NINODES && bn < MAXFILE && SamePtrs(fs, r)
    ensures TableBlocks(r, ino, bn) == TableBlocks(fs, ino, bn) && DataBlock(r, ino, bn) == DataBlock(fs, ino, bn)
  {
    hide Ptr;
    var s := DataSlot(bn);
    if s.Leaf? { assert Ptr(r, ino, Dbl(s.j)) == Ptr(fs, ino, Dbl(s.j)); }
  }

  lemma {:induction false} MappedOf(fs: Fs, ino: nat, first: nat, next: nat)
    requires WellFormed(fs) && ino < NINODES && next <= MAXFILE && Missing(fs, ino, PathTo(first, next)) == {}
    ensures Mapped(fs, ino, first, next)
  {
    hide Ptr, Path, PathTo;
    forall bn: nat | first <= bn < next ensures Ptr(fs, ino, DataSlot(bn)) != 0 {
      PathToHas(first, next, bn);
      PathValid(bn);
      assert DataSlot(bn) !in Missing(fs, ino, PathTo(first, next));
    }
  }

  function Resized(fs: Fs, ino: nat, size: uint32): Fs
    requires WellFormed(fs) && ino < NINODES
  {
    fs.(inodes := fs.inodes[ino := fs.inodes[ino].(size := size)])
  }

  /** A new size moves no pointer and changes no byte. */
  lemma ResizedKeeps(fs: Fs, ino: nat, size: uint32)
    requires Own(fs) && ino < NINODES
    ensures var r := Resized(fs, ino, size); Own(r) && Grows(fs, r) && SameBytes(fs, r) && SamePtrs(fs, r)
  {
    hide Ptr, InUse, NoSharing, NoLeak;
    var r := Resized(fs, ino, size);
    forall i: nat, s | i < NINODES && ValidSlot(s) ensures Ptr(r, i, s) == Ptr(fs, i, s) {
      ResizedPtr(fs, r, ino, size, i, s);
    }
    SamePtrsOwn(fs, r);
  }

  ghost predicate SamePtrs(fs: Fs, r: Fs)
    requires WellFormed(fs) && WellFormed(r)
  {
    forall i: nat, s | i < NINODES && ValidSlot(s) :: Ptr(r, i, s) == Ptr(fs, i, s)
  }

  lemma SpentSame(fs: Fs, room: nat, fs1: Fs, room1: nat, r: Fs, ino: nat, slots: set<Slot>)
    requires Spent(fs, room, fs1, room1, ino, slots) && Own(r) && SamePtrs(fs1, r)
    ensures Spent(fs, room, r, room1, ino, slots)
  {
    hide Ptr, InUse, NoSharing, NoLeak;
    forall s | s in slots ensures Ptr(r, ino, s) != 0 { assert s !in Missing(fs1, ino, slots); }
  }

  /** A write that starts inside the file or at its end leaves no hole, and needs pointers in the inode
    only if the file grows. */
  lemma WriteDense(fs: Fs, r: Fs, ino: nat, off: nat, n: nat)
    requires WellFormed(fs) && WellFormed(r) && ino < NINODES && off <= fs.inodes[ino].size && n > 0
    requires off + n <= MAXFILE * BSIZE && SameSizes(fs, r)
    requires Only(fs, r, ino, PathTo(off / BSIZE, NextBlock(off, n)))
             && Missing(r, ino, PathTo(off / BSIZE, NextBlock(off, n))) == {}
    ensures Dense(fs, ino) && off + n > fs.inodes[ino].size ==> Dense(Resized(r, ino, off + n), ino)
    ensures Dense(fs, ino) && off + n <= fs.inodes[ino].size ==> SamePtrs(fs, r) && Dense(r, ino)
    ensures forall i: nat | i < NINODES && i != ino :: Dense(fs, i) ==>
                      Dense(r, i) && Dense(Resized(r, ino, off + n), i)
  {
    hide Ptr, PathTo, Path;
    var first, next := off / BSIZE, NextBlock(off, n);
    var z := Resized(r, ino, off + n);
    forall i: nat, s | i < NINODES && ValidSlot(s) ensures Ptr(z, i, s) == Ptr(r, i, s) {
      ResizedPtr(r, z, ino, off + n, i, s);
    }
    if Dense(fs, ino) {
      forall bn: nat | bn < MAXFILE && bn * BSIZE < off + n ensures Ptr(r, ino, DataSlot(bn)) != 0 {
        if bn >= first {
          PathToHas(first, next, bn);
          PathValid(bn);
          assert DataSlot(bn) !in Missing(r, ino, PathTo(first, next));
        } else {
          assert bn * BSIZE < fs.inodes[ino].size;
        }
      }
      if off + n <= fs.inodes[ino].size {
        PathToThere(fs, ino, first, next);
        forall s | s in PathTo(first, next) && ValidSlot(s) ensures Ptr(fs, ino, s) != 0 {
          assert s !in Missing(fs, ino, PathTo(first, next));
        }
      }
    }
  }

  /** What the bytes say about the files, once the size is right. */
  lemma WroteContents(fs: Fs, r: Fs, ino: nat, off: nat, data: seq<byte>)
    requires WellFormed(fs) && WellFormed(r) && ino < NINODES && SameSizes(fs, r)
    requires forall i :: 0 <= i < NINODES ==> fs.inodes[i].size <= MAXFILE * BSIZE
    requires Wrote(fs, r, ino, off, data) && off <= fs.inodes[ino].size && off + |data| <= MAXFILE * BSIZE
    ensures var size := if |data| > 0 && off + |data| > fs.inodes[ino].size then off + |data| else fs.inodes[ino].size;
            var done := r.(inodes := r.inodes[ino := r.inodes[ino].(size := size)]);
            && WellFormed(done)
            && Contents(done, ino) == Spliced(Contents(fs, ino), off, data)
            && forall i: nat | i < NINODES && i != ino :: Contents(done, i) == Contents(fs, i)
  {
    hide Ptr;
    var size := if |data| > 0 && off + |data| > fs.inodes[ino].size then off + |data| else fs.inodes[ino].size;
    var done := r.(inodes := r.inodes[ino := r.inodes[ino].(size := size)]);
    forall i: nat, x: nat | i < NINODES && x < MAXFILE * BSIZE ensures ByteAt(done, i, x) == ByteAt(r, i, x) {
      ResizedPtr(r, done, ino, size, i, DataSlot(x / BSIZE));
    }
    assert |Contents(done, ino)| == |Spliced(Contents(fs, ino), off, data)|;
    forall x: nat | x < size ensures Contents(done, ino)[x] == Spliced(Contents(fs, ino), off, data)[x] {
      assert Contents(done, ino)[x] == ByteAt(r, ino, x);
    }
    forall i: nat | i < NINODES && i != ino ensures Contents(done, i) == Contents(fs, i) {
      forall x: nat | x < fs.inodes[i].size ensures Contents(done, i)[x] == Contents(fs, i)[x] {
        assert ByteAt(done, i, x) == ByteAt(r, i, x);
      }
    }
  }

  // ---------------------------------------------------------------- truncation

  /** The bits after the blocks in the slots `done` of inode `ino` have been freed. */
  ghost predicate Freed(fs0: Fs, bits: seq<bool>, ino: nat, done: set<Slot>)
    requires WellFormed(fs0) && ino < NINODES
  {
    && |bits| == NBITMAP * BPB
    && (forall s :: s in done ==> ValidSlot(s))
    && forall b: nat | b < |bits| ::
         bits[b] <==> fs0.bits[b] && !HeldIn(fs0, ino, done, b)
  }

  ghost predicate HeldIn(fs0: Fs, ino: nat, slots: set<Slot>, b: nat)
    requires WellFormed(fs0) && ino < NINODES && forall s :: s in slots ==> ValidSlot(s)
  {
    b != 0 && exists s :: s in slots && Ptr(fs0, ino, s) == b
  }

  lemma InUseAt(fs: Fs, ino: nat, s: Slot)
    requires Own(fs) && ino < NINODES && ValidSlot(s)
    ensures SlotOk(fs, ino, s)
  {
  }

  /** The next slot's block is still marked, because no slot dealt with so far held it. */
  lemma FreedNext(fs0: Fs, bits: seq<bool>, ino: nat, s: Slot, done: set<Slot>)
    requires Own(fs0) && ino < NINODES && ValidSlot(s) && Freed(fs0, bits, ino, done) && s !in done
    ensures var p := Ptr(fs0, ino, s);
            if p == 0 then Freed(fs0, bits, ino, done + {s})
            else NMETA <= p < FSSIZE && bits[p] && Freed(fs0, bits[p := false], ino, done + {s})
  {
    hide Ptr;
    InUseAt(fs0, ino, s);
    var p := Ptr(fs0, ino, s);
    assert s in done + {s};
    assert forall b: nat :: HeldIn(fs0, ino, done + {s}, b) <==> (b != 0 && b == p) || HeldIn(fs0, ino, done, b);
  }

  lemma AllFreed(fs0: Fs, r: Fs, ino: nat, done: set<Slot>)
    requires Own(fs0) && WellFormed(r) && ino < NINODES && Freed(fs0, r.bits, ino, done)
    requires forall s :: ValidSlot(s) ==> s in done || Ptr(fs0, ino, s) == 0
    requires r.blocks == fs0.blocks && r.inodes == fs0.inodes[ino := EmptyInode()]
    ensures Truncated(fs0, r, ino)
  {
    hide Ptr;
  }

  lemma TruncatedDense(fs: Fs, r: Fs, ino: nat)
    requires Own(fs) && WellFormed(r) && ino < NINODES && Truncated(fs, r, ino)
    ensures forall i: nat | i < NINODES :: i == ino || Dense(fs, i) ==> Dense(r, i)
  {
    forall i: nat | i < NINODES && i != ino && Dense(fs, i) ensures Dense(r, i) {
      forall bn: nat | bn < MAXFILE && bn * BSIZE < fs.inodes[i].size ensures Ptr(r, i, DataSlot(bn)) != 0 {
        TruncatedPtr(fs, r, ino, i, DataSlot(bn));
      }
    }
  }

  // ---------------------------------------------------------------- how much one chunk logs

  /** The tables on the way to two neighbouring blocks are at most three blocks. */
  lemma TwoTables(fs: Fs, ino: nat, bn: nat) returns (x: nat, y: nat, z: nat)
    requires WellFormed(fs) && ino < NINODES && bn < MAXFILE
    ensures TableBlocks(fs, ino, bn) <= {x, y, z}
    ensures bn + 1 < MAXFILE ==> TableBlocks(fs, ino, bn + 1) <= {x, y, z}
  {
    x := Ptr(fs, ino, Addr(NDIRECT));
    y := Ptr(fs, ino, Addr(NDIRECT + 1));
    z := 0;
    var s := DataSlot(bn);
    if s.Leaf? { x := Ptr(fs, ino, Dbl(s.j)); }
    if bn + 1 < MAXFILE {
      var t := DataSlot(bn + 1);
      if t.Leaf? { z := Ptr(fs, ino, Dbl(t.j)); }
    }
  }

  lemma TouchedIs(fs: Fs, ino: nat, bn: nat, next: nat)
    requires WellFormed(fs) && ino < NINODES && bn < next <= bn + 2 && next <= MAXFILE
    ensures Touched(fs, ino, bn, next) ==
            {} + TableBlocks(fs, ino, bn) + {DataBlock(fs, ino, bn)}
               + (if next == bn + 1 then {} else TableBlocks(fs, ino, bn + 1)) + {DataBlock(fs, ino, next - 1)}
  {
    hide TableBlocks, DataBlock;
    assert Touched(fs, ino, bn, bn) == {};
    assert Touched(fs, ino, bn, bn + 1) == {} + TableBlocks(fs, ino, bn) + {DataBlock(fs, ino, bn)};
  }

  lemma Join(s: set<nat>, t: set<nat>, three: set<nat>, d: nat, e: nat)
    requires s <= three && t <= three
    ensures {} + s + {d} + t + {e} <= three + {d, e}
  {
  }

  /** So one or two neighbouring blocks touch at most five blocks of the disk. */
  lemma TouchedFew(fs: Fs, ino: nat, bn: nat, next: nat) returns (five: set<nat>)
    requires WellFormed(fs) && ino < NINODES && bn < next <= bn + 2 && next <= MAXFILE
    ensures Touched(fs, ino, bn, next) <= five && |five| <= 5
  {
    hide TableBlocks, DataBlock, DataSlot, Touched;
    var x, y, z := TwoTables(fs, ino, bn);
    var d, e := DataBlock(fs, ino, bn), DataBlock(fs, ino, next - 1);
    var three: set<nat> := {x, y, z};
    five := three + {d, e};
    AtMostFive(x, y, z, d, e);
    TouchedIs(fs, ino, bn, next);
    Join(TableBlocks(fs, ino, bn), if next == bn + 1 then {} else TableBlocks(fs, ino, bn + 1), three, d, e);
  }

  lemma AtMostFive(x: nat, y: nat, z: nat, d: nat, e: nat)
    ensures |{x, y, z} + {d, e}| <= 5
  {
    assert |{d, e}| <= 2 && |{x, y, z}| <= 3;
  }

  /** A writei of at most 1536 bytes logs at most eight distinct blocks, at any offset and however
    many of them it has to allocate: two data blocks, three tables, two bitmap blocks, one inode
    block. One fewer than the log can take (JournalSpace.BudgetIsSafe). */
  lemma ChunkBudget(fs: Fs, ino: nat, off: nat, n: nat)
    requires WellFormed(fs) && ino < NINODES && off + n <= MAXFILE * BSIZE && n <= 1536
    ensures |WriteSet(fs, ino, off, n)| <= 8
  {
    hide Touched;
    var five: set<nat> := {};
    if n > 0 { five := TouchedFew(fs, ino, off / BSIZE, NextBlock(off, n)); }
    var three := {BMAPSTART, BMAPSTART + 1, InodeBlock(ino)};
    Subset(WriteSet(fs, ino, off, n), three + five);
  }

  /** Splicing two neighbouring pieces is splicing them together. */
  lemma SplicedTwice(s: seq<byte>, off: nat, a: seq<byte>, b: seq<byte>)
    requires off <= |s|
    ensures |Spliced(s, off, a)| >= off + |a|
    ensures Spliced(Spliced(s, off, a), off + |a|, b) == Spliced(s, off, a + b)
  {
  }

  // ---------------------------------------------------------------- a write as a whole

  /** The slots on the way to the bytes [off, off + n). */
  function Slots(off: nat, n: nat): set<Slot> {
    if off + n <= MAXFILE * BSIZE then
      LastBlock(off, n);
      PathTo(off / BSIZE, NextBlock(off, n))
    else {}
  }

  lemma SlotsIs(off: nat, n: nat)
    requires off + n <= MAXFILE * BSIZE && NextBlock(off, n) <= MAXFILE
    ensures Slots(off, n) == PathTo(off / BSIZE, NextBlock(off, n))
  {
  }

  /** The size after a write. */
  function SizeAfter(size: nat, off: nat, n: nat): nat {
    if n > 0 && off + n > size then off + n else size
  }

  lemma SameInode(fs: Fs, r: Fs, ino: nat, slots: set<Slot>, i: nat)
    requires WellFormed(fs) && WellFormed(r) && ino < NINODES && i < NINODES && Only(fs, r, ino, slots)
             && SameSizes(fs, r)
    ensures i != ino || SamePtrs(fs, r) ==> r.inodes[i] == fs.inodes[i]
  {
    if i != ino || SamePtrs(fs, r) {
      forall k | 0 <= k < NDIRECT + 2 ensures r.inodes[i].addrs[k] == fs.inodes[i].addrs[k] {
        assert Ptr(r, i, Addr(k)) == Ptr(fs, i, Addr(k));
      }
    }
  }

  /** What a write of src at off makes of fs0: the file spliced, everything else as it was, no hole made,
    and the inode changed only if the file grows or had holes. */
  ghost predicate Written(fs0: Fs, a0: nat, t: Fs, a: nat, ino: nat, off: nat, src: seq<byte>) {
    && WellFormed(fs0) && Own(t) && ino < NINODES && off <= fs0.inodes[ino].size && off + |src| <= MAXFILE * BSIZE
    && (forall i :: 0 <= i < NINODES ==> fs0.inodes[i].size <= MAXFILE * BSIZE && t.inodes[i].size <= MAXFILE * BSIZE)
    && Spent(fs0, a0, t, a, ino, Slots(off, |src|))
    && Contents(t, ino) == Spliced(Contents(fs0, ino), off, src)
    && (forall i: nat | i < NINODES && i != ino :: t.inodes[i] == fs0.inodes[i] && Contents(t, i) == Contents(fs0, i))
    && (forall i: nat | i < NINODES :: Dense(fs0, i) ==> Dense(t, i))
    && t.inodes[ino].size == SizeAfter(fs0.inodes[ino].size, off, |src|)
    && (Dense(fs0, ino) && t.inodes[ino].size == fs0.inodes[ino].size ==> t.inodes[ino] == fs0.inodes[ino])
  }

  lemma WriteDenseAll(fs0: Fs, r: Fs, ino: nat, off: nat, n: nat)
    requires WellFormed(fs0) && WellFormed(r) && ino < NINODES && off <= fs0.inodes[ino].size
             && off + n <= MAXFILE * BSIZE
    requires SameSizes(fs0, r) && NextBlock(off, n) <= MAXFILE && (n == 0 ==> r == fs0)
    requires Only(fs0, r, ino, PathTo(off / BSIZE, NextBlock(off, n)))
             && Missing(r, ino, PathTo(off / BSIZE, NextBlock(off, n))) == {}
    ensures forall i: nat | i < NINODES :: Dense(fs0, i) ==>
                      Dense(Resized(r, ino, SizeAfter(fs0.inodes[ino].size, off, n)), i)
    ensures Dense(fs0, ino) && SizeAfter(fs0.inodes[ino].size, off, n) == fs0.inodes[ino].size ==>
                      r.inodes[ino] == fs0.inodes[ino]
  {
    var size := SizeAfter(fs0.inodes[ino].size, off, n);
    if n == 0 {
      ResizedSame(r, ino);
    } else {
      WriteDense(fs0, r, ino, off, n);
      SameInode(fs0, r, ino, PathTo(off / BSIZE, NextBlock(off, n)), ino);
      hide Ptr, Dense, PathTo;
      if size == fs0.inodes[ino].size { ResizedSame(r, ino); }
    }
  }

  lemma ResizedSame(r: Fs, ino: nat)
    requires WellFormed(r) && ino < NINODES
    ensures Resized(r, ino, r.inodes[ino].size) == r
  {
    assert r.inodes[ino := r.inodes[ino].(size := r.inodes[ino].size)] == r.inodes;
  }

  /** What the loop of writei has done, once the size is right. */
  lemma WriteEnds(fs0: Fs, a0: nat, r: Fs, a: nat, log0: set<nat>, log: set<nat>, ino: nat, off: nat, src: seq<byte>)
    requires Own(fs0) && Writing(fs0, a0, r, a, log0, log, ino, off, src, |src|) && off <= fs0.inodes[ino].size
    requires forall i :: 0 <= i < NINODES ==> fs0.inodes[i].size <= MAXFILE * BSIZE
    ensures SizeAfter(fs0.inodes[ino].size, off, |src|) <= MAXFILE * BSIZE && WellFormed(r) && SameSizes(fs0, r)
    ensures var t := Resized(r, ino, SizeAfter(fs0.inodes[ino].size, off, |src|));
            Written(fs0, a0, t, a, ino, off, src) && log <= log0 + WriteSet(t, ino, off, |src|)
  {
    var size, n := SizeAfter(fs0.inodes[ino].size, off, |src|), |src|;
    assert src[..n] == src;
    LastBlock(off, n);
    SlotsIs(off, n);
    hide Ptr, InUse, NoSharing, NoLeak, ByteAt, PathTo, Wrote, Dense, Contents, Spliced, Touched;
    ResizedKeeps(r, ino, size);
    SpentSame(fs0, a0, r, a, Resized(r, ino, size), ino, PathTo(off / BSIZE, NextBlock(off, n)));
    WroteContents(fs0, r, ino, off, src);
    WriteDenseAll(fs0, r, ino, off, n);
    forall i: nat | i < NINODES && i != ino ensures r.inodes[i] == fs0.inodes[i] {
      SameInode(fs0, r, ino, PathTo(off / BSIZE, NextBlock(off, n)), i);
    }
    LogsEnd(fs0, a0, r, a, log0, log, ino, off, src);
  }

  lemma LogsEnd(fs0: Fs, a0: nat, r: Fs, a: nat, log0: set<nat>, log: set<nat>, ino: nat, off: nat, src: seq<byte>)
    requires Own(fs0) && Writing(fs0, a0, r, a, log0, log, ino, off, src, |src|)
    ensures log <= log0 + WriteSet(Resized(r, ino, SizeAfter(fs0.inodes[ino].size, off, |src|)), ino, off, |src|)
  {
    hide Ptr, InUse, NoSharing, NoLeak, PathTo, Touched, Wrote;
    var size := SizeAfter(fs0.inodes[ino].size, off, |src|);
    ResizedKeeps(r, ino, size);
    MappedOf(r, ino, off / BSIZE, NextBlock(off, |src|));
    TouchedGrows(r, Resized(r, ino, size), ino, off / BSIZE, NextBlock(off, |src|));
  }

  lemma WrittenOwn(fs0: Fs, a0: nat, t: Fs, a: nat, ino: nat, off: nat, src: seq<byte>)
    requires Written(fs0, a0, t, a, ino, off, src)
    ensures Own(t) && forall i :: 0 <= i < NINODES ==> t.inodes[i].size <= MAXFILE * BSIZE
  {
  }

  lemma WrittenIs(fs0: Fs, a0: nat, t: Fs, a: nat, ino: nat, off: nat, src: seq<byte>)
    requires Written(fs0, a0, t, a, ino, off, src)
    ensures Contents(t, ino) == Spliced(Contents(fs0, ino), off, src) && Spent(fs0, a0, t, a, ino, Slots(off, |src|))
    ensures forall i: nat | i < NINODES && i != ino ::
              Contents(t, i) == Contents(fs0, i) && t.inodes[i] == fs0.inodes[i]
    ensures forall i: nat | i < NINODES :: Dense(fs0, i) ==> Dense(t, i)
    ensures Dense(fs0, ino) && t.inodes[ino].size == fs0.inodes[ino].size ==> t.inodes[ino] == fs0.inodes[ino]
  {
  }

  // ---------------------------------------------------------------- what the disk knows of a write

  /** The copies of the inodes on disk after writes to file `ino` have made r of fs0: iupdate is called only if
    the file grows. */
  function Copies(fs0: Fs, r: Fs, d0: seq<Inode>, ino: nat): seq<Inode> {
    if ino < |fs0.inodes| && ino < |r.inodes| && ino < |d0| && r.inodes[ino].size != fs0.inodes[ino].size
    then d0[ino := r.inodes[ino]] else d0
  }

  /** A copy that was up to date is so afterwards exactly if the file grew or no pointer in the inode was
    missing on the way. */
  lemma WrittenAgrees(fs0: Fs, a0: nat, t: Fs, a: nat, ino: nat, off: nat, src: seq<byte>, d0: seq<Inode>)
    requires Written(fs0, a0, t, a, ino, off, src) && Behind(d0, fs0.inodes)
    ensures var grown, there := t.inodes[ino].size != fs0.inodes[ino].size, AddrsThere(fs0, ino, Slots(off, |src|));
            && (t.inodes[ino] == fs0.inodes[ino] <==> !grown && there)
            && (d0[ino] == fs0.inodes[ino] ==> (Copies(fs0, t, d0, ino)[ino] == t.inodes[ino] <==> grown || there))
            && (d0 == fs0.inodes ==> (Copies(fs0, t, d0, ino) == t.inodes <==> grown || there))
  {
    hide Contents, Spliced, Dense, Spent, Slots, AddrsThere, InUse, NoSharing, NoLeak, Ptr;
    SpentAddrs(fs0, a0, t, a, ino, Slots(off, |src|));
    assert t.inodes == fs0.inodes[ino := t.inodes[ino]];
  }

  lemma DenseAddrs(fs: Fs, ino: nat, off: nat, n: nat)
    requires WellFormed(fs) && ino < NINODES && Dense(fs, ino) && off + n <= fs.inodes[ino].size <= MAXFILE * BSIZE
    ensures AddrsThere(fs, ino, Slots(off, n))
  {
    hide Ptr, PathTo;
    LastBlock(off, n);
    DenseRead(fs, ino, off, n);
    if Mapped(fs, ino, off / BSIZE, NextBlock(off, n)) { PathToThere(fs, ino, off / BSIZE, NextBlock(off, n)); }
    NothingMissing(fs, ino, Slots(off, n));
  }

  /** Two neighbouring writes. */
  lemma CopiesTwice(fs0: Fs, a0: nat, fs1: Fs, a1: nat, r: Fs, a: nat, d0: seq<Inode>, ino: nat, off: nat,
                    addr: seq<byte>, i: nat, m: nat)
    requires Chunks(fs0, a0, fs1, a1, ino, off, addr, i) && 0 < m && i + m <= |addr| && |d0| == NINODES
    requires Written(fs1, a1, r, a, ino, off + i, addr[i..i + m])
    ensures Copies(fs1, r, Copies(fs0, fs1, d0, ino), ino) == Copies(fs0, r, d0, ino)
  {
    hide Contents, Spliced, Dense, Spent, Slots, InUse, NoSharing, NoLeak, Ptr;
  }

  lemma CopiesSame(fs: Fs, d: seq<Inode>, ino: nat)
    ensures Copies(fs, fs, d, ino) == d
  {
  }

  // ---------------------------------------------------------------- filewrite

  const CHUNK: nat := 1536     // ((MAXOPBLOCKS - 1 - 1 - 2) / 2) * 512

  /** How many of n bytes filewrite writes: all, or the whole chunks before the first that would make the
    file too large. */
  function Accepted(fs: Fs, ino: nat, off: nat, n: int): (a: nat)
    ensures n <= 0 ==> a == 0
    ensures n > 0 ==> a <= n
  {
    if ino >= |fs.inodes| || n <= 0 || off > fs.inodes[ino].size || off > MAXFILE * BSIZE then 0
    else if off + n <= MAXFILE * BSIZE then n
    else (MAXFILE * BSIZE - off) / CHUNK * CHUNK
  }

  /** The transactions filewrite makes: one for each chunk, and one for the chunk that is refused. */
  function Transactions(n: int, accepted: nat): nat {
    (accepted + CHUNK - 1) / CHUNK + if accepted < n then 1 else 0
  }

  lemma ChunkCount(i: nat, n1: nat)
    requires i % CHUNK == 0 && 0 < n1 <= CHUNK
    ensures (i + n1 + CHUNK - 1) / CHUNK == i / CHUNK + 1 && (n1 == CHUNK ==> (i + n1) % CHUNK == 0)
  {
  }

  /** Whole chunks below a limit that is not one. */
  lemma ChunkBelow(left: nat, i: nat)
    requires i % CHUNK == 0 && i <= left / CHUNK * CHUNK
    ensures i + CHUNK > left <==> i == left / CHUNK * CHUNK
    ensures i < left / CHUNK * CHUNK ==> i + CHUNK <= left / CHUNK * CHUNK
  {
    var k := left / CHUNK;
    assert i == i / CHUNK * CHUNK && left < k * CHUNK + CHUNK;
    if i < k * CHUNK { assert i / CHUNK < k; }
  }

  lemma AcceptNext(fs: Fs, ino: nat, off: nat, n: nat, i: nat, n1: nat)
    requires ino < |fs.inodes| && off <= fs.inodes[ino].size <= MAXFILE * BSIZE
    requires i < n && i % CHUNK == 0 && i <= Accepted(fs, ino, off, n)
    requires n1 == Min(n - i, CHUNK)
    ensures off + i + n1 > MAXFILE * BSIZE <==> i == Accepted(fs, ino, off, n)
    ensures i < Accepted(fs, ino, off, n) ==>
              i + n1 <= Accepted(fs, ino, off, n) && (i + n1 == n || (i + n1) % CHUNK == 0)
              && (i + n1 + CHUNK - 1) / CHUNK == i / CHUNK + 1
  {
    ChunkCount(i, n1);
    if off + n > MAXFILE * BSIZE { ChunkBelow(MAXFILE * BSIZE - off, i); }
  }

  lemma WrittenTwice(fs0: Fs, a0: nat, fs1: Fs, a1: nat, r: Fs, a: nat, ino: nat, off: nat, d: seq<byte>, e: seq<byte>)
    requires Written(fs0, a0, fs1, a1, ino, off, d) && Written(fs1, a1, r, a, ino, off + |d|, e)
    requires d != [] && e != []
    ensures Written(fs0, a0, r, a, ino, off, d + e)
  {
    hide Ptr, InUse, NoSharing, NoLeak, Contents, Spliced, Dense, Spent, Slots;
    SlotsTwice(off, |d|, |e|);
    SpentTwice(fs0, a0, fs1, a1, r, a, ino, Slots(off, |d|), Slots(off + |d|, |e|));
    SplicedTwice(Contents(fs0, ino), off, d, e);
  }

  lemma SlotsTwice(off: nat, m: nat, n: nat)
    requires m > 0 && n > 0 && off + m + n <= MAXFILE * BSIZE
    ensures Slots(off, m) + Slots(off + m, n) == Slots(off, m + n)
  {
    hide PathTo;
    LastBlock(off, m + n);
    LastBlock(off, m);
    LastBlock(off + m, n);
    if (off + m) % BSIZE == 0 {
      PathToJoin(off / BSIZE, (off + m) / BSIZE, NextBlock(off, m + n));
    } else {
      PathToOverlap(off / BSIZE, NextBlock(off, m), NextBlock(off, m + n));
    }
  }

  /** Whether the next chunk can be written decides, as far as it goes, whether all can. */
  lemma CanNext(fs0: Fs, a0: nat, fs1: Fs, a1: nat, ino: nat, off: nat, d: seq<byte>, n: nat)
    requires Written(fs0, a0, fs1, a1, ino, off, d) && d != [] && n > 0 && off + |d| + n <= MAXFILE * BSIZE
    ensures CanFill(fs0, a0, ino, Slots(off, |d| + n)) <==> CanFill(fs1, a1, ino, Slots(off + |d|, n))
  {
    hide Ptr, PathTo;
    SlotsTwice(off, |d|, n);
    SlotsValid(off + |d|, n);
    CanTwice(fs0, a0, fs1, a1, ino, Slots(off, |d|), Slots(off + |d|, n));
  }

  lemma SlotsValid(off: nat, n: nat)
    ensures AllValid(Slots(off, n))
  {
    if off + n <= MAXFILE * BSIZE {
      LastBlock(off, n);
      PathToValid(off / BSIZE, NextBlock(off, n));
    }
  }

  lemma CannotAll(fs: Fs, a: nat, ino: nat, off: nat, m: nat, n: nat)
    requires WellFormed(fs) && ino < NINODES && 0 < m <= n && off + n <= MAXFILE * BSIZE
    requires !CanFill(fs, a, ino, Slots(off, m))
    ensures !CanFill(fs, a, ino, Slots(off, n))
  {
    if m < n { SlotsTwice(off, m, n - m); }
    CannotMore(fs, a, ino, Slots(off, m), Slots(off, n));
  }

  lemma WrittenCan(fs0: Fs, a0: nat, r: Fs, a: nat, ino: nat, off: nat, d: seq<byte>)
    requires Written(fs0, a0, r, a, ino, off, d)
    ensures CanFill(fs0, a0, ino, Slots(off, |d|))
  {
  }

  /** What filewrite has done after i bytes. */
  ghost predicate Chunks(fs0: Fs, a0: nat, r: Fs, a: nat, ino: nat, off: nat, addr: seq<byte>, i: nat) {
    && i <= |addr| && WellFormed(fs0) && ino < NINODES
    && if i == 0 then r == fs0 && a == a0 else Written(fs0, a0, r, a, ino, off, addr[..i])
  }

  lemma ChunkStep(fs0: Fs, a0: nat, fs1: Fs, a1: nat, r: Fs, a: nat, ino: nat, off: nat, addr: seq<byte>, i: nat,
                  n1: nat)
    requires Chunks(fs0, a0, fs1, a1, ino, off, addr, i) && 0 < n1 && i + n1 <= |addr|
    requires Written(fs1, a1, r, a, ino, off + i, addr[i..i + n1])
    ensures Chunks(fs0, a0, r, a, ino, off, addr, i + n1)
  {
    hide Ptr, Written;
    assert addr[..i] + addr[i..i + n1] == addr[..i + n1];
    if i == 0 {
      assert addr[0..n1] == addr[..n1];
    } else {
      WrittenTwice(fs0, a0, fs1, a1, r, a, ino, off, addr[..i], addr[i..i + n1]);
    }
  }

  lemma ChunkFails(fs0: Fs, a0: nat, fs1: Fs, a1: nat, ino: nat, off: nat, addr: seq<byte>, i: nat, n1: nat, acc: nat)
    requires Chunks(fs0, a0, fs1, a1, ino, off, addr, i) && 0 < n1 && i + n1 <= acc && off + acc <= MAXFILE * BSIZE
    requires !CanFill(fs1, a1, ino, Slots(off + i, n1))
    requires WellFormed(fs1)
    ensures !CanFill(fs0, a0, ino, Slots(off, acc))
  {
    hide Ptr, Slots;
    if i > 0 { CanNext(fs0, a0, fs1, a1, ino, off, addr[..i], n1); }
    CannotAll(fs0, a0, ino, off, i + n1, acc);
  }

  lemma ChunksCan(fs0: Fs, a0: nat, r: Fs, a: nat, ino: nat, off: nat, addr: seq<byte>, i: nat)
    requires Chunks(fs0, a0, r, a, ino, off, addr, i)
    ensures off + i <= MAXFILE * BSIZE ==> CanFill(fs0, a0, ino, Slots(off, i))
  {
    if i == 0 {
      assert off <= MAXFILE * BSIZE ==> Slots(off, 0) == {};
      assert Missing(fs0, ino, {}) == {};
    } else {
      WrittenCan(fs0, a0, r, a, ino, off, addr[..i]);
    }
  }

  /** The next chunk is refused exactly when all that can be written has been. */
  lemma ChunkRefused(fs0: Fs, a0: nat, r: Fs, a: nat, ino: nat, off: nat, addr: seq<byte>, n: nat, i: nat, n1: nat)
    requires Chunks(fs0, a0, r, a, ino, off, addr, i) && n <= |addr| && i < n && i % CHUNK == 0
             && n1 == Min(n - i, CHUNK)
    requires forall x :: 0 <= x < NINODES ==> fs0.inodes[x].size <= MAXFILE * BSIZE
    requires i <= Accepted(fs0, ino, off, n) && off + i < 0x1_0000_0000
    ensures WellFormed(r) && (Refused(r.inodes[ino].size, off + i, n1) <==> i == Accepted(fs0, ino, off, n))
    ensures i < Accepted(fs0, ino, off, n) ==>
              && i + n1 <= Accepted(fs0, ino, off, n) && (i + n1 == n || (i + n1) % CHUNK == 0)
              && (i + n1 + CHUNK - 1) / CHUNK == i / CHUNK + 1 && (i + CHUNK - 1) / CHUNK == i / CHUNK
              && off + Accepted(fs0, ino, off, n) <= MAXFILE * BSIZE
  {
    hide Ptr, Contents, Spliced, Dense, Spent;
    if off <= fs0.inodes[ino].size { AcceptNext(fs0, ino, off, n, i, n1); }
    assert i > 0 ==> r.inodes[ino].size == SizeAfter(fs0.inodes[ino].size, off, i);
  }

  /** In the end: the bytes in place, and the free blocks were enough for them. */
  lemma ChunksEnd(fs0: Fs, a0: nat, r: Fs, a: nat, ino: nat, off: nat, addr: seq<byte>, i: nat)
    requires Chunks(fs0, a0, r, a, ino, off, addr, i)
    ensures CanFill(fs0, a0, ino, Slots(off, i))
  {
    if off + i <= MAXFILE * BSIZE {
      ChunksCan(fs0, a0, r, a, ino, off, addr, i);
    } else {
      assert Missing(fs0, ino, {}) == {};
    }
  }

  /** filewrite as a whole: the copy on disk, as after one write of all of it. */
  lemma ChunksAgree(fs0: Fs, a0: nat, r: Fs, a: nat, ino: nat, off: nat, addr: seq<byte>, i: nat, d0: seq<Inode>)
    requires Chunks(fs0, a0, r, a, ino, off, addr, i) && WellFormed(r) && Behind(d0, fs0.inodes)
    requires forall x :: 0 <= x < NINODES ==> fs0.inodes[x].size <= MAXFILE * BSIZE
    ensures var grown, there := r.inodes[ino].size != fs0.inodes[ino].size, AddrsThere(fs0, ino, Slots(off, i));
            && (d0[ino] == fs0.inodes[ino] ==> (Copies(fs0, r, d0, ino)[ino] == r.inodes[ino] <==> grown || there))
            && (d0 == fs0.inodes ==> (Copies(fs0, r, d0, ino) == r.inodes <==> grown || there))
            && (Dense(fs0, ino) ==> Dense(r, ino) && (grown || there))
  {
    if i == 0 {
      assert AddrsThere(fs0, ino, Slots(off, 0)) by {
        if off <= MAXFILE * BSIZE { LastBlock(off, 0); }
      }
    } else {
      hide Contents, Spliced, Dense, Spent, Slots, AddrsThere, InUse, NoSharing, NoLeak, Ptr, Copies, Behind;
      assert |addr[..i]| == i;
      WrittenAgrees(fs0, a0, r, a, ino, off, addr[..i], d0);
      if Dense(fs0, ino) && r.inodes[ino].size == fs0.inodes[ino].size { DenseAddrs(fs0, ino, off, i); }
    }
  }

  ghost predicate AllSmall(txns0: seq<Txn>, txns: seq<Txn>) {
    txns0 <= txns && forall k :: |txns0| <= k < |txns| ==> |txns[k].logged| <= 8
  }

  /** filewrite after i of n bytes: whole chunks, a transaction each, all of them small. */
  ghost predicate Progress(fs0: Fs, a0: nat, r: Fs, a: nat, ino: nat, off: nat, addr: seq<byte>, n: int, i: nat,
                           txns0: seq<Txn>, txns: seq<Txn>)
  {
    && Chunks(fs0, a0, r, a, ino, off, addr, i) && n <= |addr|
    && (forall x :: 0 <= x < NINODES ==> fs0.inodes[x].size <= MAXFILE * BSIZE)
    && i <= Accepted(fs0, ino, off, n) && (i == n || i % CHUNK == 0)
    && |txns| == |txns0| + (i + CHUNK - 1) / CHUNK && AllSmall(txns0, txns)
  }

  lemma ProgressStarts(fs: Fs, a: nat, ino: nat, off: nat, addr: seq<byte>, n: int, txns: seq<Txn>)
    requires WellFormed(fs) && ino < NINODES && n <= |addr|
    requires forall x :: 0 <= x < NINODES ==> fs.inodes[x].size <= MAXFILE * BSIZE
    ensures Progress(fs, a, fs, a, ino, off, addr, n, 0, txns, txns)
  {
  }

  /** filewrite from its loop to its return; `end` is the offset it leaves. */
  ghost predicate Finished(fs0: Fs, a0: nat, r: Fs, a: nat, ino: nat, off: nat, addr: seq<byte>, n: int,
                           txns0: seq<Txn>, txns: seq<Txn>, end: nat)
  {
    var acc := Accepted(fs0, ino, off, n);
    && end == off + acc && Chunks(fs0, a0, r, a, ino, off, addr, acc) && CanFill(fs0, a0, ino, Slots(off, acc))
    && AllSmall(txns0, txns) && |txns| == |txns0| + Transactions(n, acc)
  }

  lemma FinishedIs(fs0: Fs, a0: nat, r: Fs, a: nat, ino: nat, off: nat, addr: seq<byte>, n: int,
                   txns0: seq<Txn>, txns: seq<Txn>, end: nat)
    requires Finished(fs0, a0, r, a, ino, off, addr, n, txns0, txns, end)
    ensures ino < |fs0.inodes|
    ensures var acc := Accepted(fs0, ino, off, n);
            && end == off + acc && Chunks(fs0, a0, r, a, ino, off, addr, acc) && CanFill(fs0, a0, ino, Slots(off, acc))
            && AllSmall(txns0, txns) && |txns| == |txns0| + Transactions(n, acc)
  {
  }

  lemma ProgressNext(fs0: Fs, a0: nat, r: Fs, a: nat, ino: nat, off: nat, addr: seq<byte>, n: nat, i: nat, n1: nat,
                     txns0: seq<Txn>, txns: seq<Txn>)
    requires Progress(fs0, a0, r, a, ino, off, addr, n, i, txns0, txns)
    requires i < n && n1 == Min(n - i, CHUNK) && off + i < 0x1_0000_0000
    ensures 0 < n1 && i + n1 <= |addr| && WellFormed(r) && WellFormed(fs0) && ino < NINODES
    ensures i <= Accepted(fs0, ino, off, n)
    ensures Refused(r.inodes[ino].size, off + i, n1) <==> i == Accepted(fs0, ino, off, n)
    ensures i < Accepted(fs0, ino, off, n) && !CanFill(r, a, ino, Slots(off + i, n1)) ==>
              !CanFill(fs0, a0, ino, Slots(off, Accepted(fs0, ino, off, n)))
  {
    hide AllSmall, Slots, CanFill, Ptr, Written;
    ChunkRefused(fs0, a0, r, a, ino, off, addr, n, i, n1);
    if i < Accepted(fs0, ino, off, n) && !CanFill(r, a, ino, Slots(off + i, n1)) {
      ChunkFails(fs0, a0, r, a, ino, off, addr, i, n1, Accepted(fs0, ino, off, n));
    }
  }

  lemma ProgressCopies(fs0: Fs, a0: nat, fs1: Fs, a1: nat, r: Fs, a: nat, d0: seq<Inode>, ino: nat, off: nat,
                       addr: seq<byte>, n: nat, i: nat, n1: nat, txns0: seq<Txn>, txns: seq<Txn>)
    requires Progress(fs0, a0, fs1, a1, ino, off, addr, n, i, txns0, txns) && |d0| == NINODES
    requires i < n && n1 == Min(n - i, CHUNK) && i + n1 <= |addr|
    requires Written(fs1, a1, r, a, ino, off + i, addr[i..i + n1])
    ensures Copies(fs1, r, Copies(fs0, fs1, d0, ino), ino) == Copies(fs0, r, d0, ino)
  {
    hide AllSmall, Slots, CanFill, Ptr, Written, Copies, Chunks;
    CopiesTwice(fs0, a0, fs1, a1, r, a, d0, ino, off, addr, i, n1);
  }

  lemma ProgressStep(fs0: Fs, a0: nat, fs1: Fs, a1: nat, r: Fs, a: nat, ino: nat, off: nat, addr: seq<byte>, n: nat,
                     i: nat,
                     n1: nat, txns0: seq<Txn>, txns: seq<Txn>, done: Txn)
    requires Progress(fs0, a0, fs1, a1, ino, off, addr, n, i, txns0, txns)
    requires i < n && n1 == Min(n - i, CHUNK) && off + i < 0x1_0000_0000 && i < Accepted(fs0, ino, off, n)
    requires i + n1 <= |addr| && Written(fs1, a1, r, a, ino, off + i, addr[i..i + n1]) && |done.logged| <= 8
    ensures Progress(fs0, a0, r, a, ino, off, addr, n, i + n1, txns0, txns + [done])
  {
    hide Chunks, Written, Ptr;
    ChunkRefused(fs0, a0, fs1, a1, ino, off, addr, n, i, n1);
    ChunkStep(fs0, a0, fs1, a1, r, a, ino, off, addr, i, n1);
  }

  /** Done: all n bytes, or the next chunk refused after one more small transaction. */
  lemma ProgressEnds(fs0: Fs, a0: nat, r: Fs, a: nat, ino: nat, off: nat, addr: seq<byte>, n: int, i: nat,
                     txns0: seq<Txn>, txns: seq<Txn>, refused: bool)
    requires Progress(fs0, a0, r, a, ino, off, addr, n, i, txns0, if refused
             && txns != [] then txns[..|txns| - 1] else txns)
    requires refused ==> txns != [] && |txns[|txns| - 1].logged| <= 8 && i < n && i == Accepted(fs0, ino, off, n)
    requires !refused ==> i >= n
    ensures Finished(fs0, a0, r, a, ino, off, addr, n, txns0, txns, off + i)
    ensures refused ==> i < n
    ensures !refused ==> (i == n <==> n >= 0)
  {
    hide Written, Slots, CanFill, Ptr;
    ChunksEnd(fs0, a0, r, a, ino, off, addr, i);
  }
}
