/** What it takes to reach blocks of a file: the pointers on the way, how many are missing, and whether the
  free blocks balloc can find are enough to fill them. */
module Paths {
  import opened Layout

  /** The slots from the inode to the bn-th block of a file. */
  function Path(bn: nat): set<Slot>
    requires bn < MAXFILE
  {
    var s := DataSlot(bn);
    match s
    case Addr(_) => {s}
    case Ind(_) => {Addr(NDIRECT), s}
    case Dbl(_) => {s}
    case Leaf(j, _) => {Addr(NDIRECT + 1), Dbl(j), s}
  }

  /** The slots on the way to blocks first..next. */
  function PathTo(first: nat, next: nat): set<Slot>
    requires next <= MAXFILE
    decreases next
  {
    if next <= first then {} else PathTo(first, next - 1) + Path(next - 1)
  }

  /** Those of the slots that hold no block yet. */
  function Missing(fs: Fs, ino: nat, slots: set<Slot>): set<Slot>
    requires WellFormed(fs) && ino < NINODES
  {
    set s | s in slots && ValidSlot(s) && Ptr(fs, ino, s) == 0
  }

  predicate AllValid(slots: set<Slot>) {
    forall s :: s in slots ==> ValidSlot(s)
  }

  /** The only pointers that differ are empty slots of inode `ino` among `slots`. */
  ghost predicate Only(fs: Fs, r: Fs, ino: nat, slots: set<Slot>)
    requires WellFormed(fs) && WellFormed(r) && ino < NINODES
  {
    forall i: nat, s | i < NINODES && ValidSlot(s) && Ptr(r, i, s) != Ptr(fs, i, s) ::
      i == ino && s in slots && Ptr(fs, i, s) == 0
  }

  ghost predicate SameSizes(fs: Fs, r: Fs)
    requires WellFormed(fs) && WellFormed(r)
  {
    forall i :: 0 <= i < NINODES ==> r.inodes[i].size == fs.inodes[i].size
  }

  /** From `fs` to `r` the slots have been filled, at a cost of one of the `room` free blocks for each that
    was missing. Ownership holds and no other pointer has moved. */
  ghost predicate Spent(fs: Fs, room: nat, r: Fs, room': nat, ino: nat, slots: set<Slot>) {
    && WellFormed(fs) && ino < NINODES && AllValid(slots)
    && Own(r) && Only(fs, r, ino, slots) && Missing(r, ino, slots) == {}
    && room' == room - |Missing(fs, ino, slots)|
  }

  /** ... and no file has other bytes or another size; if nothing was missing, nothing has changed. */
  ghost predicate Filled(fs: Fs, room: nat, r: Fs, room': nat, ino: nat, slots: set<Slot>) {
    && Spent(fs, room, r, room', ino, slots) && SameBytes(fs, r) && SameSizes(fs, r)
    && (Missing(fs, ino, slots) == {} ==> r == fs)
  }

  /** The free blocks are enough for the slots. */
  ghost predicate CanFill(fs: Fs, room: nat, ino: nat, slots: set<Slot>) {
    WellFormed(fs) && ino < NINODES && |Missing(fs, ino, slots)| <= room
  }

  lemma PathValid(bn: nat)
    requires bn < MAXFILE
    ensures AllValid(Path(bn)) && DataSlot(bn) in Path(bn)
  {
  }

  lemma {:induction false} PathToValid(first: nat, next: nat)
    requires next <= MAXFILE
    ensures AllValid(PathTo(first, next))
    decreases next
  {
    if first < next { PathToValid(first, next - 1); }
  }

  lemma {:induction false} PathToHas(first: nat, next: nat, bn: nat)
    requires first <= bn < next <= MAXFILE
    ensures Path(bn) <= PathTo(first, next)
    decreases next
  {
    if bn < next - 1 { PathToHas(first, next - 1, bn); }
  }

  lemma {:induction false} PathToJoin(first: nat, mid: nat, next: nat)
    requires first <= mid <= next <= MAXFILE
    ensures PathTo(first, mid) + PathTo(mid, next) == PathTo(first, next)
    decreases next
  {
    if mid < next { PathToJoin(first, mid, next - 1); }
  }

  /** Two ranges that meet in one block, or follow each other. */
  lemma PathToOverlap(first: nat, mid: nat, next: nat)
    requires first < mid <= next <= MAXFILE
    ensures PathTo(first, mid) + PathTo(mid - 1, next) == PathTo(first, next)
  {
    PathToJoin(first, mid, next);
    PathToJoin(mid - 1, mid, next);
    PathToJoin(first, mid - 1, mid);
  }

  lemma Subset<T>(a: set<T>, b: set<T>)
    requires a <= b
    ensures |a| <= |b|
  {
    if a != {} {
      var x :| x in a;
      Subset(a - {x}, b - {x});
    }
  }

  /** Filling some slots takes from what is missing of others exactly the slots they share. */
  lemma MissingSplit(fs: Fs, fs1: Fs, ino: nat, s1: set<Slot>, s2: set<Slot>)
    requires WellFormed(fs) && WellFormed(fs1) && ino < NINODES && Only(fs, fs1, ino, s1) && Missing(fs1, ino, s1) == {}
    requires AllValid(s1) && AllValid(s2)
    ensures |Missing(fs, ino, s1 + s2)| == |Missing(fs, ino, s1)| + |Missing(fs1, ino, s2)|
    ensures Missing(fs, ino, s1 + s2) == Missing(fs, ino, s1) + Missing(fs1, ino, s2)
  {
    hide Ptr;
    forall s | s in s1 + s2 ensures s in Missing(fs, ino, s1 + s2) <==>
                     s in Missing(fs, ino, s1) || s in Missing(fs1, ino, s2) {
      if s in s1 { assert s !in Missing(fs1, ino, s1); }
    }
    forall s | s in Missing(fs, ino, s1) ensures s !in Missing(fs1, ino, s2) {
      assert s !in Missing(fs1, ino, s1);
    }
    assert Missing(fs, ino, s1 + s2) == Missing(fs, ino, s1) + Missing(fs1, ino, s2);
    assert Missing(fs, ino, s1) * Missing(fs1, ino, s2) == {};
  }

  lemma SpentTwice(fs: Fs, a: nat, fs1: Fs, a1: nat, r: Fs, a2: nat, ino: nat, s1: set<Slot>, s2: set<Slot>)
    requires Spent(fs, a, fs1, a1, ino, s1) && Spent(fs1, a1, r, a2, ino, s2)
    ensures Spent(fs, a, r, a2, ino, s1 + s2)
  {
    assert WellFormed(fs1) && WellFormed(r);
    hide Ptr, Own, ByteAt, Missing;
    MissingSplit(fs, fs1, ino, s1, s2);
    assert Missing(r, ino, s1 + s2) == {} by { StillFilled(fs1, r, ino, s1, s2); }
    assert Only(fs, r, ino, s1 + s2) by { OnlyTwice(fs, fs1, r, ino, s1, s2); }
  }

  lemma FilledTwice(fs: Fs, a: nat, fs1: Fs, a1: nat, r: Fs, a2: nat, ino: nat, s1: set<Slot>, s2: set<Slot>)
    requires Filled(fs, a, fs1, a1, ino, s1) && Filled(fs1, a1, r, a2, ino, s2)
    ensures Filled(fs, a, r, a2, ino, s1 + s2)
  {
    SpentTwice(fs, a, fs1, a1, r, a2, ino, s1, s2);
    MissingSplit(fs, fs1, ino, s1, s2);
    hide Ptr, Own, ByteAt, Missing, Only, Spent;
  }

  lemma SpentNone(fs: Fs, room: nat, ino: nat)
    requires Own(fs) && ino < NINODES
    ensures Filled(fs, room, fs, room, ino, {})
  {
    assert Missing(fs, ino, {}) == {};
  }

  lemma OnlyTwice(fs: Fs, fs1: Fs, r: Fs, ino: nat, s1: set<Slot>, s2: set<Slot>)
    requires WellFormed(fs) && WellFormed(fs1) && WellFormed(r) && ino < NINODES
    requires Only(fs, fs1, ino, s1) && Only(fs1, r, ino, s2)
    ensures Only(fs, r, ino, s1 + s2)
  {
    hide Ptr;
  }

  lemma StillFilled(fs1: Fs, r: Fs, ino: nat, s1: set<Slot>, s2: set<Slot>)
    requires WellFormed(fs1) && WellFormed(r) && ino < NINODES && Only(fs1, r, ino, s2)
    requires Missing(fs1, ino, s1) == {} && Missing(r, ino, s2) == {}
    ensures Missing(r, ino, s1 + s2) == {}
  {
    hide Ptr;
    forall s | s in s1 + s2 && ValidSlot(s) ensures Ptr(r, ino, s) != 0 {
      if s in s1 { assert s !in Missing(fs1, ino, s1); } else { assert s !in Missing(r, ino, s2); }
    }
  }

  /** Whether both can be filled: the second is asked for once the first is done. */
  lemma CanTwice(fs: Fs, a: nat, fs1: Fs, a1: nat, ino: nat, s1: set<Slot>, s2: set<Slot>)
    requires Spent(fs, a, fs1, a1, ino, s1) && AllValid(s2)
    ensures CanFill(fs, a, ino, s1 + s2) <==> CanFill(fs1, a1, ino, s2)
  {
    MissingSplit(fs, fs1, ino, s1, s2);
  }

  lemma CanTwiceFilled(fs: Fs, a: nat, fs1: Fs, a1: nat, ino: nat, s1: set<Slot>, s2: set<Slot>)
    requires Filled(fs, a, fs1, a1, ino, s1) && AllValid(s2)
    ensures CanFill(fs, a, ino, s1 + s2) <==> CanFill(fs1, a1, ino, s2)
  {
    CanTwice(fs, a, fs1, a1, ino, s1, s2);
  }

  lemma FilledSame(fs: Fs, a: nat, fs1: Fs, a1: nat, ino: nat, slots: set<Slot>)
    requires Filled(fs, a, fs1, a1, ino, slots)
    ensures (forall s :: s in slots ==> Ptr(fs, ino, s) != 0) ==> fs1 == fs
  {
  }

  lemma FilledKeeps(fs: Fs, a: nat, fs1: Fs, a1: nat, ino: nat, slots: set<Slot>, s: Slot)
    requires Filled(fs, a, fs1, a1, ino, slots) && ValidSlot(s) && Ptr(fs, ino, s) != 0
    ensures Ptr(fs1, ino, s) == Ptr(fs, ino, s)
  {
  }

  lemma MappedPath(fs: Fs, room: nat, ino: nat, bn: nat)
    requires WellFormed(fs) && ino < NINODES && bn < MAXFILE
    ensures Ptr(fs, ino, DataSlot(bn)) != 0 ==> CanFill(fs, room, ino, Path(bn))
  {
    if Ptr(fs, ino, DataSlot(bn)) != 0 { PathThere(fs, ino, bn); }
  }

  lemma PathUnmoved(fs: Fs, room: nat, ino: nat, bn: nat)
    requires WellFormed(fs) && ino < NINODES && bn < MAXFILE
    ensures Ptr(fs, ino, DataSlot(bn)) != 0 ==>
              forall r: Fs, a: nat :: Filled(fs, room, r, a, ino, Path(bn)) ==> r == fs
  {
    if Ptr(fs, ino, DataSlot(bn)) != 0 { PathThere(fs, ino, bn); }
  }

  lemma CannotMore(fs: Fs, a: nat, ino: nat, few: set<Slot>, many: set<Slot>)
    requires WellFormed(fs) && ino < NINODES && few <= many && !CanFill(fs, a, ino, few)
    ensures !CanFill(fs, a, ino, many)
  {
    Subset(Missing(fs, ino, few), Missing(fs, ino, many));
  }

  lemma OnlyGrows(fs: Fs, r: Fs, ino: nat, slots: set<Slot>)
    requires WellFormed(fs) && WellFormed(r) && ino < NINODES && Only(fs, r, ino, slots)
    ensures Grows(fs, r)
  {
    hide Ptr;
  }

  lemma GrowsAt(fs: Fs, r: Fs, ino: nat, s: Slot)
    requires WellFormed(fs) && WellFormed(r) && Grows(fs, r) && ino < NINODES && ValidSlot(s)
    ensures Ptr(fs, ino, s) != 0 ==> Ptr(r, ino, s) == Ptr(fs, ino, s)
  {
  }

  /** One slot, filled or found so. */
  lemma FilledOne(fs: Fs, room: nat, ino: nat, s: Slot)
    requires Own(fs) && ino < NINODES && ValidSlot(s)
    ensures |Missing(fs, ino, {s})| == if Ptr(fs, ino, s) == 0 then 1 else 0
    ensures Ptr(fs, ino, s) != 0 ==> Filled(fs, room, fs, room, ino, {s}) && NMETA <= Ptr(fs, ino, s) < FSSIZE
  {
    hide Ptr;
    if Ptr(fs, ino, s) == 0 {
      assert Missing(fs, ino, {s}) == {s};
    } else {
      assert Missing(fs, ino, {s}) == {};
      TableInRange(fs, ino, s);
    }
  }

  lemma LinkedOne(fs: Fs, room: nat, ino: nat, s: Slot, b: uint32)
    requires CanLink(fs, ino, s, b) && room > 0
    ensures !s.Addr? ==> Ptr(fs, ino, Parent(s)) < FSSIZE
    ensures Filled(fs, room, Linked(fs, ino, s, b), room - 1, ino, {s})
    ensures Ptr(Linked(fs, ino, s, b), ino, s) == b && NMETA <= b
  {
    hide Ptr, InUse, NoSharing, NoLeak;
    LinkKeeps(fs, ino, s, b);
    LinkedPtrs(fs, ino, s, b);
    var r := Linked(fs, ino, s, b);
    assert Missing(fs, ino, {s}) == {s};
    assert b != 0;
    assert Missing(r, ino, {s}) == {};
  }

  // ---------------------------------------------------------------- files without holes

  /** Every block below the size has been allocated. */
  ghost predicate Dense(fs: Fs, ino: nat)
    requires WellFormed(fs) && ino < NINODES
  {
    forall bn: nat | bn < MAXFILE && bn * BSIZE < fs.inodes[ino].size :: Ptr(fs, ino, DataSlot(bn)) != 0
  }

  /** All slots on the way to a block that is there are there. */
  lemma PathThere(fs: Fs, ino: nat, bn: nat)
    requires WellFormed(fs) && ino < NINODES && bn < MAXFILE && Ptr(fs, ino, DataSlot(bn)) != 0
    ensures Missing(fs, ino, Path(bn)) == {}
  {
    var s := DataSlot(bn);
    assert s.Leaf? ==> Ptr(fs, ino, Dbl(s.j)) != 0 && Ptr(fs, ino, Addr(NDIRECT + 1)) != 0;
  }

  lemma {:induction false} PathToThere(fs: Fs, ino: nat, first: nat, next: nat)
    requires WellFormed(fs) && ino < NINODES && next <= MAXFILE
    requires forall bn: nat | first <= bn < next :: Ptr(fs, ino, DataSlot(bn)) != 0
    ensures Missing(fs, ino, PathTo(first, next)) == {}
    decreases next
  {
    hide Ptr, Path;
    if first < next {
      PathToThere(fs, ino, first, next - 1);
      PathThere(fs, ino, next - 1);
      forall s | s in PathTo(first, next) && ValidSlot(s) ensures Ptr(fs, ino, s) != 0 {
        if s in Path(next - 1) { assert s !in Missing(fs, ino, Path(next - 1)); }
        else { assert s !in Missing(fs, ino, PathTo(first, next - 1)); }
      }
    }
  }

  /** A block that is missing below the end of a range is a slot that is. */
  lemma HoleMissing(fs: Fs, ino: nat, first: nat, next: nat, bn: nat)
    requires WellFormed(fs) && ino < NINODES && first <= bn < next <= MAXFILE && Ptr(fs, ino, DataSlot(bn)) == 0
    ensures DataSlot(bn) in Missing(fs, ino, PathTo(first, next))
  {
    PathToHas(first, next, bn);
    PathValid(bn);
  }

  /** With no free block to take, exactly the ranges without a hole can be reached. */
  lemma NoRoom(fs: Fs, ino: nat, first: nat, next: nat)
    requires WellFormed(fs) && ino < NINODES && next <= MAXFILE
    ensures CanFill(fs, 0, ino, PathTo(first, next))
            <==> forall bn: nat | first <= bn < next :: Ptr(fs, ino, DataSlot(bn)) != 0
  {
    hide Ptr, PathTo;
    if forall bn: nat | first <= bn < next :: Ptr(fs, ino, DataSlot(bn)) != 0 {
      PathToThere(fs, ino, first, next);
    } else {
      var bn: nat :| first <= bn < next && Ptr(fs, ino, DataSlot(bn)) == 0;
      HoleMissing(fs, ino, first, next, bn);
    }
  }

  // ---------------------------------------------------------------- inodes and their copies on disk

  /** The pointers among the slots that are in the inode itself are all there. */
  predicate AddrsThere(fs: Fs, ino: nat, slots: set<Slot>)
    requires WellFormed(fs) && ino < NINODES
  {
    forall k: nat | k < NDIRECT + 2 :: Addr(k) in slots ==> fs.inodes[ino].addrs[k] != 0
  }

  /** Filling slots changes the pointers in the inode exactly if one of them was missing, and in no other. */
  lemma SpentAddrs(fs: Fs, room: nat, r: Fs, room': nat, ino: nat, slots: set<Slot>)
    requires Spent(fs, room, r, room', ino, slots)
    ensures r.inodes[ino].addrs == fs.inodes[ino].addrs <==> AddrsThere(fs, ino, slots)
    ensures forall i :: 0 <= i < NINODES && i != ino ==> r.inodes[i].addrs == fs.inodes[i].addrs
  {
    forall k: nat | k < NDIRECT + 2 && Addr(k) in slots ensures r.inodes[ino].addrs[k] != 0 {
      assert Addr(k) !in Missing(r, ino, slots);
      assert Ptr(r, ino, Addr(k)) == r.inodes[ino].addrs[k];
    }
    forall i: nat, k: nat | i < NINODES && k < NDIRECT + 2
      ensures r.inodes[i].addrs[k] == fs.inodes[i].addrs[k]
              || (i == ino && Addr(k) in slots && fs.inodes[i].addrs[k] == 0)
    {
      assert Ptr(r, i, Addr(k)) == r.inodes[i].addrs[k] && Ptr(fs, i, Addr(k)) == fs.inodes[i].addrs[k];
    }
    forall i | 0 <= i < NINODES && i != ino ensures r.inodes[i].addrs == fs.inodes[i].addrs {
      forall k: nat | k < NDIRECT + 2 ensures r.inodes[i].addrs[k] == fs.inodes[i].addrs[k] {
        assert Ptr(r, i, Addr(k)) == Ptr(fs, i, Addr(k));
      }
    }
  }

  /** The same where no size changes. */
  lemma SpentInode(fs: Fs, room: nat, r: Fs, room': nat, ino: nat, slots: set<Slot>)
    requires Spent(fs, room, r, room', ino, slots) && SameSizes(fs, r)
    ensures r.inodes[ino] == fs.inodes[ino] <==> AddrsThere(fs, ino, slots)
    ensures r.inodes == fs.inodes[ino := r.inodes[ino]]
  {
    SpentAddrs(fs, room, r, room', ino, slots);
    hide AddrsThere, Only, Missing, Own;
    forall i | 0 <= i < NINODES && i != ino ensures r.inodes[i] == fs.inodes[i] {
      assert r.inodes[i].addrs == fs.inodes[i].addrs;
    }
  }

  /** If nothing is missing no pointer in the inode is. */
  lemma NothingMissing(fs: Fs, ino: nat, slots: set<Slot>)
    requires WellFormed(fs) && ino < NINODES && Missing(fs, ino, slots) == {}
    ensures AddrsThere(fs, ino, slots)
  {
    forall k: nat | k < NDIRECT + 2 && Addr(k) in slots ensures fs.inodes[ino].addrs[k] != 0 {
      assert Addr(k) !in Missing(fs, ino, slots);
    }
  }

  /** The copies on disk know the sizes, and every pointer they know is right; they may not know all. */
  predicate Behind(d: seq<Inode>, m: seq<Inode>) {
    && |d| == |m| == NINODES
    && forall i :: 0 <= i < NINODES ==> d[i].size == m[i].size && |d[i].addrs| == |m[i].addrs| == NDIRECT + 2
                                         && forall k :: 0 <= k < NDIRECT + 2 ==>
                                              d[i].addrs[k] == m[i].addrs[k] || d[i].addrs[k] == 0
  }

  lemma {:induction false} BehindPtr(fs: Fs, d: seq<Inode>, i: nat, s: Slot)
    requires WellFormed(fs) && Behind(d, fs.inodes) && i < NINODES && ValidSlot(s)
    ensures Ptr(fs.(inodes := d), i, s) == Ptr(fs, i, s) || Ptr(fs.(inodes := d), i, s) == 0
    decreases if s.Addr? then 0 else if s.Leaf? then 2 else 1
  {
    if !s.Addr? { BehindPtr(fs, d, i, Parent(s)); }
  }

  /** The file system with the inodes as the disk has them: ownership holds of it exactly if the copies are up
    to date, because a block whose pointer is not known there is marked and nobody's. */
  lemma BehindOwn(fs: Fs, d: seq<Inode>)
    requires Own(fs) && Behind(d, fs.inodes)
    ensures WellFormed(fs.(inodes := d)) && (Own(fs.(inodes := d)) <==> d == fs.inodes)
  {
    var t := fs.(inodes := d);
    if d != fs.inodes {
      var i: nat :| i < NINODES && d[i] != fs.inodes[i];
      var k: nat :| k < NDIRECT + 2 && d[i].addrs[k] != fs.inodes[i].addrs[k];
      var b := fs.inodes[i].addrs[k];
      assert Ptr(fs, i, Addr(k)) == b && Ptr(t, i, Addr(k)) == 0;
      TableInRange(fs, i, Addr(k));
      hide Ptr;
      forall j: nat, s | j < NINODES && ValidSlot(s) ensures Ptr(t, j, s) != b {
        BehindPtr(fs, d, j, s);
        assert Ptr(fs, j, s) == b ==> j == i && s == Addr(k);
      }
      assert !Owned(t, b);
    }
  }

  // ---------------------------------------------------------------- the free blocks balloc can find

  /** Bits past the blocks balloc may use are clear: mkfs leaves them so, and balloc never marks them. */
  predicate TailClear(bits: seq<bool>) {
    |bits| == NBITMAP * BPB && forall b :: NBLOCKS <= b < |bits| ==> !bits[b]
  }

  /** The free data blocks from the bitmap block of the hint on. */
  function Free(bits: seq<bool>, hint: nat): set<nat> {
    set b | hint / BPB * BPB <= b < NBLOCKS && b < |bits| && !bits[b]
  }

  predicate AllMarked(bits: seq<bool>, lo: nat, hi: nat)
    requires hi <= |bits|
  {
    forall c :: lo <= c < hi ==> bits[c]
  }

  /** No free bit comes before b in the order balloc scans: from the start of the bitmap block that
    holds the hint to the end, then from bit 0 to that block. */
  ghost predicate IsFirstFree(bits: seq<bool>, start: nat, b: nat)
    requires |bits| == NBITMAP * BPB && start < NBITMAP
  {
    && b < |bits| && !bits[b]
    && if start * BPB <= b then AllMarked(bits, start * BPB, b)
       else AllMarked(bits, start * BPB, |bits|) && AllMarked(bits, 0, b)
  }

  lemma FirstFreeUnique(bits: seq<bool>, start: nat, b: nat, c: nat)
    requires |bits| == NBITMAP * BPB && start < NBITMAP
    requires IsFirstFree(bits, start, b) && IsFirstFree(bits, start, c)
    ensures b == c
  {
  }

  /** The first free bit is a data block exactly when some data block from the hint's bitmap block on is
    free, because the bits past the data blocks stop the scan before it wraps. */
  lemma FirstFreeIsData(bits: seq<bool>, hint: nat, b: nat)
    requires TailClear(bits) && hint < NBLOCKS && IsFirstFree(bits, hint / BPB, b)
    ensures hint / BPB * BPB <= b
    ensures b < NBLOCKS <==> Free(bits, hint) != {}
    ensures b < NBLOCKS ==> b in Free(bits, hint)
  {
    assert !bits[NBLOCKS];
    if b < NBLOCKS {
      assert b in Free(bits, hint);
    } else {
      forall c: nat | hint / BPB * BPB <= c < NBLOCKS ensures bits[c] {}
      assert Free(bits, hint) == {};
    }
  }

  /** Taking it leaves the other free blocks within reach of the new hint. */
  lemma TakeFree(bits: seq<bool>, hint: nat, b: nat)
    requires TailClear(bits) && hint < NBLOCKS && IsFirstFree(bits, hint / BPB, b) && b < NBLOCKS
    ensures TailClear(bits[b := true]) && Free(bits[b := true], b) == Free(bits, hint) - {b}
    ensures |Free(bits[b := true], b)| == |Free(bits, hint)| - 1
  {
    FirstFreeIsData(bits, hint, b);
    assert hint / BPB <= b / BPB;
    forall c | c in Free(bits, hint) && c != b ensures c > b {}
    assert Free(bits[b := true], b) == Free(bits, hint) - {b};
  }

  lemma FreeIsSome(bits: seq<bool>, hint: nat)
    requires |bits| == NBITMAP * BPB
    ensures |Free(bits, hint)| > 0 <==> exists b: nat :: hint / BPB * BPB <= b < NBLOCKS && !bits[b]
    ensures |Free(bits, hint)| > 0 <==> Free(bits, hint) != {}
  {
    if b: nat :| hint / BPB * BPB <= b < NBLOCKS && !bits[b] {
      assert b in Free(bits, hint);
    }
    if Free(bits, hint) != {} {
      var b :| b in Free(bits, hint);
    }
  }

  /** What balloc's scan comes to. */
  lemma ScanIs(bits: seq<bool>, hint: nat, b: nat)
    requires |bits| == NBITMAP * BPB && hint < NBLOCKS && IsFirstFree(bits, hint / BPB, b)
    ensures (exists c: nat :: c < NBLOCKS && IsFirstFree(bits, hint / BPB, c)) <==> b < NBLOCKS
    ensures TailClear(bits) ==> (b < NBLOCKS <==> Free(bits, hint) != {})
    ensures TailClear(bits) && b < NBLOCKS ==>
              TailClear(bits[b := true]) && |Free(bits[b := true], b)| == |Free(bits, hint)| - 1
  {
    forall c: nat | IsFirstFree(bits, hint / BPB, c) ensures c == b { FirstFreeUnique(bits, hint / BPB, b, c); }
    if TailClear(bits) {
      FirstFreeIsData(bits, hint, b);
      if b < NBLOCKS { TakeFree(bits, hint, b); }
    }
  }

  lemma NoneFree(bits: seq<bool>, start: nat)
    requires |bits| == NBITMAP * BPB && start < NBITMAP
    requires AllMarked(bits, start * BPB, |bits|) && AllMarked(bits, 0, start * BPB)
    ensures !TailClear(bits) && forall b: nat :: !IsFirstFree(bits, start, b)
  {
    assert bits[NBLOCKS];
  }
}
