/** kernel/mkfs.c: the image every run of the file system starts from. Blocks are handed out in order from
  `freeblock`; the bitmap is written last. A result false stands for exit(1) or a failed assertion. */
module Mkfs {
  import opened Wrappers
  import opened Layout
  import opened Paths
  import opened FileBytes
  import opened Dirents
  import E = EntryViews
  import L = Links

  const ROOTINO: nat := 1          // include/fs.h:29

  /** The bitmap mkfs writes at the end when the first n blocks are in use. */
  function Prefix(n: nat): seq<bool> {
    seq(NBITMAP * BPB, i => i < n)
  }

  class Image {
    var blocks: seq<Block>
    var inodes: seq<Inode>
    var freeblock: nat
    var freeinode: nat

    /** The image as it would be were the bitmap written now. */
    function View(): Fs
      reads this
    {
      Fs(Prefix(freeblock), blocks, inodes)
    }

    /** The blocks still to be had. */
    function Room(): nat
      reads this
    {
      if freeblock < FSSIZE then FSSIZE - freeblock else 0
    }

    ghost predicate Valid()
      reads this
    {
      && Own(View()) && NMETA <= freeblock <= FSSIZE && 1 <= freeinode <= NINODES
      && (forall b :: freeblock <= b < FSSIZE ==> blocks[b] == ZeroBlock())
      && (forall i :: 0 <= i < NINODES ==> inodes[i].size <= MAXFILE * BSIZE)
      && (forall i :: freeinode <= i < NINODES ==> inodes[i] == EmptyInode())
    }

    lemma ValidOwns()
      requires Valid()
      ensures Own(View()) && WellFormed(View()) && freeinode <= NINODES
    {
    }

    /** A disk of zeros (kernel/mkfs.c:112-115). */
    constructor ()
      ensures Valid() && AllTight(View()) && freeinode == 1 && freeblock == NMETA
      ensures forall i :: 0 <= i < NINODES ==> inodes[i] == EmptyInode()
    {
      blocks := seq(FSSIZE, _ => ZeroBlock());
      inodes := seq(NINODES, _ => EmptyInode());
      freeblock := NMETA;
      freeinode := 1;
      new;
      FreshOwn(View());
    }

    /** The repeated step "if there is no block here, take the next one". */
    method Take(ino: nat, ghost s: Slot) returns (b: Option<uint32>)
      requires Valid() && ino < NINODES && ValidSlot(s) && Ptr(View(), ino, s) == 0
      requires !s.Addr? ==> Ptr(View(), ino, Parent(s)) != 0
      modifies this`freeblock
      ensures b.Some? <==> old(Room()) > 0
      ensures b.None? ==> freeblock == old(freeblock)
      ensures b.Some? ==> b.value == old(freeblock) && freeblock == old(freeblock) + 1
      ensures b.Some? ==> freeblock <= FSSIZE && CanLink(old(View()), ino, s, b.value)
      ensures b.Some? ==> !s.Addr? ==> old(Ptr(View(), ino, Parent(s))) < FSSIZE
      ensures b.Some? && s.Addr? ==> Linked(old(View()), ino, s, b.value) == SetAddr(View(), ino, s.i, b.value)
      ensures b.Some? && !s.Addr? ==>
                Linked(old(View()), ino, s, b.value)
                == SetEntry(View(), old(Ptr(View(), ino, Parent(s))), Index(s), b.value)
    {
      hide InUse, NoSharing, NoLeak;
      if !s.Addr? { TableInRange(View(), ino, Parent(s)); }
      if freeblock >= NMETA + NBLOCKS {
        return None;
      }
      b := Some(freeblock);
      freeblock := freeblock + 1;
      assert Prefix(freeblock) == Prefix(old(freeblock))[b.value := true];
      assert old(blocks)[b.value := ZeroBlock()] == old(blocks);
      assert Marked(old(View()), b.value) == View();
    }

    /** The pointer in slot i of the inode, made if it is missing. */
    method AddrSlot(ino: nat, i: nat) returns (r: Option<uint32>)
      requires Valid() && 1 <= ino < freeinode && i < NDIRECT + 2
      modifies this`inodes, this`freeblock
      ensures r.Some? <==> old(CanFill(View(), Room(), ino, {Addr(i)}))
      ensures r.Some? ==> Valid() && Filled(old(View()), old(Room()), View(), Room(), ino, {Addr(i)})
      ensures r.Some? ==> r.value == Ptr(View(), ino, Addr(i)) && NMETA <= r.value < FSSIZE
    {
      hide InUse, NoSharing, NoLeak, SameBytes, Only, Missing;
      FilledOne(View(), Room(), ino, Addr(i));
      if inodes[ino].addrs[i] == 0 {
        ghost var before, room := View(), Room();
        var b := Take(ino, Addr(i));
        if b.None? { return None; }
        LinkedOne(before, room, ino, Addr(i), b.value);
        inodes := inodes[ino := inodes[ino].(addrs := inodes[ino].addrs[i := b.value])];
        assert View() == Linked(before, ino, Addr(i), b.value);
      }
      return Some(inodes[ino].addrs[i]);
    }

    /** The pointer in a table block t, made if it is missing. */
    method TableSlot(t: uint32, index: nat, ino: nat, ghost s: Slot) returns (r: Option<uint32>)
      requires Valid() && 1 <= ino < freeinode && ValidSlot(s) && !s.Addr?
      requires ValidSlot(Parent(s)) && Ptr(View(), ino, Parent(s)) == t != 0 && index == Index(s)
      modifies this`blocks, this`freeblock
      ensures r.Some? <==> old(CanFill(View(), Room(), ino, {s}))
      ensures r.Some? ==> Valid() && Filled(old(View()), old(Room()), View(), Room(), ino, {s})
      ensures r.Some? ==> r.value == Ptr(View(), ino, s) && NMETA <= r.value < FSSIZE
    {
      hide InUse, NoSharing, NoLeak, SameBytes, Only, Missing, PutWord, Prefix;
      TableInRange(View(), ino, Parent(s));
      MarkedOnly(View(), ino, Parent(s), freeblock);
      FilledOne(View(), Room(), ino, s);
      if Word(blocks[t], index) == 0 {
        ghost var before, room := View(), Room();
        var b := Take(ino, s);
        if b.None? { return None; }
        LinkedOne(before, room, ino, s, b.value);
        blocks := blocks[t := PutWord(blocks[t], index, b.value)];
        assert View() == Linked(before, ino, s, b.value);
        FilledKeeps(before, room, View(), Room(), ino, {s}, Parent(s));
      }
      return Some(Word(blocks[t], index));
    }

    /** The three-way choice of iappend (kernel/mkfs.c:297-380). */
    method BlockFor(ino: nat, fbn: nat) returns (r: Option<uint32>)
      requires Valid() && 1 <= ino < freeinode && fbn < MAXFILE
      modifies this`blocks, this`inodes, this`freeblock
      ensures r.Some? <==> old(CanFill(View(), Room(), ino, Path(fbn)))
      ensures r.Some? ==> Valid() && Filled(old(View()), old(Room()), View(), Room(), ino, Path(fbn))
      ensures r.Some? ==> r.value == DataBlock(View(), ino, fbn) && NMETA <= r.value < freeblock
    {
      hide InUse, NoSharing, NoLeak, SameBytes, Filled, CanFill, Missing, Only, Spent;
      ghost var fs0, a0 := View(), Room();
      if fbn < NDIRECT {
        r := AddrSlot(ino, fbn);
      } else if fbn < NDIRECT + NINDIRECT {
        r := SingleFor(ino, fbn - NDIRECT);
      } else {
        r := DoubleFor(ino, (fbn - NDIRECT - NINDIRECT) / NINDIRECT, (fbn - NDIRECT - NINDIRECT) % NINDIRECT);
      }
      if r.Some? { MarkedOnly(View(), ino, DataSlot(fbn), freeblock); }
    }

    method SingleFor(ino: nat, idx: nat) returns (r: Option<uint32>)
      requires Valid() && 1 <= ino < freeinode && idx < NINDIRECT
      modifies this`blocks, this`inodes, this`freeblock
      ensures r.Some? <==> old(CanFill(View(), Room(), ino, {Addr(NDIRECT), Ind(idx)}))
      ensures r.Some? ==> Valid() && Filled(old(View()), old(Room()), View(), Room(), ino, {Addr(NDIRECT), Ind(idx)})
      ensures r.Some? ==> r.value == Ptr(View(), ino, Ind(idx)) && NMETA <= r.value < FSSIZE
    {
      hide InUse, NoSharing, NoLeak, SameBytes, Filled, CanFill, Missing, Only, Spent;
      ghost var fs0, a0 := View(), Room();
      ghost var one, two := {Addr(NDIRECT)}, {Ind(idx)};
      assert one + two == {Addr(NDIRECT), Ind(idx)};
      var t := AddrSlot(ino, NDIRECT);
      if t.None? {
        CannotMore(fs0, a0, ino, one, one + two);
        return None;
      }
      ghost var fs1, a1 := View(), Room();
      CanTwiceFilled(fs0, a0, fs1, a1, ino, one, two);
      r := TableSlot(t.value, idx, ino, Ind(idx));
      if r.Some? { FilledTwice(fs0, a0, fs1, a1, View(), Room(), ino, one, two); }
    }

    method DoubleFor(ino: nat, idx1: nat, idx2: nat) returns (r: Option<uint32>)
      requires Valid() && 1 <= ino < freeinode && idx1 < NINDIRECT && idx2 < NINDIRECT
      modifies this`blocks, this`inodes, this`freeblock
      ensures var path := {Addr(NDIRECT + 1), Dbl(idx1), Leaf(idx1, idx2)};
              && (r.Some? <==> old(CanFill(View(), Room(), ino, path)))
              && (r.Some? ==> Valid() && Filled(old(View()), old(Room()), View(), Room(), ino, path))
      ensures r.Some? ==> r.value == Ptr(View(), ino, Leaf(idx1, idx2)) && NMETA <= r.value < FSSIZE
    {
      hide InUse, NoSharing, NoLeak, SameBytes, Filled, CanFill, Missing, Only, Spent;
      ghost var fs0, a0 := View(), Room();
      ghost var one, two, three := {Addr(NDIRECT + 1)}, {Dbl(idx1)}, {Leaf(idx1, idx2)};
      assert one + two + three == {Addr(NDIRECT + 1), Dbl(idx1), Leaf(idx1, idx2)};
      var t := AddrSlot(ino, NDIRECT + 1);
      if t.None? {
        CannotMore(fs0, a0, ino, one, one + two + three);
        return None;
      }
      ghost var fs1, a1 := View(), Room();
      CanTwiceFilled(fs0, a0, fs1, a1, ino, one, two);
      var u := TableSlot(t.value, idx1, ino, Dbl(idx1));
      if u.None? {
        CannotMore(fs0, a0, ino, one + two, one + two + three);
        return None;
      }
      ghost var fs2, a2 := View(), Room();
      FilledTwice(fs0, a0, fs1, a1, fs2, a2, ino, one, two);
      CanTwiceFilled(fs0, a0, fs2, a2, ino, one + two, three);
      r := TableSlot(u.value, idx2, ino, Leaf(idx1, idx2));
      if r.Some? { FilledTwice(fs0, a0, fs2, a2, View(), Room(), ino, one + two, three); }
    }

    /** One round of the loop of iappend: its block, read, patched and written back. */
    method AppendPiece(ino: nat, at: nat, piece: seq<byte>) returns (ok: bool, ghost found: Fs)
      requires Valid() && 1 <= ino < freeinode && WithinBlock(at, |piece|)
      modifies this`blocks, this`inodes, this`freeblock
      ensures ok <==> old(CanFill(View(), Room(), ino, Path(BlockOf(at))))
      ensures ok ==> Valid() && PieceDone(old(View()), old(Room()), found, Room(), View(), {}, {}, ino, at, piece)
    {
      hide InUse, NoSharing, NoLeak, Ptr, Filled, CanFill, Path, Overwrote, TableBlocks, Prefix;
      found := View();
      var x := BlockFor(ino, at / BSIZE);
      if x.None? { return false, found; }
      found := View();
      OverwroteStored(found, ino, at, piece);
      blocks := blocks[x.value := Patched(blocks[x.value], at % BSIZE, piece)];
      assert View() == Stored(found, x.value, Patched(found.blocks[x.value], at % BSIZE, piece));
      OverwroteOwn(found, View(), ino, at, piece);
      return true, found;
    }

    /** iappend: the bytes go to the end of the file, and no other file changes. It fails exactly when the file
      would be too large or the blocks do not last. */
    method Iappend(ino: nat, data: seq<byte>) returns (ok: bool)
      requires Valid() && 1 <= ino < freeinode
      modifies this`blocks, this`inodes, this`freeblock
      ensures ok <==> old(inodes[ino].size) + |data| <= MAXFILE * BSIZE
                      && old(CanFill(View(), Room(), ino, Slots(inodes[ino].size, |data|)))
      ensures ok ==> Valid() && Written(old(View()), old(Room()), View(), Room(), ino, old(inodes[ino].size), data)
      ensures ok ==> Contents(View(), ino) == old(Contents(View(), ino)) + data
      ensures ok ==> forall i: nat | i < NINODES && i != ino :: Contents(View(), i) == old(Contents(View(), i))
      ensures ok && old(AllTight(View())) ==> AllTight(View())
    {
      hide InUse, NoSharing, NoLeak, Ptr, ByteAt, Writing, CanFill, Slots, Spent, Dense, Written, Spliced, Contents;
      hide NextBlock;
      ghost var fs0, a0 := View(), Room();
      var off := inodes[ino].size;
      ok := AppendBlocks(ino, off, data);
      if !ok { return; }
      ghost var fs1 := View();
      WriteEnds(fs0, a0, fs1, Room(), {}, {}, ino, off, data);
      inodes := inodes[ino := inodes[ino].(size := off + |data|)];
      AppendedIs(fs0, a0, View(), Room(), ino, data);
    }

    /** The loop of iappend. */
    method AppendBlocks(ino: nat, off: nat, data: seq<byte>) returns (ok: bool)
      requires Valid() && 1 <= ino < freeinode && off <= MAXFILE * BSIZE
      modifies this`blocks, this`inodes, this`freeblock
      ensures ok <==> off + |data| <= MAXFILE * BSIZE && old(CanFill(View(), Room(), ino, Slots(off, |data|)))
      ensures ok ==> Valid() && Writing(old(View()), old(Room()), View(), Room(), {}, {}, ino, off, data, |data|)
    {
      hide Valid, Room, Own, WellFormed, Writing, CanFill, Slots, NextBlock, Min;
      ghost var fs0, a0 := View(), Room();
      ghost var limit := Min(|data|, MAXFILE * BSIZE - off);
      LimitIs(off, |data|, limit);
      ValidOwns();
      WriteStarts(fs0, a0, {}, ino, off, data[..limit]);
      var n := 0;
      while n < |data|
        invariant n <= limit && Valid() && ino < freeinode
        invariant Writing(fs0, a0, View(), Room(), {}, {}, ino, off, data[..limit], n)
      {
        AppendBound(off, |data|, limit, n);
        if (off + n) / BSIZE >= MAXFILE { return false; }
        var n1 := Min(|data| - n, ((off + n) / BSIZE + 1) * BSIZE - (off + n));
        assert data[n..n + n1] == data[..limit][n..n + n1];
        ok := AppendMore(ino, data[n..n + n1], data[..limit], off, n, fs0, a0);
        if !ok { return false; }
        n := n + n1;
      }
      assert data[..limit] == data;
      AppendCan(fs0, a0, View(), Room(), ino, off, data);
      return true;
    }

    method AppendMore(ino: nat, piece: seq<byte>, ghost src: seq<byte>, off: nat, tot: nat, ghost fs0: Fs,
                      ghost a0: nat)
      returns (ok: bool)
      requires Valid() && 1 <= ino < freeinode && tot < |src|
      requires Writing(fs0, a0, View(), Room(), {}, {}, ino, off, src, tot)
      requires |piece| == Piece(off + tot, |src| - tot) && tot + |piece| <= |src| && piece == src[tot..tot + |piece|]
      modifies this`blocks, this`inodes, this`freeblock
      ensures ok ==> Valid() && Writing(fs0, a0, View(), Room(), {}, {}, ino, off, src, tot + |piece|)
      ensures !ok ==> !CanFill(fs0, a0, ino, Slots(off, |src|))
    {
      hide Own, Ptr, CanFill, Path, PathTo, ByteAt, NextBlock, PieceDone, Piece, BlockOf, WithinBlock, Valid, Room;
      ghost var fs1, a1 := View(), Room();
      WriteNext(fs0, a0, fs1, a1, {}, {}, ino, off, src, tot);
      SlotsOf(fs0, a0, fs1, a1, ino, off, src, tot);
      ghost var fs2;
      ok, fs2 := AppendPiece(ino, off + tot, piece);
      if !ok { return; }
      assert BlockOf(off + tot) < MAXFILE by { WithinIs(off + tot, |piece|); }
      WriteStep(fs0, a0, fs1, a1, fs2, Room(), View(), {}, {}, {}, ino, off, src, tot, |piece|);
    }

    /** ialloc: the next inode, empty. Past the last one main would write outside the inode table; the model
      stops there. */
    method Ialloc() returns (ino: nat, ok: bool)
      requires Valid()
      modifies this`inodes, this`freeinode
      ensures Valid() && View() == old(View()) && ok == (old(freeinode) < NINODES)
      ensures ok ==> ino == old(freeinode) && freeinode == ino + 1 && Contents(View(), ino) == []
      ensures ok ==> inodes[ino] == EmptyInode()
      ensures !ok ==> freeinode == old(freeinode)
    {
      ok, ino := freeinode < NINODES, freeinode;
      if !ok { return; }
      freeinode := freeinode + 1;
      inodes := inodes[ino := EmptyInode()];
      assert inodes == old(inodes);
    }

    /** The last two steps of main: round the root directory up to whole blocks and write the bitmap
      (kernel/mkfs.c:187-194, 260-271), or fail the assertion that its one block is enough. The bitmap is exactly
      the one the ownership invariant is about. The rounding adds a block even to a root that ends on a block
      boundary, and then leaves a hole there. */
    method Finish() returns (r: Option<seq<bool>>)
      requires Valid() && ROOTINO < freeinode && inodes[ROOTINO].size + BSIZE <= MAXFILE * BSIZE
      modifies this`inodes
      ensures r.Some? <==> freeblock < BPB
      ensures Valid() && View() == Resized(old(View()), ROOTINO, (old(inodes[ROOTINO].size) / BSIZE + 1) * BSIZE)
      ensures r.Some? ==> Own(Fs(r.value, blocks, inodes)) && TailClear(r.value)
                          && Fs(r.value, blocks, inodes) == View()
      ensures var root := old(Contents(View(), ROOTINO));
              && |Contents(View(), ROOTINO)| == (|root| / BSIZE + 1) * BSIZE
              && root <= Contents(View(), ROOTINO)
      ensures forall i: nat | i < NINODES && i != ROOTINO :: Contents(View(), i) == old(Contents(View(), i))
      ensures old(AllTight(View())) ==>
                && (Dense(View(), ROOTINO) <==> old(inodes[ROOTINO].size) % BSIZE != 0)
                && forall i: nat | i < NINODES && i != ROOTINO :: Dense(View(), i)
    {
      hide InUse, NoSharing, NoLeak, ByteAt, Ptr, Dense;
      ghost var fs0 := View();
      var off := inodes[ROOTINO].size;
      off := (off / BSIZE + 1) * BSIZE;
      ResizedKeeps(fs0, ROOTINO, off);
      RoundedDense(fs0, ROOTINO);
      inodes := inodes[ROOTINO := inodes[ROOTINO].(size := off)];
      assert View() == Resized(fs0, ROOTINO, off);
      assert SameBytes(fs0, View());
      forall i: nat | i < NINODES && i != ROOTINO ensures Contents(View(), i) == Contents(fs0, i) {
        assert |Contents(View(), i)| == |Contents(fs0, i)|;
      }
      if freeblock >= BPB { return None; }
      var bits := seq(NBITMAP * BPB, _ => false);
      var i := 0;
      while i < freeblock
        invariant i <= freeblock < BPB && bits == Prefix(i)
      {
        bits := bits[i := true];
        i := i + 1;
      }
      return Some(bits);
    }
  }

  lemma MarkedOnly(fs: Fs, ino: nat, s: Slot, n: nat)
    requires Own(fs) && fs.bits == Prefix(n) && ino < NINODES && ValidSlot(s)
    ensures Ptr(fs, ino, s) != 0 ==> Ptr(fs, ino, s) < n
  {
    assert SlotOk(fs, ino, s);
  }

  lemma {:induction false} NoPtr(fs: Fs, ino: nat, s: Slot)
    requires WellFormed(fs) && ino < NINODES && fs.inodes[ino] == EmptyInode() && ValidSlot(s)
    ensures Ptr(fs, ino, s) == 0
    decreases if s.Addr? then 0 else if s.Leaf? then 2 else 1
  {
    if !s.Addr? { NoPtr(fs, ino, Parent(s)); }
  }

  lemma FreshOwn(fs: Fs)
    requires WellFormed(fs) && fs.bits == Prefix(NMETA)
    requires forall i :: 0 <= i < NINODES ==> fs.inodes[i] == EmptyInode()
    ensures Own(fs) && AllTight(fs)
  {
    forall ino: nat, s | ino < NINODES && ValidSlot(s) ensures Ptr(fs, ino, s) == 0 { NoPtr(fs, ino, s); }
  }

  lemma LimitIs(off: nat, n: nat, limit: nat)
    requires off <= MAXFILE * BSIZE && limit == Min(n, MAXFILE * BSIZE - off)
    ensures limit <= n && off + limit <= MAXFILE * BSIZE && (off + n <= MAXFILE * BSIZE ==> limit == n)
    ensures off + n > MAXFILE * BSIZE ==> limit < n
  {
  }

  /** The loop's test and its choice of n1, against a write of what fits. */
  lemma AppendBound(off: nat, n: nat, limit: nat, tot: nat)
    requires off <= MAXFILE * BSIZE && limit == Min(n, MAXFILE * BSIZE - off) && tot <= limit && tot < n
    ensures (off + tot) / BSIZE >= MAXFILE ==> off + n > MAXFILE * BSIZE
    ensures (off + tot) / BSIZE < MAXFILE ==>
              && tot < limit
                 && Min(n - tot, ((off + tot) / BSIZE + 1) * BSIZE - (off + tot)) == Piece(off + tot, limit - tot)
              && 0 < Piece(off + tot, limit - tot) <= limit - tot
  {
  }

  lemma SlotsOf(fs0: Fs, a0: nat, r: Fs, a: nat, ino: nat, off: nat, src: seq<byte>, tot: nat)
    requires Writing(fs0, a0, r, a, {}, {}, ino, off, src, tot)
    ensures NextBlock(off, |src|) <= MAXFILE && Slots(off, |src|) == PathTo(off / BSIZE, NextBlock(off, |src|))
  {
    SlotsIs(off, |src|);
  }

  lemma AppendCan(fs0: Fs, a0: nat, r: Fs, a: nat, ino: nat, off: nat, data: seq<byte>)
    requires Writing(fs0, a0, r, a, {}, {}, ino, off, data, |data|)
    ensures CanFill(fs0, a0, ino, Slots(off, |data|)) && off + |data| <= MAXFILE * BSIZE
  {
    SlotsOf(fs0, a0, r, a, ino, off, data, |data|);
    WriteCan(fs0, a0, r, a, {}, {}, ino, off, data);
  }

  lemma AppendedIs(fs0: Fs, a0: nat, t: Fs, a: nat, ino: nat, data: seq<byte>)
    requires WellFormed(fs0) && ino < NINODES && fs0.inodes[ino].size <= MAXFILE * BSIZE
    requires Written(fs0, a0, t, a, ino, fs0.inodes[ino].size, data)
    ensures Own(t) && (forall i :: 0 <= i < NINODES ==> t.inodes[i].size <= MAXFILE * BSIZE)
    ensures Contents(t, ino) == Contents(fs0, ino) + data
    ensures forall i: nat | i < NINODES && i != ino ::
              Contents(t, i) == Contents(fs0, i) && t.inodes[i] == fs0.inodes[i]
    ensures AllTight(fs0) ==> AllTight(t)
  {
    hide Ptr, Contents, Tight;
    SplicedAtEnd(Contents(fs0, ino), data);
    if AllTight(fs0) {
      forall i: nat | i < NINODES ensures Tight(t, i) { TightAppend(fs0, a0, t, a, ino, data, i); }
    }
  }

  lemma SplicedAtEnd(s: seq<byte>, data: seq<byte>)
    ensures Spliced(s, |s|, data) == s + data
  {
  }

  // ---------------------------------------------------------------- no hole, and nothing beyond the end

  /** The blocks a file has are exactly those below its size. */
  ghost predicate Tight(fs: Fs, ino: nat)
    requires WellFormed(fs) && ino < NINODES
  {
    forall bn: nat | bn < MAXFILE :: Ptr(fs, ino, DataSlot(bn)) != 0 <==> bn * BSIZE < fs.inodes[ino].size
  }

  ghost predicate AllTight(fs: Fs)
    requires WellFormed(fs)
  {
    forall i: nat | i < NINODES :: Tight(fs, i)
  }

  lemma {:induction false} DataSlotIn(first: nat, next: nat, bn: nat)
    requires next <= MAXFILE && bn < MAXFILE && DataSlot(bn) in PathTo(first, next)
    ensures first <= bn < next
    decreases next
  {
    if DataSlot(bn) in Path(next - 1) {
      DataSlotInjective(bn, if DataSlot(bn) == DataSlot(next - 1) then next - 1 else bn);
    } else {
      DataSlotIn(first, next - 1, bn);
    }
  }

  lemma TightAppend(fs0: Fs, a0: nat, t: Fs, a: nat, ino: nat, data: seq<byte>, i: nat)
    requires WellFormed(fs0) && ino < NINODES && i < NINODES && fs0.inodes[ino].size <= MAXFILE * BSIZE
    requires Written(fs0, a0, t, a, ino, fs0.inodes[ino].size, data) && Tight(fs0, i)
    ensures Tight(t, i)
  {
    hide Ptr, Contents, Spliced, PathTo;
    var off, n := fs0.inodes[ino].size, |data|;
    LastBlock(off, n);
    assert Dense(fs0, i);
    forall bn: nat | bn < MAXFILE && Ptr(t, i, DataSlot(bn)) != 0 ensures bn * BSIZE < t.inodes[i].size {
      if Ptr(fs0, i, DataSlot(bn)) == 0 {
        assert i == ino && DataSlot(bn) in Slots(off, n);
        DataSlotIn(off / BSIZE, NextBlock(off, n), bn);
      }
    }
  }

  /** Rounding the size up to the next block. */
  lemma RoundedDense(fs: Fs, ino: nat)
    requires WellFormed(fs) && ino < NINODES && fs.inodes[ino].size + BSIZE <= MAXFILE * BSIZE
    ensures var t := Resized(fs, ino, (fs.inodes[ino].size / BSIZE + 1) * BSIZE);
            AllTight(fs) ==> (Dense(t, ino) <==> fs.inodes[ino].size % BSIZE != 0)
                             && forall i: nat | i < NINODES && i != ino :: Dense(t, i)
  {
    var size := (fs.inodes[ino].size / BSIZE + 1) * BSIZE;
    var t := Resized(fs, ino, size);
    forall i: nat, s | i < NINODES && ValidSlot(s) ensures Ptr(t, i, s) == Ptr(fs, i, s) {
      ResizedPtr(fs, t, ino, size, i, s);
    }
    hide Ptr;
    if AllTight(fs) {
      assert Tight(fs, ino);
      var last := fs.inodes[ino].size / BSIZE;
      assert last < MAXFILE && last * BSIZE < size;
      assert Ptr(fs, ino, DataSlot(last)) != 0 <==> fs.inodes[ino].size % BSIZE != 0;
      forall bn: nat | bn < MAXFILE && bn * BSIZE < size ensures bn <= last {}
      forall i: nat | i < NINODES && i != ino ensures Dense(t, i) { assert Tight(fs, i); }
    }
  }

  // ---------------------------------------------------------------- an image with a hole

  /** The image of main with k entries in the root, all in its one block. */
  ghost predicate Entries(image: Image, k: nat)
    reads image
  {
    && image.Valid() && AllTight(image.View()) && ROOTINO < image.freeinode
    && image.inodes[ROOTINO].size == DIRENT * k
    && image.freeblock == if k == 0 then NMETA else NMETA + 1
  }

  lemma EntrySlot(fs: Fs, room: nat, k: nat)
    requires WellFormed(fs) && k < 128 && room > 0
    ensures Slots(DIRENT * k, DIRENT) == {Addr(0)} && CanFill(fs, room, ROOTINO, {Addr(0)})
    ensures |Missing(fs, ROOTINO, {Addr(0)})| == if fs.inodes[ROOTINO].addrs[0] == 0 then 1 else 0
    ensures Tight(fs, ROOTINO) ==> (fs.inodes[ROOTINO].addrs[0] == 0 <==> fs.inodes[ROOTINO].size == 0)
  {
    assert PathTo(0, 0) == {} && PathTo(0, 1) == PathTo(0, 0) + Path(0) == {Addr(0)};
    assert NextBlock(DIRENT * k, DIRENT) == 1;
    assert Missing(fs, ROOTINO, {Addr(0)}) == if fs.inodes[ROOTINO].addrs[0] == 0 then {Addr(0)} else {};
    assert Tight(fs, ROOTINO) ==> (Ptr(fs, ROOTINO, DataSlot(0)) != 0 <==> 0 < fs.inodes[ROOTINO].size);
  }

  /** iappend of one entry to the root: it is the last of the root's list, and no other file changes. */
  method AppendEntry(image: Image, k: nat, inum: nat, name: Bytes)
    requires Entries(image, k) && k < 128 && IsName(name) && 0 < inum < NINODES
    modifies image`blocks, image`inodes, image`freeblock
    ensures Entries(image, k + 1) && image.freeinode == old(image.freeinode)
    ensures RootList(image) == old(RootList(image)) + [L.Dirent(inum, E.Text(name))]
  {
    hide Ptr, Own, Slots, CanFill, Missing, Tight, Contents, DirentOf;
    image.ValidOwns();
    EntrySlot(image.View(), image.Room(), k);
    assert Tight(image.View(), ROOTINO);
    RootSize(image.View());
    E.AppendedViews(Contents(image.View(), ROOTINO), name, inum);
    var ok := image.Iappend(ROOTINO, DirentOf(inum, name));
  }

  lemma RootSize(fs: Fs)
    requires WellFormed(fs) && fs.inodes[ROOTINO].size <= MAXFILE * BSIZE
    ensures |Contents(fs, ROOTINO)| == fs.inodes[ROOTINO].size
  {
  }

  /** The entries of the root. */
  ghost function RootList(image: Image): seq<L.Dirent>
    requires image.Valid()
    reads image
  {
    image.ValidOwns();
    E.Entries(Contents(image.View(), ROOTINO))
  }

  /** The first steps of main: a directory with "." and "..", both the root (kernel/mkfs.c:120-131). */
  method NewRoot() returns (image: Image)
    ensures fresh(image) && Entries(image, 2) && image.freeinode == 2
    ensures RootList(image) == [L.Dirent(ROOTINO, "."), L.Dirent(ROOTINO, "..")]
  {
    hide Ptr, Own, Contents;
    image := new Image();
    var root, ok := image.Ialloc();
    assert RootList(image) == [];
    AppendEntry(image, 0, root, DOT);
    AppendEntry(image, 1, root, DOTDOT);
    assert E.Text(DOT) == "." && E.Text(DOTDOT) == "..";
  }

  /** main on 126 empty files, up to its last two steps: the root has 128 entries, and the i-th file is inode
    i + 2 under its name. */
  method FullRoot(names: seq<Bytes>) returns (image: Image)
    requires |names| == 126 && forall i :: 0 <= i < |names| ==> IsName(names[i])
    ensures fresh(image) && Entries(image, 128)
    ensures RootList(image) == [L.Dirent(ROOTINO, "."), L.Dirent(ROOTINO, "..")]
                                      + seq(126, i requires 0 <= i < 126 => L.Dirent(i + 2, E.Text(names[i])))
  {
    hide Ptr, Own, Contents, DirentOf;
    image := NewRoot();
    ghost var files := seq(126, i requires 0 <= i < 126 => L.Dirent(i + 2, E.Text(names[i])));
    var i := 2;
    while i < 128
      invariant 2 <= i <= 128 && Entries(image, i) && image.freeinode == i && fresh(image)
      invariant RootList(image) == [L.Dirent(ROOTINO, "."), L.Dirent(ROOTINO, "..")] + files[..i - 2]
    {
      var inum, ok := image.Ialloc();
      AppendEntry(image, i, inum, names[i - 2]);
      assert files[..i - 1] == files[..i - 2] + [files[i - 2]];
      i := i + 1;
    }
    assert files[..126] == files;
  }

  /** Such a root ends on a block boundary, and the size mkfs writes is a block more. */
  method HoleImage(names: seq<Bytes>) returns (bits: seq<bool>, blocks: seq<Block>, inodes: seq<Inode>)
    requires |names| == 126 && forall i :: 0 <= i < |names| ==> IsName(names[i])
    ensures var fs := Fs(bits, blocks, inodes);
            && Own(fs) && TailClear(bits) && !bits[BPB - 1] && inodes[ROOTINO].size == 2 * BSIZE
            && (forall i :: 0 <= i < NINODES ==> inodes[i].size <= MAXFILE * BSIZE)
            && DataBlock(fs, ROOTINO, 0) != 0 && DataBlock(fs, ROOTINO, 1) == 0 && !Dense(fs, ROOTINO)
  {
    hide Ptr, Own;
    var image := FullRoot(names);
    image.ValidOwns();
    assert Tight(image.View(), ROOTINO);
    ghost var fs1 := image.View();
    var r := image.Finish();
    bits, blocks, inodes := r.value, image.blocks, image.inodes;
    ghost var fs := Fs(bits, blocks, inodes);
    ResizedPtr(fs1, fs, ROOTINO, 2 * BSIZE, ROOTINO, DataSlot(0));
    ResizedPtr(fs1, fs, ROOTINO, 2 * BSIZE, ROOTINO, DataSlot(1));
  }
}
