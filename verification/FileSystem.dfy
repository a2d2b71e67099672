/** The block layer of kernel/fs.c: balloc, bfree, bmap, itrunc, readi, writei, and fileread and filewrite of
  kernel/file.c. A result `None` stands for a kernel panic. */
module FileSystem {
  import opened Wrappers
  import opened Layout
  import opened Paths
  import opened FileBytes

  /** An open file on an inode: struct file of include/file.h. */
  class File {
    const ino: nat
    const readable: bool
    const writable: bool
    var off: uint32

    constructor (ino: nat, readable: bool, writable: bool)
      ensures this.ino == ino && this.readable == readable && this.writable == writable && off == 0
    {
      this.ino := ino;
      this.readable := readable;
      this.writable := writable;
      off := 0;
    }
  }

  class FileSystem {
    var bits: seq<bool>         // the bitmap blocks, a bool per bit
    var blocks: seq<Block>      // the disk blocks, as bread sees them
    var inodes: seq<Inode>      // the in-memory inodes
    var dinodes: seq<Inode>     // the inodes as their blocks hold them
    var hint: uint32            // last_alloc_hint
    var outstanding: nat        // log.outstanding: without a call, log_write panics
    ghost var logged: set<nat>  // blocks given to log_write since begin_op
    ghost var begun: Fs         // what was on disk then
    ghost var txns: seq<Txn>    // the transactions so far

    function View(): Fs
      reads this
    {
      Fs(bits, blocks, inodes)
    }

    ghost predicate Valid()
      reads this
    {
      && Own(View()) && TailClear(bits) && hint < NBLOCKS
      && (forall i :: 0 <= i < NINODES ==> inodes[i].size <= MAXFILE * BSIZE)
      && Behind(dinodes, inodes)
      && Covered(begun, DiskView(), logged)
    }

    /** How many blocks balloc can still hand out. */
    ghost function Room(): nat
      reads this
    {
      if outstanding == 0 then 0 else |Free(bits, hint)|
    }

    lemma ValidOwns()
      requires Valid()
      ensures Own(View()) && WellFormed(View()) && forall i :: 0 <= i < NINODES ==> inodes[i].size <= MAXFILE * BSIZE
      ensures |dinodes| == NINODES
    {
    }

    /** What the next boot would find, were everything logged so far on disk. */
    function DiskView(): Fs
      reads this
    {
      Fs(bits, blocks, dinodes)
    }

    /** It satisfies ownership exactly if every inode agrees with its copy. */
    lemma DiskOwn()
      requires Valid()
      ensures Own(DiskView()) <==> dinodes == inodes
    {
      hide Own, Behind;
      BehindOwn(View(), dinodes);
      assert View().(inodes := dinodes) == DiskView();
    }

    /** The same from inside a transaction. */
    ghost function RoomIn(): nat
      reads this
    {
      |Free(bits, hint)|
    }

    /** The kernel starts on an image such as mkfs leaves. */
    constructor (bits: seq<bool>, blocks: seq<Block>, inodes: seq<Inode>)
      requires Own(Fs(bits, blocks, inodes)) && TailClear(bits)
      requires forall i :: 0 <= i < NINODES ==> inodes[i].size <= MAXFILE * BSIZE
      ensures Valid() && View() == Fs(bits, blocks, inodes) && dinodes == inodes
      ensures hint == 0 && outstanding == 0 && logged == {} && txns == [] && begun == DiskView()
    {
      this.bits, this.blocks, this.inodes, dinodes := bits, blocks, inodes, inodes;
      hint, outstanding, logged, txns, begun := 0, 0, {}, [], Fs(bits, blocks, inodes);
      new;
      CoveredStart(begun);
    }

    /** The scan of one bitmap block, 32 bits at a time, skipping words with no free bit. */
    method ScanBlock(k: nat) returns (found: Option<nat>)
      requires WellFormed(View()) && k < NBITMAP
      ensures match found
              case Some(b) => k * BPB <= b < (k + 1) * BPB && !bits[b] && AllMarked(bits, k * BPB, b)
              case None => AllMarked(bits, k * BPB, (k + 1) * BPB)
    {
      var word := 0;
      while word < BSIZE / 4
        invariant word <= BSIZE / 4
        invariant forall c :: k * BPB <= c < k * BPB + 32 * word ==> bits[c]
      {
        var base := k * BPB + 32 * word;
        if !(forall c :: base <= c < base + 32 ==> bits[c]) {
          var bit := 0;
          while bit < 32
            invariant bit <= 32
            invariant forall c :: base <= c < base + bit ==> bits[c]
          {
            if !bits[base + bit] {
              return Some(base + bit);
            }
            bit := bit + 1;
          }
        }
        word := word + 1;
      }
      return None;
    }

    /** balloc: marks and zeroes the first free block in scan order. It panics exactly when there is no free
      bit, when the first one is past the last data block (then the buffer is used again after its
      release), or outside a transaction. While the bits past the data blocks are clear, that is to say:
      it returns exactly when some data block from the hint's bitmap block on is free. */
    method Balloc() returns (r: Option<uint32>)
      requires WellFormed(View()) && hint < NBLOCKS
      modifies this`bits, this`blocks, this`hint, this`logged
      ensures r.Some? <==> outstanding > 0 && exists b: nat :: b < NBLOCKS && IsFirstFree(old(bits), old(hint) / BPB, b)
      ensures TailClear(old(bits)) ==>
                (r.Some? <==> outstanding > 0 && exists b: nat :: old(hint) / BPB * BPB <= b < NBLOCKS && !old(bits)[b])
      ensures TailClear(old(bits)) ==> (r.Some? <==> old(Room()) > 0)
      ensures r.Some? ==>
                && r.value < NBLOCKS && IsFirstFree(old(bits), old(hint) / BPB, r.value)
                && View() == Marked(old(View()), r.value) && hint == r.value
                && logged == old(logged) + {BMAPSTART + r.value / BPB, r.value}
                && (TailClear(old(bits)) ==> TailClear(bits) && Room() == old(Room()) - 1)
      ensures r.None? ==> View() == old(View()) && hint == old(hint)
    {
      var start := hint / BPB;
      ghost var image := bits;
      FreeIsSome(image, hint);
      var pass := 0;
      while pass < 2
        invariant pass <= 2 && unchanged(this)
        invariant pass >= 1 ==> AllMarked(image, start * BPB, |image|)
        invariant pass == 2 ==> AllMarked(image, 0, start * BPB)
      {
        var k, end := if pass == 0 then start else 0, if pass == 0 then NBLOCKS / BPB + 1 else start;
        ghost var lo := k * BPB;
        while k < end
          invariant k <= end <= NBITMAP && lo <= k * BPB && unchanged(this)
          invariant AllMarked(image, lo, k * BPB)
        {
          var found := ScanBlock(k);
          if found.Some? {
            var b := found.value;
            assert IsFirstFree(image, start, b);
            ScanIs(image, hint, b);
            if b >= NBLOCKS || outstanding == 0 {
              return None;
            }
            bits := bits[b := true];
            blocks := blocks[b := ZeroBlock()];
            logged := logged + {BMAPSTART + k, b};
            hint := b;
            return Some(b);
          }
          k := k + 1;
        }
        pass := pass + 1;
      }
      NoneFree(image, start);
      return None;
    }

    /** The step bmap takes for a pointer in the inode: use it, or put a fresh block there. */
    method AddrSlot(ino: nat, i: nat) returns (r: Option<uint32>)
      requires Valid() && ino < NINODES && i < NDIRECT + 2
      modifies this`bits, this`blocks, this`inodes, this`hint, this`logged
      ensures r.Some? <==> old(CanFill(View(), Room(), ino, {Addr(i)}))
      ensures r.Some? ==> Valid() && Filled(old(View()), old(Room()), View(), Room(), ino, {Addr(i)})
      ensures r.Some? ==> r.value == Ptr(View(), ino, Addr(i)) && NMETA <= r.value < FSSIZE
      ensures r.Some? ==> logged <= old(logged) + BitmapBlocks() + {r.value}
      ensures old(Ptr(View(), ino, Addr(i))) != 0 ==> logged == old(logged)
    {
      hide InUse, NoSharing, NoLeak, SameBytes, Only, Missing, Free, Covered;
      var addr := inodes[ino].addrs[i];
      FilledOne(View(), Room(), ino, Addr(i));
      if addr == 0 {
        ghost var before, room := View(), Room();
        var found := Balloc();
        if found.None? { return None; }
        addr := found.value;
        CoveredAlloc(begun, old(DiskView()), old(logged), addr);
        LinkedOne(before, room, ino, Addr(i), addr);
        inodes := inodes[ino := inodes[ino].(addrs := inodes[ino].addrs[i := addr])];
        assert View() == Linked(before, ino, Addr(i), addr);
      }
      return Some(addr);
    }

    /** The step bmap takes for a pointer in a table block t. */
    method TableSlot(t: uint32, index: nat, ino: nat, ghost s: Slot) returns (r: Option<uint32>)
      requires Valid() && ino < NINODES && ValidSlot(s) && !s.Addr?
      requires ValidSlot(Parent(s)) && Ptr(View(), ino, Parent(s)) == t != 0 && index == Index(s)
      modifies this`bits, this`blocks, this`inodes, this`hint, this`logged
      ensures r.Some? <==> old(CanFill(View(), Room(), ino, {s}))
      ensures r.Some? ==> Valid() && Filled(old(View()), old(Room()), View(), Room(), ino, {s})
      ensures r.Some? ==> r.value == Ptr(View(), ino, s) && NMETA <= r.value < FSSIZE
      ensures r.Some? ==> logged <= old(logged) + BitmapBlocks() + {t, r.value}
      ensures old(Ptr(View(), ino, s)) != 0 ==> logged == old(logged)
    {
      hide InUse, NoSharing, NoLeak, SameBytes, Only, Missing, Free, Covered;
      TableInRange(View(), ino, Parent(s));
      var addr := Word(blocks[t], index);
      assert addr == Ptr(View(), ino, s);
      FilledOne(View(), Room(), ino, s);
      if addr == 0 {
        ghost var before, room := View(), Room();
        var found := Balloc();
        if found.None? { return None; }
        addr := found.value;
        CoveredAlloc(begun, old(DiskView()), old(logged), addr);
        CoveredStore(begun, DiskView(), logged, t, PutWord(blocks[t], index, addr));
        LinkedOne(before, room, ino, s, addr);
        blocks := blocks[t := PutWord(blocks[t], index, addr)];
        logged := logged + {t};
        assert View() == Linked(before, ino, s, addr);
      }
      return Some(addr);
    }

    /** bmap: the disk block of the bn-th block of a file, allocated with its tables if need be. It returns
      exactly when there are free blocks for the pointers that are missing. No file gets other bytes, only
      the missing pointers change, and only the path to that block is logged. */
    method Bmap(ino: nat, bn: nat) returns (r: Option<uint32>)
      requires Valid() && ino < NINODES
      modifies this`bits, this`blocks, this`inodes, this`hint, this`logged
      ensures r.Some? <==> bn < MAXFILE && old(CanFill(View(), Room(), ino, Path(bn)))
      ensures r.Some? ==> Valid() && Filled(old(View()), old(Room()), View(), Room(), ino, Path(bn))
      ensures r.Some? ==> r.value == DataBlock(View(), ino, bn) && NMETA <= r.value < FSSIZE
      ensures r.Some? ==> logged <= old(logged) + BitmapBlocks() + TableBlocks(View(), ino, bn) + {r.value}
      ensures bn < MAXFILE && old(DataBlock(View(), ino, bn)) != 0 ==>
                        r.Some? && logged == old(logged) && View() == old(View())
    {
      hide InUse, NoSharing, NoLeak, SameBytes, Filled, CanFill, Missing;
      if bn < MAXFILE {
        MappedPath(View(), Room(), ino, bn);
        PathUnmoved(View(), Room(), ino, bn);
      }
      if bn < NDIRECT {
        r := AddrSlot(ino, bn);
        return;
      }
      var n := bn - NDIRECT;
      if n < NINDIRECT {
        r := BmapSingle(ino, n);
        return;
      }
      n := n - NINDIRECT;
      if n < NDINDIRECT {
        r := BmapDouble(ino, n);
        return;
      }
      return None;
    }

    /** kernel/fs.c:386-400 */
    method BmapSingle(ino: nat, n: nat) returns (r: Option<uint32>)
      requires Valid() && ino < NINODES && n < NINDIRECT
      modifies this`bits, this`blocks, this`inodes, this`hint, this`logged
      ensures r.Some? <==> old(CanFill(View(), Room(), ino, {Addr(NDIRECT), Ind(n)}))
      ensures r.Some? ==> Valid() && Filled(old(View()), old(Room()), View(), Room(), ino, {Addr(NDIRECT), Ind(n)})
      ensures r.Some? ==> r.value == Ptr(View(), ino, Ind(n)) && NMETA <= r.value < FSSIZE
      ensures r.Some? ==> logged <= old(logged) + BitmapBlocks() + {Ptr(View(), ino, Addr(NDIRECT))} + {r.value}
      ensures old(Ptr(View(), ino, Ind(n))) != 0 ==> logged == old(logged)
    {
      hide InUse, NoSharing, NoLeak, SameBytes, Filled, CanFill, Missing, Only, Spent;
      ghost var fs0, a0 := View(), Room();
      ghost var one, two := {Addr(NDIRECT)}, {Ind(n)};
      assert one + two == {Addr(NDIRECT), Ind(n)};
      assert Ptr(fs0, ino, Ind(n)) != 0 ==> Ptr(fs0, ino, Addr(NDIRECT)) != 0;
      var t := AddrSlot(ino, NDIRECT);
      if t.None? {
        CannotMore(fs0, a0, ino, one, one + two);
        return None;
      }
      ghost var fs1, a1 := View(), Room();
      FilledSame(fs0, a0, fs1, a1, ino, one);
      CanTwiceFilled(fs0, a0, fs1, a1, ino, one, two);
      r := TableSlot(t.value, n, ino, Ind(n));
      if r.Some? {
        FilledTwice(fs0, a0, fs1, a1, View(), Room(), ino, one, two);
        FilledKeeps(fs1, a1, View(), Room(), ino, two, Addr(NDIRECT));
      }
    }

    /** kernel/fs.c:402-431 */
    method BmapDouble(ino: nat, n: nat) returns (r: Option<uint32>)
      requires Valid() && ino < NINODES && n < NDINDIRECT
      modifies this`bits, this`blocks, this`inodes, this`hint, this`logged
      ensures var j, k := n / NINDIRECT, n % NINDIRECT;
              var path := {Addr(NDIRECT + 1), Dbl(j), Leaf(j, k)};
              && (r.Some? <==> old(CanFill(View(), Room(), ino, path)))
              && (r.Some? ==> Valid() && Filled(old(View()), old(Room()), View(), Room(), ino, path))
              && (r.Some? ==> r.value == Ptr(View(), ino, Leaf(j, k)) && NMETA <= r.value < FSSIZE)
              && (r.Some? ==> logged <= old(logged) + BitmapBlocks()
                                        + {Ptr(View(), ino, Addr(NDIRECT + 1)), Ptr(View(), ino, Dbl(j))} + {r.value})
              && (old(Ptr(View(), ino, Leaf(j, k))) != 0 ==> logged == old(logged))
    {
      hide InUse, NoSharing, NoLeak, SameBytes, Filled, CanFill, Missing, Only, Spent;
      var j, k := n / NINDIRECT, n % NINDIRECT;
      ghost var fs0, a0 := View(), Room();
      ghost var one, two, three := {Addr(NDIRECT + 1)}, {Dbl(j)}, {Leaf(j, k)};
      assert one + two + three == {Addr(NDIRECT + 1), Dbl(j), Leaf(j, k)};
      assert Ptr(fs0, ino, Leaf(j, k)) != 0 ==> Ptr(fs0, ino, Dbl(j)) != 0;
      assert Ptr(fs0, ino, Dbl(j)) != 0 ==> Ptr(fs0, ino, Addr(NDIRECT + 1)) != 0;
      var t := AddrSlot(ino, NDIRECT + 1);
      if t.None? {
        CannotMore(fs0, a0, ino, one, one + two + three);
        return None;
      }
      ghost var fs1, a1 := View(), Room();
      FilledSame(fs0, a0, fs1, a1, ino, one);
      CanTwiceFilled(fs0, a0, fs1, a1, ino, one, two);
      var u := TableSlot(t.value, j, ino, Dbl(j));
      if u.None? {
        CannotMore(fs0, a0, ino, one + two, one + two + three);
        return None;
      }
      ghost var fs2, a2 := View(), Room();
      FilledTwice(fs0, a0, fs1, a1, fs2, a2, ino, one, two);
      FilledKeeps(fs1, a1, fs2, a2, ino, two, Addr(NDIRECT + 1));
      FilledSame(fs1, a1, fs2, a2, ino, two);
      CanTwiceFilled(fs0, a0, fs2, a2, ino, one + two, three);
      r := TableSlot(u.value, k, ino, Leaf(j, k));
      if r.Some? {
        FilledTwice(fs0, a0, fs2, a2, View(), Room(), ino, one + two, three);
        FilledKeeps(fs2, a2, View(), Room(), ino, three, Addr(NDIRECT + 1));
        FilledKeeps(fs2, a2, View(), Room(), ino, three, Dbl(j));
      }
    }

    /** One round of the loop of readi: bmap, bread, memmove. */
    method ReadPiece(ino: nat, at: nat, m: nat) returns (ok: bool, part: seq<byte>)
      requires Valid() && ino < NINODES && WithinBlock(at, m)
      modifies this`bits, this`blocks, this`inodes, this`hint, this`logged
      ensures ok <==> old(CanFill(View(), Room(), ino, Path(BlockOf(at))))
      ensures ok ==> Valid() && Filled(old(View()), old(Room()), View(), Room(), ino, Path(BlockOf(at))) && |part| == m
      ensures ok ==> PartIs(old(View()), ino, at, part)
      ensures old(DataBlock(View(), ino, BlockOf(at))) != 0 ==> ok && logged == old(logged) && View() == old(View())
    {
      hide InUse, NoSharing, NoLeak, Ptr, Grows, Only, Missing, CanFill, Path, Spent;
      ghost var fs0 := View();
      var a := Bmap(ino, at / BSIZE);
      if a.None? { return false, []; }
      part := blocks[a.value][at % BSIZE..at % BSIZE + m];
      forall k | 0 <= k < m ensures at + k < MAXFILE * BSIZE && part[k] == ByteAt(fs0, ino, at + k) {
        SameBlock(at, k);
        assert part[k] == ByteAt(View(), ino, at + k);
      }
      return true, part;
    }

    /** The loop of readi. */
    method ReadBlocks(ino: nat, off: nat, count: nat) returns (ok: bool, dst: seq<byte>)
      requires Valid() && ino < NINODES && off + count <= MAXFILE * BSIZE && NextBlock(off, count) <= MAXFILE
      modifies this`bits, this`blocks, this`inodes, this`hint, this`logged
      ensures ok <==> old(CanFill(View(), Room(), ino, PathTo(off / BSIZE, NextBlock(off, count))))
      ensures ok ==> Valid() && Reading(old(View()), old(Room()), View(), Room(), ino, off, count, count, dst)
      ensures old(Mapped(View(), ino, off / BSIZE, NextBlock(off, count))) ==> ok && logged == old(logged)
    {
      hide Own, Ptr, CanFill, Path, PathTo, ByteAt, Mapped, NextBlock, Reading, Filled, Piece, BlockOf;
      hide WithinBlock;
      hide PartIs, Valid, Room, WellFormed;
      ghost var fs0, a0 := View(), Room();
      ValidOwns();
      MappedCan(fs0, ino, off / BSIZE, NextBlock(off, count));
      ReadStarts(fs0, a0, ino, off, count);
      dst := [];
      var tot := 0;
      while tot < count
        invariant tot <= count && Valid() && Reading(fs0, a0, View(), Room(), ino, off, count, tot, dst)
        invariant Mapped(fs0, ino, off / BSIZE, NextBlock(off, count)) ==> logged == old(logged)
      {
        var at := off + tot;
        ghost var fs1, a1 := View(), Room();
        ReadNext(fs0, a0, fs1, a1, ino, off, count, tot, dst);
        var m := Piece(at, count - tot);
        var found, part := ReadPiece(ino, at, m);
        if !found { return false, []; }
        ReadStep(fs0, a0, fs1, a1, View(), Room(), ino, off, count, tot, dst, part);
        dst := dst + part;
        tot := tot + m;
      }
      ReadEnds(fs0, a0, View(), Room(), ino, off, count, dst);
      return true, dst;
    }

    /** readi, for files: the bytes of the file, clipped at its end; -1 and nothing else when the offset is
      past the end or off + n wraps. A block that is missing is allocated, so it returns exactly when
      there is room for those. It changes something exactly if a block is missing, and parts the inode from its
      copy on disk exactly if the pointer to one is missing in the inode; in a file without holes it changes
      nothing at all. */
    method Readi(ino: nat, off: uint32, n: uint32) returns (r: Option<int>, dst: seq<byte>)
      requires Valid() && ino < NINODES
      modifies this`bits, this`blocks, this`inodes, this`hint, this`logged
      ensures r == Some(-1) <==> off > old(inodes[ino].size) || off + n >= 0x1_0000_0000
      ensures r == Some(-1) ==> dst == [] && View() == old(View()) && logged == old(logged)
      ensures r != Some(-1) ==>
                (r.Some? <==> old(CanFill(View(), Room(), ino, ReadPath(inodes[ino].size, off, n))))
      ensures r.Some? ==> Valid() && SameBytes(old(View()), View()) && SameSizes(old(View()), View())
      ensures r.Some? && r != Some(-1) ==>
                && r.value == Clipped(old(inodes[ino].size), off, n)
                && dst == old(Contents(View(), ino))[off..off + r.value]
                && Spent(old(View()), old(Room()), View(), Room(), ino, ReadPath(old(inodes[ino].size), off, n))
      ensures r.Some? && r != Some(-1) ==> var path := ReadPath(old(inodes[ino].size), off, n);
                && (View() == old(View()) <==> old(Missing(View(), ino, path)) == {})
                && (old(Missing(View(), ino, path)) == {} ==> logged == old(logged))
                && (inodes[ino] == old(inodes[ino]) <==> old(AddrsThere(View(), ino, path)))
                && inodes == old(inodes)[ino := inodes[ino]]
      ensures old(Dense(View(), ino)) ==> r.Some? && View() == old(View()) && logged == old(logged)
    {
      hide InUse, NoSharing, NoLeak, Ptr, ByteAt, PathTo, Dense, Mapped, NextBlock, CanFill, Missing, Reading;
      hide Spent, AddrsThere;
      if off > inodes[ino].size || (off + n) % 0x1_0000_0000 < off {
        return Some(-1), [];
      }
      var count: nat := if off + n > inodes[ino].size then inodes[ino].size - off else n;
      LastBlock(off, count);
      DenseRead(View(), ino, off, count);
      ghost var fs0, a0 := View(), Room();
      var ok;
      ok, dst := ReadBlocks(ino, off, count);
      if !ok { return None, []; }
      ReadEnds(fs0, a0, View(), Room(), ino, off, count, dst);
      ReadChanges(fs0, a0, View(), Room(), ino, off, count, dst);
      return Some(count), dst;
    }

    /** One round of the loop of writei: bmap, memmove, log_write. */
    method WritePiece(ino: nat, at: nat, piece: seq<byte>) returns (ok: bool, ghost found: Fs)
      requires Valid() && ino < NINODES && WithinBlock(at, |piece|)
      modifies this`bits, this`blocks, this`inodes, this`hint, this`logged
      ensures ok <==> outstanding > 0 && old(CanFill(View(), Room(), ino, Path(BlockOf(at))))
      ensures ok ==> Valid()
      ensures ok ==> PieceDone(old(View()), old(Room()), found, Room(), View(), old(logged), logged, ino, at, piece)
    {
      hide InUse, NoSharing, NoLeak, Ptr, Filled, CanFill, Path, Overwrote, TableBlocks, Free;
      found := View();
      var a := Bmap(ino, at / BSIZE);
      if a.None? || outstanding == 0 { return false, found; }
      found := View();
      assert WellFormed(found)
             && SameSizes(old(View()), found) by { SizesOf(old(View()), old(Room()), found, Room(), ino,
                  Path(BlockOf(at))); }
      OverwroteStored(found, ino, at, piece);
      CoveredStore(begun, DiskView(), logged, a.value, Patched(blocks[a.value], at % BSIZE, piece));
      blocks := blocks[a.value := Patched(blocks[a.value], at % BSIZE, piece)];
      logged := logged + {a.value};
      assert View() == Stored(found, a.value, Patched(found.blocks[a.value], at % BSIZE, piece));
      OverwroteOwn(found, View(), ino, at, piece);
      return true, found;
    }

    /** What WritePiece makes of a write in progress. */
    method WriteMore(ino: nat, src: seq<byte>, off: nat, tot: nat, ghost fs0: Fs, ghost a0: nat, ghost log0: set<nat>)
      returns (ok: bool, m: nat)
      requires Valid() && tot < |src| && Writing(fs0, a0, View(), Room(), log0, logged, ino, off, src, tot)
      modifies this`bits, this`blocks, this`inodes, this`hint, this`logged
      ensures ok ==> outstanding > 0 && Valid() && 0 < m <= |src| - tot
      ensures ok ==> Writing(fs0, a0, View(), Room(), log0, logged, ino, off, src, tot + m)
      ensures !ok && outstanding > 0 ==> !CanFill(fs0, a0, ino, PathTo(off / BSIZE, NextBlock(off, |src|)))
    {
      hide Own, Ptr, CanFill, Path, PathTo, ByteAt, NextBlock, PieceDone, Piece, BlockOf, WithinBlock, Valid, Room;
      ghost var fs1, a1, log1 := View(), Room(), logged;
      WriteNext(fs0, a0, fs1, a1, log0, log1, ino, off, src, tot);
      m := Piece(off + tot, |src| - tot);
      ghost var fs2;
      ok, fs2 := WritePiece(ino, off + tot, src[tot..tot + m]);
      if !ok { return; }
      assert BlockOf(off + tot) < MAXFILE by { WithinIs(off + tot, m); }
      WriteStep(fs0, a0, fs1, a1, fs2, Room(), View(), log0, log1, logged, ino, off, src, tot, m);
    }

    /** The loop of writei. */
    method WriteBlocks(ino: nat, src: seq<byte>, off: nat) returns (ok: bool)
      requires Valid() && ino < NINODES && off + |src| <= MAXFILE * BSIZE && NextBlock(off, |src|) <= MAXFILE
      modifies this`bits, this`blocks, this`inodes, this`hint, this`logged
      ensures ok <==> src == [] || (outstanding > 0 &&
                        old(CanFill(View(), Room(), ino, PathTo(off / BSIZE, NextBlock(off, |src|)))))
      ensures ok ==> Valid()
                     && Writing(old(View()), old(Room()), View(), Room(), old(logged), logged, ino, off, src, |src|)
    {
      hide *;
      ghost var fs0, a0 := View(), Room();
      ValidOwns();
      WriteStarts(fs0, a0, logged, ino, off, src);
      var tot := 0;
      while tot < |src|
        invariant tot <= |src| && Valid() && (tot > 0 ==> outstanding > 0)
        invariant Writing(fs0, a0, View(), Room(), old(logged), logged, ino, off, src, tot)
      {
        var found, m := WriteMore(ino, src, off, tot, fs0, a0, old(logged));
        if !found { return false; }
        tot := tot + m;
      }
      WriteCan(fs0, a0, View(), Room(), old(logged), logged, ino, off, src);
      return true;
    }

    /** iupdate: the inode goes to its block. */
    method Iupdate(ino: nat)
      requires ino < NINODES && |inodes| == |dinodes| == NINODES
      modifies this`dinodes, this`logged
      ensures dinodes == old(dinodes)[ino := inodes[ino]] && logged == old(logged) + {InodeBlock(ino)}
    {
      dinodes := dinodes[ino := inodes[ino]];
      logged := logged + {InodeBlock(ino)};
    }

    /** ilock of an inode that had left the cache: it comes from its block. Ownership survives that exactly if
      the two agreed. */
    method Reload(ino: nat)
      requires Valid() && ino < NINODES
      modifies this`inodes
      ensures inodes == old(inodes)[ino := dinodes[ino]]
      ensures Valid() <==> old(inodes[ino]) == dinodes[ino]
      ensures Own(View()) <==> old(inodes[ino]) == dinodes[ino]
    {
      ghost var fs0, d := View(), inodes[ino := dinodes[ino]];
      BehindOwn(fs0, d);
      hide Own;
      inodes := inodes[ino := dinodes[ino]];
      assert View() == fs0.(inodes := d);
    }

    /** writei, for files: exactly the bytes [off, off + n) of this file become src[..n], the file
      grows if it must, and every other file keeps its bytes and size. It is refused exactly when the
      offset is past the end, off + n wraps, or the file would be too large, and then changes nothing;
      otherwise it returns exactly when it is in a transaction and the free blocks are enough. A file
      without holes stays so, and its inode goes to disk whenever it has changed. Only the blocks on the way
      to the bytes written, the two bitmap blocks and the inode block are logged. */
    method Writei(ino: nat, src: seq<byte>, off: uint32, n: uint32) returns (r: Option<int>)
      requires Valid() && ino < NINODES && n <= |src|
      modifies this`bits, this`blocks, this`inodes, this`dinodes, this`hint, this`logged
      ensures r == Some(-1) <==> Refused(old(inodes[ino].size), off, n)
      ensures r == Some(-1) ==>
                        View() == old(View()) && logged == old(logged) && dinodes == old(dinodes) && hint == old(hint)
      ensures r != Some(-1) ==>
                        (r.Some? <==> n == 0 || (outstanding > 0 && old(CanFill(View(), Room(), ino, Slots(off, n)))))
      ensures r.Some? ==> Valid()
      ensures r.Some? && r != Some(-1) ==>
                && r.value == n
                && Contents(View(), ino) == Spliced(old(Contents(View(), ino)), off, src[..n])
                && (forall i: nat | i < NINODES && i != ino :: Contents(View(), i) == old(Contents(View(), i)))
                && logged <= old(logged) + WriteSet(View(), ino, off, n)
                && Written(old(View()), old(Room()), View(), Room(), ino, off, src[..n])
      ensures r.Some? && old(Dense(View(), ino)) ==>
                && Dense(View(), ino)
                && (inodes[ino] != old(inodes[ino]) ==> dinodes[ino] == inodes[ino] && InodeBlock(ino) in logged)
      ensures r.Some? ==> dinodes == Copies(old(View()), View(), old(dinodes), ino)
      ensures r.Some? && r != Some(-1) && old(dinodes[ino] == inodes[ino]) ==>
                (dinodes[ino] == inodes[ino] <==>
                   inodes[ino].size != old(inodes[ino].size) || old(AddrsThere(View(), ino, Slots(off, n))))
      ensures r.Some? ==> forall i: nat | i < NINODES && i != ino ::
                dinodes[i] == old(dinodes[i]) && inodes[i] == old(inodes[i])
                  && (old(Dense(View(), i)) ==> Dense(View(), i))
    {
      if off > inodes[ino].size || (off + n) % 0x1_0000_0000 < off {
        return Some(-1);
      }
      if off + n > MAXFILE * BSIZE {
        return Some(-1);
      }
      r := WriteAccepted(ino, src[..n], off);
      if r.Some? {
        WrittenIs(old(View()), old(Room()), View(), Room(), ino, off, src[..n]);
        WrittenAgrees(old(View()), old(Room()), View(), Room(), ino, off, src[..n], old(dinodes));
      }
    }

    /** writei past its checks. */
    method WriteAccepted(ino: nat, src: seq<byte>, off: uint32) returns (r: Option<int>)
      requires Valid() && ino < NINODES && off <= inodes[ino].size && off + |src| <= MAXFILE * BSIZE
      modifies this`bits, this`blocks, this`inodes, this`dinodes, this`hint, this`logged
      ensures r.Some? <==> src == [] || (outstanding > 0 && old(CanFill(View(), Room(), ino, Slots(off, |src|))))
      ensures r.Some? ==> r.value == |src| && Valid()
      ensures r.Some? ==> Written(old(View()), old(Room()), View(), Room(), ino, off, src)
      ensures r.Some? ==> logged <= old(logged) + WriteSet(View(), ino, off, |src|)
      ensures r.Some? && inodes[ino].size != old(inodes[ino].size) ==> InodeBlock(ino) in logged
      ensures r.Some? ==> dinodes == Copies(old(View()), View(), old(dinodes), ino)
    {
      hide InUse, NoSharing, NoLeak, Ptr, ByteAt, Contents, Spliced, Writing, CanFill, PathTo, NextBlock, Spent;
      hide Dense, Touched, Written, Slots;
      ghost var fs0, a0, log0 := View(), Room(), logged;
      LastBlock(off, |src|);
      SlotsIs(off, |src|);
      var ok := WriteBlocks(ino, src, off);
      if !ok { return None; }
      ghost var fs3 := View();
      WriteEnds(fs0, a0, fs3, Room(), log0, logged, ino, off, src);
      WrittenOwn(fs0, a0, Resized(fs3, ino, SizeAfter(fs0.inodes[ino].size, off, |src|)), Room(), ino, off, src);
      if |src| > 0 && off + |src| > inodes[ino].size {
        inodes := inodes[ino := inodes[ino].(size := off + |src|)];
        CoveredInode(begun, DiskView(), logged, ino, inodes[ino]);
        Iupdate(ino);
      } else {
        ResizedSame(fs3, ino);
      }
      return Some(|src|);
    }

    /** bfree: clears one bit; it panics exactly when the block is out of range or already free, or outside a
      transaction. */
    method Bfree(b: uint32) returns (panic: bool)
      requires WellFormed(View())
      modifies this`bits, this`logged
      ensures panic <==> b >= NBLOCKS || !old(bits)[b] || outstanding == 0
      ensures panic ==> bits == old(bits)
      ensures !panic ==> bits == old(bits)[b := false] && logged == old(logged) + {BMAPSTART + b / BPB}
    {
      if b >= NBLOCKS {
        return true;
      }
      if !bits[b] {
        return true;
      }
      if outstanding == 0 {
        return true;
      }
      bits := bits[b := false];
      logged := logged + {BMAPSTART + b / BPB};
      return false;
    }

    /** itrunc frees the block of one slot if there is one. `done` are the slots dealt with so far. */
    method FreeSlot(addr: uint32, ghost fs0: Fs, ghost ino: nat, ghost s: Slot, ghost done: set<Slot>)
      requires WellFormed(View()) && Own(fs0) && ino < NINODES && ValidSlot(s)
      requires Freed(fs0, bits, ino, done) && s !in done && addr == Ptr(fs0, ino, s)
      requires outstanding > 0 && TailClear(fs0.bits) && Covered(begun, DiskView(), logged)
      modifies this`bits, this`logged
      ensures WellFormed(View()) && Freed(fs0, bits, ino, done + {s}) && Covered(begun, DiskView(), logged)
      ensures logged <= old(logged) + BitmapBlocks()
    {
      FreedNext(fs0, bits, ino, s, done);
      if addr != 0 {
        CoveredFree(begun, DiskView(), logged, addr);
        var panic := Bfree(addr);
        assert !panic;
      }
    }

    /** itrunc, inside a transaction: never panics in bfree, clears exactly the bits of the blocks the inode
      owned, and sends the empty inode to disk. */
    method Itrunc(ino: nat)
      requires Valid() && ino < NINODES && outstanding > 0
      modifies this`bits, this`inodes, this`dinodes, this`logged
      ensures Valid() && Truncated(old(View()), View(), ino) && dinodes == old(dinodes)[ino := inodes[ino]]
      ensures forall i: nat | i < NINODES :: i == ino || old(Dense(View(), i)) ==> Dense(View(), i)
      ensures logged <= old(logged) + BitmapBlocks() + {InodeBlock(ino)}
    {
      hide InUse, NoSharing, NoLeak, Covered;
      ghost var fs0 := View();
      ghost var done: set<Slot> := {};
      var i := 0;
      while i < NDIRECT
        invariant i <= NDIRECT && WellFormed(View()) && Freed(fs0, bits, ino, done) && dinodes == old(dinodes)
        invariant Covered(begun, DiskView(), logged)
        invariant logged <= old(logged) + BitmapBlocks()
        invariant inodes == fs0.inodes[ino := inodes[ino]] && inodes[ino].size == fs0.inodes[ino].size
        invariant forall k :: 0 <= k < NDIRECT + 2 ==>
                            inodes[ino].addrs[k] == if k < i then 0 else fs0.inodes[ino].addrs[k]
        invariant forall s :: s in done <==> s.Addr? && s.i < i
      {
        FreeSlot(inodes[ino].addrs[i], fs0, ino, Addr(i), done);
        done := done + {Addr(i)};
        inodes := inodes[ino := inodes[ino].(addrs := inodes[ino].addrs[i := 0])];
        i := i + 1;
      }
      done := TruncSingle(ino, fs0, done);
      done := TruncDouble(ino, fs0, done);
      inodes := inodes[ino := inodes[ino].(size := 0)];
      CoveredInode(begun, DiskView(), logged, ino, inodes[ino]);
      Iupdate(ino);
      assert inodes[ino].addrs == EmptyInode().addrs;
      AllFreed(fs0, View(), ino, done);
      TruncatedKeeps(fs0, View(), ino);
      TruncatedDense(fs0, View(), ino);
    }

    /** The single-indirect part of itrunc (kernel/fs.c:450-462). */
    method TruncSingle(ino: nat, ghost fs0: Fs, ghost before: set<Slot>) returns (ghost done: set<Slot>)
      requires WellFormed(View()) && Own(fs0) && ino < NINODES && blocks == fs0.blocks
      requires outstanding > 0 && TailClear(fs0.bits) && Covered(begun, DiskView(), logged)
      requires Freed(fs0, bits, ino, before) && forall s :: s in before <==> s.Addr? && s.i < NDIRECT
      requires inodes[ino].addrs[NDIRECT] == fs0.inodes[ino].addrs[NDIRECT]
      modifies this`bits, this`inodes, this`logged
      ensures WellFormed(View()) && Freed(fs0, bits, ino, done) && Covered(begun, DiskView(), logged)
      ensures logged <= old(logged) + BitmapBlocks()
      ensures inodes == old(inodes)[ino := old(inodes)[ino].(addrs := old(inodes)[ino].addrs[NDIRECT := 0])]
      ensures forall s :: s in done ==> ValidSlot(s) && (s.Ind? || (s.Addr? && s.i <= NDIRECT))
      ensures forall s | ValidSlot(s) && (s.Ind? || (s.Addr? && s.i <= NDIRECT)) :: s in done || Ptr(fs0, ino, s) == 0
    {
      hide InUse, NoSharing, NoLeak, Freed, Covered;
      done := before;
      var t := inodes[ino].addrs[NDIRECT];
      if t != 0 {
        assert SlotOk(fs0, ino, Addr(NDIRECT)) by { InUseAt(fs0, ino, Addr(NDIRECT)); }
        var j := 0;
        while j < NINDIRECT
          invariant j <= NINDIRECT && WellFormed(View()) && Freed(fs0, bits, ino, done)
          invariant Covered(begun, DiskView(), logged)
          invariant logged <= old(logged) + BitmapBlocks() && inodes == old(inodes)
          invariant forall s :: s in done <==> s in before || (s.Ind? && s.j < j)
        {
          assert Word(blocks[t], j) == Ptr(fs0, ino, Ind(j));
          FreeSlot(Word(blocks[t], j), fs0, ino, Ind(j), done);
          done := done + {Ind(j)};
          j := j + 1;
        }
        FreeSlot(t, fs0, ino, Addr(NDIRECT), done);
        done := done + {Addr(NDIRECT)};
        inodes := inodes[ino := inodes[ino].(addrs := inodes[ino].addrs[NDIRECT := 0])];
      } else {
        assert inodes[ino].addrs[NDIRECT := 0] == inodes[ino].addrs;
        assert inodes[ino := inodes[ino]] == inodes;
      }
    }

    /** The double-indirect part of itrunc (kernel/fs.c:464-484). */
    method TruncDouble(ino: nat, ghost fs0: Fs, ghost before: set<Slot>) returns (ghost done: set<Slot>)
      requires WellFormed(View()) && Own(fs0) && ino < NINODES && blocks == fs0.blocks
      requires outstanding > 0 && TailClear(fs0.bits) && Covered(begun, DiskView(), logged)
      requires Freed(fs0, bits, ino, before)
      requires forall s :: s in before ==> ValidSlot(s) && (s.Ind? || (s.Addr? && s.i <= NDIRECT))
      requires inodes[ino].addrs[NDIRECT + 1] == fs0.inodes[ino].addrs[NDIRECT + 1]
      modifies this`bits, this`inodes, this`logged
      ensures WellFormed(View()) && Freed(fs0, bits, ino, done) && Covered(begun, DiskView(), logged)
      ensures logged <= old(logged) + BitmapBlocks()
      ensures inodes == old(inodes)[ino := old(inodes)[ino].(addrs := old(inodes)[ino].addrs[NDIRECT + 1 := 0])]
      ensures before <= done && forall s :: s in done ==> ValidSlot(s)
      ensures forall s | ValidSlot(s) && (s.Dbl? || s.Leaf? || s == Addr(NDIRECT + 1)) ::
                s in done || Ptr(fs0, ino, s) == 0
    {
      hide InUse, NoSharing, NoLeak, Freed, Covered;
      done := before;
      var t := inodes[ino].addrs[NDIRECT + 1];
      if t != 0 {
        assert SlotOk(fs0, ino, Addr(NDIRECT + 1)) by { InUseAt(fs0, ino, Addr(NDIRECT + 1)); }
        var j := 0;
        while j < NINDIRECT
          invariant j <= NINDIRECT && WellFormed(View()) && Freed(fs0, bits, ino, done)
          invariant Covered(begun, DiskView(), logged)
          invariant logged <= old(logged) + BitmapBlocks() && inodes == old(inodes) && before <= done
          invariant forall s :: s in done ==> s in before || (ValidSlot(s) && (s.Dbl? || s.Leaf?) && s.j < j)
          invariant forall s | ValidSlot(s) && (s.Dbl? || s.Leaf?) && s.j < j :: s in done || Ptr(fs0, ino, s) == 0
        {
          var u := Word(blocks[t], j);
          assert u == Ptr(fs0, ino, Dbl(j));
          if u != 0 {
            done := TruncLeaves(ino, u, j, fs0, done);
            FreeSlot(u, fs0, ino, Dbl(j), done);
            done := done + {Dbl(j)};
          }
          j := j + 1;
        }
        FreeSlot(t, fs0, ino, Addr(NDIRECT + 1), done);
        done := done + {Addr(NDIRECT + 1)};
        inodes := inodes[ino := inodes[ino].(addrs := inodes[ino].addrs[NDIRECT + 1 := 0])];
      } else {
        assert forall j: nat | j < NINDIRECT :: Ptr(fs0, ino, Dbl(j)) == 0;
        assert inodes[ino].addrs[NDIRECT + 1 := 0] == inodes[ino].addrs;
        assert inodes[ino := inodes[ino]] == inodes;
      }
    }

    /** The innermost loop of itrunc (kernel/fs.c:470-477). */
    method TruncLeaves(ino: nat, u: uint32, j: nat, ghost fs0: Fs, ghost before: set<Slot>)
      returns (ghost done: set<Slot>)
      requires WellFormed(View()) && Own(fs0) && ino < NINODES && blocks == fs0.blocks && j < NINDIRECT
      requires outstanding > 0 && TailClear(fs0.bits) && Covered(begun, DiskView(), logged)
      requires u == Ptr(fs0, ino, Dbl(j)) != 0 && Freed(fs0, bits, ino, before)
      requires forall s :: s in before ==> !(s.Leaf? && s.j == j)
      modifies this`bits, this`logged
      ensures WellFormed(View()) && Freed(fs0, bits, ino, done) && Covered(begun, DiskView(), logged)
      ensures logged <= old(logged) + BitmapBlocks()
      ensures forall s :: s in done <==> s in before || (s.Leaf? && s.j == j && s.k < NINDIRECT)
    {
      hide InUse, NoSharing, NoLeak, Freed, Covered;
      done := before;
      assert SlotOk(fs0, ino, Dbl(j)) by { InUseAt(fs0, ino, Dbl(j)); }
      var k := 0;
      while k < NINDIRECT
        invariant k <= NINDIRECT && WellFormed(View()) && Freed(fs0, bits, ino, done)
        invariant Covered(begun, DiskView(), logged)
        invariant logged <= old(logged) + BitmapBlocks()
        invariant forall s :: s in done <==> s in before || (s.Leaf? && s.j == j && s.k < k)
      {
        assert Word(blocks[u], k) == Ptr(fs0, ino, Leaf(j, k));
        FreeSlot(Word(blocks[u], k), fs0, ino, Leaf(j, k), done);
        done := done + {Leaf(j, k)};
        k := k + 1;
      }
    }


    /** fileread, for files: outside any transaction of its own. Where a block is missing it needs another
      call's transaction to be open; if the pointer to it is missing in the inode, what is on disk no longer
      satisfies ownership. In a file without holes it reads and changes nothing but the offset. */
    method Fileread(f: File, n: uint32) returns (r: Option<int>, dst: seq<byte>)
      requires Valid() && f.ino < NINODES && f as object != this
      modifies this`bits, this`blocks, this`inodes, this`hint, this`logged, f`off
      ensures !f.readable ==> r == Some(-1) && View() == old(View()) && f.off == old(f.off)
      ensures f.readable ==> (r == Some(-1) <==> old(f.off > inodes[f.ino].size) || old(f.off) + n >= 0x1_0000_0000)
      ensures f.readable && r != Some(-1) ==>
                (r.Some? <==> old(CanFill(View(), Room(), f.ino, ReadPath(inodes[f.ino].size, f.off, n))))
      ensures r.Some? && r != Some(-1) ==>
                && r.value == old(Clipped(inodes[f.ino].size, f.off, n)) && f.off == old(f.off) + r.value
                && dst == old(Contents(View(), f.ino))[old(f.off)..f.off]
                && Spent(old(View()), old(Room()), View(), Room(), f.ino, ReadPath(old(inodes[f.ino].size),
                     old(f.off), n))
      ensures r == Some(-1) ==> f.off == old(f.off)
      ensures r.Some? ==> Valid() && SameBytes(old(View()), View()) && SameSizes(old(View()), View())
      ensures r.Some? && r != Some(-1) ==> var path := ReadPath(old(inodes[f.ino].size), old(f.off), n);
                && (View() == old(View()) <==> old(Missing(View(), f.ino, path)) == {})
                && (old(Missing(View(), f.ino, path)) == {} ==> logged == old(logged))
                && (inodes[f.ino] == old(inodes[f.ino]) <==> old(AddrsThere(View(), f.ino, path)))
                && inodes == old(inodes)[f.ino := inodes[f.ino]]
      ensures r.Some? && r != Some(-1) && old(dinodes == inodes) ==>
                (Own(DiskView()) <==> old(AddrsThere(View(), f.ino, ReadPath(inodes[f.ino].size, f.off, n))))
      ensures old(Dense(View(), f.ino)) ==> r.Some? && View() == old(View()) && logged == old(logged)
    {
      hide InUse, NoSharing, NoLeak, Contents, Dense, ByteAt, CanFill, ReadPath, Spent, AddrsThere, Behind, Missing;
      if !f.readable {
        return Some(-1), [];
      }
      r, dst := Readi(f.ino, f.off, n);
      if r.Some? { DiskOwn(); }
      if r.Some? && r.value > 0 {
        f.off := f.off + r.value;
      }
    }

    /** One round of the loop of filewrite, from begin_op to end_op: one transaction, which logs at most eight
      distinct blocks. */
    method WriteChunk(f: File, piece: seq<byte>) returns (w: Option<int>)
      requires Valid() && f.ino < NINODES && |piece| <= CHUNK && f as object != this
      modifies this, f`off
      ensures w == Some(-1) <==> Refused(old(inodes[f.ino].size), old(f.off), |piece|)
      ensures w != Some(-1) ==>
                        (w.Some? <==> piece == [] || old(CanFill(View(), RoomIn(), f.ino, Slots(f.off, |piece|))))
      ensures w.Some? ==> |logged| <= 8 && txns == old(txns) + [Txn(old(DiskView()), logged, DiskView())]
      ensures w.Some? ==> Covered(old(DiskView()), DiskView(), logged)
      ensures w.Some? ==> Valid() && outstanding == old(outstanding)
      ensures w == Some(-1) ==> View() == old(View()) && RoomIn() == old(RoomIn()) && f.off == old(f.off)
      ensures w.Some? && w != Some(-1) ==>
                && w.value == |piece| && f.off == old(f.off) + |piece|
                && Written(old(View()), old(RoomIn()), View(), RoomIn(), f.ino, old(f.off), piece)
      ensures w.Some? ==> dinodes == Copies(old(View()), View(), old(dinodes), f.ino)
      ensures w.Some? && w != Some(-1) && old(dinodes == inodes) ==>
                (Own(DiskView()) <==> inodes[f.ino].size != old(inodes[f.ino].size)
                                      || old(AddrsThere(View(), f.ino, Slots(f.off, |piece|))))
    {
      hide InUse, NoSharing, NoLeak, Contents, WriteSet, Spliced, Written, Slots, CanFill, Free, Behind, AddrsThere;
      hide Copies;
      outstanding := outstanding + 1;                      // begin_op
      logged, begun := {}, DiskView();
      CoveredStart(begun);
      w := Writei(f.ino, piece, f.off, |piece|);
      if w.None? { return; }
      assert piece[..|piece|] == piece;
      if w != Some(-1) {
        WrittenAgrees(old(View()), old(RoomIn()), View(), Room(), f.ino, f.off, piece, old(dinodes));
        DiskOwn();
        ChunkBudget(View(), f.ino, f.off, |piece|);
        Subset(logged, WriteSet(View(), f.ino, f.off, |piece|));
      }
      txns := txns + [Txn(begun, logged, DiskView())];
      if w.value > 0 {
        f.off := f.off + w.value;
      }
      outstanding := outstanding - 1;                      // end_op
    }

    /** filewrite, for files: writes in chunks of at most three 512-byte sectors, one transaction each, and
      none logs more than eight distinct blocks. It returns -1 at once when the file is not writable;
      otherwise it writes all n bytes, or the whole chunks before the first one that is refused, and
      returns exactly when the free blocks are enough for those. The return is n if all were written. */
    method Filewrite(f: File, addr: seq<byte>, n: int) returns (r: Option<int>)
      requires Valid() && f.ino < NINODES && n <= |addr| && f as object != this
      modifies this, f`off
      ensures !f.writable ==> r == Some(-1) && View() == old(View()) && f.off == old(f.off) && txns == old(txns)
      ensures f.writable ==> var acc := Accepted(old(View()), f.ino, old(f.off), n);
                && (r.Some? <==> old(CanFill(View(), RoomIn(), f.ino, Slots(f.off, acc))))
                && (r.Some? ==> r.value == (if n == acc then n else -1) && f.off == old(f.off) + acc)
                && (r.Some? ==> Chunks(old(View()), old(RoomIn()), View(), RoomIn(), f.ino, old(f.off), addr, acc))
                && (r.Some? ==> |txns| == |old(txns)| + Transactions(n, acc))
      ensures r.Some? ==> Valid() && AllSmall(old(txns), txns) && Recorded(old(DiskView()), old(txns), txns, DiskView())
      ensures r.Some? ==> dinodes == Copies(old(View()), View(), old(dinodes), f.ino)
      ensures f.writable && r.Some? ==> var acc := Accepted(old(View()), f.ino, old(f.off), n);
                var kept := inodes[f.ino].size != old(inodes[f.ino].size)
                            || old(AddrsThere(View(), f.ino, Slots(f.off, acc)));
                && (old(dinodes[f.ino] == inodes[f.ino]) ==> (dinodes[f.ino] == inodes[f.ino] <==> kept))
                && (old(dinodes == inodes) ==> (Own(DiskView()) <==> kept))
      ensures r.Some? && old(Dense(View(), f.ino)) ==>
                && Dense(View(), f.ino)
                && (old(dinodes[f.ino] == inodes[f.ino]) ==> dinodes[f.ino] == inodes[f.ino])
                && (old(dinodes == inodes) ==> Own(DiskView()))
    {
      if !f.writable {
        DiskOwn();
        RecordedStart(DiskView(), txns);
        return Some(-1);
      }
      hide InUse, NoSharing, NoLeak, Chunks, AllSmall, Slots, CanFill, Free, Accepted, Transactions, Behind, Copies;
      hide AddrsThere, Dense;
      ghost var fs0, a0 := View(), RoomIn();
      ValidOwns();
      ghost var acc := Accepted(fs0, f.ino, f.off, n);
      r := WriteAll(f, addr, n);
      if r.Some? {
        FinishedIs(fs0, a0, View(), RoomIn(), f.ino, old(f.off), addr, n, old(txns), txns, f.off);
        ChunksAgree(fs0, a0, View(), RoomIn(), f.ino, old(f.off), addr, acc, old(dinodes));
        DiskOwn();
      }
    }

    /** The loop of filewrite. */
    method WriteAll(f: File, addr: seq<byte>, n: int) returns (r: Option<int>)
      requires Valid() && f.ino < NINODES && n <= |addr| && f as object != this
      modifies this, f`off
      ensures r.None? ==> !old(CanFill(View(), RoomIn(), f.ino, Slots(f.off, Accepted(View(), f.ino, f.off, n))))
      ensures r.Some? ==>
                && Valid() && r.value == (if f.off == old(f.off) + n then n else -1)
                && Finished(old(View()), old(RoomIn()), View(), RoomIn(), f.ino, old(f.off), addr, n, old(txns),
                     txns, f.off)
                && dinodes == Copies(old(View()), View(), old(dinodes), f.ino)
                && Recorded(old(DiskView()), old(txns), txns, DiskView())
    {
      hide Valid, RoomIn, Room, WellFormed, Own, Progress, AllSmall, Chunks, Written, Slots, CanFill, Transactions;
      hide Accepted, Finished;
      ValidOwns();
      CopiesSame(View(), dinodes, f.ino);
      RecordedStart(DiskView(), txns);
      ghost var fs0, a0, start, txns0 := View(), RoomIn(), f.off, txns;
      ProgressStarts(fs0, a0, f.ino, start, addr, n, txns0);
      var i := 0;
      while i < n
        invariant 0 <= i && Valid() && f.off == start + i
        invariant Progress(fs0, a0, View(), RoomIn(), f.ino, start, addr, n, i, txns0, txns)
        invariant dinodes == Copies(fs0, View(), old(dinodes), f.ino)
        invariant Recorded(old(DiskView()), txns0, txns, DiskView())
      {
        ghost var txns1, disk1 := txns, DiskView();
        var w := NextChunk(f, addr, n, i, fs0, a0, start, txns0, old(dinodes));
        if w.Some? {
          RecordedNext(old(DiskView()), txns0, txns1, disk1, txns[|txns| - 1]);
          assert txns == txns1 + [txns[|txns| - 1]];
        }
        if w.None? {
          return None;
        }
        if w.value < 0 {
          ProgressEnds(fs0, a0, View(), RoomIn(), f.ino, start, addr, n, i, txns0, txns, true);
          return Some(-1);
        }
        i := i + w.value;
      }
      ProgressEnds(fs0, a0, View(), RoomIn(), f.ino, start, addr, n, i, txns0, txns, false);
      return Some(if i == n then n else -1);
    }

    /** The chunk after the first i bytes: written, or refused because nothing more fits. */
    method NextChunk(f: File, addr: seq<byte>, n: nat, i: nat, ghost fs0: Fs, ghost a0: nat, ghost start: nat,
                     ghost txns0: seq<Txn>, ghost d0: seq<Inode>) returns (w: Option<int>)
      requires Valid() && f as object != this && i < n && f.off == start + i
      requires Progress(fs0, a0, View(), RoomIn(), f.ino, start, addr, n, i, txns0, txns)
      requires |d0| == NINODES && dinodes == Copies(fs0, View(), d0, f.ino)
      modifies this, f`off
      ensures f.ino < NINODES && WellFormed(fs0)
      ensures w.None? ==> !CanFill(fs0, a0, f.ino, Slots(start, Accepted(fs0, f.ino, start, n)))
      ensures w.Some? ==> Valid() && dinodes == Copies(fs0, View(), d0, f.ino)
      ensures w.Some? ==> txns == old(txns) + [Txn(old(DiskView()), logged, DiskView())]
                          && Covered(old(DiskView()), DiskView(), logged)
      ensures w == Some(-1) ==>
                && i == Accepted(fs0, f.ino, start, n) && f.off == start + i
                && txns != [] && |txns[|txns| - 1].logged| <= 8
                && Progress(fs0, a0, View(), RoomIn(), f.ino, start, addr, n, i, txns0, txns[..|txns| - 1])
      ensures w.Some? && w != Some(-1) ==>
                && 0 < w.value && f.off == start + i + w.value
                && Progress(fs0, a0, View(), RoomIn(), f.ino, start, addr, n, i + w.value, txns0, txns)
    {
      hide Valid, RoomIn, Room, WellFormed, Own, Progress, AllSmall, Chunks, Written, Slots, CanFill, Accepted;
      hide Refused, Copies, Behind, AddrsThere;
      var n1 := n - i;
      if n1 > CHUNK {
        n1 := CHUNK;
      }
      ghost var fs1, a1, txns1, d1 := View(), RoomIn(), txns, dinodes;
      ProgressNext(fs0, a0, fs1, a1, f.ino, start, addr, n, i, n1, txns0, txns1);
      w := WriteChunk(f, addr[i..i + n1]);
      if w.Some? {
        assert txns[..|txns| - 1] == txns1;
        if w == Some(-1) {
          CopiesSame(fs1, d1, f.ino);
        } else {
          ProgressCopies(fs0, a0, fs1, a1, View(), RoomIn(), d0, f.ino, start, addr, n, i, n1, txns0, txns1);
          ProgressStep(fs0, a0, fs1, a1, View(), RoomIn(), f.ino, start, addr, n, i, n1, txns0, txns1,
                       txns[|txns| - 1]);
        }
      }
    }
  }
}
