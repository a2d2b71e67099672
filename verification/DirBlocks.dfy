/** Directories on blocks: dirlookup and dirlink of kernel/fs.c and isdirempty of kernel/sysfile.c, entry by entry
  through readi and writei. A result `None` stands for a kernel panic. */
module DirBlocks {
  import opened Wrappers
  import opened Layout
  import opened Paths
  import opened FileBytes
  import opened FileSystem
  import opened Dirents

  /** A directory whose blocks are all there, made of whole entries. */
  ghost predicate GoodDir(fs: Fs, dp: nat)
    requires WellFormed(fs) && dp < NINODES
  {
    Dense(fs, dp) && fs.inodes[dp].size % DIRENT == 0
  }

  lemma SameContents(fs: Fs, r: Fs, ino: nat)
    requires WellFormed(fs) && WellFormed(r) && SameBytes(fs, r) && SameSizes(fs, r) && ino < NINODES
    requires fs.inodes[ino].size <= MAXFILE * BSIZE
    ensures Contents(r, ino) == Contents(fs, ino)
  {
    hide ByteAt;
    assert |Contents(r, ino)| == |Contents(fs, ino)|;
  }

  lemma SameTwice(fs: Fs, fs1: Fs, r: Fs)
    requires WellFormed(fs) && WellFormed(fs1) && WellFormed(r)
    requires SameBytes(fs, fs1) && SameSizes(fs, fs1) && SameBytes(fs1, r) && SameSizes(fs1, r)
    ensures SameBytes(fs, r) && SameSizes(fs, r)
  {
    hide ByteAt;
  }

  lemma SpentRoom(fs: Fs, a: nat, r: Fs, a': nat, ino: nat, slots: set<Slot>)
    requires Spent(fs, a, r, a', ino, slots)
    ensures Missing(fs, ino, slots) == {} ==> a' == a
  {
  }

  /** File i has the inode, the bytes and the pointers it had. */
  ghost predicate Untouched(fs: Fs, r: Fs, i: nat) {
    && WellFormed(fs) && WellFormed(r) && i < NINODES && r.inodes[i] == fs.inodes[i]
    && fs.inodes[i].size <= MAXFILE * BSIZE && Contents(r, i) == Contents(fs, i)
    && forall s | ValidSlot(s) :: Ptr(r, i, s) == Ptr(fs, i, s)
  }

  lemma UntouchedSame(fs: Fs, i: nat)
    requires WellFormed(fs) && i < NINODES && fs.inodes[i].size <= MAXFILE * BSIZE
    ensures Untouched(fs, fs, i)
  {
  }

  lemma UntouchedTwice(fs: Fs, fs1: Fs, r: Fs, i: nat)
    requires Untouched(fs, fs1, i) && Untouched(fs1, r, i)
    ensures Untouched(fs, r, i)
  {
    hide Ptr, Contents;
  }

  lemma UntouchedIs(fs: Fs, r: Fs, i: nat)
    requires Untouched(fs, r, i)
    ensures WellFormed(fs) && WellFormed(r) && i < NINODES && fs.inodes[i].size <= MAXFILE * BSIZE
    ensures r.inodes[i] == fs.inodes[i] && Contents(r, i) == Contents(fs, i)
    ensures GoodDir(fs, i) <==> GoodDir(r, i)
  {
    hide Ptr, Contents;
  }

  lemma UntouchedMissing(fs: Fs, r: Fs, i: nat, slots: set<Slot>)
    requires Untouched(fs, r, i)
    ensures Missing(r, i, slots) == Missing(fs, i, slots)
  {
    hide Ptr, Contents;
  }

  lemma SpentUntouched(fs: Fs, a: nat, t: Fs, a': nat, ino: nat, slots: set<Slot>, i: nat)
    requires Spent(fs, a, t, a', ino, slots) && i < NINODES && i != ino && fs.inodes[i].size <= MAXFILE * BSIZE
    requires t.inodes[i] == fs.inodes[i] && Contents(t, i) == Contents(fs, i)
    ensures Untouched(fs, t, i)
  {
    hide Ptr, Contents;
  }

  /** readi of one entry; `None` for the panic when there is not a whole one. */
  method ReadEntry(fs: FileSystem, dp: nat, off: nat) returns (de: Option<Bytes>)
    requires fs.Valid() && dp < NINODES && off < fs.inodes[dp].size
    modifies fs`bits, fs`blocks, fs`inodes, fs`hint, fs`logged
    ensures de.Some? ==>
              && fs.Valid() && SameBytes(old(fs.View()), fs.View()) && SameSizes(old(fs.View()), fs.View())
              && fs.inodes == old(fs.inodes)[dp := fs.inodes[dp]]
              && off + DIRENT <= fs.inodes[dp].size && de.value == Contents(fs.View(), dp)[off..off + DIRENT]
    ensures old(Dense(fs.View(), dp)) && off + DIRENT <= old(fs.inodes[dp].size) ==>
              de.Some? && fs.View() == old(fs.View()) && fs.logged == old(fs.logged) && fs.Room() == old(fs.Room())
  {
    hide InUse, NoSharing, NoLeak, Ptr, ByteAt, Dense, CanFill, Missing, Spent, AddrsThere, Behind, Contents;
    hide ReadPath;
    ghost var fs0, a0 := fs.View(), fs.Room();
    var r, bytes := fs.Readi(dp, off, DIRENT);
    if r != Some(DIRENT) { return None; }
    SpentRoom(fs0, a0, fs.View(), fs.Room(), dp, ReadPath(fs0.inodes[dp].size, off, DIRENT));
    SameContents(fs0, fs.View(), dp);
    return Some(bytes);
  }

  /** dirlookup: where the first entry of that name is. */
  method Dirlookup(fs: FileSystem, dp: nat, name: Bytes) returns (r: Option<Option<nat>>)
    requires fs.Valid() && dp < NINODES
    modifies fs`bits, fs`blocks, fs`inodes, fs`hint, fs`logged
    ensures r.Some? ==>
              && fs.Valid() && SameBytes(old(fs.View()), fs.View()) && SameSizes(old(fs.View()), fs.View())
              && fs.inodes == old(fs.inodes)[dp := fs.inodes[dp]]
              && r.value == Lookup(Contents(old(fs.View()), dp), name, 0)
              && (r.value.None? ==> fs.inodes[dp].size % DIRENT == 0)
    ensures old(GoodDir(fs.View(), dp)) ==> r.Some? && fs.View() == old(fs.View()) && fs.logged == old(fs.logged)
                                            && fs.Room() == old(fs.Room())
  {
    hide InUse, NoSharing, NoLeak, Ptr, ByteAt, Dense, Contents, CString, Inum;
    ghost var fs0 := fs.View();
    ghost var c := Contents(fs0, dp);
    var off := 0;
    while off < fs.inodes[dp].size
      invariant fs.Valid() && SameBytes(fs0, fs.View()) && SameSizes(fs0, fs.View())
      invariant fs.inodes == fs0.inodes[dp := fs.inodes[dp]]
      invariant off <= fs.inodes[dp].size && off % DIRENT == 0 && Lookup(c, name, 0) == Lookup(c, name, off)
      invariant old(GoodDir(fs.View(), dp)) ==>
                  fs.View() == fs0 && fs.logged == old(fs.logged) && fs.Room() == old(fs.Room())
      decreases MAXFILE * BSIZE + DIRENT - off
    {
      ghost var fs1 := fs.View();
      var de := ReadEntry(fs, dp, off);
      if de.None? { return None; }
      SameTwice(fs0, fs1, fs.View());
      SameContents(fs0, fs.View(), dp);
      if Names(de.value, name) { return Some(Some(off)); }
      off := off + DIRENT;
    }
    return Some(None);
  }

  /** The empty entry dirlink looks for. */
  method EmptyEntry(fs: FileSystem, dp: nat) returns (r: Option<nat>)
    requires fs.Valid() && dp < NINODES && fs.inodes[dp].size % DIRENT == 0
    modifies fs`bits, fs`blocks, fs`inodes, fs`hint, fs`logged
    ensures r.Some? ==>
              && fs.Valid() && SameBytes(old(fs.View()), fs.View()) && SameSizes(old(fs.View()), fs.View())
              && fs.inodes == old(fs.inodes)[dp := fs.inodes[dp]]
              && r.value == FirstEmpty(Contents(old(fs.View()), dp), 0)
    ensures old(GoodDir(fs.View(), dp)) ==> r.Some? && fs.View() == old(fs.View()) && fs.logged == old(fs.logged)
                                            && fs.Room() == old(fs.Room())
  {
    hide InUse, NoSharing, NoLeak, Ptr, ByteAt, Dense, Contents, CString, Inum, FirstEmpty, FileSystem.Room;
    ghost var fs0 := fs.View();
    ghost var c := Contents(fs0, dp);
    var off := 0;
    while off < fs.inodes[dp].size
      invariant fs.Valid() && SameBytes(fs0, fs.View()) && SameSizes(fs0, fs.View())
      invariant fs.inodes == fs0.inodes[dp := fs.inodes[dp]]
      invariant off % DIRENT == 0 && off <= |c| && FirstEmpty(c, 0) == FirstEmpty(c, off)
      invariant old(GoodDir(fs.View(), dp)) ==>
                  fs.View() == fs0 && fs.logged == old(fs.logged) && fs.Room() == old(fs.Room())
      decreases MAXFILE * BSIZE + DIRENT - off
    {
      ghost var fs1 := fs.View();
      EmptyNext(c, off);
      var de := ReadEntry(fs, dp, off);
      if de.None? { return None; }
      SameTwice(fs0, fs1, fs.View());
      SameContents(fs0, fs.View(), dp);
      if Inum(de.value) == 0 { break; }
      off := off + DIRENT;
    }
    EmptyNext(c, off);
    return Some(off);
  }

  lemma AtMost(a: set<nat>, b: set<nat>)
    ensures |a + b| <= |a| + |b|
  {
    assert a + b == a + (b - a);
    Subset(b - a, b);
  }

  lemma FewTables(fs: Fs, ino: nat, bn: nat)
    requires WellFormed(fs) && ino < NINODES && bn < MAXFILE
    ensures |TableBlocks(fs, ino, bn)| <= 2
  {
    hide Ptr;
  }

  lemma FirstBlockIs(fs: Fs, ino: nat)
    requires WellFormed(fs) && ino < NINODES
    ensures TableBlocks(fs, ino, 0) == {} && DataBlock(fs, ino, 0) == Ptr(fs, ino, Addr(0))
  {
  }

  lemma InOneBlock(off: nat)
    requires off % DIRENT == 0 && off + DIRENT <= MAXFILE * BSIZE
    ensures NextBlock(off, DIRENT) == off / BSIZE + 1 <= MAXFILE && (off < BSIZE ==> off / BSIZE == 0)
  {
  }

  /** A write of one entry goes to one block, so it logs at most six: that block, two tables, two bitmap blocks
    and the inode. */
  lemma EntryLogs(fs: Fs, ino: nat, off: nat) returns (extra: set<nat>)
    requires WellFormed(fs) && ino < NINODES && off % DIRENT == 0 && off + DIRENT <= MAXFILE * BSIZE
    ensures WriteSet(fs, ino, off, DIRENT) <= BitmapBlocks() + {InodeBlock(ino)} + extra
    ensures |extra| <= 3 && (off < BSIZE ==> extra == {Ptr(fs, ino, Addr(0))})
  {
    hide Touched, Ptr, TableBlocks, DataBlock, WellFormed, BitmapBlocks, InodeBlock, NextBlock;
    var bn := off / BSIZE;
    InOneBlock(off);
    FewTables(fs, ino, bn);
    TouchedIs(fs, ino, bn, bn + 1);
    extra := TableBlocks(fs, ino, bn) + {DataBlock(fs, ino, bn)};
    if bn == 0 { FirstBlockIs(fs, ino); }
    AtMost(TableBlocks(fs, ino, bn), {DataBlock(fs, ino, bn)});
  }

  /** A directory after an entry has been written. */
  lemma EntryWritten(fs: Fs, a: nat, t: Fs, a': nat, dp: nat, off: nat, de: Bytes, d: seq<Inode>)
    requires Written(fs, a, t, a', dp, off, de) && |de| == DIRENT && off % DIRENT == 0 && Behind(d, fs.inodes)
    requires GoodDir(fs, dp)
    ensures GoodDir(t, dp) && (d == fs.inodes ==> Copies(fs, t, d, dp) == t.inodes)
  {
    hide Ptr, InUse, NoSharing, NoLeak, Dense, Contents, Spliced, Slots, AddrsThere, Spent, Copies, Behind;
    WrittenAgrees(fs, a, t, a', dp, off, de, d);
    if off + DIRENT <= fs.inodes[dp].size { DenseAddrs(fs, dp, off, DIRENT); }
  }

  /** An entry of a directory without holes can be overwritten without a free block. */
  lemma InsideFills(fs: Fs, a: nat, dp: nat, off: nat)
    requires WellFormed(fs) && dp < NINODES && fs.inodes[dp].size <= MAXFILE * BSIZE
    ensures GoodDir(fs, dp) && off + DIRENT <= fs.inodes[dp].size ==> CanFill(fs, a, dp, Slots(off, DIRENT))
  {
    hide Ptr, PathTo, CanFill;
    if GoodDir(fs, dp) && off + DIRENT <= fs.inodes[dp].size {
      LastBlock(off, DIRENT);
      DenseRead(fs, dp, off, DIRENT);
    }
  }

  /** writei of one entry; not `ok` stands for the panic. */
  method PutEntry(fs: FileSystem, dp: nat, off: nat, de: Bytes) returns (ok: bool, ghost extra: set<nat>)
    requires fs.Valid() && dp < NINODES && |de| == DIRENT && off % DIRENT == 0 && off <= fs.inodes[dp].size
    modifies fs`bits, fs`blocks, fs`inodes, fs`dinodes, fs`hint, fs`logged
    ensures ok <==> off + DIRENT <= MAXFILE * BSIZE && old(fs.outstanding) > 0
                    && CanFill(old(fs.View()), old(fs.Room()), dp, Slots(off, DIRENT))
    ensures ok ==> fs.Valid() && Contents(fs.View(), dp) == Spliced(Contents(old(fs.View()), dp), off, de)
    ensures ok ==> forall i: nat | i < NINODES && i != dp :: Contents(fs.View(), i) == Contents(old(fs.View()), i)
    ensures ok ==> fs.logged <= old(fs.logged) + BitmapBlocks() + {InodeBlock(dp)} + extra
    ensures |extra| <= 3 && (ok && off < BSIZE ==> extra == {Ptr(fs.View(), dp, Addr(0))})
    ensures ok ==> Spent(old(fs.View()), old(fs.Room()), fs.View(), fs.Room(), dp, Slots(off, DIRENT))
    ensures ok ==> forall i: nat | i < NINODES && i != dp :: Untouched(old(fs.View()), fs.View(), i)
    ensures ok && old(GoodDir(fs.View(), dp)) ==>
              GoodDir(fs.View(), dp) && (old(fs.dinodes == fs.inodes) ==> fs.dinodes == fs.inodes)
    ensures ok ==> forall i: nat | i < NINODES && i != dp ::
              fs.inodes[i] == old(fs.inodes[i]) && (old(GoodDir(fs.View(), i)) ==> GoodDir(fs.View(), i))
  {
    hide InUse, NoSharing, NoLeak, Ptr, ByteAt, Dense, Contents, CanFill, Slots, AddrsThere, Behind, WriteSet;
    hide Spliced, Copies, Missing, Written, Free, Spent, Untouched;
    ghost var fs0, a0, d0 := fs.View(), fs.Room(), fs.dinodes;
    extra := {};
    var r := fs.Writei(dp, de, off, DIRENT);
    ok := r == Some(DIRENT);
    if !ok { return; }
    assert de[..DIRENT] == de;
    extra := EntryLogs(fs.View(), dp, off);
    WrittenIs(fs0, a0, fs.View(), fs.Room(), dp, off, de);
    forall i: nat | i < NINODES && i != dp ensures Untouched(fs0, fs.View(), i) {
      SpentUntouched(fs0, a0, fs.View(), fs.Room(), dp, Slots(off, DIRENT), i);
    }
    if GoodDir(fs0, dp) { EntryWritten(fs0, a0, fs.View(), fs.Room(), dp, off, de, d0); }
  }

  /** isdirempty: nothing but "." and "..". */
  method Isdirempty(fs: FileSystem, ip: nat) returns (r: Option<bool>)
    requires fs.Valid() && ip < NINODES
    modifies fs`bits, fs`blocks, fs`inodes, fs`hint, fs`logged
    ensures r.Some? ==>
              && fs.Valid() && SameBytes(old(fs.View()), fs.View()) && SameSizes(old(fs.View()), fs.View())
              && fs.inodes == old(fs.inodes)[ip := fs.inodes[ip]]
              && r.value == AllEmpty(Contents(old(fs.View()), ip), 2 * DIRENT)
    ensures old(GoodDir(fs.View(), ip)) ==> r.Some? && fs.View() == old(fs.View()) && fs.logged == old(fs.logged)
                                            && fs.Room() == old(fs.Room())
  {
    hide InUse, NoSharing, NoLeak, Ptr, ByteAt, Dense, Contents, Inum;
    ghost var fs0 := fs.View();
    ghost var c := Contents(fs0, ip);
    var off := 2 * DIRENT;
    while off < fs.inodes[ip].size
      invariant fs.Valid() && SameBytes(fs0, fs.View()) && SameSizes(fs0, fs.View())
      invariant fs.inodes == fs0.inodes[ip := fs.inodes[ip]]
      invariant off % DIRENT == 0 && AllEmpty(c, 2 * DIRENT) == AllEmpty(c, off)
      invariant old(GoodDir(fs.View(), ip)) ==>
                  fs.View() == fs0 && fs.logged == old(fs.logged) && fs.Room() == old(fs.Room())
      decreases MAXFILE * BSIZE + DIRENT - off
    {
      ghost var fs1 := fs.View();
      var de := ReadEntry(fs, ip, off);
      if de.None? { return None; }
      SameTwice(fs0, fs1, fs.View());
      SameContents(fs0, fs.View(), ip);
      if Inum(de.value) != 0 { return Some(false); }
      off := off + DIRENT;
    }
    return Some(true);
  }

  /** dirlink: a name that is there is refused, otherwise its entry goes to the first empty place. */
  method Dirlink(fs: FileSystem, dp: nat, name: Bytes, inum: nat) returns (r: Option<int>, ghost extra: set<nat>)
    requires fs.Valid() && dp < NINODES && IsName(name) && 0 < inum < 0x1_0000
    modifies fs`bits, fs`blocks, fs`inodes, fs`dinodes, fs`hint, fs`logged
    ensures var c := Contents(old(fs.View()), dp);
            && (r.Some? ==> fs.Valid() && r.value == if Lookup(c, name, 0).Some? then -1 else 0)
            && (r == Some(-1) ==> SameBytes(old(fs.View()), fs.View()) && SameSizes(old(fs.View()), fs.View())
                                  && fs.dinodes == old(fs.dinodes))
            && (r == Some(0) ==> |c| % DIRENT == 0 && Contents(fs.View(), dp) == Entered(c, name, inum))
    ensures r == Some(0) ==>
              forall i: nat | i < NINODES && i != dp :: Contents(fs.View(), i) == Contents(old(fs.View()), i)
    ensures r.Some? ==> forall i: nat | i < NINODES && i != dp :: fs.inodes[i] == old(fs.inodes[i])
    ensures old(GoodDir(fs.View(), dp)) ==> var c := Contents(old(fs.View()), dp);
              && (r.Some? <==> Lookup(c, name, 0).Some?
                               || (FirstEmpty(c, 0) + DIRENT <= MAXFILE * BSIZE && old(fs.outstanding) > 0
                                   && CanFill(old(fs.View()), old(fs.Room()), dp, Slots(FirstEmpty(c, 0), DIRENT))))
    ensures old(GoodDir(fs.View(), dp)) && r.Some? ==>
              && GoodDir(fs.View(), dp) && (r == Some(-1) ==> fs.View() == old(fs.View()))
              && fs.logged <= old(fs.logged) + BitmapBlocks() + {InodeBlock(dp)} + extra && |extra| <= 3
              && (r == Some(0) && FirstEmpty(Contents(old(fs.View()), dp), 0) < BSIZE ==>
                    extra == {Ptr(fs.View(), dp, Addr(0))})
              && (old(fs.dinodes == fs.inodes) ==> fs.dinodes == fs.inodes)
    ensures old(GoodDir(fs.View(), dp)) && r == Some(0) ==>
              Spent(old(fs.View()), old(fs.Room()), fs.View(), fs.Room(), dp,
                    Slots(FirstEmpty(Contents(old(fs.View()), dp), 0), DIRENT))
    ensures old(GoodDir(fs.View(), dp)) && r.Some? ==>
              forall i: nat | i < NINODES && i != dp :: Untouched(old(fs.View()), fs.View(), i)
    ensures old(GoodDir(fs.View(), dp)) && r == Some(-1) ==> fs.Room() == old(fs.Room())
  {
    hide InUse, NoSharing, NoLeak, Ptr, ByteAt, Dense, Contents, Lookup, FirstEmpty, DirentOf, CanFill, Slots;
    hide AddrsThere, Behind, WriteSet, Spliced, Copies, Missing, Written, Free, FileSystem.Room, Spent, Untouched;
    ghost var fs0 := fs.View();
    extra := {};
    var there := Dirlookup(fs, dp, name);
    if there.None? { return None, extra; }
    forall i: nat | i < NINODES ensures Untouched(fs0, fs0, i) { UntouchedSame(fs0, i); }
    if there.value.Some? { return Some(-1), extra; }
    ghost var fs1 := fs.View();
    SameContents(fs0, fs1, dp);
    EmptyInside(Contents(fs0, dp));
    var off := EmptyEntry(fs, dp);
    if off.None? { return None, extra; }
    SameTwice(fs0, fs1, fs.View());
    forall i: nat | i < NINODES ensures Contents(fs.View(), i) == Contents(fs0, i) {
      SameContents(fs0, fs.View(), i);
    }
    var ok;
    ok, extra := PutEntry(fs, dp, off.value, DirentOf(inum, name));
    r := if ok then Some(0) else None;
  }
}
