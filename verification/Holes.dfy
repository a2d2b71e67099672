/** What goes wrong where the promises of the block layer end: a block that is missing below a file's size, and
  free blocks balloc does not look at. */
module Holes {
  import opened Wrappers
  import opened Layout
  import opened Paths
  import opened FileBytes
  import opened Dirents
  import opened Mkfs
  import opened FileSystem

  // ---------------------------------------------------------------- reading a hole

  lemma SecondBlock(fs: Fs, ino: nat, room: nat)
    requires WellFormed(fs) && ino < NINODES
    ensures ReadPath(2 * BSIZE, BSIZE, DIRENT) == Slots(BSIZE, DIRENT) == {Addr(1)}
    ensures CanFill(fs, room, ino, {Addr(1)}) <==> fs.inodes[ino].addrs[1] != 0 || room > 0
    ensures AddrsThere(fs, ino, {Addr(1)}) <==> fs.inodes[ino].addrs[1] != 0
  {
    assert NextBlock(BSIZE, 16) == 2 && PathTo(1, 1) == {} && PathTo(1, 2) == PathTo(1, 1) + Path(1) == {Addr(1)};
    assert Missing(fs, ino, {Addr(1)}) == if fs.inodes[ino].addrs[1] == 0 then {Addr(1)} else {};
  }

  /** The image `HoleImage` makes, started, and its directory read past the first block with no other call
    open: bmap allocates, and log_write panics outside a transaction. */
  method ReadingAHolePanics(names: seq<Bytes>) returns (r: Option<int>)
    requires |names| == 126 && forall i :: 0 <= i < |names| ==> IsName(names[i])
    ensures r == None
  {
    var bits, blocks, inodes := HoleImage(names);
    var fs := new FileSystem(bits, blocks, inodes);
    var f := new File(ROOTINO, true, false);
    f.off := BSIZE;
    SecondBlock(fs.View(), ROOTINO, 0);
    var bytes;
    r, bytes := fs.Fileread(f, DIRENT);
  }

  /** The kernel started on that image, with a call open. */
  method Started(names: seq<Bytes>) returns (fs: FileSystem)
    requires |names| == 126 && forall i :: 0 <= i < |names| ==> IsName(names[i])
    ensures fresh(fs) && fs.Valid() && fs.outstanding == 1 && fs.dinodes == fs.inodes
    ensures fs.inodes[ROOTINO].size == 2 * BSIZE && fs.inodes[ROOTINO].addrs[1] == 0
    ensures CanFill(fs.View(), fs.Room(), ROOTINO, {Addr(1)}) && !AddrsThere(fs.View(), ROOTINO, {Addr(1)})
    ensures ReadPath(2 * BSIZE, BSIZE, DIRENT) == Slots(BSIZE, DIRENT) == {Addr(1)}
  {
    var bits, blocks, inodes := HoleImage(names);
    hide Ptr, InUse, NoSharing, NoLeak, Behind, Dense, Covered;
    fs := new FileSystem(bits, blocks, inodes);
    fs.outstanding := 1;
    RoomThere(bits);
    SecondBlock(fs.View(), ROOTINO, fs.Room());
    SecondIs(fs.View());
  }

  /** With another call open it does not panic. The inode gets a block its copy on disk does not know of, so
    what is on disk has lost ownership, and so has memory once the inode has been loaded again. */
  method ReadingAHoleLeaks(names: seq<Bytes>) returns (fs: FileSystem)
    requires |names| == 126 && forall i :: 0 <= i < |names| ==> IsName(names[i])
    ensures !Own(fs.DiskView()) && !Own(fs.View())
  {
    hide Ptr, InUse, NoSharing, NoLeak, Behind, Dense, Covered, CanFill, AddrsThere, Missing, Spent, Contents;
    fs := Started(names);
    var f := new File(ROOTINO, true, false);
    f.off := BSIZE;
    var r, bytes := fs.Fileread(f, DIRENT);
    fs.DiskOwn();
    fs.Reload(ROOTINO);
  }

  /** An entry written into the hole does not make the directory grow, so writei sends no inode: the entry is
    there, and the disk does not know its block. */
  method WritingAHoleLoses(names: seq<Bytes>, de: Bytes) returns (fs: FileSystem)
    requires |names| == 126 && forall i :: 0 <= i < |names| ==> IsName(names[i])
    requires |de| == DIRENT
    ensures fs.Valid() && fs.inodes[ROOTINO].size == 2 * BSIZE
    ensures Contents(fs.View(), ROOTINO)[BSIZE..BSIZE + DIRENT] == de
    ensures WellFormed(fs.DiskView()) && DataBlock(fs.DiskView(), ROOTINO, 1) == 0 && !Own(fs.DiskView())
  {
    hide Ptr, InUse, NoSharing, NoLeak, Dense, Covered, CanFill, AddrsThere, Missing, Spent, WriteSet, Spliced;
    hide ByteAt, Free;
    fs := Started(names);
    SplicedSlice(Contents(fs.View(), ROOTINO), BSIZE, de);
    var r := fs.Writei(ROOTINO, de, BSIZE, DIRENT);
    assert de[..DIRENT] == de;
    fs.DiskOwn();
    SecondIs(fs.DiskView());
  }

  lemma SplicedSlice(s: Bytes, off: nat, data: Bytes)
    requires off <= |s|
    ensures off + |data| <= |Spliced(s, off, data)| && Spliced(s, off, data)[off..off + |data|] == data
  {
  }

  lemma SecondIs(fs: Fs)
    requires WellFormed(fs)
    ensures DataBlock(fs, ROOTINO, 1) == fs.inodes[ROOTINO].addrs[1]
  {
  }

  lemma RoomThere(bits: seq<bool>)
    requires |bits| == NBITMAP * BPB && !bits[BPB - 1]
    ensures |Free(bits, 0)| > 0
  {
    assert BPB - 1 in Free(bits, 0);
  }

  // ---------------------------------------------------------------- a free block balloc does not find

  /** A table of n consecutive block numbers. */
  function Run(first: nat, n: nat): (b: Block)
    requires first + n <= 0x1_0000
    ensures |b| == BSIZE
  {
    seq(BSIZE, i requires 0 <= i < BSIZE =>
          var v := if i / 4 < n then first + i / 4 else 0;
          if i % 4 == 0 then v % 0x100 else if i % 4 == 1 then v / 0x100 else 0)
  }

  lemma RunWord(first: nat, n: nat, j: nat)
    requires first + n <= 0x1_0000 && j < NINDIRECT
    ensures Word(Run(first, n), j) == if j < n then first + j else 0
  {
    assert (4 * j) / 4 == j && (4 * j + 1) / 4 == j && (4 * j + 2) / 4 == j && (4 * j + 3) / 4 == j;
    assert (4 * j) % 4 == 0 && (4 * j + 1) % 4 == 1 && (4 * j + 2) % 4 == 2 && (4 * j + 3) % 4 == 3;
  }

  const TOP: nat := NMETA             // the double-indirect block of the file
  const TABLES: nat := NMETA + 1      // its 18 tables
  const UPPER: nat := NBLOCKS - BPB   // the data blocks of the second bitmap block, all in the file

  /** How many entries the j-th table has. */
  function Entries(j: nat): nat {
    if NINDIRECT * (j + 1) <= UPPER then NINDIRECT else if NINDIRECT * j < UPPER then UPPER - NINDIRECT * j else 0
  }

  function FullBlock(b: nat): (r: Block)
    requires b < FSSIZE
    ensures |r| == BSIZE
  {
    if b == TOP then Run(TABLES, 18)
    else if TABLES <= b < TABLES + 18 then Run(BPB + NINDIRECT * (b - TABLES), Entries(b - TABLES))
    else ZeroBlock()
  }

  function FullInode(): (n: Inode)
    ensures |n.addrs| == NDIRECT + 2 && n.size == 0
    ensures forall i :: 0 <= i < NDIRECT + 2 ==> n.addrs[i] == if i == NDIRECT + 1 then TOP else 0
  {
    Inode([0, 0, 0, 0, 0, 0, 0, 0, 0, 0, 0, TOP], 0)
  }

  function FullInodes(): (s: seq<Inode>)
    ensures |s| == NINODES && forall i :: 0 <= i < NINODES ==>
                      s[i] == if i == ROOTINO then FullInode() else EmptyInode()
  {
    seq(NINODES, i => if i == ROOTINO then FullInode() else EmptyInode())
  }

  /** One file has every data block of the second bitmap block, and little else is in use. */
  function FullAbove(): (fs: Fs)
    ensures WellFormed(fs) && forall i :: 0 <= i < NINODES ==> fs.inodes[i].size == 0
  {
    Fs(seq(NBITMAP * BPB, i => i < TABLES + 18 || BPB <= i < NBLOCKS),
       seq(FSSIZE, b requires 0 <= b < FSSIZE => FullBlock(b)),
       FullInodes())
  }

  function FullPtr(ino: nat, s: Slot): nat {
    if ino != ROOTINO then 0
    else
      match s
      case Addr(i) => if i == NDIRECT + 1 then TOP else 0
      case Ind(_) => 0
      case Dbl(j) => if j < 18 then TABLES + j else 0
      case Leaf(j, k) => if j < 18 && k < Entries(j) then BPB + NINDIRECT * j + k else 0
  }

  lemma {:induction false} FullPtrIs(ino: nat, s: Slot)
    requires ino < NINODES && ValidSlot(s)
    ensures Ptr(FullAbove(), ino, s) == FullPtr(ino, s)
    decreases if s.Addr? then 0 else if s.Leaf? then 2 else 1
  {
    hide Run, Word, FullInode, FullInodes;
    var fs := FullAbove();
    match s
    case Addr(_) =>
    case Ind(_) => FullPtrIs(ino, Addr(NDIRECT));
    case Dbl(j) =>
      FullPtrIs(ino, Addr(NDIRECT + 1));
      RunWord(TABLES, 18, j);
      assert fs.blocks[TOP] == Run(TABLES, 18);
    case Leaf(j, k) =>
      FullPtrIs(ino, Dbl(j));
      if j < 18 {
        RunWord(BPB + NINDIRECT * j, Entries(j), k);
        assert fs.blocks[TABLES + j] == Run(BPB + NINDIRECT * j, Entries(j));
      }
  }

  lemma FullOwn()
    ensures Own(FullAbove())
  {
    hide Ptr, FullBlock;
    var fs := FullAbove();
    forall ino: nat, s | ino < NINODES && ValidSlot(s) ensures Ptr(fs, ino, s) == FullPtr(ino, s) { FullPtrIs(ino, s); }
    forall b: nat | b < NBLOCKS && fs.bits[b] && b >= NMETA ensures Owned(fs, b) {
      if b == TOP {
        assert Ptr(fs, ROOTINO, Addr(NDIRECT + 1)) == b;
      } else if b < BPB {
        assert Ptr(fs, ROOTINO, Dbl(b - TABLES)) == b;
      } else {
        assert Ptr(fs, ROOTINO, Leaf((b - BPB) / NINDIRECT, (b - BPB) % NINDIRECT)) == b;
      }
    }
  }

  /** balloc panics there once the hint is in the second bitmap block, although block 100 is free. */
  method PanicsWithFreeBlocks() returns (r: Option<uint32>, fs: FileSystem)
    ensures r == None && Own(fs.View()) && TailClear(fs.bits) && fs.outstanding > 0
    ensures fs.hint / BPB == 1 && !fs.bits[100] && NMETA <= 100 < NBLOCKS
  {
    var full := FullAbove();
    FullOwn();
    fs := new FileSystem(full.bits, full.blocks, full.inodes);
    fs.outstanding := 1;
    fs.hint := BPB;
    r := fs.Balloc();
  }
}
