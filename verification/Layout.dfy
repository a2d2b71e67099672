/** Disk blocks, inodes and the three-level block map of kernel/fs.c as values, and who owns what. */
module Layout {

  const BSIZE: nat := 2048                         // include/param.h:21
  const FSSIZE: nat := 25600                       // include/param.h:20
  const NDIRECT: nat := 10                         // include/fs.h:42
  const NINDIRECT: nat := 512                      // BSIZE / sizeof(uint)
  const NDINDIRECT: nat := 262144                  // NINDIRECT * NINDIRECT
  const MAXFILE: nat := NDIRECT + NINDIRECT + NDINDIRECT
  const BPB: nat := 16384                          // BSIZE * 8
  const NBITMAP: nat := 2                          // kernel/mkfs.c:31
  const INODESTART: nat := 32                      // kernel/mkfs.c:101
  const IPB: nat := 16                             // BSIZE / 128
  const NINODES: nat := 200                        // kernel/mkfs.c:29
  const BMAPSTART: nat := 45                       // kernel/mkfs.c:102
  const NMETA: nat := 47                           // kernel/mkfs.c:93
  const NBLOCKS: nat := FSSIZE - NMETA             // kernel/mkfs.c:94, where balloc's range ends

  type byte = x: int | 0 <= x < 256
  type uint32 = x: int | 0 <= x < 0x1_0000_0000
  type Block = seq<byte>

  // ---------------------------------------------------------------- words in a block

  /** The i-th little-endian uint of a block, as the cast to `uint *` reads it. */
  function Word(b: Block, i: nat): uint32
    requires |b| == BSIZE && i < NINDIRECT
  {
    var b0: int, b1: int, b2: int, b3: int := b[4 * i], b[4 * i + 1], b[4 * i + 2], b[4 * i + 3];
    b0 + 0x100 * b1 + 0x1_0000 * b2 + 0x100_0000 * b3
  }

  function PutWord(b: Block, i: nat, v: uint32): Block
    requires |b| == BSIZE && i < NINDIRECT
  {
    b[4 * i := v % 0x100][4 * i + 1 := v / 0x100 % 0x100]
     [4 * i + 2 := v / 0x1_0000 % 0x100][4 * i + 3 := v / 0x100_0000]
  }

  lemma {:induction false} WordPutWord(b: Block, i: nat, v: uint32, j: nat)
    requires |b| == BSIZE && i < NINDIRECT && j < NINDIRECT
    ensures |PutWord(b, i, v)| == BSIZE
    ensures Word(PutWord(b, i, v), j) == if j == i then v else Word(b, j)
  {
    assert v == v % 0x100 + 0x100 * (v / 0x100);
    assert v / 0x100 == v / 0x100 % 0x100 + 0x100 * (v / 0x1_0000);
    assert v / 0x1_0000 == v / 0x1_0000 % 0x100 + 0x100 * (v / 0x100_0000);
  }

  function ZeroBlock(): (z: Block)
    ensures |z| == BSIZE && forall i :: 0 <= i < NINDIRECT ==> Word(z, i) == 0
  {
    seq(BSIZE, _ => 0)
  }

  // ---------------------------------------------------------------- inodes and the block map

  /** The in-memory inode: the pointers bmap indexes (NDIRECT + 2 of them) and the size. */
  datatype Inode = Inode(addrs: seq<uint32>, size: uint32)

  /** Bitmap (one bool per bit, all bitmap blocks in a row), blocks and inodes. */
  datatype Fs = Fs(bits: seq<bool>, blocks: seq<Block>, inodes: seq<Inode>)

  predicate WellFormed(fs: Fs) {
    && |fs.bits| == NBITMAP * BPB
    && |fs.blocks| == FSSIZE
    && (forall b :: 0 <= b < FSSIZE ==> |fs.blocks[b]| == BSIZE)
    && |fs.inodes| == NINODES
    && (forall i :: 0 <= i < NINODES ==> |fs.inodes[i].addrs| == NDIRECT + 2)
  }

  /** The places that hold a block number: in the inode, in the single-indirect block, in the
    double-indirect block, and in the blocks that one points to. */
  datatype Slot = Addr(i: nat) | Ind(j: nat) | Dbl(j: nat) | Leaf(j: nat, k: nat)

  predicate ValidSlot(s: Slot) {
    match s
    case Addr(i) => i < NDIRECT + 2
    case Ind(j) => j < NINDIRECT
    case Dbl(j) => j < NINDIRECT
    case Leaf(j, k) => j < NINDIRECT && k < NINDIRECT
  }

  /** The slot whose block holds slot s, and where in that block s is. */
  function Parent(s: Slot): Slot
    requires !s.Addr?
  {
    match s
    case Ind(_) => Addr(NDIRECT)
    case Dbl(_) => Addr(NDIRECT + 1)
    case Leaf(j, _) => Dbl(j)
  }

  function Index(s: Slot): nat {
    match s
    case Addr(i) => i
    case Ind(j) => j
    case Dbl(j) => j
    case Leaf(_, k) => k
  }

  function Entry(fs: Fs, b: nat, i: nat): uint32
    requires WellFormed(fs) && i < NINDIRECT
  {
    if b == 0 || b >= FSSIZE then 0 else Word(fs.blocks[b], i)
  }

  /** The block number in a slot of inode `ino`; 0 if there is none. */
  function Ptr(fs: Fs, ino: nat, s: Slot): uint32
    requires WellFormed(fs) && ino < NINODES && ValidSlot(s)
    decreases if s.Addr? then 0 else if s.Leaf? then 2 else 1
  {
    if s.Addr? then fs.inodes[ino].addrs[s.i] else Entry(fs, Ptr(fs, ino, Parent(s)), Index(s))
  }

  /** The slot of the bn-th block of a file. */
  function DataSlot(bn: nat): (s: Slot)
    requires bn < MAXFILE
    ensures ValidSlot(s)
  {
    if bn < NDIRECT then Addr(bn)
    else if bn < NDIRECT + NINDIRECT then Ind(bn - NDIRECT)
    else Leaf((bn - NDIRECT - NINDIRECT) / NINDIRECT, (bn - NDIRECT - NINDIRECT) % NINDIRECT)
  }

  /** Slots of file data, as opposed to slots of tables. */
  predicate IsData(s: Slot) {
    (s.Addr? && s.i < NDIRECT) || s.Ind? || s.Leaf?
  }

  lemma DataSlotInjective(bn: nat, bm: nat)
    requires bn < MAXFILE && bm < MAXFILE && DataSlot(bn) == DataSlot(bm)
    ensures bn == bm
  {
  }

  // ---------------------------------------------------------------- ownership

  predicate SlotOk(fs: Fs, ino: nat, s: Slot)
    requires WellFormed(fs) && ino < NINODES && ValidSlot(s)
  {
    var p := Ptr(fs, ino, s);
    p != 0 ==> NMETA <= p < FSSIZE && fs.bits[p]
  }

  /** Every pointer is to a data block the bitmap says is in use. */
  ghost predicate InUse(fs: Fs)
    requires WellFormed(fs)
  {
    forall ino: nat, s | ino < NINODES && ValidSlot(s) :: SlotOk(fs, ino, s)
  }

  /** No two slots hold the same block. */
  ghost predicate NoSharing(fs: Fs)
    requires WellFormed(fs)
  {
    forall ino: nat, s, ino': nat, s' | ino < NINODES && ValidSlot(s) && ino' < NINODES && ValidSlot(s') ::
      Ptr(fs, ino, s) != 0 && Ptr(fs, ino, s) == Ptr(fs, ino', s') ==> ino == ino' && s == s'
  }

  ghost predicate Owned(fs: Fs, b: nat)
    requires WellFormed(fs)
  {
    exists ino: nat, s :: ino < NINODES && ValidSlot(s) && Ptr(fs, ino, s) == b
  }

  /** A marked bit of the disk is a metadata block or one somebody owns: nothing leaks. */
  ghost predicate NoLeak(fs: Fs)
    requires WellFormed(fs)
  {
    forall b: nat | b < FSSIZE :: fs.bits[b] <==> b < NMETA || Owned(fs, b)
  }

  ghost predicate Own(fs: Fs) {
    WellFormed(fs) && InUse(fs) && NoSharing(fs) && NoLeak(fs)
  }

  // ---------------------------------------------------------------- contents

  /** Byte `off` of a file; a block that was never allocated reads as zeros. */
  function ByteAt(fs: Fs, ino: nat, off: nat): byte
    requires WellFormed(fs) && ino < NINODES && off < MAXFILE * BSIZE
  {
    var p := Ptr(fs, ino, DataSlot(off / BSIZE));
    if p == 0 || p >= FSSIZE then 0 else fs.blocks[p][off % BSIZE]
  }

  /** Two file systems hold the same bytes in every file, at every offset. */
  ghost predicate SameBytes(fs: Fs, fs': Fs)
    requires WellFormed(fs) && WellFormed(fs')
  {
    forall ino: nat, off: nat | ino < NINODES && off < MAXFILE * BSIZE ::
      ByteAt(fs', ino, off) == ByteAt(fs, ino, off)
  }

  /** Pointers that exist stay. */
  ghost predicate Grows(fs: Fs, fs': Fs)
    requires WellFormed(fs) && WellFormed(fs')
  {
    forall ino: nat, s | ino < NINODES && ValidSlot(s) ::
      Ptr(fs, ino, s) != 0 ==> Ptr(fs', ino, s) == Ptr(fs, ino, s)
  }

  /** The plain byte sequence a file stands for. */
  function Contents(fs: Fs, ino: nat): (c: seq<byte>)
    requires WellFormed(fs) && ino < NINODES && fs.inodes[ino].size <= MAXFILE * BSIZE
    ensures |c| == fs.inodes[ino].size
  {
    seq(fs.inodes[ino].size, off requires 0 <= off < fs.inodes[ino].size => ByteAt(fs, ino, off))
  }

  // ---------------------------------------------------------------- linking a fresh block

  /** What balloc does to the disk: mark block b and zero it. */
  function Marked(fs: Fs, b: nat): Fs
    requires WellFormed(fs) && b < FSSIZE
  {
    fs.(bits := fs.bits[b := true], blocks := fs.blocks[b := ZeroBlock()])
  }

  function SetAddr(fs: Fs, ino: nat, i: nat, b: uint32): Fs
    requires WellFormed(fs) && ino < NINODES && i < NDIRECT + 2
  {
    fs.(inodes := fs.inodes[ino := fs.inodes[ino].(addrs := fs.inodes[ino].addrs[i := b])])
  }

  function SetEntry(fs: Fs, t: nat, i: nat, b: uint32): Fs
    requires WellFormed(fs) && t < FSSIZE && i < NINDIRECT
  {
    fs.(blocks := fs.blocks[t := PutWord(fs.blocks[t], i, b)])
  }

  /** The file system after a fresh block b has been put into the empty slot s. */
  function Linked(fs: Fs, ino: nat, s: Slot, b: uint32): (r: Fs)
    requires WellFormed(fs) && ino < NINODES && ValidSlot(s) && b < FSSIZE
    requires !s.Addr? ==> Ptr(fs, ino, Parent(s)) < FSSIZE
    ensures WellFormed(r) && (forall i :: 0 <= i < NINODES ==> r.inodes[i].size == fs.inodes[i].size)
  {
    if s.Addr? then SetAddr(Marked(fs, b), ino, s.i, b)
    else
      var t := Ptr(fs, ino, Parent(s));
      WordPutWord(Marked(fs, b).blocks[t], Index(s), b, 0);
      SetEntry(Marked(fs, b), t, Index(s), b)
  }

  /** b is free, s is empty, and s is in the inode or in a table that exists. */
  ghost predicate CanLink(fs: Fs, ino: nat, s: Slot, b: uint32) {
    && Own(fs) && ino < NINODES && ValidSlot(s)
    && b < FSSIZE && !fs.bits[b]
    && Ptr(fs, ino, s) == 0
    && (!s.Addr? ==> Ptr(fs, ino, Parent(s)) != 0)
  }

  lemma TableInRange(fs: Fs, ino: nat, s: Slot)
    requires Own(fs) && ino < NINODES && ValidSlot(s) && Ptr(fs, ino, s) != 0
    ensures NMETA <= Ptr(fs, ino, s) < FSSIZE && fs.bits[Ptr(fs, ino, s)]
  {
    assert SlotOk(fs, ino, s);
  }

  lemma ParentValid(s: Slot)
    requires ValidSlot(s) && !s.Addr?
    ensures ValidSlot(Parent(s)) && !IsData(Parent(s))
  {
  }

  /** Linking changes that one pointer and no other, of any file. */
  lemma {:induction false} LinkedPtr(fs: Fs, ino: nat, s: Slot, b: uint32, ino': nat, s': Slot)
    requires CanLink(fs, ino, s, b) && ino' < NINODES && ValidSlot(s')
    requires !s.Addr? ==> Ptr(fs, ino, Parent(s)) < FSSIZE
    ensures Ptr(Linked(fs, ino, s, b), ino', s') == if ino' == ino && s' == s then b else Ptr(fs, ino', s')
    decreases if s'.Addr? then 0 else if s'.Leaf? then 2 else 1
  {
    hide PutWord, Word, NoLeak;
    var r := Linked(fs, ino, s, b);
    if !s'.Addr? {
      ParentValid(s');
      LinkedPtr(fs, ino, s, b, ino', Parent(s'));
      var p := Ptr(fs, ino', Parent(s'));
      if p != 0 {
        TableInRange(fs, ino', Parent(s'));
        if !s.Addr? {
          ParentValid(s);
          WordPutWord(Marked(fs, b).blocks[Ptr(fs, ino, Parent(s))], Index(s), b, Index(s'));
        }
      } else if !s.Addr? {
        TableInRange(fs, ino, Parent(s));
      }
    }
  }

  /** The pointers after linking, all at once. */
  ghost predicate PtrsLinked(fs: Fs, r: Fs, ino: nat, s: Slot, b: uint32)
    requires WellFormed(fs) && WellFormed(r)
  {
    forall ino': nat, s' | ino' < NINODES && ValidSlot(s') ::
      Ptr(r, ino', s') == if ino' == ino && s' == s then b else Ptr(fs, ino', s')
  }

  lemma LinkedPtrs(fs: Fs, ino: nat, s: Slot, b: uint32)
    requires CanLink(fs, ino, s, b)
    ensures !s.Addr? ==> Ptr(fs, ino, Parent(s)) < FSSIZE
    ensures PtrsLinked(fs, Linked(fs, ino, s, b), ino, s, b)
  {
    if !s.Addr? { ParentValid(s); TableInRange(fs, ino, Parent(s)); }
    forall ino': nat, s' | ino' < NINODES && ValidSlot(s')
      ensures Ptr(Linked(fs, ino, s, b), ino', s') == if ino' == ino && s' == s then b else Ptr(fs, ino', s')
    {
      LinkedPtr(fs, ino, s, b, ino', s');
    }
  }

  /** Ownership only depends on pointers and bits. */
  lemma LinkedOwn(fs: Fs, r: Fs, ino: nat, s: Slot, b: uint32)
    requires Own(fs) && WellFormed(r) && ino < NINODES && ValidSlot(s) && b < FSSIZE
    requires !fs.bits[b] && Ptr(fs, ino, s) == 0
    requires PtrsLinked(fs, r, ino, s, b) && r.bits == fs.bits[b := true]
    ensures Own(r)
  {
    hide Ptr;
    assert NMETA <= b;
    forall ino': nat, s' | ino' < NINODES && ValidSlot(s') ensures SlotOk(r, ino', s') {
      assert SlotOk(fs, ino', s');
    }
    forall i: nat, t, i': nat, t' | i < NINODES && ValidSlot(t) && i' < NINODES && ValidSlot(t')
                                    && Ptr(r, i, t) != 0 && Ptr(r, i, t) == Ptr(r, i', t')
      ensures i == i' && t == t'
    {
      assert SlotOk(fs, i, t) && SlotOk(fs, i', t');
    }
    forall d: nat | d < FSSIZE ensures r.bits[d] <==> d < NMETA || Owned(r, d) {
      if d == b {
        assert Ptr(r, ino, s) == b;
      } else if fs.bits[d] && d >= NMETA {
        var i: nat, t :| i < NINODES && ValidSlot(t) && Ptr(fs, i, t) == d;
        assert Ptr(r, i, t) == d;
      } else if Owned(r, d) {
        var i: nat, t :| i < NINODES && ValidSlot(t) && Ptr(r, i, t) == d;
        assert Ptr(fs, i, t) == d || d == b;
        assert d != 0 ==> SlotOk(fs, i, t);
      }
    }
  }

  /** Linking a fresh block into an empty slot keeps ownership and every byte of every file. */
  lemma LinkKeeps(fs: Fs, ino: nat, s: Slot, b: uint32)
    requires CanLink(fs, ino, s, b)
    ensures !s.Addr? ==> Ptr(fs, ino, Parent(s)) < FSSIZE
    ensures var r := Linked(fs, ino, s, b);
            Own(r) && Grows(fs, r) && SameBytes(fs, r) && Ptr(r, ino, s) == b && NMETA <= b
  {
    LinkedPtrs(fs, ino, s, b);
    var r := Linked(fs, ino, s, b);
    LinkedOwn(fs, r, ino, s, b);
    TableInRange(r, ino, s);
    forall ino': nat, off: nat | ino' < NINODES && off < MAXFILE * BSIZE
      ensures ByteAt(r, ino', off) == ByteAt(fs, ino', off)
    {
      LinkedByte(fs, ino, s, b, ino', off);
    }
  }

  lemma LinkedByte(fs: Fs, ino: nat, s: Slot, b: uint32, ino': nat, off: nat)
    requires CanLink(fs, ino, s, b) && ino' < NINODES && off < MAXFILE * BSIZE
    requires !s.Addr? ==> Ptr(fs, ino, Parent(s)) < FSSIZE
    requires PtrsLinked(fs, Linked(fs, ino, s, b), ino, s, b)
    ensures ByteAt(Linked(fs, ino, s, b), ino', off) == ByteAt(fs, ino', off)
  {
    hide Ptr, InUse, NoLeak, NoSharing;
    if !s.Addr? { ParentValid(s); TableInRange(fs, ino, Parent(s)); }
    var d := DataSlot(off / BSIZE);
    var r := Linked(fs, ino, s, b);
    var p := Ptr(fs, ino', d);
    assert Ptr(r, ino', d) == if ino' == ino && d == s then b else p;
    if p != 0 {
      DataNotTable(fs, ino', d, ino, s);
      assert r.blocks[p] == fs.blocks[p];
    }
  }

  /** A data block is never the table that holds a slot, nor free. */
  lemma DataNotTable(fs: Fs, ino: nat, d: Slot, ino': nat, s: Slot)
    requires Own(fs) && ino < NINODES && ino' < NINODES && ValidSlot(d) && ValidSlot(s) && IsData(d)
    requires Ptr(fs, ino, d) != 0
    ensures NMETA <= Ptr(fs, ino, d) < FSSIZE && fs.bits[Ptr(fs, ino, d)]
    ensures !s.Addr? ==> Ptr(fs, ino', Parent(s)) != Ptr(fs, ino, d)
  {
    TableInRange(fs, ino, d);
    if !s.Addr? { ParentValid(s); }
  }

  // ---------------------------------------------------------------- writing file data

  /** The file system after block a has got new contents. */
  function Stored(fs: Fs, a: nat, data: Block): (r: Fs)
    requires WellFormed(fs) && a < FSSIZE && |data| == BSIZE
    ensures WellFormed(r)
  {
    fs.(blocks := fs.blocks[a := data])
  }

  /** Overwriting a data block of one file moves no pointer. */
  lemma {:induction false} StoredPtr(fs: Fs, ino: nat, d: Slot, data: Block, ino': nat, s': Slot)
    requires Own(fs) && ino < NINODES && ValidSlot(d) && IsData(d) && Ptr(fs, ino, d) != 0 && |data| == BSIZE
    requires ino' < NINODES && ValidSlot(s')
    ensures Ptr(fs, ino, d) < FSSIZE
    ensures Ptr(Stored(fs, Ptr(fs, ino, d), data), ino', s') == Ptr(fs, ino', s')
    decreases if s'.Addr? then 0 else if s'.Leaf? then 2 else 1
  {
    DataNotTable(fs, ino, d, ino', s');
    if !s'.Addr? {
      ParentValid(s');
      StoredPtr(fs, ino, d, data, ino', Parent(s'));
    }
  }

  /** Ownership only depends on pointers and bits. */
  lemma SamePtrsOwn(fs: Fs, r: Fs)
    requires Own(fs) && WellFormed(r) && r.bits == fs.bits
    requires forall ino: nat, s | ino < NINODES && ValidSlot(s) :: Ptr(r, ino, s) == Ptr(fs, ino, s)
    ensures Own(r)
  {
    hide Ptr;
    forall ino: nat, s | ino < NINODES && ValidSlot(s) ensures SlotOk(r, ino, s) {
      assert SlotOk(fs, ino, s);
    }
    forall d: nat | d < FSSIZE ensures r.bits[d] <==> d < NMETA || Owned(r, d) {
      if Owned(r, d) {
        var i: nat, t :| i < NINODES && ValidSlot(t) && Ptr(r, i, t) == d;
        assert Ptr(fs, i, t) == d;
      }
    }
  }

  /** Overwriting the bn-th block of a file changes exactly the bytes of that block of that file. */
  lemma StoredKeeps(fs: Fs, ino: nat, bn: nat, data: Block)
    requires Own(fs) && ino < NINODES && bn < MAXFILE && Ptr(fs, ino, DataSlot(bn)) != 0 && |data| == BSIZE
    ensures Ptr(fs, ino, DataSlot(bn)) < FSSIZE
    ensures var r := Stored(fs, Ptr(fs, ino, DataSlot(bn)), data);
            && Own(r)
            && (forall i: nat, s | i < NINODES && ValidSlot(s) :: Ptr(r, i, s) == Ptr(fs, i, s))
            && (forall i: nat, off: nat | i < NINODES && off < MAXFILE * BSIZE :: ByteAt(r, i, off) ==
                 if i == ino && off / BSIZE == bn then data[off % BSIZE] else ByteAt(fs, i, off))
  {
    hide Ptr, InUse, NoLeak;
    var d := DataSlot(bn);
    DataNotTable(fs, ino, d, ino, Addr(0));
    var r := Stored(fs, Ptr(fs, ino, d), data);
    forall i: nat, s | i < NINODES && ValidSlot(s) ensures Ptr(r, i, s) == Ptr(fs, i, s) {
      StoredPtr(fs, ino, d, data, i, s);
    }
    SamePtrsOwn(fs, r);
    forall i: nat, off: nat | i < NINODES && off < MAXFILE * BSIZE ensures ByteAt(r, i, off) ==
                 if i == ino && off / BSIZE == bn then data[off % BSIZE] else ByteAt(fs, i, off)
    {
      var e := DataSlot(off / BSIZE);
      assert Ptr(r, i, e) == Ptr(fs, i, e);
      if Ptr(fs, i, e) == Ptr(fs, ino, d) {
        DataSlotInjective(off / BSIZE, bn);
      }
    }
  }

  // ---------------------------------------------------------------- freeing a file

  /** b is one of the blocks of inode `ino`, data or table. */
  ghost predicate OwnedBy(fs: Fs, ino: nat, b: nat)
    requires WellFormed(fs) && ino < NINODES
  {
    b != 0 && exists s :: ValidSlot(s) && Ptr(fs, ino, s) == b
  }

  function EmptyInode(): (e: Inode)
    ensures |e.addrs| == NDIRECT + 2 && (forall i :: 0 <= i < NDIRECT + 2 ==> e.addrs[i] == 0) && e.size == 0
  {
    Inode([0, 0, 0, 0, 0, 0, 0, 0, 0, 0, 0, 0], 0)
  }

  /** What itrunc promises: the bits of exactly the blocks the inode owned are cleared, the inode is
    empty, and nothing else is touched. */
  ghost predicate Truncated(fs: Fs, r: Fs, ino: nat)
    requires WellFormed(fs) && WellFormed(r) && ino < NINODES
  {
    && r.blocks == fs.blocks
    && r.inodes == fs.inodes[ino := EmptyInode()]
    && forall b: nat | b < NBITMAP * BPB :: r.bits[b] <==> fs.bits[b] && !OwnedBy(fs, ino, b)
  }

  lemma {:induction false} TruncatedPtr(fs: Fs, r: Fs, ino: nat, i: nat, s: Slot)
    requires Own(fs) && WellFormed(r) && ino < NINODES && Truncated(fs, r, ino)
    requires i < NINODES && ValidSlot(s)
    ensures Ptr(r, i, s) == if i == ino then 0 else Ptr(fs, i, s)
    decreases if s.Addr? then 0 else if s.Leaf? then 2 else 1
  {
    if !s.Addr? { TruncatedPtr(fs, r, ino, i, Parent(s)); }
  }

  /** After itrunc ownership holds again, the inode owns nothing, and every other file has the
    pointers and bytes it had. */
  lemma TruncatedKeeps(fs: Fs, r: Fs, ino: nat)
    requires Own(fs) && WellFormed(r) && ino < NINODES && Truncated(fs, r, ino)
    ensures Own(r) && Contents(r, ino) == []
    ensures forall b: nat :: !OwnedBy(r, ino, b)
    ensures forall i: nat, off: nat | i < NINODES && i != ino && off < MAXFILE * BSIZE ::
              ByteAt(r, i, off) == ByteAt(fs, i, off)
  {
    hide Ptr;
    forall i: nat, s | i < NINODES && ValidSlot(s)
      ensures Ptr(r, i, s) == if i == ino then 0 else Ptr(fs, i, s)
    {
      TruncatedPtr(fs, r, ino, i, s);
    }
    forall i: nat, s | i < NINODES && ValidSlot(s) ensures SlotOk(r, i, s) {
      assert SlotOk(fs, i, s);
    }
    forall d: nat | d < FSSIZE ensures r.bits[d] <==> d < NMETA || Owned(r, d) {
      TruncatedBit(fs, r, ino, d);
    }
  }

  lemma TruncatedBit(fs: Fs, r: Fs, ino: nat, d: nat)
    requires Own(fs) && WellFormed(r) && ino < NINODES && Truncated(fs, r, ino) && d < FSSIZE
    requires forall i: nat, s | i < NINODES && ValidSlot(s) ::
               Ptr(r, i, s) == if i == ino then 0 else Ptr(fs, i, s)
    ensures r.bits[d] <==> d < NMETA || Owned(r, d)
  {
    hide Ptr;
    if d < NMETA {
      assert forall s' | ValidSlot(s') :: SlotOk(fs, ino, s');
    } else if r.bits[d] {
      var i: nat, s :| i < NINODES && ValidSlot(s) && Ptr(fs, i, s) == d;
      assert i != ino;
      assert Ptr(r, i, s) == d;
    }
  }
}
