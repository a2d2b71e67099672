/** What the blocks of the disk mean to the file system: bitmap, inodes and data as kernel/fs.c lays them out, and
  what log_write makes of them. */
module DiskImage {
  import opened Layout
  import opened FileBytes
  import J = Journal

  /** The i-th word of a block, as the Journal keeps blocks. */
  function Uint(data: J.Block, i: nat): uint32 {
    if i < |data| then data[i] % 0x1_0000_0000 else 0
  }

  /** The k-th byte of a word, lowest first. */
  function ByteOf(w: uint32, k: nat): byte {
    if k == 0 then w % 0x100 else if k == 1 then w / 0x100 % 0x100
    else if k == 2 then w / 0x1_0000 % 0x100 else w / 0x100_0000
  }

  function BytesOf(data: J.Block): (b: Block)
    ensures |b| == BSIZE
  {
    seq(BSIZE, i requires 0 <= i < BSIZE => ByteOf(Uint(data, i / 4), i % 4))
  }

  function Power(n: nat): (p: nat)
    ensures p > 0
  {
    if n == 0 then 1 else 2 * Power(n - 1)
  }

  /** The i-th bit of a bitmap block. */
  function BitOf(data: J.Block, i: nat): bool {
    Uint(data, i / 32) / Power(i % 32) % 2 == 1
  }

  const DINODE: nat := 32        // words in a struct dinode, of 128 bytes

  /** The k-th struct dinode of a block: after type, major, minor and nlink its size, then its pointers. */
  function InodeOf(data: J.Block, k: nat): (n: Inode)
    ensures |n.addrs| == NDIRECT + 2
  {
    Inode(seq<uint32>(NDIRECT + 2, j requires 0 <= j < NDIRECT + 2 => Uint(data, DINODE * k + 3 + j)),
          Uint(data, DINODE * k + 2))
  }

  function BlockAt(d: J.Disk, b: nat): J.Block {
    if b < |d| then d[b] else []
  }

  function DataOf(d: J.Disk, b: nat): (r: Block)
    ensures |r| == BSIZE
  {
    if b < NMETA then ZeroBlock() else BytesOf(BlockAt(d, b))
  }

  function DataBlocks(d: J.Disk): (s: seq<Block>)
    ensures |s| == FSSIZE && forall b :: 0 <= b < FSSIZE ==> |s[b]| == BSIZE && s[b] == DataOf(d, b)
  {
    seq(FSSIZE, b requires 0 <= b < FSSIZE => DataOf(d, b))
  }

  function Inodes(d: J.Disk): (s: seq<Inode>)
    ensures |s| == NINODES && forall i :: 0 <= i < NINODES ==>
              |s[i].addrs| == NDIRECT + 2 && s[i] == InodeOf(BlockAt(d, InodeBlock(i)), i % IPB)
  {
    seq(NINODES, i requires 0 <= i < NINODES => InodeOf(BlockAt(d, InodeBlock(i)), i % IPB))
  }

  /** The file system a disk holds. */
  function Image(d: J.Disk): (fs: Fs)
    ensures WellFormed(fs)
  {
    Fs(seq(NBITMAP * BPB, i requires 0 <= i < NBITMAP * BPB => BitOf(BlockAt(d, BMAPSTART + i / BPB), i % BPB)),
       DataBlocks(d), Inodes(d))
  }

  /** Block b with these contents says of the file system what it should. */
  ghost predicate Tells(fs: Fs, b: nat, data: J.Block)
    requires WellFormed(fs)
  {
    && (forall i: nat | i < NBITMAP * BPB && BMAPSTART + i / BPB == b :: BitOf(data, i % BPB) == fs.bits[i])
    && (forall i: nat | i < NINODES && InodeBlock(i) == b :: InodeOf(data, i % IPB) == fs.inodes[i])
    && (NMETA <= b < FSSIZE ==> BytesOf(data) == fs.blocks[b])
  }

  /** All blocks behind the log area do. */
  ghost predicate Holds(d: J.Disk, fs: Fs) {
    WellFormed(fs) && |d| == FSSIZE && forall b: nat | INODESTART <= b < FSSIZE :: Tells(fs, b, d[b])
  }

  /** The file system does not depend on the log area. */
  lemma OfHome(d: J.Disk, e: J.Disk)
    requires |d| == |e| == FSSIZE && J.SameHome(d, e)
    ensures Image(d) == Image(e)
  {
    hide BitOf, BytesOf, InodeOf, ZeroBlock;
    forall b: nat | INODESTART <= b < FSSIZE ensures d[b] == e[b] { assert J.Home(b); }
    forall i: nat | i < NINODES ensures INODESTART <= InodeBlock(i) < FSSIZE {}
  }

  /** The image of such a disk is the file system, the blocks before the data apart. */
  lemma ImageIs(d: J.Disk, fs: Fs)
    requires Holds(d, fs)
    ensures var im := Image(d);
            && im.bits == fs.bits && im.inodes == fs.inodes
            && forall b :: NMETA <= b < FSSIZE ==> im.blocks[b] == fs.blocks[b]
  {
    hide BitOf, BytesOf, InodeOf, ZeroBlock;
    var im := Image(d);
    forall i: nat | i < NBITMAP * BPB ensures im.bits[i] == fs.bits[i] {
      assert Tells(fs, BMAPSTART + i / BPB, d[BMAPSTART + i / BPB]);
    }
    forall i: nat | i < NINODES ensures im.inodes[i] == fs.inodes[i] {
      assert Tells(fs, InodeBlock(i), d[InodeBlock(i)]);
    }
    forall b: nat | NMETA <= b < FSSIZE ensures im.blocks[b] == fs.blocks[b] {
      assert Tells(fs, b, d[b]);
    }
  }

  lemma {:induction false} SamePtr(fs: Fs, im: Fs, i: nat, s: Slot)
    requires Own(fs) && WellFormed(im) && im.inodes == fs.inodes && i < NINODES && ValidSlot(s)
    requires forall b :: NMETA <= b < FSSIZE ==> im.blocks[b] == fs.blocks[b]
    ensures Ptr(im, i, s) == Ptr(fs, i, s)
    decreases if s.Addr? then 0 else if s.Leaf? then 2 else 1
  {
    if !s.Addr? {
      SamePtr(fs, im, i, Parent(s));
      if Ptr(fs, i, Parent(s)) != 0 { TableInRange(fs, i, Parent(s)); }
    }
  }

  lemma ImageOwned(d: J.Disk, fs: Fs)
    requires Holds(d, fs) && Own(fs)
    ensures Own(Image(d))
  {
    hide Image;
    ImageIs(d, fs);
    forall i: nat, s | i < NINODES && ValidSlot(s) ensures Ptr(Image(d), i, s) == Ptr(fs, i, s) {
      SamePtr(fs, Image(d), i, s);
    }
    SamePtrsOwn(fs, Image(d));
  }

  // ---------------------------------------------------------------- every file system has such blocks

  /** The word of n bits from `base` on. */
  function BitsWord(bits: seq<bool>, base: nat, n: nat): (w: nat)
    requires base + n <= |bits|
    ensures w < Power(n)
  {
    if n == 0 then 0 else BitsWord(bits, base, n - 1) + if bits[base + n - 1] then Power(n - 1) else 0
  }

  lemma {:induction false} PowerSplit(j: nat, n: nat)
    requires j <= n
    ensures Power(n) == Power(j) * Power(n - j)
    decreases n - j
  {
    if j < n { PowerSplit(j + 1, n); }
  }

  lemma {:induction false} MulGrows(p: nat, a: nat, b: nat)
    requires a <= b
    ensures p * a <= p * b
  {
    assert p * (b - a) >= 0;
    assert p * b == p * a + p * (b - a);
  }

  lemma Distributes(p: nat, a: nat)
    ensures p * (a + 1) == p * a + p
  {
  }

  lemma DivIs(x: nat, p: nat, q: nat)
    requires p * q <= x < p * q + p
    ensures x / p == q
  {
    var d := x / p;
    assert x == p * d + x % p;
    Distributes(p, d);
    Distributes(p, q);
    if d < q { MulGrows(p, d + 1, q); }
    if d > q { MulGrows(p, q + 1, d); }
  }

  lemma DivPlus(x: nat, p: nat, q: nat)
    requires p > 0
    ensures (x + p * q) / p == x / p + q
  {
    var d, r := x / p, x % p;
    assert x == p * d + r;
    assert p * (d + q) == p * d + p * q;
    DivIs(x + p * q, p, d + q);
  }

  lemma PowerNext(n: nat)
    ensures Power(n + 1) == 2 * Power(n) && Power(0) == 1 && Power(n) > 0
  {
  }

  lemma Associates(a: nat, b: nat, c: nat)
    ensures a * b * c == a * (b * c)
  {
  }

  lemma TopEven(x: nat, p: nat, h: nat, c: nat)
    requires p > 0
    ensures (x + p * (2 * h) * c) / p % 2 == x / p % 2
  {
    Associates(p, 2 * h, c);
    DivPlus(x, p, 2 * h * c);
    Associates(2, h, c);
    Even(x / p, h * c);
  }

  lemma TopOne(x: nat, p: nat, c: nat)
    requires x < p && c <= 1
    ensures (x + p * c) / p % 2 == c
  {
    DivPlus(x, p, c);
    DivIs(x, p, 0);
  }

  /** One bit more on top. */
  lemma TopBit(x: nat, n: nat, c: nat, j: nat)
    requires x < Power(n) && c <= 1 && j <= n
    ensures (x + Power(n) * c) / Power(j) % 2 == if j < n then x / Power(j) % 2 else c
  {
    hide Power;
    PowerNext(j);
    if j < n {
      PowerSplit(j, n);
      PowerNext(n - j - 1);
      TopEven(x, Power(j), Power(n - j - 1), c);
    } else {
      TopOne(x, Power(n), c);
    }
  }

  lemma Even(x: nat, y: nat)
    ensures (x + 2 * y) % 2 == x % 2
  {
  }

  lemma {:induction false} BitsWordAt(bits: seq<bool>, base: nat, n: nat, j: nat)
    requires base + n <= |bits| && j < n
    ensures BitsWord(bits, base, n) / Power(j) % 2 == 1 <==> bits[base + j]
  {
    hide Power;
    TopBit(BitsWord(bits, base, n - 1), n - 1, if bits[base + n - 1] then 1 else 0, j);
    if j < n - 1 { BitsWordAt(bits, base, n - 1, j); }
  }

  lemma PowerWord()
    ensures Power(32) == 0x1_0000_0000
  {
    assert Power(8) == 0x100;
    PowerSplit(8, 16);
    PowerSplit(16, 32);
  }

  function InodeWord(fs: Fs, b: nat, i: nat): uint32
    requires WellFormed(fs) && INODESTART <= b
  {
    var k, w := (b - INODESTART) * IPB + i / DINODE, i % DINODE;
    if k >= NINODES then 0
    else if w == 2 then fs.inodes[k].size
    else if 3 <= w < NDIRECT + 5 then fs.inodes[k].addrs[w - 3]
    else 0
  }

  /** A block that says of the file system what it should. */
  function Encoded(fs: Fs, b: nat): (data: J.Block)
    requires WellFormed(fs) && INODESTART <= b < FSSIZE
    ensures |data| == J.WORDS
  {
    seq(J.WORDS, i requires 0 <= i < J.WORDS =>
          if b < BMAPSTART then InodeWord(fs, b, i)
          else if b < NMETA then BitsWord(fs.bits, (b - BMAPSTART) * BPB + 32 * i, 32)
          else Word(fs.blocks[b], i))
  }

  lemma EncodedBit(fs: Fs, i: nat)
    requires WellFormed(fs) && i < NBITMAP * BPB
    ensures BitOf(Encoded(fs, BMAPSTART + i / BPB), i % BPB) == fs.bits[i]
  {
    hide Power, BitsWord;
    var b, k := BMAPSTART + i / BPB, i % BPB;
    PowerWord();
    assert (b - BMAPSTART) * BPB + 32 * (k / 32) + k % 32 == i;
    assert Uint(Encoded(fs, b), k / 32) == BitsWord(fs.bits, (b - BMAPSTART) * BPB + 32 * (k / 32), 32) by {
      BitsSmall(fs.bits, (b - BMAPSTART) * BPB + 32 * (k / 32));
    }
    BitsWordAt(fs.bits, (b - BMAPSTART) * BPB + 32 * (k / 32), 32, k % 32);
  }

  lemma BitsSmall(bits: seq<bool>, base: nat)
    requires base + 32 <= |bits|
    ensures BitsWord(bits, base, 32) < 0x1_0000_0000
  {
    PowerWord();
    hide Power;
  }

  lemma EncodedWord(fs: Fs, i: nat, w: nat)
    requires WellFormed(fs) && i < NINODES && w < DINODE
    ensures Uint(Encoded(fs, InodeBlock(i)), DINODE * (i % IPB) + w) ==
            if w == 2 then fs.inodes[i].size
            else if 3 <= w < NDIRECT + 5 then fs.inodes[i].addrs[w - 3] else 0
  {
    var b, at := InodeBlock(i), DINODE * (i % IPB) + w;
    assert at / DINODE == i % IPB && at % DINODE == w;
    assert (b - INODESTART) * IPB + i % IPB == i;
    assert Encoded(fs, b)[at] == InodeWord(fs, b, at);
  }

  lemma EncodedInode(fs: Fs, i: nat)
    requires WellFormed(fs) && i < NINODES
    ensures InodeOf(Encoded(fs, InodeBlock(i)), i % IPB) == fs.inodes[i]
  {
    var n := InodeOf(Encoded(fs, InodeBlock(i)), i % IPB);
    EncodedWord(fs, i, 2);
    forall j: nat | j < NDIRECT + 2 ensures n.addrs[j] == fs.inodes[i].addrs[j] {
      EncodedWord(fs, i, j + 3);
    }
  }

  lemma EncodedBytes(fs: Fs, b: nat)
    requires WellFormed(fs) && NMETA <= b < FSSIZE
    ensures BytesOf(Encoded(fs, b)) == fs.blocks[b]
  {
    var data, r := Encoded(fs, b), BytesOf(Encoded(fs, b));
    forall k: nat | k < BSIZE ensures r[k] == fs.blocks[b][k] {
      var i := k / 4;
      assert Uint(data, i) == Word(fs.blocks[b], i);
      WordBytes(fs.blocks[b], i);
    }
  }

  lemma WordBytes(b: Block, i: nat)
    requires |b| == BSIZE && i < NINDIRECT
    ensures forall k: nat | k < 4 :: ByteOf(Word(b, i), k) == b[4 * i + k]
  {
    var b0: int, b1: int, b2: int, b3: int := b[4 * i], b[4 * i + 1], b[4 * i + 2], b[4 * i + 3];
    FourBytes(b0, b1, b2, b3);
  }

  lemma FourBytes(b0: nat, b1: nat, b2: nat, b3: nat)
    requires b0 < 256 && b1 < 256 && b2 < 256 && b3 < 256
    ensures var w := b0 + 0x100 * b1 + 0x1_0000 * b2 + 0x100_0000 * b3;
            && w < 0x1_0000_0000
            && ByteOf(w, 0) == b0 && ByteOf(w, 1) == b1 && ByteOf(w, 2) == b2 && ByteOf(w, 3) == b3
  {
    var w := b0 + 0x100 * b1 + 0x1_0000 * b2 + 0x100_0000 * b3;
    assert w / 0x100 == b1 + 0x100 * b2 + 0x1_0000 * b3;
    assert w / 0x1_0000 == b2 + 0x100 * b3;
    assert w / 0x100_0000 == b3;
  }

  lemma EncodedTells(fs: Fs, b: nat)
    requires WellFormed(fs) && INODESTART <= b < FSSIZE
    ensures Tells(fs, b, Encoded(fs, b))
  {
    hide BitOf, InodeOf, BytesOf, Encoded;
    forall i: nat | i < NBITMAP * BPB && BMAPSTART + i / BPB == b ensures BitOf(Encoded(fs, b), i % BPB) == fs.bits[i] {
      EncodedBit(fs, i);
    }
    forall i: nat | i < NINODES && InodeBlock(i) == b ensures InodeOf(Encoded(fs, b), i % IPB) == fs.inodes[i] {
      EncodedInode(fs, i);
    }
    if NMETA <= b { EncodedBytes(fs, b); }
  }

  // ---------------------------------------------------------------- replaying what a transaction logged

  /** What the writes leave in block b, if they write it. */
  function Left(ws: seq<J.Write>, b: nat, data: J.Block): J.Block {
    if ws == [] then data
    else if ws[|ws| - 1].block == b then ws[|ws| - 1].data
    else Left(ws[..|ws| - 1], b, data)
  }

  predicate Writes(ws: seq<J.Write>, b: nat) {
    exists i :: 0 <= i < |ws| && ws[i].block == b
  }

  lemma {:induction false} ReplayAt(d: J.Disk, ws: seq<J.Write>, b: nat)
    requires b < |d|
    ensures |J.Replay(d, ws)| == |d| && J.Replay(d, ws)[b] == Left(ws, b, d[b])
  {
    if ws != [] { ReplayAt(d, ws[..|ws| - 1], b); }
  }

  lemma {:induction false} LeftIs(ws: seq<J.Write>, b: nat, data: J.Block, other: J.Block)
    ensures if Writes(ws, b) then Left(ws, b, data) == Left(ws, b, other) else Left(ws, b, data) == data
  {
    if ws != [] {
      var before := ws[..|ws| - 1];
      LeftIs(before, b, data, other);
      if Writes(ws, b) && ws[|ws| - 1].block != b {
        var i :| 0 <= i < |ws| && ws[i].block == b;
        assert before[i].block == b;
      }
      if Writes(before, b) {
        var i :| 0 <= i < |before| && before[i].block == b;
        assert ws[i].block == b;
      }
    }
  }

  /** The log_writes of a transaction: every block it was given, in the end with what it is to hold, and no other. */
  ghost predicate Carries(ws: seq<J.Write>, t: Txn) {
    && WellFormed(t.before) && WellFormed(t.after)
    && (forall b: nat | INODESTART <= b < FSSIZE && b in t.logged :: Writes(ws, b))
    && (forall b: nat | INODESTART <= b < FSSIZE && Writes(ws, b) :: Tells(t.after, b, Left(ws, b, [])))
  }

  /** There are such log_writes for every transaction. */
  lemma {:induction false} WritesFor(fs: Fs, log: set<nat>, op: nat) returns (ws: seq<J.Write>)
    requires WellFormed(fs)
    ensures forall b: nat | INODESTART <= b < FSSIZE :: Writes(ws, b) <==> b in log
    ensures forall b: nat | INODESTART <= b < FSSIZE && b in log :: Left(ws, b, []) == Encoded(fs, b)
    decreases log
  {
    hide Encoded;
    ws := [];
    if log != {} {
      var c :| c in log;
      ws := WritesFor(fs, log - {c}, op);
      if INODESTART <= c < FSSIZE {
        var more := ws + [J.Write(op, c, Encoded(fs, c))];
        forall b: nat | INODESTART <= b < FSSIZE ensures Writes(more, b) <==> b in log {
          if b == c { assert more[|ws|].block == b; }
          if Writes(ws, b) {
            var i :| 0 <= i < |ws| && ws[i].block == b;
            assert more[i].block == b;
          }
        }
        assert more[..|ws|] == ws;
        ws := more;
      }
    }
  }

  lemma SomeCarry(t: Txn, op: nat) returns (ws: seq<J.Write>)
    requires WellFormed(t.before) && WellFormed(t.after)
    ensures Carries(ws, t)
  {
    hide Encoded, Tells;
    ws := WritesFor(t.after, t.logged, op);
    forall b: nat | INODESTART <= b < FSSIZE && Writes(ws, b) ensures Tells(t.after, b, Left(ws, b, [])) {
      EncodedTells(t.after, b);
    }
  }

  /** Replaying them makes of a disk that holds what was there before one that holds what the call left, because
    the call logs every block it changes. */
  lemma ReplayCarries(d: J.Disk, t: Txn, ws: seq<J.Write>)
    requires Holds(d, t.before) && Covered(t.before, t.after, t.logged) && Carries(ws, t)
    ensures Holds(J.Replay(d, ws), t.after)
  {
    hide BitOf, BytesOf, InodeOf;
    ReplayAt(d, ws, 0);
    var e := J.Replay(d, ws);
    forall b: nat | INODESTART <= b < FSSIZE ensures Tells(t.after, b, e[b]) {
      ReplayAt(d, ws, b);
      LeftIs(ws, b, d[b], []);
      if !Writes(ws, b) {
        assert b !in t.logged && Tells(t.before, b, d[b]);
      }
    }
  }

  lemma {:induction false} ReplayTwice(d: J.Disk, a: seq<J.Write>, b: seq<J.Write>)
    ensures J.Replay(d, a + b) == J.Replay(J.Replay(d, a), b)
  {
    if b == [] {
      assert a + b == a;
    } else {
      assert (a + b)[..|a + b| - 1] == a + b[..|b| - 1];
      ReplayTwice(d, a, b[..|b| - 1]);
    }
  }

  function Flatten(wss: seq<seq<J.Write>>): seq<J.Write> {
    if wss == [] then [] else Flatten(wss[..|wss| - 1]) + wss[|wss| - 1]
  }

  /** The same for transactions one after the other. */
  lemma {:induction false} ReplayHistory(d: J.Disk, fs0: Fs, ts: seq<Txn>, wss: seq<seq<J.Write>>, fs: Fs)
    requires Holds(d, fs0) && History(fs0, ts, fs) && |wss| == |ts|
    requires forall k :: 0 <= k < |ts| ==> Carries(wss[k], ts[k])
    ensures Holds(J.Replay(d, Flatten(wss)), fs)
    decreases |ts|
  {
    if ts != [] {
      var n := |ts| - 1;
      var t := ts[n];
      ReplayHistory(d, fs0, ts[..n], wss[..n], t.before);
      ReplayCarries(J.Replay(d, Flatten(wss[..n])), t, wss[n]);
      ReplayTwice(d, Flatten(wss[..n]), wss[n]);
    }
  }
}
