/** The transactions of kernel/sysfile.c around directories: when create, link, unlink and the last iput return, what
  they do, and how much they give to log_write. Of path lookup only its iputs are modelled: each call starts with the
  inodes it finds, and `drops` are those on the way that iput frees. A result `None` stands for a kernel panic. */
module Calls {
  import opened Wrappers
  import opened Layout
  import opened Paths
  import opened FileBytes
  import opened FileSystem
  import opened Dirents
  import opened DirBlocks
  import E = EntryViews
  import L = Links

  /** begin_op */
  method Begin(fs: FileSystem)
    requires fs.Valid()
    modifies fs`outstanding, fs`logged, fs`begun
    ensures fs.Valid() && fs.outstanding == old(fs.outstanding) + 1 && fs.logged == {}
    ensures fs.begun == fs.DiskView() && fs.Room() == old(fs.RoomIn())
  {
    fs.outstanding, fs.logged, fs.begun := fs.outstanding + 1, {}, fs.DiskView();
    CoveredStart(fs.begun);
  }

  /** end_op */
  method End(fs: FileSystem)
    requires fs.Valid() && fs.outstanding > 0
    modifies fs`outstanding, fs`txns
    ensures fs.Valid() && fs.outstanding == old(fs.outstanding) - 1
    ensures fs.txns == old(fs.txns) + [Txn(fs.begun, fs.logged, fs.DiskView())]
    ensures Covered(fs.begun, fs.DiskView(), fs.logged)
  {
    fs.outstanding, fs.txns := fs.outstanding - 1, fs.txns + [Txn(fs.begun, fs.logged, fs.DiskView())];
  }

  /** iupdate, for what is not modelled of an inode: type and link count. */
  method Update(fs: FileSystem, i: nat)
    requires fs.Valid() && i < NINODES
    modifies fs`dinodes, fs`logged
    ensures fs.Valid() && fs.logged == old(fs.logged) + {InodeBlock(i)}
    ensures fs.dinodes == old(fs.dinodes)[i := fs.inodes[i]] && fs.Room() == old(fs.Room())
  {
    CoveredInode(fs.begun, fs.DiskView(), fs.logged, i, fs.inodes[i]);
    fs.Iupdate(i);
  }

  lemma TruncatedOthers(fs: Fs, r: Fs, ino: nat, i: nat)
    requires Own(fs) && WellFormed(r) && ino < NINODES && i < NINODES && i != ino && Truncated(fs, r, ino)
    requires fs.inodes[i].size <= MAXFILE * BSIZE
    ensures Untouched(fs, r, i)
  {
    forall s | ValidSlot(s) ensures Ptr(r, i, s) == Ptr(fs, i, s) { TruncatedPtr(fs, r, ino, i, s); }
    hide ByteAt, Ptr;
    TruncatedKeeps(fs, r, ino);
    assert |Contents(r, i)| == |Contents(fs, i)|;
  }

  lemma TruncatedRoom(fs: Fs, r: Fs, ino: nat, hint: nat)
    requires WellFormed(fs) && WellFormed(r) && ino < NINODES && Truncated(fs, r, ino)
    ensures |Free(fs.bits, hint)| <= |Free(r.bits, hint)|
  {
    hide OwnedBy;
    Subset(Free(fs.bits, hint), Free(r.bits, hint));
  }

  /** iput: the last reference to an unlinked inode frees it. */
  method Iput(fs: FileSystem, i: nat, last: bool)
    requires fs.Valid() && i < NINODES && fs.outstanding > 0
    modifies fs`bits, fs`inodes, fs`dinodes, fs`logged
    ensures fs.Valid() && fs.logged <= old(fs.logged) + BitmapBlocks() + {InodeBlock(i)}
    ensures !last ==> fs.View() == old(fs.View()) && fs.dinodes == old(fs.dinodes)
    ensures last ==> fs.dinodes[i] == fs.inodes[i] == EmptyInode()
    ensures old(fs.dinodes == fs.inodes) ==> fs.dinodes == fs.inodes
    ensures forall k: nat | k < NINODES && (k != i || !last) :: Untouched(old(fs.View()), fs.View(), k)
    ensures old(GoodDir(fs.View(), i)) ==> GoodDir(fs.View(), i)
    ensures fs.Room() >= old(fs.Room())
  {
    hide InUse, NoSharing, NoLeak, Dense, Ptr, Untouched, Behind, Contents, ByteAt, Free, OwnedBy;
    ghost var fs0 := fs.View();
    if last {
      fs.Itrunc(i);
      Update(fs, i);
      fs.ValidOwns();
      TruncatedRoom(fs0, fs.View(), i, fs.hint);
      forall k: nat | k < NINODES && k != i ensures Untouched(fs0, fs.View(), k) {
        TruncatedOthers(fs0, fs.View(), i, k);
      }
    } else {
      forall k: nat | k < NINODES ensures Untouched(fs0, fs.View(), k) { UntouchedSame(fs0, k); }
    }
  }

  /** The blocks of inodes that a path drops. */
  function DropBlocks(drops: seq<nat>): (s: set<nat>)
    ensures |s| <= |drops|
  {
    if drops == [] then {}
    else
      var s := DropBlocks(drops[..|drops| - 1]);
      AtMost(s, {InodeBlock(drops[|drops| - 1])});
      s + {InodeBlock(drops[|drops| - 1])}
  }

  predicate Passes(drops: seq<nat>, i: nat, j: nat) {
    forall k :: 0 <= k < |drops| ==> drops[k] < NINODES && drops[k] != i && drops[k] != j
  }

  /** The iputs of a path lookup that free an inode. */
  method Walk(fs: FileSystem, drops: seq<nat>, i: nat, j: nat)
    requires fs.Valid() && fs.outstanding > 0 && i < NINODES && j < NINODES && Passes(drops, i, j)
    modifies fs`bits, fs`inodes, fs`dinodes, fs`logged
    ensures fs.Valid() && fs.logged <= old(fs.logged) + BitmapBlocks() + DropBlocks(drops)
    ensures old(fs.dinodes == fs.inodes) ==> fs.dinodes == fs.inodes
    ensures Untouched(old(fs.View()), fs.View(), i) && Untouched(old(fs.View()), fs.View(), j)
    ensures fs.Room() >= old(fs.Room()) && (drops == [] ==> fs.Room() == old(fs.Room()))
  {
    hide InUse, NoSharing, NoLeak, Dense, Ptr, Untouched, Behind, Contents, ByteAt, Free, BitmapBlocks, InodeBlock;
    ghost var fs0 := fs.View();
    UntouchedSame(fs0, i);
    UntouchedSame(fs0, j);
    var k := 0;
    while k < |drops|
      invariant k <= |drops| && fs.Valid() && fs.logged <= old(fs.logged) + BitmapBlocks() + DropBlocks(drops[..k])
      invariant old(fs.dinodes == fs.inodes) ==> fs.dinodes == fs.inodes
      invariant Untouched(fs0, fs.View(), i) && Untouched(fs0, fs.View(), j)
      invariant fs.Room() >= old(fs.Room()) && (k == 0 ==> fs.Room() == old(fs.Room()))
    {
      ghost var fs1 := fs.View();
      Iput(fs, drops[k], true);
      UntouchedTwice(fs0, fs1, fs.View(), i);
      UntouchedTwice(fs0, fs1, fs.View(), j);
      assert drops[..k + 1][..k] == drops[..k];
      k := k + 1;
    }
    assert drops[..k] == drops;
  }

  // ---------------------------------------------------------------- what a call logs

  /** Nothing but the bitmap, the inode blocks of i and j, and the given blocks. */
  predicate Within(log: set<nat>, i: nat, j: nat, extra: set<nat>) {
    log <= BitmapBlocks() + {InodeBlock(i), InodeBlock(j)} + extra
  }

  lemma WithinCount(log: set<nat>, i: nat, j: nat, drops: set<nat>, extra: set<nat>)
    requires Within(log, i, j, drops + extra)
    ensures |log| <= 4 + |extra| + |drops|
  {
    var two := {InodeBlock(i), InodeBlock(j)};
    AtMost(BitmapBlocks(), two);
    AtMost(drops, extra);
    AtMost(BitmapBlocks() + two, drops + extra);
    Subset(log, BitmapBlocks() + two + (drops + extra));
  }

  // ---------------------------------------------------------------- create

  /** The entries "." and ".." of a new directory, both in its first block. */
  method Dots(fs: FileSystem, ip: nat, dp: nat) returns (ok: bool, ghost extra: set<nat>)
    requires fs.Valid() && 0 < ip < NINODES && 0 < dp < NINODES && fs.inodes[ip] == EmptyInode()
    modifies fs`bits, fs`blocks, fs`inodes, fs`dinodes, fs`hint, fs`logged
    ensures ok <==> old(fs.Room()) > 0
    ensures ok ==> fs.Valid() && fs.logged <= old(fs.logged) + BitmapBlocks() + {InodeBlock(ip)} + extra && |extra| <= 1
    ensures ok ==> Contents(fs.View(), ip) == Entered(Entered([], DOT, ip), DOTDOT, dp)
    ensures ok ==> (old(fs.dinodes == fs.inodes) ==> fs.dinodes == fs.inodes)
    ensures ok ==> forall i: nat | i < NINODES && i != ip :: Untouched(old(fs.View()), fs.View(), i)
    ensures ok ==> fs.Room() == old(fs.Room()) - 1
  {
    hide InUse, NoSharing, NoLeak, Ptr, ByteAt, CanFill, Behind, Lookup, CString, Inum, DirentOf, Free, Untouched;
    hide Spent, FileSystem.Room;
    ghost var fs0, a0 := fs.View(), fs.Room();
    EmptyFile(fs0, ip);
    FirstFill(fs0, a0, ip);
    RoomMeans(fs);
    var r, e := Dirlink(fs, ip, DOT, ip);
    if r != Some(0) { return false, {}; }
    ghost var fs1, a1 := fs.View(), fs.Room();
    FirstEntry(DOT, ip);
    NoDotdot(ip);
    FirstFilled(fs0, a0, fs1, a1, ip);
    ghost var e2;
    r, e2 := Dirlink(fs, ip, DOTDOT, dp);
    FirstStays(fs1, a1, fs.View(), fs.Room(), ip);
    forall i: nat | i < NINODES && i != ip ensures Untouched(fs0, fs.View(), i) {
      UntouchedTwice(fs0, fs1, fs.View(), i);
    }
    extra := e + e2;
    ok := r == Some(0);
  }

  lemma RoomMeans(fs: FileSystem)
    ensures fs.Room() > 0 ==> fs.outstanding > 0
  {
  }

  lemma EmptyFile(fs: Fs, ip: nat)
    requires WellFormed(fs) && ip < NINODES && fs.inodes[ip] == EmptyInode()
    ensures Contents(fs, ip) == [] && GoodDir(fs, ip) && Lookup([], DOT, 0) == None && FirstEmpty([], 0) == 0
  {
  }

  lemma NoDotdot(ip: nat)
    requires 0 < ip < 0x1_0000
    ensures Lookup(Entered([], DOT, ip), DOTDOT, 0) == None
  {
    hide CString, Inum, DirentOf, Entered;
    EnteredIsFound([], DOT, ip, DOTDOT, 0);
  }

  /** The first block of an empty file. */
  lemma FirstFill(fs: Fs, a: nat, ip: nat)
    requires WellFormed(fs) && ip < NINODES && fs.inodes[ip] == EmptyInode()
    ensures Slots(0, DIRENT) == Slots(DIRENT, DIRENT) == {Addr(0)}
    ensures Missing(fs, ip, {Addr(0)}) == {Addr(0)} && (CanFill(fs, a, ip, {Addr(0)}) <==> a > 0)
  {
    assert PathTo(0, 0) == {} && PathTo(0, 1) == PathTo(0, 0) + Path(0) == {Addr(0)};
    assert NextBlock(0, DIRENT) == NextBlock(DIRENT, DIRENT) == 1;
  }

  lemma FirstFilled(fs: Fs, a: nat, r: Fs, a': nat, ip: nat)
    requires Spent(fs, a, r, a', ip, {Addr(0)}) && Missing(fs, ip, {Addr(0)}) == {Addr(0)}
    ensures a' == a - 1 && Missing(r, ip, {Addr(0)}) == {} && Ptr(r, ip, Addr(0)) != 0
    ensures CanFill(r, a', ip, {Addr(0)})
  {
    assert Addr(0) !in Missing(r, ip, {Addr(0)});
  }

  lemma FirstStays(fs: Fs, a: nat, r: Fs, a': nat, ip: nat)
    ensures Spent(fs, a, r, a', ip, {Addr(0)}) && Missing(fs, ip, {Addr(0)}) == {} && Ptr(fs, ip, Addr(0)) != 0
            ==> a' == a && Ptr(r, ip, Addr(0)) == Ptr(fs, ip, Addr(0))
  {
  }

  /** What a new inode costs: nothing, or the block of "." and "..". */
  function DotsCost(dir: bool): nat {
    if dir then 1 else 0
  }

  /** The new inode, with its link count, and with "." and ".." if it is a directory. */
  method NewInode(fs: FileSystem, ip: nat, dp: nat, dir: bool) returns (ok: bool, ghost extra: set<nat>)
    requires fs.Valid() && 0 < ip < NINODES && 0 < dp < NINODES && dp != ip && fs.inodes[ip] == EmptyInode()
    modifies fs`bits, fs`blocks, fs`inodes, fs`dinodes, fs`hint, fs`logged
    ensures ok <==> old(fs.Room()) >= DotsCost(dir)
    ensures ok ==> fs.Valid() && |extra| <= DotsCost(dir) && fs.Room() == old(fs.Room()) - DotsCost(dir)
    ensures ok ==> fs.logged <= old(fs.logged) + BitmapBlocks() + {InodeBlock(dp), InodeBlock(ip)} + extra
    ensures ok ==> Contents(fs.View(), ip) == if dir then Entered(Entered([], DOT, ip), DOTDOT, dp) else []
    ensures ok ==> (old(fs.dinodes == fs.inodes) ==> fs.dinodes == fs.inodes)
    ensures ok ==> forall i: nat | i < NINODES && i != ip :: Untouched(old(fs.View()), fs.View(), i)
  {
    hide InUse, NoSharing, NoLeak, Ptr, ByteAt, CanFill, Behind, Lookup, Free, Entered, Dense, Untouched, Contents;
    hide FileSystem.Room, Covered, Own, BitmapBlocks;
    ghost var fs0 := fs.View();
    fs.ValidOwns();
    EmptyFile(fs0, ip);
    forall i: nat | i < NINODES ensures Untouched(fs0, fs0, i) { UntouchedSame(fs0, i); }
    extra := {};
    Update(fs, ip);                      // ialloc
    Update(fs, ip);
    ok := true;
    if dir {
      Update(fs, dp);                    // dp->nlink++
        ok, extra := Dots(fs, ip, dp);
    }
  }

  /** Whether dirlink, after so many blocks for the new inode, has what it takes to put an entry of that name. */
  ghost predicate EntryFits(fs: Fs, room: nat, cost: nat, dp: nat, c: Bytes)
    requires |c| % DIRENT == 0
  {
    && FirstEmpty(c, 0) + DIRENT <= MAXFILE * BSIZE && WellFormed(fs) && dp < NINODES
    && |Missing(fs, dp, Slots(FirstEmpty(c, 0), DIRENT))| + cost <= room
  }

  lemma FitsAfter(fs: Fs, room: nat, r: Fs, room': nat, cost: nat, dp: nat, c: Bytes)
    requires Untouched(fs, r, dp) && |c| % DIRENT == 0 && room' == room - cost
    ensures EntryFits(fs, room, cost, dp, c) <==>
              FirstEmpty(c, 0) + DIRENT <= MAXFILE * BSIZE && CanFill(r, room', dp, Slots(FirstEmpty(c, 0), DIRENT))
  {
    UntouchedMissing(fs, r, dp, Slots(FirstEmpty(c, 0), DIRENT));
  }

  lemma NoFit(fs: Fs, room: nat, cost: nat, dp: nat, c: Bytes)
    requires |c| % DIRENT == 0 && room < cost
    ensures !EntryFits(fs, room, cost, dp, c)
  {
  }

  lemma FitsSame(fs: Fs, r: Fs, room: nat, cost: nat, dp: nat, c: Bytes)
    requires Untouched(fs, r, dp) && |c| % DIRENT == 0
    ensures EntryFits(fs, room, cost, dp, c) <==> EntryFits(r, room, cost, dp, c)
  {
    UntouchedMissing(fs, r, dp, Slots(FirstEmpty(c, 0), DIRENT));
  }

  lemma GoodSize(fs: Fs, dp: nat)
    requires WellFormed(fs) && dp < NINODES && fs.inodes[dp].size <= MAXFILE * BSIZE
    ensures GoodDir(fs, dp) ==> |Contents(fs, dp)| % DIRENT == 0
  {
  }

  /** create from ialloc on. */
  method CreateNew(fs: FileSystem, dp: nat, ip: nat, name: Bytes, dir: bool, dropDp: bool)
    returns (ok: bool, ghost extra: set<nat>)
    requires fs.Valid() && fs.outstanding > 0 && 0 < dp < NINODES && 0 < ip < NINODES && dp != ip && IsName(name)
    requires fs.inodes[ip] == EmptyInode() && Lookup(Contents(fs.View(), dp), name, 0).None?
    modifies fs`bits, fs`blocks, fs`inodes, fs`dinodes, fs`hint, fs`logged
    ensures ok ==> fs.Valid()
    ensures ok && !dropDp ==> Contents(fs.View(), dp) == Entered(Contents(old(fs.View()), dp), name, ip)
    ensures ok ==> Contents(fs.View(), ip) == if dir then Entered(Entered([], DOT, ip), DOTDOT, dp) else []
    ensures old(GoodDir(fs.View(), dp)) ==> var c := Contents(old(fs.View()), dp);
              |c| % DIRENT == 0 && (ok <==> EntryFits(old(fs.View()), old(fs.Room()), DotsCost(dir), dp, c))
    ensures ok && old(GoodDir(fs.View(), dp)) ==>
              && GoodDir(fs.View(), dp) && |extra| <= 3 + DotsCost(dir)
              && fs.logged <= old(fs.logged) + BitmapBlocks() + {InodeBlock(dp), InodeBlock(ip)} + extra
              && (old(fs.dinodes == fs.inodes) ==> fs.dinodes == fs.inodes)
  {
    hide InUse, NoSharing, NoLeak, Ptr, ByteAt, CanFill, Behind, Lookup, Free, Entered, GoodDir, Contents, Untouched;
    hide Truncated, Spent, FileSystem.Room, EntryFits, Covered, Own, BitmapBlocks;
    ghost var fs0, a0 := fs.View(), fs.Room();
    fs.ValidOwns();
    ghost var c := Contents(fs0, dp);
    GoodSize(fs0, dp);
    if |c| % DIRENT == 0 && a0 < DotsCost(dir) { NoFit(fs0, a0, DotsCost(dir), dp, c); }
    ok, extra := NewInode(fs, ip, dp, dir);
    if !ok { return; }
    ghost var fs1 := fs.View();
    UntouchedIs(fs0, fs1, dp);
    if |c| % DIRENT == 0 { FitsAfter(fs0, a0, fs1, fs.Room(), DotsCost(dir), dp, c); }
    var linked, e := Dirlink(fs, dp, name, ip);
    ok := linked == Some(0);
    if !ok { return; }
    AtMost(extra, e);
    extra := extra + e;
    ghost var fs2 := fs.View();
    Iput(fs, dp, dropDp);
    UntouchedIs(fs2, fs.View(), ip);
    if !dropDp { UntouchedIs(fs2, fs.View(), dp); }
  }

  /** create between begin_op and end_op, once the path is walked. */
  method CreateBody(fs: FileSystem, dp: nat, ip: nat, name: Bytes, dir: bool, dropDp: bool, dropIp: bool)
    returns (r: Option<bool>, ghost extra: set<nat>)
    requires fs.Valid() && fs.outstanding > 0 && 0 < dp < NINODES && 0 < ip < NINODES && IsName(name)
    requires Lookup(Contents(fs.View(), dp), name, 0).None? ==> dp != ip && fs.inodes[ip] == EmptyInode()
    modifies fs`bits, fs`blocks, fs`inodes, fs`dinodes, fs`hint, fs`logged
    ensures r.Some? ==> fs.Valid() && r.value == Lookup(Contents(old(fs.View()), dp), name, 0).None?
    ensures r == Some(true) && !dropDp ==> Contents(fs.View(), dp) == Entered(Contents(old(fs.View()), dp), name, ip)
    ensures r == Some(true) ==>
              Contents(fs.View(), ip) == if dir then Entered(Entered([], DOT, ip), DOTDOT, dp) else []
    ensures old(GoodDir(fs.View(), dp)) ==> var c := Contents(old(fs.View()), dp);
              |c| % DIRENT == 0 && (r.Some? <==> Lookup(c, name, 0).Some?
                                                 || EntryFits(old(fs.View()), old(fs.Room()), DotsCost(dir), dp, c))
    ensures r.Some? && old(GoodDir(fs.View(), dp)) ==>
              && GoodDir(fs.View(), dp) && |extra| <= 3 + DotsCost(dir)
              && fs.logged <= old(fs.logged) + BitmapBlocks() + {InodeBlock(dp), InodeBlock(ip)} + extra
              && (old(fs.dinodes == fs.inodes) ==> fs.dinodes == fs.inodes)
  {
    hide InUse, NoSharing, NoLeak, Ptr, ByteAt, CanFill, Behind, Lookup, Free, Entered, Dense, Contents, Untouched;
    hide Truncated, Spent, FileSystem.Room, EntryFits, Covered, Own;
    ghost var fs0 := fs.View();
    fs.ValidOwns();
    GoodSize(fs0, dp);
    extra := {};
    var there := Dirlookup(fs, dp, name);
    if there.None? { return None, extra; }
    fs.ValidOwns();
    SameContents(fs0, fs.View(), dp);
    if there.value.Some? {
      ghost var fs1 := fs.View();
      Iput(fs, dp, dropDp);
      ghost var fs2 := fs.View();
      Iput(fs, ip, dropIp);
      if dp != ip { UntouchedIs(fs2, fs.View(), dp); }
      return Some(false), extra;
    }
    var ok;
    ok, extra := CreateNew(fs, dp, ip, name, dir, dropDp);
    r := if ok then Some(true) else None;
  }

  lemma NamedViews(c: Bytes, name: Bytes, ip: nat)
    requires |c| % DIRENT == 0 && IsName(name) && 0 < ip < NINODES
    ensures Lookup(c, name, 0).None? <==> L.Absent(E.Entries(c), E.Text(name))
    ensures E.Entries(Entered(c, name, ip)) == L.Added(E.Entries(c), L.Dirent(ip, E.Text(name)))
  {
    E.AbsentViews(c, name);
    E.EnteredViews(c, name, ip);
  }

  /** create of a file or directory. `ip` is the inode of that name, or else the free one ialloc finds; dropDp and
    dropIp say whether iput finds the last reference to an unlinked inode. Some(false) when the name is taken. In
    a directory without holes it returns exactly when the name is there, or there are `room` free blocks for the
    new entry and for "." and "..", once the path is walked. */
  method Create(fs: FileSystem, drops: seq<nat>, dp: nat, ip: nat, name: Bytes, dir: bool, dropDp: bool, dropIp: bool)
    returns (r: Option<bool>, ghost room: nat)
    requires fs.Valid() && 0 < dp < NINODES && 0 < ip < NINODES && IsName(name) && Passes(drops, dp, ip)
    requires Lookup(Contents(fs.View(), dp), name, 0).None? ==> dp != ip && fs.inodes[ip] == EmptyInode()
    modifies fs
    ensures room >= old(fs.RoomIn()) && (drops == [] ==> room == old(fs.RoomIn()))
    ensures old(GoodDir(fs.View(), dp)) ==> var c := Contents(old(fs.View()), dp);
              |c| % DIRENT == 0 && (r.Some? <==> Lookup(c, name, 0).Some?
                                                 || EntryFits(old(fs.View()), room, DotsCost(dir), dp, c))
    ensures r.Some? ==> fs.Valid() && fs.outstanding == old(fs.outstanding)
    ensures r.Some? ==> fs.txns == old(fs.txns) + [Txn(old(fs.DiskView()), fs.logged, fs.DiskView())]
                        && Covered(old(fs.DiskView()), fs.DiskView(), fs.logged)
    ensures r.Some? ==> r.value == Lookup(Contents(old(fs.View()), dp), name, 0).None?
    ensures r == Some(true) && !dropDp ==> Contents(fs.View(), dp) == Entered(Contents(old(fs.View()), dp), name, ip)
    ensures r == Some(true) ==>
              Contents(fs.View(), ip) == if dir then Entered(Entered([], DOT, ip), DOTDOT, dp) else []
    ensures r == Some(true) ==> E.Entries(Contents(fs.View(), ip)) ==
                                if dir then [L.Dirent(ip, "."), L.Dirent(dp, "..")] else []
    ensures old(GoodDir(fs.View(), dp)) ==> var ents := E.Entries(Contents(old(fs.View()), dp));
              && (r.Some? ==> r.value == L.Absent(ents, E.Text(name)))
              && (r == Some(true) && !dropDp ==>
                    E.Entries(Contents(fs.View(), dp)) == L.Added(ents, L.Dirent(ip, E.Text(name))))
    ensures r.Some? && old(GoodDir(fs.View(), dp)) ==>
              |fs.logged| <= 7 + DotsCost(dir) + |DropBlocks(drops)| && GoodDir(fs.View(), dp)
    ensures r.Some? && old(GoodDir(fs.View(), dp) && fs.dinodes == fs.inodes) ==> Own(fs.DiskView())
  {
    hide InUse, NoSharing, NoLeak, Ptr, ByteAt, CanFill, Behind, Lookup, Free, Entered, Dense, Contents, Untouched;
    hide EntryFits, Covered, Own, FileSystem.Room, FileSystem.RoomIn, DotsCost;
    ghost var fs0 := fs.View();
    fs.ValidOwns();
    Begin(fs);
    Walk(fs, drops, dp, ip);
    room := fs.Room();
    ghost var fs1 := fs.View();
    UntouchedIs(fs0, fs1, dp);
    UntouchedIs(fs0, fs1, ip);
    GoodSize(fs0, dp);
    if GoodDir(fs0, dp) { FitsSame(fs0, fs1, room, DotsCost(dir), dp, Contents(fs0, dp)); }
    ghost var extra;
    r, extra := CreateBody(fs, dp, ip, name, dir, dropDp, dropIp);
    if r.None? { return; }
    if GoodDir(fs0, dp) { WithinCount(fs.logged, dp, ip, DropBlocks(drops), extra); }
    if dir { E.DotViews(ip, dp); }
    if GoodDir(fs0, dp) { NamedViews(Contents(fs0, dp), name, ip); }
    fs.DiskOwn();
    End(fs);
  }

  // ---------------------------------------------------------------- link

  /** link once the directory is found: on another device, or one that has the name, nothing is entered. */
  method LinkEntry(fs: FileSystem, ip: nat, same: bool, dp: nat, name: Bytes, dropDp: bool)
    returns (r: Option<int>, ghost extra: set<nat>)
    requires fs.Valid() && fs.outstanding > 0 && 0 < ip < NINODES && dp < NINODES && IsName(name)
    modifies fs`bits, fs`blocks, fs`inodes, fs`dinodes, fs`hint, fs`logged
    ensures r.Some? ==> fs.Valid()
    ensures r.Some? ==> r.value == if same && Lookup(Contents(old(fs.View()), dp), name, 0).None? then 0 else -1
    ensures r == Some(0) && !dropDp ==> Contents(fs.View(), dp) == Entered(Contents(old(fs.View()), dp), name, ip)
    ensures old(GoodDir(fs.View(), dp)) ==> var c := Contents(old(fs.View()), dp);
              |c| % DIRENT == 0 && (r.Some? <==> !same || Lookup(c, name, 0).Some?
                                                 || EntryFits(old(fs.View()), old(fs.Room()), 0, dp, c))
    ensures r.Some? && old(GoodDir(fs.View(), dp)) ==>
              && GoodDir(fs.View(), dp) && |extra| <= 3
              && fs.logged <= old(fs.logged) + BitmapBlocks() + {InodeBlock(dp)} + extra
              && (old(fs.dinodes == fs.inodes) ==> fs.dinodes == fs.inodes)
  {
    hide InUse, NoSharing, NoLeak, Ptr, ByteAt, CanFill, Behind, Lookup, Free, Entered, GoodDir, Contents, Untouched;
    hide Spent, FileSystem.Room, EntryFits, Covered, Own;
    ghost var fs0, a0 := fs.View(), fs.Room();
    fs.ValidOwns();
    GoodSize(fs0, dp);
    UntouchedSame(fs0, dp);
    if |Contents(fs0, dp)| % DIRENT == 0 { FitsAfter(fs0, a0, fs0, a0, 0, dp, Contents(fs0, dp)); }
    r, extra := Some(-1), {};
    if same {
      r, extra := Dirlink(fs, dp, name, ip);
      if r.None? { return; }
    }
    ghost var fs1 := fs.View();
    Iput(fs, dp, dropDp);
    if !dropDp { UntouchedIs(fs1, fs.View(), dp); }
  }

  /** link from the search for the directory on. */
  method LinkBody(fs: FileSystem, ip: nat, found: bool, same: bool, dp: nat, name: Bytes, dropDp: bool, dropIp: bool)
    returns (r: Option<int>, ghost extra: set<nat>)
    requires fs.Valid() && fs.outstanding > 0 && 0 < ip < NINODES && dp < NINODES && dp != ip && IsName(name)
    modifies fs`bits, fs`blocks, fs`inodes, fs`dinodes, fs`hint, fs`logged
    ensures r.Some? ==> fs.Valid()
    ensures r.Some? ==>
              r.value == if found && same && Lookup(Contents(old(fs.View()), dp), name, 0).None? then 0 else -1
    ensures r == Some(0) && !dropDp ==> Contents(fs.View(), dp) == Entered(Contents(old(fs.View()), dp), name, ip)
    ensures old(GoodDir(fs.View(), dp)) ==> var c := Contents(old(fs.View()), dp);
              |c| % DIRENT == 0 && (r.Some? <==> !found || !same || Lookup(c, name, 0).Some?
                                                 || EntryFits(old(fs.View()), old(fs.Room()), 0, dp, c))
    ensures r.Some? && old(GoodDir(fs.View(), dp)) ==>
              && GoodDir(fs.View(), dp) && |extra| <= 3
              && fs.logged <= old(fs.logged) + BitmapBlocks() + {InodeBlock(dp), InodeBlock(ip)} + extra
              && (old(fs.dinodes == fs.inodes) ==> fs.dinodes == fs.inodes)
  {
    hide InUse, NoSharing, NoLeak, Ptr, ByteAt, CanFill, Behind, Lookup, Free, Entered, GoodDir, Contents, Untouched;
    hide Spent, FileSystem.Room, EntryFits, Covered, Own, InodeBlock, BitmapBlocks;
    fs.ValidOwns();
    GoodSize(fs.View(), dp);
    r, extra := Some(-1), {};
    if found {
      r, extra := LinkEntry(fs, ip, same, dp, name, dropDp);
      if r.None? { return; }
    }
    if r == Some(-1) { Update(fs, ip); } // ip->nlink--
    ghost var fs2 := fs.View();
    Iput(fs, ip, dropIp && r == Some(-1));
    UntouchedIs(fs2, fs.View(), dp);
  }

  lemma LinkLogs(log: set<nat>, dp: nat, ip: nat, drops: set<nat>, more: set<nat>, extra: set<nat>)
    requires log <= {} + BitmapBlocks() + drops + BitmapBlocks() + {InodeBlock(ip)}
             || log <= {} + BitmapBlocks() + drops + {InodeBlock(ip)} + BitmapBlocks() + more + BitmapBlocks()
                       + {InodeBlock(dp), InodeBlock(ip)} + extra
    ensures |log| <= 4 + |extra| + |drops + more|
  {
    hide BitmapBlocks, InodeBlock;
    WithinCount(log, dp, ip, drops + more, extra);
  }

  /** link. `ipDir` says whether the file to be linked is a directory, `found` and `same` whether the directory for
    the new name was found, and on the same device. The count goes up before, and down again when the entry is not
    made; `drops` and `more` are freed by the two path lookups. In a directory without holes it returns exactly
    when nothing is to be entered, or there are `room` free blocks for the entry. */
  method Link(fs: FileSystem, drops: seq<nat>, ip: nat, ipDir: bool, more: seq<nat>, found: bool, same: bool, dp: nat,
              name: Bytes, dropDp: bool, dropIp: bool)
    returns (r: Option<int>, ghost room: nat)
    requires fs.Valid() && 0 < ip < NINODES && dp < NINODES && (!ipDir ==> dp != ip) && IsName(name)
    requires Passes(drops, dp, ip) && Passes(more, dp, ip)
    modifies fs
    ensures room >= old(fs.RoomIn()) && (drops == more == [] ==> room == old(fs.RoomIn()))
    ensures old(GoodDir(fs.View(), dp)) ==> var c := Contents(old(fs.View()), dp);
              |c| % DIRENT == 0 && (r.Some? <==> ipDir || !found || !same || Lookup(c, name, 0).Some?
                                                 || EntryFits(old(fs.View()), room, 0, dp, c))
    ensures r.Some? ==> fs.Valid() && fs.outstanding == old(fs.outstanding)
    ensures r.Some? ==> fs.txns == old(fs.txns) + [Txn(old(fs.DiskView()), fs.logged, fs.DiskView())]
                        && Covered(old(fs.DiskView()), fs.DiskView(), fs.logged)
    ensures r.Some? ==>
              r.value == if !ipDir && found && same && Lookup(Contents(old(fs.View()), dp), name, 0).None?
                         then 0 else -1
    ensures r == Some(0) && !dropDp ==> Contents(fs.View(), dp) == Entered(Contents(old(fs.View()), dp), name, ip)
    ensures old(GoodDir(fs.View(), dp)) ==> var ents := E.Entries(Contents(old(fs.View()), dp));
              && (r.Some? ==> (r.value == 0 <==> !ipDir && found && same && L.Absent(ents, E.Text(name))))
              && (r == Some(0) && !dropDp ==>
                    E.Entries(Contents(fs.View(), dp)) == L.Added(ents, L.Dirent(ip, E.Text(name))))
    ensures r.Some? && old(GoodDir(fs.View(), dp)) ==>
              |fs.logged| <= 7 + |DropBlocks(drops) + DropBlocks(more)| && GoodDir(fs.View(), dp)
    ensures r.Some? && old(GoodDir(fs.View(), dp) && fs.dinodes == fs.inodes) ==> Own(fs.DiskView())
  {
    hide InUse, NoSharing, NoLeak, Ptr, ByteAt, CanFill, Behind, Lookup, Free, Entered, Dense, Contents, Untouched;
    hide EntryFits, Covered, Own, FileSystem.Room, FileSystem.RoomIn, GoodDir, BitmapBlocks, InodeBlock, DropBlocks;
    ghost var fs0 := fs.View();
    fs.ValidOwns();
    Begin(fs);
    Walk(fs, drops, dp, ip);
    room := fs.Room();
    ghost var fs1 := fs.View();
    UntouchedIs(fs0, fs1, dp);
    GoodSize(fs0, dp);
    ghost var extra: set<nat> := {};
    if ipDir {
      Iput(fs, ip, dropIp);
      if dp != ip { UntouchedIs(fs1, fs.View(), dp); }
      r := Some(-1);
    } else {
      Update(fs, ip);                    // ip->nlink++
      Walk(fs, more, dp, ip);
      room := fs.Room();
      ghost var fs2 := fs.View();
      UntouchedTwice(fs0, fs1, fs2, dp);
      UntouchedIs(fs0, fs2, dp);
      if GoodDir(fs0, dp) { FitsSame(fs0, fs2, room, 0, dp, Contents(fs0, dp)); }
      r, extra := LinkBody(fs, ip, found, same, dp, name, dropDp, dropIp);
      if r.None? { return; }
    }
    if GoodDir(fs0, dp) { LinkLogs(fs.logged, dp, ip, DropBlocks(drops), DropBlocks(more), extra); }
    if GoodDir(fs0, dp) { NamedViews(Contents(fs0, dp), name, ip); }
    fs.DiskOwn();
    End(fs);
  }

  // ---------------------------------------------------------------- unlink

  /** The directory being emptied has no holes, and if a directory is removed nor has that one. */
  ghost predicate GoodDirs(fs: Fs, dp: nat, ip: nat, dir: bool)
    requires WellFormed(fs) && dp < NINODES && ip < NINODES
  {
    GoodDir(fs, dp) && (dir ==> GoodDir(fs, ip))
  }

  /** unlink once the entry is found: a directory must be empty, then the entry is cleared. */
  method UnlinkEntry(fs: FileSystem, dp: nat, ip: nat, off: nat, dir: bool)
    returns (r: Option<int>, ghost extra: set<nat>)
    requires fs.Valid() && fs.outstanding > 0 && dp < NINODES && ip < NINODES && dp != ip
    requires off % DIRENT == 0 && off + DIRENT <= fs.inodes[dp].size
    modifies fs`bits, fs`blocks, fs`inodes, fs`dinodes, fs`hint, fs`logged
    ensures old(GoodDirs(fs.View(), dp, ip, dir)) ==> r.Some?
    ensures r.Some? ==> fs.Valid()
                        && r.value == if dir && !AllEmpty(Contents(old(fs.View()), ip), 2 * DIRENT) then -1 else 0
    ensures r.Some? ==> Contents(fs.View(), dp) ==
                        if r.value == 0 then Spliced(Contents(old(fs.View()), dp), off, NoEntry())
                        else Contents(old(fs.View()), dp)
    ensures r.Some? && old(GoodDirs(fs.View(), dp, ip, dir)) ==>
              && GoodDir(fs.View(), dp) && |extra| <= 3
              && fs.logged <= old(fs.logged) + BitmapBlocks() + {InodeBlock(dp)} + extra
              && (old(fs.dinodes == fs.inodes) ==> fs.dinodes == fs.inodes)
  {
    hide InUse, NoSharing, NoLeak, Ptr, ByteAt, CanFill, Behind, Free, Contents, Dense, Spliced, AllEmpty, NoEntry;
    hide Untouched, Spent, Covered, Slots;
    ghost var fs0 := fs.View();
    extra := {};
    if dir {
      var empty := Isdirempty(fs, ip);
      if empty.None? { return None, extra; }
      SameContents(fs0, fs.View(), dp);
      if !empty.value { return Some(-1), extra; }
    }
    InsideFills(fs.View(), fs.Room(), dp, off);
    var ok;
    ok, extra := PutEntry(fs, dp, off, NoEntry());
    if !ok { return None, extra; }
    if dir { Update(fs, dp); }           // dp->nlink--
    r := Some(0);
  }

  /** unlink between begin_op and end_op, once the path is walked. */
  method UnlinkBody(fs: FileSystem, dp: nat, ip: nat, name: Bytes, dir: bool, dropDp: bool, dropIp: bool)
    returns (r: Option<int>, ghost extra: set<nat>)
    requires fs.Valid() && fs.outstanding > 0 && dp < NINODES && ip < NINODES && IsName(name)
    requires name != DOT && name != DOTDOT ==> dp != ip
    modifies fs`bits, fs`blocks, fs`inodes, fs`dinodes, fs`hint, fs`logged
    ensures old(GoodDirs(fs.View(), dp, ip, dir)) ==> r.Some?
    ensures r.Some? ==> fs.Valid() && r.value == if Removable(old(fs.View()), dp, ip, name, dir) then 0 else -1
    ensures r.Some? && !dropDp ==> Contents(fs.View(), dp) == Removed(Contents(old(fs.View()), dp), name, r == Some(0))
    ensures r.Some? && old(GoodDirs(fs.View(), dp, ip, dir)) ==>
              && GoodDir(fs.View(), dp) && |extra| <= 3
              && fs.logged <= old(fs.logged) + BitmapBlocks() + {InodeBlock(dp), InodeBlock(ip)} + extra
              && (old(fs.dinodes == fs.inodes) ==> fs.dinodes == fs.inodes)
  {
    hide InUse, NoSharing, NoLeak, Ptr, ByteAt, CanFill, Behind, Lookup, Free, Contents, Dense, Untouched, Covered;
    hide Spliced, AllEmpty, NoEntry, Own, Spent;
    ghost var fs0 := fs.View();
    fs.ValidOwns();
    r, extra := Some(-1), {};
    if name != DOT && name != DOTDOT {
      var there := Dirlookup(fs, dp, name);
      if there.None? { return None, extra; }
      fs.ValidOwns();
      SameContents(fs0, fs.View(), dp);
      SameContents(fs0, fs.View(), ip);
      LookupIs(Contents(fs0, dp), name, 0);
      if there.value.Some? {
        r, extra := UnlinkEntry(fs, dp, ip, there.value.value, dir);
        if r.None? { return; }
      }
    }
    UnlinkEnd(fs, dp, ip, r == Some(0), dropDp, dropIp);
  }

  /** What unlink takes: a name that is there, not a dot, and not of a directory with entries. */
  ghost predicate Removable(fs: Fs, dp: nat, ip: nat, name: Bytes, dir: bool)
    requires WellFormed(fs) && dp < NINODES && ip < NINODES
    requires fs.inodes[dp].size <= MAXFILE * BSIZE && fs.inodes[ip].size <= MAXFILE * BSIZE
  {
    && name != DOT && name != DOTDOT && Lookup(Contents(fs, dp), name, 0).Some?
    && (dir ==> AllEmpty(Contents(fs, ip), 2 * DIRENT))
  }

  /** A directory after unlink. */
  function Removed(c: Bytes, name: Bytes, done: bool): Bytes {
    if done && Lookup(c, name, 0).Some? then Spliced(c, Lookup(c, name, 0).value, NoEntry()) else c
  }

  /** The end of unlink: it lets the directory go, lowers the count of the file, and lets that go. */
  method UnlinkEnd(fs: FileSystem, dp: nat, ip: nat, done: bool, dropDp: bool, dropIp: bool)
    requires fs.Valid() && fs.outstanding > 0 && dp < NINODES && ip < NINODES && (done ==> dp != ip)
    modifies fs`bits, fs`inodes, fs`dinodes, fs`logged
    ensures fs.Valid() && (!dropDp ==> Contents(fs.View(), dp) == Contents(old(fs.View()), dp))
    ensures old(GoodDir(fs.View(), dp)) ==> GoodDir(fs.View(), dp)
    ensures fs.logged <= old(fs.logged) + BitmapBlocks() + {InodeBlock(dp), InodeBlock(ip)}
    ensures old(fs.dinodes == fs.inodes) ==> fs.dinodes == fs.inodes
  {
    hide InUse, NoSharing, NoLeak, Ptr, ByteAt, Behind, Free, Contents, GoodDir, Untouched, Covered;
    ghost var fs0 := fs.View();
    Iput(fs, dp, dropDp);
    if !dropDp { UntouchedIs(fs0, fs.View(), dp); }
    if done {
      Update(fs, ip);                    // ip->nlink--
      ghost var fs1 := fs.View();
      Iput(fs, ip, dropIp);
      UntouchedIs(fs1, fs.View(), dp);
    }
  }

  /** The same on the lists of entries. */
  lemma UnlinkViews(fs: Fs, dp: nat, ip: nat, name: Bytes, dir: bool)
    requires WellFormed(fs) && dp < NINODES && ip < NINODES && GoodDirs(fs, dp, ip, dir)
    requires fs.inodes[dp].size <= MAXFILE * BSIZE && fs.inodes[ip].size <= MAXFILE * BSIZE
    ensures var c := Contents(fs, dp); var ents, text := E.Entries(c), E.Text(name);
            && (Removable(fs, dp, ip, name, dir) <==>
                  text != "." && text != ".." && !L.Absent(ents, text)
                  && (dir ==> L.Empty(E.Entries(Contents(fs, ip)))))
            && forall k: nat :: E.FirstIn(ents, text, k) ==>
                 E.Entries(Removed(c, name, true)) == ents[k := L.Dirent(0, "")]
  {
    hide Contents, Lookup, AllEmpty, NoEntry, Spliced;
    GoodSize(fs, dp);
    var c := Contents(fs, dp);
    E.AbsentViews(c, name);
    E.TextSame(name, DOT);
    E.TextSame(name, DOTDOT);
    assert E.Text(DOT) == "." && E.Text(DOTDOT) == "..";
    if dir {
      GoodSize(fs, ip);
      E.EmptyDirViews(Contents(fs, ip));
    }
    forall k: nat | E.FirstIn(E.Entries(c), E.Text(name), k)
      ensures E.Entries(Removed(c, name, true)) == E.Entries(c)[k := L.Dirent(0, "")]
    {
      E.RemovedViews(c, name, k);
    }
  }

  /** unlink of the entry for `ip`; `dir` says whether that is a directory. In directories without holes it always
    returns: with 0 exactly for a name that is there, not "." or "..", and not of a directory with entries. */
  method Unlink(fs: FileSystem, drops: seq<nat>, dp: nat, ip: nat, name: Bytes, dir: bool, dropDp: bool, dropIp: bool)
    returns (r: Option<int>)
    requires fs.Valid() && dp < NINODES && ip < NINODES && IsName(name) && Passes(drops, dp, ip)
    requires name != DOT && name != DOTDOT ==> dp != ip
    modifies fs
    ensures old(GoodDirs(fs.View(), dp, ip, dir)) ==> r.Some?
    ensures r.Some? ==> fs.Valid() && fs.outstanding == old(fs.outstanding)
    ensures r.Some? ==> fs.txns == old(fs.txns) + [Txn(old(fs.DiskView()), fs.logged, fs.DiskView())]
                        && Covered(old(fs.DiskView()), fs.DiskView(), fs.logged)
    ensures r.Some? ==> r.value == if Removable(old(fs.View()), dp, ip, name, dir) then 0 else -1
    ensures r.Some? && !dropDp ==> Contents(fs.View(), dp) == Removed(Contents(old(fs.View()), dp), name, r == Some(0))
    ensures old(GoodDirs(fs.View(), dp, ip, dir)) ==>
              var ents, text := E.Entries(Contents(old(fs.View()), dp)), E.Text(name);
              && (r == Some(0) <==> text != "." && text != ".." && !L.Absent(ents, text)
                                    && (dir ==> L.Empty(E.Entries(Contents(old(fs.View()), ip)))))
              && (r == Some(0) && !dropDp ==> forall k: nat :: E.FirstIn(ents, text, k) ==>
                    E.Entries(Contents(fs.View(), dp)) == ents[k := L.Dirent(0, "")])
    ensures r.Some? && old(GoodDirs(fs.View(), dp, ip, dir)) ==>
              |fs.logged| <= 7 + |DropBlocks(drops)| && GoodDir(fs.View(), dp)
    ensures r.Some? && old(GoodDirs(fs.View(), dp, ip, dir) && fs.dinodes == fs.inodes) ==> Own(fs.DiskView())
  {
    hide InUse, NoSharing, NoLeak, Ptr, ByteAt, Behind, Free, Contents, GoodDir, Untouched, Covered, Removed, Lookup;
    hide Own, AllEmpty, FileSystem.Room, FileSystem.RoomIn;
    ghost var fs0 := fs.View();
    fs.ValidOwns();
    Begin(fs);
    Walk(fs, drops, dp, ip);
    UntouchedIs(fs0, fs.View(), dp);
    UntouchedIs(fs0, fs.View(), ip);
    ghost var extra;
    r, extra := UnlinkBody(fs, dp, ip, name, dir, dropDp, dropIp);
    if r.None? { return; }
    if GoodDirs(fs0, dp, ip, dir) { WithinCount(fs.logged, dp, ip, DropBlocks(drops), extra); }
    if GoodDirs(fs0, dp, ip, dir) { UnlinkViews(fs0, dp, ip, name, dir); }
    fs.DiskOwn();
    End(fs);
  }

  // ---------------------------------------------------------------- closing

  /** The transaction of a close that drops an inode: begin_op, iput, end_op. */
  method Drop(fs: FileSystem, i: nat, last: bool)
    requires fs.Valid() && i < NINODES
    modifies fs
    ensures fs.Valid() && fs.outstanding == old(fs.outstanding)
    ensures fs.txns == old(fs.txns) + [Txn(old(fs.DiskView()), fs.logged, fs.DiskView())]
            && Covered(old(fs.DiskView()), fs.DiskView(), fs.logged)
    ensures |fs.logged| <= 3 && (last ==> fs.inodes[i] == fs.dinodes[i] == EmptyInode())
    ensures old(fs.dinodes == fs.inodes) ==> Own(fs.DiskView())
  {
    hide InUse, NoSharing, NoLeak, Ptr, Dense, Behind, Covered, Untouched;
    Begin(fs);
    Iput(fs, i, last);
    AtMost(BitmapBlocks(), {InodeBlock(i)});
    Subset(fs.logged, BitmapBlocks() + {InodeBlock(i)});
    fs.DiskOwn();
    End(fs);
  }
}
