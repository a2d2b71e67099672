/** Every interleaving of link, unlink and create keeps the counts and the tree of directories. */
module LinkCounts {
  import opened Links

  lemma QuietRefs(fs: seq<Inode>, i: nat, n: Inode)
    requires i < |fs| && !Live(fs[i]) && !Live(n)
    ensures forall j: nat :: Refs(fs[i := n], j) == Refs(fs, j)
  {
    forall j: nat ensures Refs(fs[i := n], j) == Refs(fs, j) { RefsPut(fs, i, n, j); }
  }

  /** A file, or a directory no longer linked, changes. */
  lemma QuietKeeps(st: State, i: nat, n: Inode, pend: nat)
    requires Inv(st) && 0 < i < |st.fs| && !Live(st.fs[i]) && !Live(n)
    requires n.nlink - pend == st.fs[i].nlink - st.pending[i]
    requires (n.kind == st.fs[i].kind == File && n.ents == []) || (n == Inode(Free, 0, []) && st.fs[i].nlink == 0
             && st.pending[i] == 0)
    ensures Inv(State(st.fs[i := n], st.pending[i := pend]))
  {
    var t := State(st.fs[i := n], st.pending[i := pend]);
    QuietRefs(st.fs, i, n);
    assert Counted(st, i);
    forall j | 0 < j < |t.fs| ensures Counted(t, j) { assert Counted(st, j); }
    forall d | 0 <= d < |t.fs| ensures Shaped(t.fs, d) { assert Shaped(st.fs, d); }
    forall d, k | 0 <= d < |t.fs| && 0 <= k ensures Child(t.fs, d, k) {
      assert Child(st.fs, d, k);
      if Live(t.fs[d]) && 2 <= k < |t.fs[d].ents| && n.kind == Free && t.fs[d].ents[k].inum == i {
        Names(t.fs[d], k, i);
        RefsAtLeast(t.fs, d, i);
        assert false;
      }
    }
    forall c | 0 <= c < |t.fs| ensures Parented(t.fs, c) { assert Parented(st.fs, c); }
  }

  lemma LinkDoneCounted(st: State, i: nat, d: nat, name: Name, j: nat)
    requires Inv(st) && Enabled(st, LinkDone(i, d, name)) && 0 < j < |st.fs|
    ensures Counted(Step(st, LinkDone(i, d, name)), j)
  {
    var t := Step(st, LinkDone(i, d, name));
    assert Shaped(st.fs, d) && Counted(st, i) && Counted(st, j) && Counted(st, d);
    AddedIs(st.fs[d].ents, Dirent(i, name));
    RefsPut(st.fs, d, t.fs[d], j);
  }

  lemma LinkDoneShaped(st: State, i: nat, d: nat, name: Name, x: nat)
    requires Inv(st) && Enabled(st, LinkDone(i, d, name)) && x < |st.fs|
    ensures Shaped(Step(st, LinkDone(i, d, name)).fs, x)
  {
    assert Shaped(st.fs, x) && Shaped(st.fs, d);
    if x == d {
      AddedIs(st.fs[d].ents, Dirent(i, name));
      AddedUnique(st.fs[d].ents, Dirent(i, name));
    }
  }

  lemma LinkDoneKeeps(st: State, i: nat, d: nat, name: Name)
    requires Inv(st) && Enabled(st, LinkDone(i, d, name))
    ensures Inv(Step(st, LinkDone(i, d, name)))
  {
    var t := Step(st, LinkDone(i, d, name));
    var e := Dirent(i, name);
    assert Shaped(st.fs, d) && Counted(st, i) && st.fs[i].kind == File;
    AddedIs(st.fs[d].ents, e);
    forall j | 0 < j < |t.fs| ensures Counted(t, j) { LinkDoneCounted(st, i, d, name, j); }
    forall x | 0 <= x < |t.fs| ensures Shaped(t.fs, x) { LinkDoneShaped(st, i, d, name, x); }
    forall x, k | 0 <= x < |t.fs| && 0 <= k ensures Child(t.fs, x, k) { AddChild(st.fs, d, e, x, k); }
    forall c | 0 <= c < |t.fs| ensures Parented(t.fs, c) {
      assert Parented(st.fs, c) && Shaped(st.fs, c);
      if Live(st.fs[c]) && c != ROOT { AddHolds(st.fs, d, t.fs[d], c); }
    }
  }

  /** A new entry for something that is not a directory. */
  lemma AddChild(fs: seq<Inode>, d: nat, e: Dirent, x: nat, k: nat)
    requires 0 < d < |fs| && x < |fs| && Live(fs[d]) && Shaped(fs, d) && (forall j :: 0 <= j ==> Child(fs, x, j))
    requires 0 < e.inum < |fs| && fs[e.inum].kind == File && (forall c :: 0 <= c < |fs| ==> Shaped(fs, c))
    ensures Child(fs[d := fs[d].(ents := Added(fs[d].ents, e))], x, k)
  {
    AddedIs(fs[d].ents, e);
    assert Child(fs, x, k);
  }

  /** Whoever a directory holds it still holds when entries are added. */
  lemma AddHolds(fs: seq<Inode>, d: nat, n: Inode, c: nat)
    requires d < |fs| && c < |fs| && Live(n) && |fs[c].ents| >= 2 && fs[c].ents[1].inum < |fs|
    requires |fs[d].ents| <= |n.ents|
    requires forall j :: 0 <= j < |fs[d].ents| && fs[d].ents[j].inum != 0 ==> n.ents[j] == fs[d].ents[j]
    requires c != 0 && Holds(fs, fs[c].ents[1].inum, c)
    ensures Holds(fs[d := n], fs[c].ents[1].inum, c)
  {
    var p := fs[c].ents[1].inum;
    var k :| 2 <= k < |fs[p].ents| && fs[p].ents[k].inum == c;
    assert fs[d := n][p].ents[k].inum == c;
  }

  // ---------------------------------------------------------------- create

  lemma FreshRefs(d: nat, dir: bool, c: nat, j: nat)
    ensures DirRefs(Fresh(d, dir, c), j) == One(dir && d == j)
  {
    if dir {
      var s := Fresh(d, dir, c).ents[1..];
      assert s == [Dirent(d, "..")];
      assert Count(s[..0], j) == 0;
    }
  }

  /** Nothing names an inode that is not in use. */
  lemma FreeUnnamed(st: State, c: nat, x: nat, k: nat)
    requires Inv(st) && 0 < c < |st.fs| && st.fs[c].kind == Free
    requires x < |st.fs| && Live(st.fs[x]) && 1 <= k < |st.fs[x].ents|
    ensures st.fs[x].ents[k].inum != c
  {
    assert Counted(st, c);
    if st.fs[x].ents[k].inum == c {
      Names(st.fs[x], k, c);
      RefsAtLeast(st.fs, x, c);
    }
  }

  lemma CreateCounted(st: State, d: nat, name: Name, dir: bool, c: nat, j: nat)
    requires Inv(st) && Enabled(st, Create(d, name, dir, c)) && 0 < j < |st.fs|
    ensures Counted(Step(st, Create(d, name, dir, c)), j)
  {
    var t := Step(st, Create(d, name, dir, c));
    assert Shaped(st.fs, d) && Counted(st, c) && Counted(st, j) && Counted(st, d);
    AddedIs(st.fs[d].ents, Dirent(c, name));
    FreshRefs(d, dir, c, j);
    var gs := st.fs[c := Fresh(d, dir, c)];
    RefsPut(st.fs, c, Fresh(d, dir, c), j);
    RefsPut(gs, d, t.fs[d], j);
  }

  lemma CreateShaped(st: State, d: nat, name: Name, dir: bool, c: nat, x: nat)
    requires Inv(st) && Enabled(st, Create(d, name, dir, c)) && x < |st.fs|
    ensures Shaped(Step(st, Create(d, name, dir, c)).fs, x)
  {
    assert Shaped(st.fs, x) && Shaped(st.fs, d);
    if x == d {
      AddedIs(st.fs[d].ents, Dirent(c, name));
      AddedUnique(st.fs[d].ents, Dirent(c, name));
    }
  }

  lemma CreateChild(st: State, d: nat, name: Name, dir: bool, c: nat, x: nat, k: nat)
    requires Inv(st) && Enabled(st, Create(d, name, dir, c)) && x < |st.fs|
    ensures Child(Step(st, Create(d, name, dir, c)).fs, x, k)
  {
    if x == d {
      CreateChildHere(st, d, name, dir, c, k);
    } else {
      assert Child(st.fs, x, k) && Shaped(st.fs, d);
      AddedIs(st.fs[d].ents, Dirent(c, name));
      if x != c && Live(st.fs[x]) && 2 <= k < |st.fs[x].ents| { FreeUnnamed(st, c, x, k); }
    }
  }

  /** The entries of the directory that gets the new name. */
  lemma CreateChildHere(st: State, d: nat, name: Name, dir: bool, c: nat, k: nat)
    requires Inv(st) && Enabled(st, Create(d, name, dir, c))
    ensures Child(Step(st, Create(d, name, dir, c)).fs, d, k)
  {
    assert Shaped(st.fs, d) && Child(st.fs, d, k);
    AddedIs(st.fs[d].ents, Dirent(c, name));
    forall j: nat | 2 <= j < |st.fs[d].ents| ensures st.fs[d].ents[j].inum != c { FreeUnnamed(st, c, d, j); }
  }

  lemma CreateParented(st: State, d: nat, name: Name, dir: bool, c: nat, y: nat)
    requires Inv(st) && Enabled(st, Create(d, name, dir, c)) && y < |st.fs|
    ensures Parented(Step(st, Create(d, name, dir, c)).fs, y)
  {
    var t := Step(st, Create(d, name, dir, c));
    assert Shaped(st.fs, d) && Parented(st.fs, y);
    AddedIs(st.fs[d].ents, Dirent(c, name));
    if y == c {
      assert t.fs[d].ents[Slot(st.fs[d].ents)].inum == c;
    } else if Live(st.fs[y]) && y != ROOT && |st.fs[y].ents| >= 2 {
      var p := st.fs[y].ents[1].inum;
      var k :| 2 <= k < |st.fs[p].ents| && st.fs[p].ents[k].inum == y;
      assert st.fs[0].kind == Free && t.fs[p].ents[k].inum == y;
    }
  }

  lemma CreateKeeps(st: State, d: nat, name: Name, dir: bool, c: nat)
    requires Inv(st) && Enabled(st, Create(d, name, dir, c))
    ensures Inv(Step(st, Create(d, name, dir, c)))
  {
    var t := Step(st, Create(d, name, dir, c));
    assert Shaped(st.fs, d);
    AddedIs(st.fs[d].ents, Dirent(c, name));
    forall j | 0 < j < |t.fs| ensures Counted(t, j) { CreateCounted(st, d, name, dir, c, j); }
    forall x | 0 <= x < |t.fs| ensures Shaped(t.fs, x) { CreateShaped(st, d, name, dir, c, x); }
    forall x, k | 0 <= x < |t.fs| && 0 <= k ensures Child(t.fs, x, k) { CreateChild(st, d, name, dir, c, x, k); }
    forall y | 0 <= y < |t.fs| ensures Parented(t.fs, y) { CreateParented(st, d, name, dir, c, y); }
  }

  // ---------------------------------------------------------------- unlink

  /** An empty directory names only its parent. */
  lemma EmptyNames(n: Inode, j: nat)
    requires Live(n) && |n.ents| >= 2 && Empty(n.ents) && j > 0
    ensures DirRefs(n, j) == One(n.ents[1].inum == j)
  {
    var s, e := n.ents[1..], Dirent(0, []);
    CountPut(s, 0, e, j);
    CountZero(s[0 := e], j);
  }

  /** A linked directory that is empty is nobody's parent. */
  lemma EmptyChildless(st: State, c: nat, x: nat)
    requires Inv(st) && 0 < c < |st.fs| && c != ROOT && x < |st.fs| && Empty(st.fs[c].ents)
    requires Live(st.fs[x]) && x != 0
    ensures |st.fs[x].ents| >= 2 && st.fs[x].ents[1].inum != c
  {
    assert Shaped(st.fs, x) && Parented(st.fs, x);
  }

  /** The only name of a directory is the entry that unlink clears. */
  lemma OneName(st: State, d: nat, k: nat)
    requires Inv(st) && Enabled(st, Unlink(d, k)) && st.fs[st.fs[d].ents[k].inum].kind == Dir
    ensures var c := st.fs[d].ents[k].inum;
            && Live(st.fs[d]) && c != d && c != ROOT && Live(st.fs[c]) && st.fs[c].nlink == 1
            && |st.fs[c].ents| >= 2 && st.fs[c].ents[1].inum == d
  {
    var fs, c := st.fs, st.fs[d].ents[k].inum;
    assert Shaped(fs, d) && Child(fs, d, k) && Counted(st, d) && Counted(st, c);
    forall x | 0 <= x < |fs| && x != d ensures DirRefs(fs[x], c) == 0 {
      if Live(fs[x]) {
        EmptyChildless(st, c, x);
        forall j | 1 <= j < |fs[x].ents| ensures fs[x].ents[j].inum != c { assert Child(fs, x, j); }
        NoName(fs[x], c);
      }
    }
    RefsOnly(fs, d, c);
    EmptyChildless(st, c, d);
    var s, e := fs[d].ents[1..], Dirent(0, []);
    CountPut(s, k - 1, e, c);
    var z := s[k - 1 := e];
    forall j | 0 <= j < |z| ensures z[j].inum != c { assert s[j] == fs[d].ents[j + 1]; }
    CountZero(s[k - 1 := e], c);
  }

  /** Taking a subdirectory away leaves its parent linked. */
  lemma ParentStays(st: State, d: nat, k: nat)
    requires Inv(st) && Enabled(st, Unlink(d, k)) && st.fs[st.fs[d].ents[k].inum].kind == Dir
    ensures st.fs[d].nlink >= 2
  {
    var fs, c := st.fs, st.fs[d].ents[k].inum;
    OneName(st, d, k);
    assert Counted(st, d) && Shaped(fs, d) && Parented(fs, d);
    Names(fs[c], 1, d);
    if d == ROOT {
      Names(fs[d], 1, d);
      RefsTwo(fs, d, c, d);
    } else {
      var p := fs[d].ents[1].inum;
      var j :| 2 <= j < |fs[p].ents| && fs[p].ents[j].inum == d;
      Names(fs[p], j, d);
      RefsTwo(fs, p, c, d);
    }
  }

  /** What unlink finds and does, whether the name is a file's or a directory's. */
  lemma UnlinkFacts(st: State, d: nat, k: nat)
    requires Inv(st) && Enabled(st, Unlink(d, k))
    ensures var c := st.fs[d].ents[k].inum;
            var t := Step(st, Unlink(d, k));
            && c != d && Live(st.fs[d]) && Live(t.fs[d]) && !Live(t.fs[c]) && |st.fs[d].ents| >= 2
            && t.fs[d].ents == st.fs[d].ents[k := Dirent(0, [])] && t.fs[c].ents == st.fs[c].ents
            && t.fs[c].kind == st.fs[c].kind && t.fs[c].kind != Free
            && (st.fs[c].kind == Dir ==> t.fs[c].nlink == 0)
  {
    var c := st.fs[d].ents[k].inum;
    assert Shaped(st.fs, d) && Counted(st, d) && Counted(st, c);
    Names(st.fs[d], k, c);
    RefsAtLeast(st.fs, d, c);
    if st.fs[c].kind == Dir {
      OneName(st, d, k);
      ParentStays(st, d, k);
    }
  }

  lemma UnlinkCounted(st: State, d: nat, k: nat, j: nat)
    requires Inv(st) && Enabled(st, Unlink(d, k)) && 0 < j < |st.fs|
    ensures Counted(Step(st, Unlink(d, k)), j)
  {
    var fs, c := st.fs, st.fs[d].ents[k].inum;
    var t := Step(st, Unlink(d, k));
    UnlinkFacts(st, d, k);
    assert Counted(st, j);
    var gs := fs[d := t.fs[d]];
    assert t.fs == gs[c := t.fs[c]];
    assert t.fs[d].ents[1..] == fs[d].ents[1..][k - 1 := Dirent(0, [])];
    CountPut(fs[d].ents[1..], k - 1, Dirent(0, []), j);
    RefsPut(fs, d, t.fs[d], j);
    RefsPut(gs, c, t.fs[c], j);
    if fs[c].kind == Dir {
      OneName(st, d, k);
      EmptyNames(fs[c], j);
    }
  }

  lemma UnlinkShaped(st: State, d: nat, k: nat, x: nat)
    requires Inv(st) && Enabled(st, Unlink(d, k)) && x < |st.fs|
    ensures Shaped(Step(st, Unlink(d, k)).fs, x)
  {
    UnlinkFacts(st, d, k);
    assert Shaped(st.fs, x);
  }

  lemma UnlinkChild(st: State, d: nat, k: nat, x: nat, j: nat)
    requires Inv(st) && Enabled(st, Unlink(d, k)) && x < |st.fs|
    ensures Child(Step(st, Unlink(d, k)).fs, x, j)
  {
    UnlinkFacts(st, d, k);
    assert Child(st.fs, x, j) && Child(st.fs, d, k);
  }

  lemma UnlinkParented(st: State, d: nat, k: nat, y: nat)
    requires Inv(st) && Enabled(st, Unlink(d, k)) && y < |st.fs|
    ensures Parented(Step(st, Unlink(d, k)).fs, y)
  {
    var fs, c := st.fs, st.fs[d].ents[k].inum;
    var t := Step(st, Unlink(d, k));
    UnlinkFacts(st, d, k);
    assert Parented(fs, y);
    if Live(t.fs[y]) && y != ROOT && |fs[y].ents| >= 2 {
      var p := fs[y].ents[1].inum;
      var i :| 2 <= i < |fs[p].ents| && fs[p].ents[i].inum == y;
      assert p != c;
      assert t.fs[p].ents[i].inum == y;
    }
  }

  lemma UnlinkKeeps(st: State, d: nat, k: nat)
    requires Inv(st) && Enabled(st, Unlink(d, k))
    ensures Inv(Step(st, Unlink(d, k)))
  {
    var t := Step(st, Unlink(d, k));
    UnlinkFacts(st, d, k);
    if st.fs[st.fs[d].ents[k].inum].kind == Dir { OneName(st, d, k); }
    forall j | 0 < j < |t.fs| ensures Counted(t, j) { UnlinkCounted(st, d, k, j); }
    forall x | 0 <= x < |t.fs| ensures Shaped(t.fs, x) { UnlinkShaped(st, d, k, x); }
    forall x, j | 0 <= x < |t.fs| && 0 <= j ensures Child(t.fs, x, j) { UnlinkChild(st, d, k, x, j); }
    forall y | 0 <= y < |t.fs| ensures Parented(t.fs, y) { UnlinkParented(st, d, k, y); }
  }

  // ---------------------------------------------------------------- every step, every run

  lemma StepKeeps(st: State, e: Event)
    requires Inv(st) && Enabled(st, e)
    ensures Inv(Step(st, e))
  {
    match e
    case LinkStart(i) =>
      assert Shaped(st.fs, i);
      QuietKeeps(st, i, st.fs[i].(nlink := st.fs[i].nlink + 1), st.pending[i] + 1);
    case LinkDone(i, d, name) => LinkDoneKeeps(st, i, d, name);
    case LinkUndo(i) =>
      assert Shaped(st.fs, i) && Counted(st, i);
      QuietKeeps(st, i, st.fs[i].(nlink := st.fs[i].nlink - 1), st.pending[i] - 1);
    case Create(d, name, dir, c) => CreateKeeps(st, d, name, dir, c);
    case Unlink(d, k) => UnlinkKeeps(st, d, k);
    case Reap(i) =>
      QuietKeeps(st, i, Inode(Free, 0, []), st.pending[i]);
      assert st.pending[i := st.pending[i]] == st.pending;
  }

  /** What mkfs leaves: a root directory that is its own parent. */
  function Boot(n: nat): State
    requires n > ROOT
  {
    State(seq(n, i requires 0 <= i < n => if i == ROOT then Inode(Dir, 1, [Dirent(1, "."), Dirent(1,
        "..")]) else Inode(Free, 0, [])),
          seq(n, _ => 0))
  }

  lemma BootInv(n: nat)
    requires n > ROOT
    ensures Inv(Boot(n))
  {
    var st := Boot(n);
    forall i: nat ensures Refs(st.fs, i) == One(i == ROOT) {
      var r := st.fs[ROOT];
      assert r.ents[1..] == [Dirent(1, "..")] && Count(r.ents[1..][..0], i) == 0;
      RefsOnly(st.fs, ROOT, i);
    }
    forall i | 0 < i < n ensures Counted(st, i) {}
  }

  /** The events of run, in order, take s to t. */
  ghost predicate Leads(s: State, run: seq<Event>, t: State)
    decreases |run|
  {
    if run == [] then s == t
    else exists m: State :: Leads(s, run[..|run| - 1], m) && Shape(m)
                            && Enabled(m, run[|run| - 1]) && t == Step(m, run[|run| - 1])
  }

  lemma {:induction false} RunInv(s: State, run: seq<Event>, t: State)
    requires Inv(s) && Leads(s, run, t)
    ensures Inv(t)
    decreases |run|
  {
    hide Inv, Step;
    if run != [] {
      var m: State :| Leads(s, run[..|run| - 1], m) && Shape(m)
                      && Enabled(m, run[|run| - 1]) && t == Step(m, run[|run| - 1]);
      RunInv(s, run[..|run| - 1], m);
      StepKeeps(m, run[|run| - 1]);
    }
  }

  /** Over every run from mkfs: nlink counts the names, an inode with a name is in use, one with none and no
    link under way is at zero, and no directory has a name twice. */
  lemma {:induction false} NlinkIsNames(n: nat, run: seq<Event>, t: State, i: nat)
    requires n > ROOT && Leads(Boot(n), run, t) && Shape(t) && 0 < i < |t.fs|
    ensures t.fs[i].nlink == Refs(t.fs, i) + t.pending[i]
    ensures t.fs[i].kind == Free ==> Refs(t.fs, i) == 0
    ensures t.fs[i].kind == Dir ==> Unique(t.fs[i].ents)
  {
    BootInv(n);
    RunInv(Boot(n), run, t);
    assert Counted(t, i) && Shaped(t.fs, i);
  }

  /** link and create check everything but that the directory is still linked, and exactly then they keep
    the counts: a name made in a directory that was removed while some process had it as its current
    directory is never counted. */
  lemma NeedsLinkedDirectory(st: State, e: Event)
    requires Inv(st) && Checked(st, e) && (e.LinkDone? || e.Create?)
    ensures Inv(Step(st, e)) <==> st.fs[e.d].nlink > 0
  {
    if st.fs[e.d].nlink > 0 {
      StepKeeps(st, e);
    } else if e.LinkDone? {
      assert Counted(st, e.i) && Counted(st, e.d);
      QuietRefs(st.fs, e.d, Step(st, e).fs[e.d]);
      assert !Counted(Step(st, e), e.i);
    } else if e.dir {
      RevivedParent(st, e.d, e.name, e.c);
    } else {
      assert Counted(st, e.c) && Counted(st, e.d);
      var t := Step(st, e);
      QuietRefs(st.fs, e.c, Fresh(e.d, false, e.c));
      QuietRefs(st.fs[e.c := Fresh(e.d, false, e.c)], e.d, t.fs[e.d]);
      assert !Counted(t, e.c);
    }
  }

  /** mkdir in a removed directory links it again, and its ".." counts once more. */
  lemma RevivedParent(st: State, d: nat, name: Name, c: nat)
    requires Inv(st) && Checked(st, Create(d, name, true, c)) && st.fs[d].nlink <= 0
    ensures !Inv(Step(st, Create(d, name, true, c)))
  {
    var t := Step(st, Create(d, name, true, c));
    assert Shaped(st.fs, d) && Counted(st, d) && Counted(st, c);
    var p := st.fs[d].ents[1].inum;
    assert Counted(st, p);
    FreshRefs(d, true, c, p);
    AddedIs(st.fs[d].ents, Dirent(c, name));
    RefsPut(st.fs, c, Fresh(d, true, c), p);
    RefsPut(st.fs[c := Fresh(d, true, c)], d, t.fs[d], p);
    Names(t.fs[d], 1, p);
    if p == c {
      assert Slot(st.fs[d].ents) >= 2;
      assert Count(st.fs[d].ents[1..], p) >= 1 by { Named(st.fs[d].ents[1..], 0, p); }
    }
    assert !Counted(t, p);
  }

  lemma {:induction false} Named(s: seq<Dirent>, k: nat, i: nat)
    requires k < |s| && s[k].inum == i
    ensures Count(s, i) >= 1
  {
    CountZero(s, i);
  }

  /** Four inodes after mkdir d, and after the rmdir that follows. */
  function Made(): State {
    State([Inode(Free, 0, []), Inode(Dir, 2, [Dirent(1, "."), Dirent(1, ".."), Dirent(2, "d")]),
           Inode(Dir, 1, [Dirent(2, "."), Dirent(1, "..")]), Inode(Free, 0, [])], [0, 0, 0, 0])
  }

  function Removed(): State {
    State([Inode(Free, 0, []), Inode(Dir, 1, [Dirent(1, "."), Dirent(1, ".."), Dirent(0, [])]),
           Inode(Dir, 0, [Dirent(2, "."), Dirent(1, "..")]), Inode(Free, 0, [])], [0, 0, 0, 0])
  }

  lemma MadeIs()
    ensures var e := Create(ROOT, "d", true, 2); Shape(Boot(4)) && Enabled(Boot(4), e) && Step(Boot(4), e) == Made()
  {
    assert Slot(Boot(4).fs[ROOT].ents) == 2;
    var t := Step(Boot(4), Create(ROOT, "d", true, 2));
    assert Added(Boot(4).fs[ROOT].ents, Dirent(2, "d")) == Made().fs[ROOT].ents;
    assert t.fs[0] == Made().fs[0] && t.fs[1] == Made().fs[1] && t.fs[2] == Made().fs[2] && t.fs[3] == Made().fs[3];
    assert t.pending == Made().pending;
  }

  lemma RemovedIs()
    ensures var e := Unlink(ROOT, 2); Shape(Made()) && Enabled(Made(), e) && Step(Made(), e) == Removed()
  {
    var t := Step(Made(), Unlink(ROOT, 2));
    assert Made().fs[ROOT].ents[2 := Dirent(0, [])] == Removed().fs[ROOT].ents;
    assert t.fs[0] == Removed().fs[0] && t.fs[1] == Removed().fs[1] && t.fs[2] == Removed().fs[2]
           && t.fs[3] == Removed().fs[3];
  }

  /** A removed directory, still some process's current directory, is reached by mkdir and rmdir ... */
  lemma RemovedDirectoryReached()
    ensures Leads(Boot(4), [Create(ROOT, "d", true, 2), Unlink(ROOT, 2)], Removed())
  {
    MadeIs();
    RemovedIs();
    hide Enabled, Boot, Shape, Step, Made, Removed;
    LeadsMore(Boot(4), [], Boot(4), Create(ROOT, "d", true, 2), Made());
    LeadsMore(Boot(4), [Create(ROOT, "d", true, 2)], Made(), Unlink(ROOT, 2), Removed());
    assert [] + [Create(ROOT, "d", true, 2)] == [Create(ROOT, "d", true, 2)];
    assert [Create(ROOT, "d", true, 2)] + [Unlink(ROOT, 2)] == [Create(ROOT, "d", true, 2), Unlink(ROOT, 2)];
  }

  /** ... and a file made in it from inside has a link count of one and no name. */
  lemma RemovedDirectoryLoses()
    ensures var e := Create(2, "f", false, 3);
            Checked(Removed(), e) && Step(Removed(), e).fs[3].nlink == 1 && Refs(Step(Removed(), e).fs, 3) == 0
  {
    var t := Step(Removed(), Create(2, "f", false, 3));
    forall d | 0 <= d < |t.fs| ensures DirRefs(t.fs[d], 3) == 0 { NoName3(t, d); }
    RefsNone(t.fs, 3);
  }

  lemma LeadsMore(s: State, run: seq<Event>, m: State, e: Event, t: State)
    requires Leads(s, run, m) && Shape(m) && Enabled(m, e) && t == Step(m, e)
    ensures Leads(s, run + [e], t)
  {
    assert (run + [e])[..|run|] == run;
  }

  lemma NoName3(t: State, d: nat)
    requires t == Step(Removed(), Create(2, "f", false, 3)) && d < 4
    ensures DirRefs(t.fs[d], 3) == 0
  {
    if d == ROOT {
      assert t.fs[d] == Removed().fs[d];
      NoName(t.fs[d], 3);
    }
  }
}
