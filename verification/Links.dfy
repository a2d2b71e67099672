/** Directory entries and link counts (kernel/sysfile.c, dirlookup and dirlink of kernel/fs.c) as a machine:
  a step is what one system call does while it holds the inodes it changes. */
module Links {

  const ROOT: nat := 1

  type Name = string    // at most DIRSIZ characters

  datatype Kind = Free | Dir | File
  datatype Dirent = Dirent(inum: nat, name: Name)
  datatype Inode = Inode(kind: Kind, nlink: int, ents: seq<Dirent>)

  /** `pending[i]` counts the link calls that have raised nlink of inode i and not yet made their entry. */
  datatype State = State(fs: seq<Inode>, pending: seq<nat>)

  predicate Live(n: Inode) {
    n.kind == Dir && n.nlink > 0
  }

  // ---------------------------------------------------------------- counting names

  function One(b: bool): nat {
    if b then 1 else 0
  }

  function Count(s: seq<Dirent>, i: nat): nat {
    if s == [] then 0 else Count(s[..|s| - 1], i) + One(s[|s| - 1].inum == i)
  }

  /** The entries of one directory that name inode i, its own "." aside. */
  function DirRefs(n: Inode, i: nat): nat {
    if Live(n) && |n.ents| > 0 then Count(n.ents[1..], i) else 0
  }

  /** The entries of all linked directories that name inode i. */
  function Refs(fs: seq<Inode>, i: nat): nat {
    if fs == [] then 0 else Refs(fs[..|fs| - 1], i) + DirRefs(fs[|fs| - 1], i)
  }

  lemma {:induction false} CountPut(s: seq<Dirent>, k: nat, e: Dirent, i: nat)
    requires k < |s|
    ensures Count(s[k := e], i) + One(s[k].inum == i) == Count(s, i) + One(e.inum == i)
  {
    var n := |s| - 1;
    if k < n {
      CountPut(s[..n], k, e, i);
      assert s[k := e][..n] == s[..n][k := e];
    } else {
      assert s[k := e][..n] == s[..n];
    }
  }

  lemma {:induction false} CountZero(s: seq<Dirent>, i: nat)
    ensures Count(s, i) == 0 <==> forall k :: 0 <= k < |s| ==> s[k].inum != i
  {
    if s != [] { CountZero(s[..|s| - 1], i); }
  }

  lemma {:induction false} RefsPut(fs: seq<Inode>, d: nat, n: Inode, i: nat)
    requires d < |fs|
    ensures Refs(fs[d := n], i) + DirRefs(fs[d], i) == Refs(fs, i) + DirRefs(n, i)
  {
    var m := |fs| - 1;
    if d < m {
      RefsPut(fs[..m], d, n, i);
      assert fs[d := n][..m] == fs[..m][d := n];
    } else {
      assert fs[d := n][..m] == fs[..m];
    }
  }

  lemma {:induction false} RefsAtLeast(fs: seq<Inode>, d: nat, i: nat)
    requires d < |fs|
    ensures Refs(fs, i) >= DirRefs(fs[d], i)
  {
    var m := |fs| - 1;
    if d < m { RefsAtLeast(fs[..m], d, i); }
  }

  lemma {:induction false} RefsTwo(fs: seq<Inode>, d: nat, c: nat, i: nat)
    requires d < |fs| && c < |fs| && d != c
    ensures Refs(fs, i) >= DirRefs(fs[d], i) + DirRefs(fs[c], i)
  {
    var m := |fs| - 1;
    if d < m && c < m {
      RefsTwo(fs[..m], d, c, i);
    } else {
      RefsAtLeast(fs[..m], if d < m then d else c, i);
    }
  }

  /** Only one directory names i. */
  lemma {:induction false} RefsOnly(fs: seq<Inode>, d: nat, i: nat)
    requires d < |fs| && forall c :: 0 <= c < |fs| && c != d ==> DirRefs(fs[c], i) == 0
    ensures Refs(fs, i) == DirRefs(fs[d], i)
  {
    var m := |fs| - 1;
    if d < m { RefsOnly(fs[..m], d, i); } else { RefsNone(fs[..m], i); }
  }

  lemma {:induction false} RefsNone(fs: seq<Inode>, i: nat)
    requires forall c :: 0 <= c < |fs| ==> DirRefs(fs[c], i) == 0
    ensures Refs(fs, i) == 0
  {
    if fs != [] { RefsNone(fs[..|fs| - 1], i); }
  }

  lemma Names(n: Inode, k: nat, i: nat)
    requires Live(n) && 1 <= k < |n.ents| && n.ents[k].inum == i
    ensures DirRefs(n, i) >= 1
  {
    CountZero(n.ents[1..], i);
    assert n.ents[1..][k - 1] == n.ents[k];
  }

  lemma NoName(n: Inode, i: nat)
    requires forall k :: 1 <= k < |n.ents| ==> n.ents[k].inum != i
    ensures DirRefs(n, i) == 0
  {
    if |n.ents| > 0 { CountZero(n.ents[1..], i); }
  }

  // ---------------------------------------------------------------- invariant

  /** nlink is the number of names, plus the links being made. An inode nobody uses has none. */
  predicate Counted(st: State, i: nat)
    requires i < |st.fs| == |st.pending|
  {
    var n := st.fs[i];
    && n.nlink == Refs(st.fs, i) + st.pending[i]
    && (n.kind == Free ==> n.nlink == 0)
    && (n.kind == Dir ==> st.pending[i] == 0)
  }

  predicate Unique(ents: seq<Dirent>) {
    forall j, k :: 0 <= j < k < |ents| && ents[j].inum != 0 && ents[k].inum != 0 ==> ents[j].name != ents[k].name
  }

  /** "." and ".." first, only the root its own parent, no name twice,
      and nothing else in a directory that has been unlinked. */
  predicate Shaped(fs: seq<Inode>, d: nat)
    requires d < |fs|
  {
    var n := fs[d];
    if n.kind != Dir then n.ents == []
    else
      && |n.ents| >= 2 && n.ents[0] == Dirent(d, ".") && n.ents[1].name == ".." && 0 < n.ents[1].inum
      && (d != ROOT ==> n.ents[1].inum != d)
      && (forall k :: 0 <= k < |n.ents| ==> n.ents[k].inum < |fs|)
      && Unique(n.ents)
      && (n.nlink == 0 ==> forall k :: 2 <= k < |n.ents| ==> n.ents[k].inum == 0)
  }

  /** A directory has one name, in the directory its ".." names. */
  predicate Child(fs: seq<Inode>, d: nat, k: nat)
    requires d < |fs|
  {
    Live(fs[d]) && 2 <= k < |fs[d].ents| ==>
      var c := fs[d].ents[k].inum;
      c != 0 && c < |fs| && fs[c].kind == Dir ==>
        && c != ROOT && c != d && Live(fs[c]) && |fs[c].ents| >= 2 && fs[c].ents[1].inum == d
        && forall j :: 2 <= j < |fs[d].ents| && fs[d].ents[j].inum == c ==> j == k
  }

  predicate Holds(fs: seq<Inode>, p: nat, c: nat) {
    p < |fs| && Live(fs[p]) && exists k :: 2 <= k < |fs[p].ents| && fs[p].ents[k].inum == c
  }

  predicate Parented(fs: seq<Inode>, c: nat)
    requires c < |fs|
  {
    Live(fs[c]) && c != ROOT && |fs[c].ents| >= 2 ==> Holds(fs, fs[c].ents[1].inum, c)
  }

  ghost predicate Inv(st: State) {
    && |st.fs| == |st.pending| && ROOT < |st.fs| && st.fs[0].kind == Free
    && (forall i :: 0 < i < |st.fs| ==> Counted(st, i))
    && (forall d :: 0 <= d < |st.fs| ==> Shaped(st.fs, d))
    && (forall d, k :: 0 <= d < |st.fs| && 0 <= k ==> Child(st.fs, d, k))
    && (forall c :: 0 <= c < |st.fs| ==> Parented(st.fs, c))
    && st.fs[ROOT].kind == Dir && st.fs[ROOT].nlink > 0
    && |st.fs[ROOT].ents| >= 2 && st.fs[ROOT].ents[1].inum == ROOT
  }

  // ---------------------------------------------------------------- steps

  /** The first empty entry, or the end. */
  function Slot(ents: seq<Dirent>): (k: nat)
    ensures k <= |ents| && (k < |ents| ==> ents[k].inum == 0) && forall j :: 0 <= j < k ==> ents[j].inum != 0
  {
    if ents == [] then 0
    else
      var k := Slot(ents[..|ents| - 1]);
      if k < |ents| - 1 || ents[k].inum == 0 then k else |ents|
  }

  /** dirlink. */
  function Added(ents: seq<Dirent>, e: Dirent): seq<Dirent> {
    var k := Slot(ents);
    if k < |ents| then ents[k := e] else ents + [e]
  }

  predicate Absent(ents: seq<Dirent>, name: Name) {
    forall k :: 0 <= k < |ents| && ents[k].inum != 0 ==> ents[k].name != name
  }

  predicate Empty(ents: seq<Dirent>) {
    forall k :: 2 <= k < |ents| ==> ents[k].inum == 0
  }

  datatype Event =
    | LinkStart(i: nat)                                   // nlink++ in sys_link
    | LinkDone(i: nat, d: nat, name: Name)                // its dirlink
    | LinkUndo(i: nat)                                    // bad:
    | Create(d: nat, name: Name, dir: bool, c: nat)
    | Unlink(d: nat, k: nat)
    | Reap(i: nat)                                        // the last iput

  predicate Shape(st: State) {
    |st.fs| == |st.pending| && ROOT < |st.fs|
  }

  /** What the code checks before it changes anything; that the directory is still linked it does not. */
  predicate Checked(st: State, e: Event)
    requires Shape(st)
  {
    match e
    case LinkStart(i) => 0 < i < |st.fs| && st.fs[i].kind == File
    case LinkDone(i, d, name) =>
      && 0 < i < |st.fs| && st.pending[i] > 0 && 0 < d < |st.fs|
      && st.fs[d].kind == Dir && Absent(st.fs[d].ents, name)
    case LinkUndo(i) => 0 < i < |st.fs| && st.pending[i] > 0
    case Create(d, name, dir, c) =>
      && 0 < d < |st.fs| && 0 < c < |st.fs| && st.fs[c].kind == Free
      && st.fs[d].kind == Dir && Absent(st.fs[d].ents, name)
    case Unlink(d, k) =>
      && 0 < d < |st.fs| && st.fs[d].kind == Dir && 2 <= k < |st.fs[d].ents|
      && 0 < st.fs[d].ents[k].inum < |st.fs|
      && (st.fs[st.fs[d].ents[k].inum].kind == Dir ==> Empty(st.fs[st.fs[d].ents[k].inum].ents))
    case Reap(i) => 0 < i < |st.fs| && st.fs[i].kind != Free && st.fs[i].nlink == 0 && st.pending[i] == 0
  }

  /** Names go into linked directories only. */
  predicate Enabled(st: State, e: Event)
    requires Shape(st)
  {
    && Checked(st, e)
    && (e.LinkDone? || e.Create? ==> st.fs[e.d].nlink > 0)
  }

  function Fresh(d: nat, dir: bool, c: nat): Inode {
    if dir then Inode(Dir, 1, [Dirent(c, "."), Dirent(d, "..")]) else Inode(File, 1, [])
  }

  function Step(st: State, e: Event): State
    requires Shape(st) && Checked(st, e)
  {
    var fs := st.fs;
    match e
    case LinkStart(i) =>
      State(fs[i := fs[i].(nlink := fs[i].nlink + 1)], st.pending[i := st.pending[i] + 1])
    case LinkDone(i, d, name) =>
      State(fs[d := fs[d].(ents := Added(fs[d].ents, Dirent(i, name)))], st.pending[i := st.pending[i] - 1])
    case LinkUndo(i) =>
      State(fs[i := fs[i].(nlink := fs[i].nlink - 1)], st.pending[i := st.pending[i] - 1])
    case Create(d, name, dir, c) =>
      st.(fs := fs[c := Fresh(d, dir, c)]
                  [d := fs[d].(nlink := fs[d].nlink + One(dir), ents := Added(fs[d].ents, Dirent(c, name)))])
    case Unlink(d, k) =>
      var c := fs[d].ents[k].inum;
      var gs := fs[d := fs[d].(nlink := fs[d].nlink - One(fs[c].kind == Dir), ents := fs[d].ents[k := Dirent(0, [])])];
      st.(fs := gs[c := gs[c].(nlink := gs[c].nlink - 1)])
    case Reap(i) => st.(fs := fs[i := Inode(Free, 0, [])])
  }

  // ---------------------------------------------------------------- adding and clearing an entry

  lemma {:induction false} CountAppend(s: seq<Dirent>, e: Dirent, i: nat)
    ensures Count(s + [e], i) == Count(s, i) + One(e.inum == i)
  {
    assert (s + [e])[..|s|] == s;
  }

  /** Where the new entry is, and that the others stay. */
  lemma AddedIs(ents: seq<Dirent>, e: Dirent)
    requires |ents| >= 2 && ents[0].inum != 0 && ents[1].inum != 0
    ensures var a, k := Added(ents, e), Slot(ents);
            && 2 <= k < |a| && a[k] == e && |ents| <= |a| <= |ents| + 1 && (k < |ents| || k == |a| - 1)
            && (forall j :: 0 <= j < |ents| && j != k ==> a[j] == ents[j])
            && (k < |ents| ==> |a| == |ents|) && (k == |ents| ==> |a| == k + 1)
    ensures forall i: nat :: i > 0 ==> Count(Added(ents, e)[1..], i) == Count(ents[1..], i) + One(e.inum == i)
  {
    var a, k := Added(ents, e), Slot(ents);
    forall i: nat | i > 0 ensures Count(a[1..], i) == Count(ents[1..], i) + One(e.inum == i) {
      if k < |ents| {
        assert a[1..] == ents[1..][k - 1 := e];
        CountPut(ents[1..], k - 1, e, i);
      } else {
        assert a[1..] == ents[1..] + [e];
        CountAppend(ents[1..], e, i);
      }
    }
  }

  lemma AddedUnique(ents: seq<Dirent>, e: Dirent)
    requires |ents| >= 2 && ents[0].inum != 0 && ents[1].inum != 0 && Unique(ents) && Absent(ents, e.name)
    ensures Unique(Added(ents, e))
  {
    AddedIs(ents, e);
  }
}
