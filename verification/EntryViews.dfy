/** A directory's bytes as the list of entries the machine of Links works on: what dirlookup, dirlink, unlink and
  isdirempty do to the one they do to the other. */
module EntryViews {
  import opened Wrappers
  import opened FileBytes
  import opened Dirents
  import L = Links

  function Text(b: Bytes): (s: string)
    ensures |s| == |b|
  {
    seq(|b|, i requires 0 <= i < |b| => b[i] as char)
  }

  lemma TextSame(a: Bytes, b: Bytes)
    ensures Text(a) == Text(b) <==> a == b
  {
    if Text(a) == Text(b) {
      forall i | 0 <= i < |a| ensures a[i] == b[i] { assert Text(a)[i] == Text(b)[i]; }
    }
  }

  function View(de: Bytes): L.Dirent
    requires |de| == DIRENT
  {
    L.Dirent(Inum(de), Text(CString(de[2..])))
  }

  /** The k-th entry. */
  function At(c: Bytes, k: nat): (de: Bytes)
    requires DIRENT * (k + 1) <= |c|
    ensures |de| == DIRENT
  {
    c[DIRENT * k..DIRENT * k + DIRENT]
  }

  function Entries(c: Bytes): (s: seq<L.Dirent>)
    ensures |s| == |c| / DIRENT
  {
    seq(|c| / DIRENT, k requires 0 <= k < |c| / DIRENT => View(At(c, k)))
  }

  /** dirlookup finds no entry exactly if the list has none of that name. */
  lemma {:induction false} LookupViews(c: Bytes, name: Bytes, k: nat)
    requires |c| % DIRENT == 0 && DIRENT * k <= |c|
    ensures Lookup(c, name, DIRENT * k).None? <==>
              forall j :: k <= j < |c| / DIRENT && Entries(c)[j].inum != 0 ==> Entries(c)[j].name != Text(name)
    decreases |c| - DIRENT * k
  {
    hide CString, Inum;
    if DIRENT * k < |c| {
      TextSame(CString(At(c, k)[2..]), name);
      assert Entries(c)[k] == View(At(c, k));
      if !Names(At(c, k), name) { LookupViews(c, name, k + 1); }
    }
  }

  lemma AbsentViews(c: Bytes, name: Bytes)
    requires |c| % DIRENT == 0
    ensures Lookup(c, name, 0).None? <==> L.Absent(Entries(c), Text(name))
  {
    LookupViews(c, name, 0);
  }

  lemma {:induction false} EmptyFrom(c: Bytes, k: nat)
    requires |c| % DIRENT == 0 && DIRENT * k <= |c|
    ensures var e := FirstEmpty(c, DIRENT * k) / DIRENT;
            && DIRENT * e == FirstEmpty(c, DIRENT * k) && k <= e <= |c| / DIRENT
            && (e < |c| / DIRENT ==> Entries(c)[e].inum == 0)
            && forall j :: k <= j < e ==> Entries(c)[j].inum != 0
    decreases |c| - DIRENT * k
  {
    hide CString, Inum;
    if DIRENT * k < |c| {
      assert Entries(c)[k].inum == Inum(At(c, k));
      if Inum(At(c, k)) != 0 { EmptyFrom(c, k + 1); }
    }
  }

  /** A new entry at a place of the list. */
  lemma PutViews(c: Bytes, k: nat, de: Bytes)
    requires |c| % DIRENT == 0 && DIRENT * k <= |c| && |de| == DIRENT
    ensures Entries(Spliced(c, DIRENT * k, de)) ==
            if k < |c| / DIRENT then Entries(c)[k := View(de)] else Entries(c) + [View(de)]
  {
    hide CString, Inum, Spliced;
    var s := Spliced(c, DIRENT * k, de);
    SplicedEntry(c, DIRENT * k, de, DIRENT * k);
    forall j: nat | j < |Entries(s)| ensures Entries(s)[j] == if j == k then View(de) else Entries(c)[j] {
      SplicedEntry(c, DIRENT * k, de, DIRENT * j);
      assert At(s, j) == if j == k then de else At(c, j);
    }
  }

  /** dirlink makes the entry that the machine adds. */
  lemma EnteredViews(c: Bytes, name: Bytes, inum: nat)
    requires |c| % DIRENT == 0 && IsName(name) && 0 < inum < 0x1_0000
    ensures Entries(Entered(c, name, inum)) == L.Added(Entries(c), L.Dirent(inum, Text(name)))
  {
    hide CString, Inum, Spliced;
    EmptyFrom(c, 0);
    var e, k := FirstEmpty(c, 0) / DIRENT, L.Slot(Entries(c));
    assert e == k;
    DirentNames(name, inum);
    PutViews(c, k, DirentOf(inum, name));
  }

  /** Clearing an entry with zeros is clearing it in the list. */
  lemma ClearedViews(c: Bytes, k: nat)
    requires |c| % DIRENT == 0 && DIRENT * (k + 1) <= |c|
    ensures Entries(Spliced(c, DIRENT * k, NoEntry())) == Entries(c)[k := L.Dirent(0, [])]
  {
    assert View(NoEntry()) == L.Dirent(0, []);
    PutViews(c, k, NoEntry());
  }

  /** isdirempty looks at the entries from the third on. */
  lemma {:induction false} EmptyViews(c: Bytes, k: nat)
    requires |c| % DIRENT == 0
    ensures AllEmpty(c, DIRENT * k) <==> forall j :: k <= j < |c| / DIRENT ==> Entries(c)[j].inum == 0
    decreases |c| - DIRENT * k
  {
    hide CString, Inum;
    if DIRENT * (k + 1) <= |c| {
      assert Entries(c)[k].inum == Inum(At(c, k));
      EmptyViews(c, k + 1);
    }
  }

  lemma EmptyDirViews(c: Bytes)
    requires |c| % DIRENT == 0
    ensures AllEmpty(c, 2 * DIRENT) <==> L.Empty(Entries(c))
  {
    EmptyViews(c, 2);
  }

  /** A new directory, entry by entry. */
  lemma DotViews(ip: nat, dp: nat)
    requires 0 < ip < 0x1_0000 && 0 < dp < 0x1_0000
    ensures Entries(Entered(Entered([], DOT, ip), DOTDOT, dp)) == [L.Dirent(ip, "."), L.Dirent(dp, "..")]
  {
    hide CString, Inum, Spliced, Entered;
    var c := Entered([], DOT, ip);
    EnteredAt([], DOT, ip, 0);
    EnteredViews([], DOT, ip);
    EnteredViews(c, DOTDOT, dp);
    assert Entries([]) == [];
    assert Text(DOT) == "." && Text(DOTDOT) == "..";
    assert L.Slot([L.Dirent(ip, ".")]) == 1;
  }

  /** An entry at the end of the file. */
  lemma AppendedViews(c: Bytes, name: Bytes, inum: nat)
    requires |c| % DIRENT == 0 && IsName(name) && 0 < inum < 0x1_0000
    ensures Entries(c + DirentOf(inum, name)) == Entries(c) + [L.Dirent(inum, Text(name))]
  {
    hide CString, Inum;
    var de := DirentOf(inum, name);
    DirentNames(name, inum);
    PutViews(c, |c| / DIRENT, de);
    assert Spliced(c, |c|, de) == c + de;
  }

  /** The k-th entry is the first in use with the name. */
  predicate FirstIn(s: seq<L.Dirent>, name: string, k: nat) {
    && k < |s| && s[k].inum != 0 && s[k].name == name
    && forall j :: 0 <= j < k && s[j].inum != 0 ==> s[j].name != name
  }

  /** Where dirlookup finds the name. */
  lemma {:induction false} PlaceViews(c: Bytes, name: Bytes, k: nat, i: nat)
    requires |c| % DIRENT == 0 && DIRENT * k <= |c| && k <= i && FirstIn(Entries(c), Text(name), i)
    ensures Lookup(c, name, DIRENT * k) == Some(DIRENT * i)
    decreases |c| - DIRENT * k
  {
    hide CString, Inum;
    TextSame(CString(At(c, k)[2..]), name);
    assert Entries(c)[k] == View(At(c, k));
    if k < i { PlaceViews(c, name, k + 1, i); }
  }

  /** unlink clears the entry dirlookup finds, and no other. */
  lemma RemovedViews(c: Bytes, name: Bytes, k: nat)
    requires |c| % DIRENT == 0 && FirstIn(Entries(c), Text(name), k)
    ensures Lookup(c, name, 0) == Some(DIRENT * k)
    ensures Entries(Spliced(c, DIRENT * k, NoEntry())) == Entries(c)[k := L.Dirent(0, "")]
  {
    PlaceViews(c, name, 0, k);
    ClearedViews(c, k);
  }
}
