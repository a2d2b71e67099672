/** Directory entries as bytes (include/fs.h:49-52): what dirlookup and dirlink of kernel/fs.c look for and leave. */
module Dirents {
  import opened Wrappers
  import opened Layout
  import opened FileBytes

  const DIRSIZ: nat := 14        // include/fs.h:47
  const DIRENT: nat := 16        // sizeof(struct dirent)

  type Bytes = seq<byte>

  const DOT: Bytes := [46]
  const DOTDOT: Bytes := [46, 46]

  /** A string as C sees it in an array: up to the first NUL. */
  function CString(s: Bytes): (r: Bytes)
    ensures |r| <= |s| && 0 !in r
  {
    if s == [] || s[0] == 0 then [] else [s[0]] + CString(s[1..])
  }

  predicate IsName(name: Bytes) {
    |name| <= DIRSIZ && 0 !in name
  }

  /** strncpy: filled up with NULs. */
  function Padded(name: Bytes): (r: Bytes)
    requires |name| <= DIRSIZ
    ensures |r| == DIRSIZ
  {
    name + seq(DIRSIZ - |name|, _ => 0)
  }

  lemma {:induction false} CStringPadded(name: Bytes, rest: Bytes)
    requires 0 !in name && (rest == [] || rest[0] == 0)
    ensures CString(name + rest) == name
  {
    if name == [] {
      assert name + rest == rest;
    } else {
      assert (name + rest)[1..] == name[1..] + rest;
      CStringPadded(name[1..], rest);
    }
  }

  function Inum(de: Bytes): nat
    requires |de| == DIRENT
  {
    var lo: int, hi: int := de[0], de[1];
    lo + 0x100 * hi
  }

  function DirentOf(inum: nat, name: Bytes): (de: Bytes)
    requires inum < 0x1_0000 && IsName(name)
    ensures |de| == DIRENT && Inum(de) == inum
  {
    [inum % 0x100, inum / 0x100] + Padded(name)
  }

  predicate Names(de: Bytes, name: Bytes)
    requires |de| == DIRENT
  {
    Inum(de) != 0 && CString(de[2..]) == name
  }

  /** Where, from `off` on, the first entry of that name is. */
  function Lookup(c: Bytes, name: Bytes, off: nat): (r: Option<nat>)
    ensures r.Some? ==> off <= r.value && r.value + DIRENT <= |c|
    decreases |c| - off
  {
    if off + DIRENT > |c| then None
    else if Names(c[off..off + DIRENT], name) then Some(off)
    else Lookup(c, name, off + DIRENT)
  }

  /** Where, from `off` on, the first empty entry is, or the end. */
  function FirstEmpty(c: Bytes, off: nat): (e: nat)
    requires off % DIRENT == 0 && off <= |c| && |c| % DIRENT == 0
    ensures off <= e <= |c| && e % DIRENT == 0
    decreases |c| - off
  {
    if off == |c| || Inum(c[off..off + DIRENT]) == 0 then off else FirstEmpty(c, off + DIRENT)
  }

  lemma EmptyNext(c: Bytes, off: nat)
    requires off % DIRENT == 0 && off <= |c| && |c| % DIRENT == 0
    ensures off == |c| ==> FirstEmpty(c, off) == off
    ensures off < |c| ==> off + DIRENT <= |c|
                          && FirstEmpty(c, off) == if Inum(c[off..off + DIRENT]) == 0 then off
                                                   else FirstEmpty(c, off + DIRENT)
  {
  }

  lemma {:induction false} FirstEmptyIs(c: Bytes, off: nat)
    requires off % DIRENT == 0 && off <= |c| && |c| % DIRENT == 0
    ensures var e := FirstEmpty(c, off); e < |c| ==> e + DIRENT <= |c| && Inum(c[e..e + DIRENT]) == 0
    decreases |c| - off
  {
    if !(off == |c| || Inum(c[off..off + DIRENT]) == 0) { FirstEmptyIs(c, off + DIRENT); }
  }

  /** The directory with a new entry. */
  function Entered(c: Bytes, name: Bytes, inum: nat): (s: Bytes)
    requires inum < 0x1_0000 && IsName(name)
  {
    if |c| % DIRENT == 0 then Spliced(c, FirstEmpty(c, 0), DirentOf(inum, name)) else c
  }

  /** Entry by entry. */
  lemma EnteredAt(c: Bytes, name: Bytes, inum: nat, off: nat)
    requires IsName(name) && 0 < inum < 0x1_0000 && |c| % DIRENT == 0 && off % DIRENT == 0
    ensures var e, s := FirstEmpty(c, 0), Entered(c, name, inum);
            && |s| == (if e < |c| then |c| else |c| + DIRENT)
            && (off + DIRENT <= |s| ==>
                  && (off == e ==> Names(s[off..off + DIRENT], name) && !(e < |c| && Inum(c[e..e + DIRENT]) != 0))
                  && (off != e ==> off + DIRENT <= |c| && s[off..off + DIRENT] == c[off..off + DIRENT]))
  {
    hide CString, Inum, FirstEmpty, DirentOf, Names;
    EmptyInside(c);
    FirstEmptyIs(c, 0);
    DirentNames(name, inum);
    SplicedEntry(c, FirstEmpty(c, 0), DirentOf(inum, name), off);
  }

  lemma DirentNames(name: Bytes, inum: nat)
    requires IsName(name) && 0 < inum < 0x1_0000
    ensures |DirentOf(inum, name)| == DIRENT && Names(DirentOf(inum, name), name)
  {
    CStringPadded(name, seq(DIRSIZ - |name|, _ => 0));
    assert DirentOf(inum, name)[2..] == Padded(name);
  }

  lemma SplicedEntry(c: Bytes, e: nat, de: Bytes, off: nat)
    requires e <= |c| && e % DIRENT == 0 && |c| % DIRENT == 0 && |de| == DIRENT && off % DIRENT == 0
    ensures var s := Spliced(c, e, de);
            && |s| == (if e < |c| then |c| else |c| + DIRENT)
            && (off + DIRENT <= |s| ==>
                  && (off == e ==> s[off..off + DIRENT] == de)
                  && (off != e ==> off + DIRENT <= |c| && s[off..off + DIRENT] == c[off..off + DIRENT]))
  {
    var s := Spliced(c, e, de);
    assert e < |c| ==> e + DIRENT <= |c|;
    if off + DIRENT <= |s| && off != e {
      assert off < e ==> off + DIRENT <= e;
      forall k | off <= k < off + DIRENT ensures s[k] == c[k] {}
    }
  }

  lemma LookupNext(c: Bytes, name: Bytes, off: nat)
    ensures off + DIRENT > |c| ==> Lookup(c, name, off) == None
    ensures off + DIRENT <= |c| ==>
              Lookup(c, name, off) == if Names(c[off..off + DIRENT], name) then Some(off)
                                      else Lookup(c, name, off + DIRENT)
  {
  }

  lemma NamesOne(de: Bytes, name: Bytes, other: Bytes)
    requires |de| == DIRENT
    ensures Names(de, name) && other != name ==> !Names(de, other)
    ensures Inum(de) == 0 ==> !Names(de, other)
  {
  }

  /** dirlookup then finds the entry dirlink made, and every other name where it was. */
  lemma {:induction false} EnteredIsFound(c: Bytes, name: Bytes, inum: nat, other: Bytes, off: nat)
    requires IsName(name) && 0 < inum < 0x1_0000 && |c| % DIRENT == 0 && off % DIRENT == 0
    ensures other != name ==> Lookup(Entered(c, name, inum), other, off) == Lookup(c, other, off)
    ensures off <= FirstEmpty(c, 0) && Lookup(c, name, off) == None
            ==> Lookup(Entered(c, name, inum), name, off) == Some(FirstEmpty(c, 0))
    decreases |c| + DIRENT - off
  {
    hide Entered, FirstEmpty, CString, Inum, DirentOf, Padded, Names, Lookup;
    EnteredAt(c, name, inum, off);
    assert FirstEmpty(c, 0) <= |c| && FirstEmpty(c, 0) % DIRENT == 0 by { EmptyInside(c); }
    var s := Entered(c, name, inum);
    LookupNext(s, other, off);
    LookupNext(s, name, off);
    LookupNext(c, other, off);
    LookupNext(c, name, off);
    if off + DIRENT <= |s| {
      NamesOne(s[off..off + DIRENT], name, other);
      if off + DIRENT <= |c| { NamesOne(c[off..off + DIRENT], name, other); }
      EnteredIsFound(c, name, inum, other, off + DIRENT);
    }
    LookupNext(c, other, off + DIRENT);
  }

  lemma EmptyInside(c: Bytes)
    requires |c| % DIRENT == 0
    ensures FirstEmpty(c, 0) <= |c| && FirstEmpty(c, 0) % DIRENT == 0
  {
  }

  /** No entry from `off` on is in use. */
  predicate AllEmpty(c: Bytes, off: nat)
    decreases |c| - off
  {
    off + DIRENT > |c| || (Inum(c[off..off + DIRENT]) == 0 && AllEmpty(c, off + DIRENT))
  }

  /** An entry of zeros. */
  function NoEntry(): (de: Bytes)
    ensures |de| == DIRENT
  {
    seq(DIRENT, _ => 0)
  }

  lemma {:induction false} LookupIs(c: Bytes, name: Bytes, off: nat)
    requires off % DIRENT == 0
    ensures Lookup(c, name, off).Some? ==>
              var e := Lookup(c, name, off).value; e % DIRENT == 0 && off <= e && e + DIRENT <= |c|
                                                   && Names(c[e..e + DIRENT], name)
    decreases |c| - off
  {
    if off + DIRENT <= |c| && !Names(c[off..off + DIRENT], name) { LookupIs(c, name, off + DIRENT); }
  }

  lemma FirstEntry(name: Bytes, inum: nat)
    requires IsName(name) && 0 < inum < 0x1_0000
    ensures Entered([], name, inum) == DirentOf(inum, name) && FirstEmpty([], 0) == 0
    ensures FirstEmpty(Entered([], name, inum), 0) == DIRENT
  {
    var de := DirentOf(inum, name);
    assert de[0..DIRENT] == de;
    assert FirstEmpty(de, DIRENT) == DIRENT;
  }
}
