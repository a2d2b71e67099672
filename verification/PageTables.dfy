/** Who owns each physical page (kernel/vm.c, kernel/kalloc.c): the free list, a page directory, or the
  rest of the kernel; and what writing one entry does to that. */
module PageTables {
  import opened Wrappers

  const ENTRIES: nat := 1024       // NPDENTRIES, NPTENTRIES
  const USER: nat := 0x8_0000      // virtual pages below KERNBASE

  /** A page-directory or page-table entry. */
  datatype Entry = Entry(present: bool, frame: nat, flags: nat)

  const ABSENT: Entry := Entry(false, 0, 0)

  /** A physical page, by what it is used for; kfree leaves Junk. */
  datatype Content = Junk | Table(entries: seq<Entry>) | Data(bytes: seq<nat>)

  type Pages = seq<Content>

  predicate IsTable(c: Content) {
    c.Table? && |c.entries| == ENTRIES
  }

  function ZeroTable(): Content {
    Table(seq(ENTRIES, _ => ABSENT))
  }

  function ZeroData(): Content {
    Data(seq(4096, _ => 0))
  }

  function EntryAt(ps: Pages, p: nat, i: nat): Entry {
    if p < |ps| && IsTable(ps[p]) && i < ENTRIES then ps[p].entries[i] else ABSENT
  }

  /** The entry for virtual page v under directory d, absent if its page table is. */
  function Pte(ps: Pages, d: nat, v: nat): Entry {
    var e := EntryAt(ps, d, v / ENTRIES);
    if e.present then EntryAt(ps, e.frame, v % ENTRIES) else ABSENT
  }

  /** A place that owns a page: a directory itself, a directory entry, the entry of a user page. */
  datatype Slot = Root(d: nat) | Pt(d: nat, i: nat) | Leaf(d: nat, v: nat)

  function Ptr(ps: Pages, dirs: set<nat>, s: Slot): Option<nat> {
    if s.d !in dirs then None
    else
      match s
      case Root(d) => Some(d)
      case Pt(d, i) => if i < ENTRIES && EntryAt(ps, d, i).present then Some(EntryAt(ps, d, i).frame) else None
      case Leaf(d, v) => if v < USER && Pte(ps, d, v).present then Some(Pte(ps, d, v).frame) else None
  }

  predicate Fits(ps: Pages, s: Slot, p: nat) {
    p < |ps| && if s.Leaf? then ps[p].Data? else IsTable(ps[p])
  }

  ghost predicate Typed(ps: Pages, dirs: set<nat>) {
    forall s: Slot :: Ptr(ps, dirs, s).Some? ==> Fits(ps, s, Ptr(ps, dirs, s).value)
  }

  ghost predicate NoSharing(ps: Pages, dirs: set<nat>) {
    forall s: Slot, t: Slot :: Ptr(ps, dirs, s).Some? && Ptr(ps, dirs, s) == Ptr(ps, dirs, t) ==> s == t
  }

  ghost predicate Pointed(ps: Pages, dirs: set<nat>, p: nat) {
    exists s: Slot :: Ptr(ps, dirs, s) == Some(p)
  }

  predicate ListOnce(free: seq<nat>, n: nat) {
    && (forall i :: 0 <= i < |free| ==> free[i] < n)
    && (forall i, j :: 0 <= i < j < |free| ==> free[i] != free[j])
  }

  ghost predicate Split(ps: Pages, dirs: set<nat>, free: seq<nat>, held: set<nat>, p: nat) {
    && (p in free ==> p !in held && !Pointed(ps, dirs, p))
    && (p in held ==> !Pointed(ps, dirs, p))
    && (p in free || p in held || Pointed(ps, dirs, p))
  }

  /** The free list (each page once), the pages in use elsewhere in the kernel (`held`) and the pages each
    directory owns (each through one slot) partition physical memory. */
  ghost predicate Own(ps: Pages, dirs: set<nat>, free: seq<nat>, held: set<nat>) {
    && ListOnce(free, |ps|) && (forall p :: p in held ==> p < |ps|)
    && Typed(ps, dirs) && NoSharing(ps, dirs)
    && forall p :: 0 <= p < |ps| ==> Split(ps, dirs, free, held, p)
  }

  // ---------------------------------------------------------------- what the processor allows

  /** PTE_W, bit 1 of an entry, and PTE_U, bit 2 (include/mmu.h:103-104). */
  predicate Writable(e: Entry) {
    e.flags / 2 % 2 == 1
  }

  predicate ForUser(e: Entry) {
    e.flags / 4 % 2 == 1
  }

  /** User code reaches page v of directory d through two entries, and each has to let it. */
  predicate UserReads(ps: Pages, d: nat, v: nat) {
    var e := EntryAt(ps, d, v / ENTRIES);
    var f := EntryAt(ps, e.frame, v % ENTRIES);
    e.present && ForUser(e) && f.present && ForUser(f)
  }

  predicate UserWrites(ps: Pages, d: nat, v: nat) {
    UserReads(ps, d, v) && KernelWrites(ps, d, v)
  }

  /** The kernel needs no PTE_U, but has to obey PTE_W. */
  predicate KernelWrites(ps: Pages, d: nat, v: nat) {
    var e := EntryAt(ps, d, v / ENTRIES);
    var f := EntryAt(ps, e.frame, v % ENTRIES);
    e.present && Writable(e) && f.present && Writable(f)
  }

  /** The entries of every directory allow everything: what is allowed is for the page's own entry to say. */
  ghost predicate Gated(ps: Pages, dirs: set<nat>) {
    forall d, i: nat :: d in dirs && EntryAt(ps, d, i).present ==>
                          Writable(EntryAt(ps, d, i)) && ForUser(EntryAt(ps, d, i))
  }

  lemma Access(ps: Pages, dirs: set<nat>, d: nat, v: nat)
    requires Gated(ps, dirs) && d in dirs
    ensures UserReads(ps, d, v) <==> Pte(ps, d, v).present && ForUser(Pte(ps, d, v))
    ensures KernelWrites(ps, d, v) <==> Pte(ps, d, v).present && Writable(Pte(ps, d, v))
  {
  }

  lemma GatedSame(ps: Pages, qs: Pages, dirs: set<nat>, dirs': set<nat>)
    requires Gated(ps, dirs) && dirs' <= dirs
    requires forall d, i: nat :: d in dirs' ==> EntryAt(qs, d, i) == EntryAt(ps, d, i)
    ensures Gated(qs, dirs')
  {
  }

  lemma GatedDirs(ps: Pages, qs: Pages, dirs: set<nat>, dirs': set<nat>)
    requires Gated(ps, dirs) && dirs' <= dirs && forall d :: d in dirs' ==> SameDir(ps, qs, d)
    ensures Gated(qs, dirs')
  {
    GatedSame(ps, qs, dirs, dirs');
  }

  // ---------------------------------------------------------------- one slot gains or loses a page

  ghost predicate SameBut(ps: Pages, qs: Pages, dirs: set<nat>, dirs': set<nat>, s: Slot) {
    forall t: Slot :: t != s ==> Ptr(qs, dirs', t) == Ptr(ps, dirs, t)
  }

  /** No page changes its kind. */
  ghost predicate SameKinds(ps: Pages, qs: Pages) {
    |qs| == |ps| && forall p :: 0 <= p < |ps| ==> (ps[p].Data? ==> qs[p].Data?) && (IsTable(ps[p]) ==> IsTable(qs[p]))
  }

  lemma PointedThen(ps: Pages, qs: Pages, dirs: set<nat>, dirs': set<nat>, s: Slot, p: nat)
    requires SameBut(ps, qs, dirs, dirs', s)
    requires Ptr(ps, dirs, s) != Some(p) && Ptr(qs, dirs', s) != Some(p)
    ensures Pointed(ps, dirs, p) == Pointed(qs, dirs', p)
  {
    if Pointed(ps, dirs, p) {
      var t: Slot :| Ptr(ps, dirs, t) == Some(p);
      assert Ptr(qs, dirs', t) == Some(p);
    }
    if Pointed(qs, dirs', p) {
      var t: Slot :| Ptr(qs, dirs', t) == Some(p);
      assert Ptr(ps, dirs, t) == Some(p);
    }
  }

  lemma Gain(ps: Pages, qs: Pages, dirs: set<nat>, dirs': set<nat>, free: seq<nat>, held: set<nat>, s: Slot, p: nat)
    requires Own(ps, dirs, free, held) && p in held && SameKinds(ps, qs)
    requires SameBut(ps, qs, dirs, dirs', s) && Ptr(ps, dirs, s) == None && Ptr(qs, dirs', s) == Some(p)
             && Fits(qs, s, p)
    ensures Own(qs, dirs', free, held - {p})
  {
    assert Split(ps, dirs, free, held, p);
    forall t: Slot | Ptr(qs, dirs', t).Some? ensures Fits(qs, t, Ptr(qs, dirs', t).value) {
      if t != s { assert Ptr(ps, dirs, t) == Ptr(qs, dirs', t); }
    }
    forall t: Slot, u: Slot | Ptr(qs, dirs', t).Some? && Ptr(qs, dirs', t) == Ptr(qs, dirs', u) ensures t == u {
      if t != s { assert Ptr(ps, dirs, t) == Ptr(qs, dirs', t); }
      if u != s { assert Ptr(ps, dirs, u) == Ptr(qs, dirs', u); }
    }
    forall x | 0 <= x < |qs| ensures Split(qs, dirs', free, held - {p}, x) {
      assert Split(ps, dirs, free, held, x);
      if x != p { PointedThen(ps, qs, dirs, dirs', s, x); }
    }
  }

  lemma Lose(ps: Pages, qs: Pages, dirs: set<nat>, dirs': set<nat>, free: seq<nat>, held: set<nat>, s: Slot, p: nat)
    requires Own(ps, dirs, free, held) && SameKinds(ps, qs)
    requires SameBut(ps, qs, dirs, dirs', s) && Ptr(ps, dirs, s) == Some(p) && Ptr(qs, dirs', s) == None
    ensures p < |ps| && Own(qs, dirs', free, held + {p})
  {
    forall t: Slot | Ptr(qs, dirs', t).Some? ensures Fits(qs, t, Ptr(qs, dirs', t).value) {
      assert Ptr(ps, dirs, t) == Ptr(qs, dirs', t);
    }
    forall t: Slot, u: Slot | Ptr(qs, dirs', t).Some? && Ptr(qs, dirs', t) == Ptr(qs, dirs', u) ensures t == u {
      assert Ptr(ps, dirs, t) == Ptr(qs, dirs', t) && Ptr(ps, dirs, u) == Ptr(qs, dirs', u);
    }
    forall x | 0 <= x < |qs| ensures Split(qs, dirs', free, held + {p}, x) {
      assert Split(ps, dirs, free, held, x);
      if x != p {
        PointedThen(ps, qs, dirs, dirs', s, x);
      } else {
        assert Pointed(ps, dirs, p);
        forall t: Slot ensures Ptr(qs, dirs', t) != Some(p) {
          assert t != s ==> Ptr(ps, dirs, t) == Ptr(qs, dirs', t);
        }
      }
    }
  }

  // ---------------------------------------------------------------- a page nobody points to

  lemma UntouchedSlot(ps: Pages, dirs: set<nat>, p: nat, c: Content, s: Slot)
    requires p < |ps| && !Pointed(ps, dirs, p)
    ensures Ptr(ps[p := c], dirs, s) == Ptr(ps, dirs, s)
  {
    assert s.d in dirs ==> Ptr(ps, dirs, Root(s.d)) == Some(s.d);
    if s.Leaf? && s.d in dirs && s.v < USER {
      var e := EntryAt(ps, s.d, s.v / ENTRIES);
      assert e.present ==> Ptr(ps, dirs, Pt(s.d, s.v / ENTRIES)) == Some(e.frame);
    }
  }

  lemma UntouchedPte(ps: Pages, dirs: set<nat>, p: nat, c: Content, d: nat, v: nat)
    requires p < |ps| && !Pointed(ps, dirs, p) && d in dirs
    ensures Pte(ps[p := c], d, v) == Pte(ps, d, v)
  {
    assert Ptr(ps, dirs, Root(d)) == Some(d);
    var e := EntryAt(ps, d, v / ENTRIES);
    assert e.present ==> Ptr(ps, dirs, Pt(d, v / ENTRIES)) == Some(e.frame);
  }

  lemma Untouched(ps: Pages, dirs: set<nat>, free: seq<nat>, held: set<nat>, p: nat, c: Content)
    requires Own(ps, dirs, free, held) && p < |ps| && (p in free || p in held)
    ensures Own(ps[p := c], dirs, free, held)
    ensures forall d, v :: d in dirs ==> Pte(ps[p := c], d, v) == Pte(ps, d, v)
    ensures forall s: Slot :: Ptr(ps[p := c], dirs, s) == Ptr(ps, dirs, s)
  {
    var qs := ps[p := c];
    assert Split(ps, dirs, free, held, p);
    forall s: Slot ensures Ptr(qs, dirs, s) == Ptr(ps, dirs, s) { UntouchedSlot(ps, dirs, p, c, s); }
    forall d, v | d in dirs ensures Pte(qs, d, v) == Pte(ps, d, v) { UntouchedPte(ps, dirs, p, c, d, v); }
    forall s: Slot | Ptr(qs, dirs, s).Some? ensures Fits(qs, s, Ptr(qs, dirs, s).value) {
      assert Ptr(ps, dirs, s) == Ptr(qs, dirs, s);
      assert Ptr(ps, dirs, s) != Some(p);
    }
    forall x | 0 <= x < |qs| ensures Split(qs, dirs, free, held, x) {
      assert Split(ps, dirs, free, held, x);
      SamePointed(ps, qs, dirs, dirs, x);
    }
  }

  lemma SamePointed(ps: Pages, qs: Pages, dirs: set<nat>, dirs': set<nat>, p: nat)
    requires forall s: Slot :: Ptr(qs, dirs', s) == Ptr(ps, dirs, s)
    ensures Pointed(ps, dirs, p) == Pointed(qs, dirs', p)
  {
    if Pointed(ps, dirs, p) {
      var t: Slot :| Ptr(ps, dirs, t) == Some(p);
      assert Ptr(qs, dirs', t) == Some(p);
    }
    if Pointed(qs, dirs', p) {
      var t: Slot :| Ptr(qs, dirs', t) == Some(p);
      assert Ptr(ps, dirs, t) == Some(p);
    }
  }

  // ---------------------------------------------------------------- kalloc and kfree

  lemma TakeKeeps(ps: Pages, dirs: set<nat>, free: seq<nat>, held: set<nat>)
    requires Own(ps, dirs, free, held) && free != []
    ensures Own(ps, dirs, free[1..], held + {free[0]})
  {
    forall x | 0 <= x < |ps| ensures Split(ps, dirs, free[1..], held + {free[0]}, x) {
      assert Split(ps, dirs, free, held, x);
      assert x in free <==> x == free[0] || x in free[1..];
      assert x in free[1..] ==> x != free[0];
    }
  }

  lemma GiveKeeps(ps: Pages, dirs: set<nat>, free: seq<nat>, held: set<nat>, p: nat)
    requires Own(ps, dirs, free, held) && p in held
    ensures Own(ps[p := Junk], dirs, [p] + free, held - {p})
    ensures forall d, v :: d in dirs ==> Pte(ps[p := Junk], d, v) == Pte(ps, d, v)
    ensures forall s: Slot :: Ptr(ps[p := Junk], dirs, s) == Ptr(ps, dirs, s)
  {
    Untouched(ps, dirs, free, held, p, Junk);
    var qs := ps[p := Junk];
    assert Split(qs, dirs, free, held, p);
    forall x | 0 <= x < |qs| ensures Split(qs, dirs, [p] + free, held - {p}, x) {
      assert Split(qs, dirs, free, held, x);
    }
  }

  // ---------------------------------------------------------------- writing one entry

  function Wrote(ps: Pages, t: nat, i: nat, e: Entry): Pages
    requires t < |ps| && IsTable(ps[t]) && i < ENTRIES
  {
    ps[t := Table(ps[t].entries[i := e])]
  }

  /** The page table that holds the entry for v. */
  function TableOf(ps: Pages, d: nat, v: nat): nat {
    EntryAt(ps, d, v / ENTRIES).frame
  }

  /** Writing the entry for page v of directory d changes that entry and no other. */
  lemma WrotePte(ps: Pages, dirs: set<nat>, d: nat, v: nat, e: Entry)
    requires Typed(ps, dirs) && NoSharing(ps, dirs) && d in dirs && v / ENTRIES < ENTRIES
    requires EntryAt(ps, d, v / ENTRIES).present
    ensures var t := TableOf(ps, d, v); t < |ps| && IsTable(ps[t])
    ensures var qs := Wrote(ps, TableOf(ps, d, v), v % ENTRIES, e);
            && SameKinds(ps, qs) && Pte(qs, d, v) == e
            && (forall d', i :: d' in dirs ==> EntryAt(qs, d', i) == EntryAt(ps, d', i))
            && (forall d', w :: d' in dirs && !(d' == d && w == v) ==> Pte(qs, d', w) == Pte(ps, d', w))
  {
    var t := TableOf(ps, d, v);
    assert Ptr(ps, dirs, Pt(d, v / ENTRIES)) == Some(t);
    var qs := Wrote(ps, t, v % ENTRIES, e);
    forall d' | d' in dirs ensures d' != t {
      assert Ptr(ps, dirs, Root(d')) == Some(d');
    }
    forall d', w: nat | d' in dirs && !(d' == d && w == v) ensures Pte(qs, d', w) == Pte(ps, d', w) {
      var f := EntryAt(ps, d', w / ENTRIES);
      if f.present && f.frame == t {
        assert Ptr(ps, dirs, Pt(d', w / ENTRIES)) == Some(t);
        assert d' == d && w / ENTRIES == v / ENTRIES;
      }
    }
  }

  /** Installing an empty page table changes no mapping. */
  lemma WrotePde(ps: Pages, dirs: set<nat>, d: nat, i: nat, q: nat, flags: nat)
    requires Typed(ps, dirs) && NoSharing(ps, dirs) && d in dirs && i < ENTRIES && !EntryAt(ps, d, i).present
    requires q < |ps| && ps[q] == ZeroTable() && !Pointed(ps, dirs, q)
    ensures d < |ps| && IsTable(ps[d])
    ensures var qs := Wrote(ps, d, i, Entry(true, q, flags));
            && SameKinds(ps, qs) && SameBut(ps, qs, dirs, dirs, Pt(d, i)) && Ptr(qs, dirs, Pt(d, i)) == Some(q)
            && (forall d', w :: d' in dirs ==> Pte(qs, d', w) == Pte(ps, d', w))
  {
    assert Ptr(ps, dirs, Root(d)) == Some(d);
    var qs := Wrote(ps, d, i, Entry(true, q, flags));
    assert q != d;
    forall d', w: nat | d' in dirs ensures Pte(qs, d', w) == Pte(ps, d', w) {
      var f := EntryAt(ps, d', w / ENTRIES);
      if f.present {
        assert Ptr(ps, dirs, Pt(d', w / ENTRIES)) == Some(f.frame);
        assert f.frame != d;
      }
    }
  }

  // ---------------------------------------------------------------- address spaces

  function Frame(ps: Pages, d: nat, v: nat): Content {
    var f := Pte(ps, d, v).frame;
    if f < |ps| then ps[f] else Junk
  }

  /** The two entries mean the same to the processor. */
  predicate SameEntry(e: Entry, f: Entry) {
    e.present == f.present && (e.present ==> e == f)
  }

  /** Virtual page v of directory d is mapped as it was, and a user page has the bytes it had. */
  ghost predicate SameAt(ps: Pages, qs: Pages, d: nat, v: nat) {
    && SameEntry(Pte(qs, d, v), Pte(ps, d, v))
    && (v < USER && Pte(ps, d, v).present ==> Frame(qs, d, v) == Frame(ps, d, v))
  }

  ghost predicate SameSpace(ps: Pages, qs: Pages, d: nat) {
    forall v: nat :: SameAt(ps, qs, d, v)
  }

  /** Directory d, its page tables and the address space it describes are as they were. */
  ghost predicate SameDir(ps: Pages, qs: Pages, d: nat) {
    (forall i: nat :: EntryAt(qs, d, i) == EntryAt(ps, d, i)) && SameSpace(ps, qs, d)
  }

  lemma SameDirThen(ps: Pages, qs: Pages, rs: Pages, d: nat)
    requires SameDir(ps, qs, d) && SameDir(qs, rs, d)
    ensures SameDir(ps, rs, d)
  {
    forall v: nat ensures SameAt(ps, rs, d, v) {
      assert SameAt(ps, qs, d, v) && SameAt(qs, rs, d, v);
    }
  }

  /** A page changes that no slot points to. */
  lemma UntouchedDirs(ps: Pages, dirs: set<nat>, free: seq<nat>, held: set<nat>, p: nat, c: Content, d: nat)
    requires Own(ps, dirs, free, held) && p < |ps| && (p in free || p in held) && d in dirs
    ensures SameDir(ps, ps[p := c], d)
  {
    var qs := ps[p := c];
    Untouched(ps, dirs, free, held, p, c);
    assert Split(ps, dirs, free, held, p);
    forall i: nat ensures EntryAt(qs, d, i) == EntryAt(ps, d, i) {
      assert Ptr(ps, dirs, Root(d)) == Some(d);
    }
    forall v: nat ensures SameAt(ps, qs, d, v) {
      if v < USER && Pte(ps, d, v).present {
        assert Ptr(ps, dirs, Leaf(d, v)) == Some(Pte(ps, d, v).frame);
      }
    }
  }

  /** Mapping a held page at user page v. */
  lemma MapKeeps(ps: Pages, dirs: set<nat>, free: seq<nat>, held: set<nat>, d: nat, v: nat, p: nat, flags: nat)
    requires Own(ps, dirs, free, held) && d in dirs && v < USER && p in held && p < |ps| && ps[p].Data?
    requires EntryAt(ps, d, v / ENTRIES).present && !Pte(ps, d, v).present
    ensures var t := TableOf(ps, d, v); t < |ps| && IsTable(ps[t])
    ensures Own(Wrote(ps, TableOf(ps, d, v), v % ENTRIES, Entry(true, p, flags)), dirs, free, held - {p})
  {
    WrotePte(ps, dirs, d, v, Entry(true, p, flags));
    var qs := Wrote(ps, TableOf(ps, d, v), v % ENTRIES, Entry(true, p, flags));
    Gain(ps, qs, dirs, dirs, free, held, Leaf(d, v), p);
  }

  lemma UnmapKeeps(ps: Pages, dirs: set<nat>, free: seq<nat>, held: set<nat>, d: nat, v: nat)
    requires Own(ps, dirs, free, held) && d in dirs && v < USER && Pte(ps, d, v).present
    ensures var t := TableOf(ps, d, v); t < |ps| && IsTable(ps[t])
    ensures Own(Wrote(ps, TableOf(ps, d, v), v % ENTRIES, ABSENT), dirs, free, held + {Pte(ps, d, v).frame})
  {
    WrotePte(ps, dirs, d, v, ABSENT);
    var qs := Wrote(ps, TableOf(ps, d, v), v % ENTRIES, ABSENT);
    Lose(ps, qs, dirs, dirs, free, held, Leaf(d, v), Pte(ps, d, v).frame);
  }

  /** Entries above KERNBASE own nothing. */
  lemma MapKernelKeeps(ps: Pages, dirs: set<nat>, free: seq<nat>, held: set<nat>, d: nat, v: nat, e: Entry)
    requires Own(ps, dirs, free, held) && d in dirs && USER <= v && v / ENTRIES < ENTRIES
    requires EntryAt(ps, d, v / ENTRIES).present
    ensures var t := TableOf(ps, d, v); t < |ps| && IsTable(ps[t])
    ensures Own(Wrote(ps, TableOf(ps, d, v), v % ENTRIES, e), dirs, free, held)
  {
    WrotePte(ps, dirs, d, v, e);
    var qs := Wrote(ps, TableOf(ps, d, v), v % ENTRIES, e);
    SameSlotsKeep(ps, qs, dirs, free, held);
  }

  lemma SameSlotsKeep(ps: Pages, qs: Pages, dirs: set<nat>, free: seq<nat>, held: set<nat>)
    requires Own(ps, dirs, free, held) && SameKinds(ps, qs)
    requires forall s: Slot :: Ptr(qs, dirs, s) == Ptr(ps, dirs, s)
    ensures Own(qs, dirs, free, held)
  {
    forall x | 0 <= x < |qs| ensures Split(qs, dirs, free, held, x) {
      assert Split(ps, dirs, free, held, x);
      SamePointed(ps, qs, dirs, dirs, x);
    }
  }

  /** What writing the entry for v does to every address space. */
  lemma WroteSpaces(ps: Pages, dirs: set<nat>, d: nat, v: nat, e: Entry)
    requires Typed(ps, dirs) && NoSharing(ps, dirs) && d in dirs && v / ENTRIES < ENTRIES
    requires EntryAt(ps, d, v / ENTRIES).present
    ensures var t := TableOf(ps, d, v); t < |ps| && IsTable(ps[t])
    ensures var qs := Wrote(ps, TableOf(ps, d, v), v % ENTRIES, e);
            && (forall d' :: d' in dirs && d' != d ==> SameDir(ps, qs, d'))
            && (forall i: nat :: EntryAt(qs, d, i) == EntryAt(ps, d, i))
            && (forall w: nat :: w != v ==> SameAt(ps, qs, d, w))
            && Pte(qs, d, v) == e && (forall p :: 0 <= p < |ps| && ps[p].Data? ==> qs[p] == ps[p])
  {
    var t := TableOf(ps, d, v);
    WrotePte(ps, dirs, d, v, e);
    var qs := Wrote(ps, t, v % ENTRIES, e);
    forall d', w: nat | d' in dirs && !(d' == d && w == v) ensures SameAt(ps, qs, d', w) {
      if w < USER && Pte(ps, d', w).present {
        assert Ptr(ps, dirs, Leaf(d', w)) == Some(Pte(ps, d', w).frame);
      }
    }
  }

  /** An empty page table under entry i. */
  lemma TableKeeps(ps: Pages, dirs: set<nat>, free: seq<nat>, held: set<nat>, d: nat, i: nat, q: nat, flags: nat)
    requires Own(ps, dirs, free, held) && d in dirs && i < ENTRIES && !EntryAt(ps, d, i).present
    requires q in held && q < |ps| && ps[q] == ZeroTable()
    ensures d < |ps| && IsTable(ps[d])
    ensures var qs := Wrote(ps, d, i, Entry(true, q, flags));
            && Own(qs, dirs, free, held - {q})
            && (forall d' :: d' in dirs && d' != d ==> SameDir(ps, qs, d')) && SameSpace(ps, qs, d)
            && (forall j: nat :: j != i ==> EntryAt(qs, d, j) == EntryAt(ps, d, j)) && EntryAt(qs, d, i).present
  {
    assert Split(ps, dirs, free, held, q);
    WrotePde(ps, dirs, d, i, q, flags);
    var qs := Wrote(ps, d, i, Entry(true, q, flags));
    assert Ptr(ps, dirs, Root(d)) == Some(d);
    Gain(ps, qs, dirs, dirs, free, held, Pt(d, i), q);
    forall d', w: nat | d' in dirs ensures SameAt(ps, qs, d', w) {
      if w < USER && Pte(ps, d', w).present {
        assert Ptr(ps, dirs, Leaf(d', w)) == Some(Pte(ps, d', w).frame);
      }
    }
    forall d' | d' in dirs && d' != d ensures SameDir(ps, qs, d') {
      assert Ptr(ps, dirs, Root(d')) == Some(d');
    }
  }

  /** An empty page becomes a directory. */
  lemma NewDirKeeps(ps: Pages, dirs: set<nat>, free: seq<nat>, held: set<nat>, q: nat)
    requires Own(ps, dirs, free, held) && q in held && q < |ps| && ps[q] == ZeroTable()
    ensures q !in dirs && Own(ps, dirs + {q}, free, held - {q})
    ensures forall v: nat :: !Pte(ps, q, v).present
  {
    assert Split(ps, dirs, free, held, q);
    assert q in dirs ==> Ptr(ps, dirs, Root(q)) == Some(q);
    forall v: nat ensures !Pte(ps, q, v).present {
      assert !EntryAt(ps, q, v / ENTRIES).present;
    }
    Gain(ps, ps, dirs, dirs + {q}, free, held, Root(q), q);
  }

  /** The pages directory d owns. */
  ghost predicate OwnedBy(ps: Pages, d: nat, p: nat) {
    exists s: Slot :: s.d == d && Ptr(ps, {d}, s) == Some(p)
  }

  ghost function Estate(ps: Pages, d: nat): set<nat> {
    set p | 0 <= p < |ps| && OwnedBy(ps, d, p)
  }

  /** A directory nobody will use again leaves its pages to whoever frees them. */
  lemma DropDirKeeps(ps: Pages, dirs: set<nat>, free: seq<nat>, held: set<nat>, d: nat)
    requires Own(ps, dirs, free, held) && d in dirs
    ensures Own(ps, dirs - {d}, free, held + Estate(ps, d))
    ensures held !! Estate(ps, d)
  {
    var rest := dirs - {d};
    forall s: Slot | s.d != d ensures Ptr(ps, rest, s) == Ptr(ps, dirs, s) {}
    forall s: Slot | s.d == d ensures Ptr(ps, {d}, s) == Ptr(ps, dirs, s) {}
    forall x | 0 <= x < |ps| ensures Split(ps, rest, free, held + Estate(ps, d), x) && !(x in held
           && x in Estate(ps, d)) {
      assert Split(ps, dirs, free, held, x);
      if x in Estate(ps, d) {
        var s: Slot :| s.d == d && Ptr(ps, {d}, s) == Some(x);
        assert Ptr(ps, dirs, s) == Some(x);
        forall t: Slot ensures Ptr(ps, rest, t) != Some(x) {
          assert Ptr(ps, rest, t).Some? ==> t.d != d && Ptr(ps, dirs, t) == Ptr(ps, rest, t);
        }
      } else {
        if Pointed(ps, dirs, x) {
          var s: Slot :| Ptr(ps, dirs, s) == Some(x);
          assert s.d == d ==> Ptr(ps, {d}, s) == Some(x);
          assert Ptr(ps, rest, s) == Some(x);
        }
        if Pointed(ps, rest, x) {
          var s: Slot :| Ptr(ps, rest, s) == Some(x);
          assert Ptr(ps, dirs, s) == Some(x);
        }
      }
    }
  }

  /** With the same directories, slots and other pages in use, the same pages are free. */
  lemma SameFree(ps: Pages, qs: Pages, dirs: set<nat>, free: seq<nat>, free': seq<nat>, held: set<nat>)
    requires Own(ps, dirs, free, held) && Own(qs, dirs, free', held) && |ps| == |qs|
    requires forall d :: d in dirs ==> SameDir(ps, qs, d)
    ensures forall p :: p in free <==> p in free'
  {
    forall s: Slot ensures Ptr(qs, dirs, s) == Ptr(ps, dirs, s) {
      if s.Leaf? && s.d in dirs { assert SameDir(ps, qs, s.d) && SameAt(ps, qs, s.d, s.v); }
    }
    forall p ensures p in free <==> p in free' {
      if 0 <= p < |ps| {
        assert Split(ps, dirs, free, held, p) && Split(qs, dirs, free', held, p);
        SamePointed(ps, qs, dirs, dirs, p);
      }
    }
  }
}
