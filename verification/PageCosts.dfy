/** How many free pages it takes to map user or kernel pages: one for each page and one for each page table
  that is not there yet. */
module PageCosts {
  import opened PageTables

  /** 1 if directory d has no i-th page table. */
  function Absent(ps: Pages, d: nat, i: nat): nat {
    if EntryAt(ps, d, i).present then 0 else 1
  }

  function MissingTables(ps: Pages, d: nat, lo: nat, hi: nat): nat
    decreases hi
  {
    if hi <= lo then 0 else MissingTables(ps, d, lo, hi - 1) + Absent(ps, d, hi - 1)
  }

  /** The first table index past pages lo..v, v not included. */
  function TableEnd(lo: nat, v: nat): nat {
    if v <= lo then lo / ENTRIES else (v - 1) / ENTRIES + 1
  }

  /** Page tables missing on the way to pages lo..v. */
  function TablesFor(ps: Pages, d: nat, lo: nat, v: nat): nat {
    MissingTables(ps, d, lo / ENTRIES, TableEnd(lo, v))
  }

  /** What it takes to map new pages at lo..v. */
  function Need(ps: Pages, d: nat, lo: nat, v: nat): nat {
    if v <= lo then 0 else (v - lo) + TablesFor(ps, d, lo, v)
  }

  /** From ps to qs the tables lo..hi have come to be there, and no other has come or gone. */
  ghost predicate Tabled(ps: Pages, qs: Pages, d: nat, lo: nat, hi: nat) {
    forall i: nat :: EntryAt(qs, d, i).present <==> EntryAt(ps, d, i).present || lo <= i < hi
  }

  lemma TabledTwice(ps: Pages, qs: Pages, rs: Pages, d: nat, lo: nat, mid: nat, i: nat)
    requires Tabled(ps, qs, d, lo, mid) && Tabled(qs, rs, d, i, i + 1) && lo <= mid && (i == mid || (lo < mid
             && i == mid - 1))
    ensures Tabled(ps, rs, d, lo, i + 1)
    ensures MissingTables(ps, d, lo, i + 1) == MissingTables(ps, d, lo, mid) + Absent(qs, d, i)
  {
  }

  /** One more page: what its table costs, and that the pages before it are still paid for. */
  lemma NextPage(ps: Pages, qs: Pages, rs: Pages, d: nat, lo: nat, v: nat)
    requires lo <= v && Tabled(ps, qs, d, lo / ENTRIES, TableEnd(lo, v))
             && Tabled(qs, rs, d, v / ENTRIES, v / ENTRIES + 1)
    ensures Tabled(ps, rs, d, lo / ENTRIES, TableEnd(lo, v + 1))
    ensures TablesFor(ps, d, lo, v + 1) == TablesFor(ps, d, lo, v) + Absent(qs, d, v / ENTRIES)
    ensures Need(ps, d, lo, v + 1) == Need(ps, d, lo, v) + 1 + Absent(qs, d, v / ENTRIES)
  {
    TabledTwice(ps, qs, rs, d, lo / ENTRIES, TableEnd(lo, v), v / ENTRIES);
    assert TablesFor(ps, d, lo, lo) == 0;
  }

  /** The cost of the next page, before it is mapped. */
  lemma NextCost(ps: Pages, qs: Pages, d: nat, lo: nat, v: nat)
    requires lo <= v && Tabled(ps, qs, d, lo / ENTRIES, TableEnd(lo, v))
    ensures TablesFor(ps, d, lo, v + 1) == TablesFor(ps, d, lo, v) + Absent(qs, d, v / ENTRIES)
    ensures Need(ps, d, lo, v + 1) == Need(ps, d, lo, v) + 1 + Absent(qs, d, v / ENTRIES)
  {
    assert TablesFor(ps, d, lo, lo) == 0;
    var i := v / ENTRIES;
    if i == TableEnd(lo, v) {
      assert Absent(qs, d, i) == Absent(ps, d, i);
    } else {
      assert i + 1 == TableEnd(lo, v) == TableEnd(lo, v + 1);
    }
  }

  lemma {:induction false} MissingGrows(ps: Pages, d: nat, lo: nat, mid: nat, hi: nat)
    requires mid <= hi
    ensures MissingTables(ps, d, lo, mid) <= MissingTables(ps, d, lo, hi)
    decreases hi
  {
    if mid < hi { MissingGrows(ps, d, lo, mid, hi - 1); }
  }

  lemma NeedGrows(ps: Pages, d: nat, lo: nat, v: nat, hi: nat)
    requires lo <= v <= hi
    ensures Need(ps, d, lo, v) <= Need(ps, d, lo, hi) && TablesFor(ps, d, lo, v) <= TablesFor(ps, d, lo, hi)
  {
    assert TablesFor(ps, d, lo, lo) == 0;
    MissingGrows(ps, d, lo / ENTRIES, TableEnd(lo, v), TableEnd(lo, hi));
  }

  /** A range of which a first part is there and the rest is not. */
  lemma {:induction false} MissingRest(ps: Pages, d: nat, lo: nat, mid: nat, hi: nat)
    requires lo <= mid <= hi
    requires forall i: nat :: lo <= i < mid ==> EntryAt(ps, d, i).present
    requires forall i: nat :: mid <= i < hi ==> !EntryAt(ps, d, i).present
    ensures MissingTables(ps, d, lo, hi) == hi - mid
    decreases hi
  {
    if lo < hi { MissingRest(ps, d, lo, if mid < hi then mid else hi - 1, hi - 1); }
  }

  lemma TabledNone(ps: Pages, d: nat, lo: nat)
    ensures Tabled(ps, ps, d, lo / ENTRIES, TableEnd(lo, lo))
  {
  }

  lemma SameTabled(ps: Pages, qs: Pages, rs: Pages, d: nat, lo: nat, hi: nat)
    requires SameDir(ps, qs, d) && Tabled(qs, rs, d, lo, hi)
    ensures Tabled(ps, rs, d, lo, hi) && (forall i: nat :: Absent(qs, d, i) == Absent(ps, d, i))
  {
  }

  /** Page tables the first k lines of kmap need, when the kernel's data starts at page `data`. */
  function KernelTables(data: nat, k: nat): nat
    requires data > 0
  {
    if k == 0 then 0 else if k == 1 then 1 else if k == 2 then (data - 1) / ENTRIES + 1 else if k == 3 then 32 else 48
  }

  const KERNELNEED: nat := 49      // the directory and 48 tables

  predicate KernelTable(data: nat, k: nat, i: nat)
    requires data > 0
  {
    512 <= i < 512 + KernelTables(data, if k < 3 then k else 3) || (k >= 4 && 1008 <= i < 1024)
  }

  /** The tables that are there after k lines. */
  ghost predicate KernelTabled(ps: Pages, d: nat, data: nat, k: nat) {
    data > 0 && forall i: nat :: EntryAt(ps, d, i).present <==> KernelTable(data, k, i)
  }

  // ---------------------------------------------------------------- pages in the way

  /** The first page of v..end that is mapped already, or `end`. */
  function FirstPresent(ps: Pages, d: nat, v: nat, end: nat): (w: nat)
    requires v <= end
    ensures v <= w <= end && (w < end ==> Pte(ps, d, w).present)
    ensures forall u: nat :: v <= u < w ==> !Pte(ps, d, u).present
    decreases end - v
  {
    if v == end || Pte(ps, d, v).present then v else FirstPresent(ps, d, v + 1, end)
  }

  /** The first page of v..end that is not mapped, or `end`. */
  function FirstAbsent(ps: Pages, d: nat, v: nat, end: nat): (w: nat)
    requires v <= end
    ensures v <= w <= end && (w < end ==> !Pte(ps, d, w).present)
    ensures forall u: nat :: v <= u < w ==> Pte(ps, d, u).present
    decreases end - v
  {
    if v == end || !Pte(ps, d, v).present then v else FirstAbsent(ps, d, v + 1, end)
  }
}
