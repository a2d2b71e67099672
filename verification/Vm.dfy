/** kernel/vm.c and kernel/kalloc.c as they run: pages in physical memory rewritten in place, and a list of
  free ones. Addresses are page numbers except where the code rounds byte sizes. */
module Vm {
  import opened Wrappers
  import opened PageTables
  import opened PageCosts

  const PGSIZE: nat := 4096
  const KERNBASE: nat := 0x8000_0000
  const SPAN: nat := 0x40_0000      // the bytes one page table maps
  const TOP: nat := 0x10_0000       // virtual pages
  const W: nat := 2
  const U: nat := 4

  /** Pages that hold n bytes. */
  function Up(n: nat): nat {
    (n + PGSIZE - 1) / PGSIZE
  }

  /** How a call that maps pages ends. */
  datatype Outcome = Done | NoMemory | Panic

  /** One line of kmap. */
  datatype Range = Range(v: nat, n: nat, frame: nat, flags: nat)

  /** kmap, for a kernel whose data starts at physical page `data`. */
  function Kmap(data: nat): seq<Range>
    requires 0x100 < data < 0x8000
  {
    [Range(0x8_0000, 0x100, 0, W), Range(0x8_0100, data - 0x100, 0x100, 0),
     Range(0x8_0000 + data, 0x8000 - data, data, W), Range(0xF_C000, 0x4000, 0xF_C000, W)]
  }

  /** What setupkvm promises about a page above KERNBASE: physical memory at KERNBASE, kernel text
    read-only, devices at their own addresses, nothing in between. */
  function KernelPte(data: nat, v: nat): Entry {
    if v < USER || 0x8_8000 <= v < 0xF_C000 || v >= TOP then ABSENT
    else if v >= 0xF_C000 then Entry(true, v, W)
    else if 0x8_0100 <= v < 0x8_0000 + data then Entry(true, v - USER, 0)
    else Entry(true, v - USER, W)
  }

  function Below(n: nat): (s: set<nat>)
    ensures forall p: nat :: p in s <==> p < n
  {
    if n == 0 then {} else Below(n - 1) + {n - 1}
  }

  class Memory {
    const pages: array<Content>
    const data: nat
    var freelist: seq<nat>
    ghost var dirs: set<nat>
    ghost var held: set<nat>

    ghost predicate Valid()
      reads this, pages
    {
      0x100 < data < 0x8000 && Own(pages[..], dirs, freelist, held) && Gated(pages[..], dirs)
    }

    lemma HeldInRange()
      requires Valid()
      ensures Own(pages[..], dirs, freelist, held) && 0x100 < data < 0x8000 && Gated(pages[..], dirs)
      ensures forall p :: p in held ==> p < pages.Length
    {
    }

    lemma BecomesValid()
      requires 0x100 < data < 0x8000 && Own(pages[..], dirs, freelist, held) && Gated(pages[..], dirs)
      ensures Valid()
    {
    }

    // -------------------------------------------------------------- kalloc.c

    /** Before kinit the kernel holds every page. */
    constructor (n: nat, dataPage: nat)
      requires 0x100 < dataPage < 0x8000
      ensures Valid() && pages.Length == n && data == dataPage && dirs == {} && freelist == []
      ensures held == Below(n) && fresh(pages)
    {
      pages := new Content[n](_ => Junk);
      data, dirs, freelist := dataPage, {}, [];
      held := Below(n);
      new;
      assert forall p :: 0 <= p < n ==> Split(pages[..], {}, [], held, p);
    }

    /** freerange of kinit1 and kinit2: the whole pages between two addresses are free afterwards. */
    method Freerange(vstart: nat, vend: nat)
      requires Valid() && dirs == {} && forall p: nat :: vstart <= p * PGSIZE && (p + 1) * PGSIZE <= vend ==> p in held
      modifies this`freelist, this`held, pages
      ensures Valid()
      ensures forall p: nat :: p in freelist <==>
                        p in old(freelist) || (vstart <= p * PGSIZE && (p + 1) * PGSIZE <= vend)
      ensures forall p: nat :: p in held <==> p in old(held) && p !in freelist
    {
      var a := Up(vstart) * PGSIZE;
      var p := Up(vstart);
      OldFree(pages[..], dirs, freelist, held);
      hide Own;
      while a + PGSIZE <= vend
        invariant a == p * PGSIZE && Up(vstart) <= p && Valid()
        invariant forall q: nat :: q in freelist <==> q in old(freelist) || (Up(vstart) <= q < p)
        invariant forall q: nat :: q in held <==> q in old(held) && q !in freelist
        invariant p == Up(vstart) || p * PGSIZE <= vend
        decreases vend - a
      {
        Kfree(p);
        a := a + PGSIZE;
        p := p + 1;
      }
    }

    method Kalloc() returns (p: nat, ok: bool)
      requires Valid()
      modifies this`freelist, this`held
      ensures Valid() && ok == (old(freelist) != [])
      ensures ok ==> p < pages.Length && p !in old(held) && held == old(held) + {p}
      ensures ok ==> p == old(freelist)[0] && freelist == old(freelist)[1..]
      ensures !ok ==> freelist == old(freelist) && held == old(held)
    {
      ok, p := freelist != [], 0;
      if ok {
        TakeKeeps(pages[..], dirs, freelist, held);
        p := freelist[0];
        assert Split(pages[..], dirs, freelist, held, p);
        freelist := freelist[1..];
        held := held + {p};
      }
    }

    method Kfree(p: nat)
      requires Valid() && p in held
      modifies this`freelist, this`held, pages
      ensures Valid() && p < pages.Length && pages[..] == old(pages[..])[p := Junk]
      ensures freelist == [p] + old(freelist) && held == old(held) - {p}
      ensures forall d :: d in dirs ==> SameDir(old(pages[..]), pages[..], d)
    {
      ghost var ps := pages[..];
      GiveKeeps(ps, dirs, freelist, held, p);
      forall d | d in dirs ensures SameDir(ps, ps[p := Junk], d) {
        UntouchedDirs(ps, dirs, freelist, held, p, Junk, d);
      }
      GatedDirs(ps, ps[p := Junk], dirs, dirs);
      hide Own, SameDir, Gated;
      pages[p] := Junk;
      assert pages[..] == ps[p := Junk];
      freelist := [p] + freelist;
      held := held - {p};
    }

    /** memset or memmove over a page just allocated. */
    method Fill(p: nat, c: Content)
      requires Valid() && p in held
      modifies pages
      ensures Valid() && p < pages.Length && pages[..] == old(pages[..])[p := c]
      ensures forall d :: d in dirs ==> SameDir(old(pages[..]), pages[..], d)
    {
      ghost var ps := pages[..];
      Untouched(ps, dirs, freelist, held, p, c);
      forall d | d in dirs ensures SameDir(ps, ps[p := c], d) {
        UntouchedDirs(ps, dirs, freelist, held, p, c, d);
      }
      GatedDirs(ps, ps[p := c], dirs, dirs);
      hide Own, SameDir, Gated;
      pages[p] := c;
      assert pages[..] == ps[p := c];
    }

    // -------------------------------------------------------------- one entry

    /** The page table for page v; with alloc, an absent one is made if there is a free page. No address
      space changes. */
    method Walkpgdir(d: nat, v: nat, alloc: bool) returns (t: nat, ok: bool)
      requires Valid() && d in dirs && v < TOP
      modifies this`freelist, this`held, pages
      ensures Valid() && held == old(held)
      ensures forall p :: p in held ==> p < pages.Length && pages[p] == old(pages[p])
      ensures forall d' :: d' in dirs && d' != d ==> SameDir(old(pages[..]), pages[..], d')
      ensures SameSpace(old(pages[..]), pages[..], d)
      ensures ok ==> var e := EntryAt(pages[..], d, v / ENTRIES);
                     e.present && Writable(e) && ForUser(e) && t == TableOf(pages[..], d, v)
      ensures ok ==> t < pages.Length && IsTable(pages[t]) && pages[t].entries[v % ENTRIES] == Pte(pages[..], d, v)
      ensures !ok || !alloc || old(EntryAt(pages[..], d, v / ENTRIES).present) ==>
                pages[..] == old(pages[..]) && freelist == old(freelist)
      ensures alloc ==> (ok <==> Absent(old(pages[..]), d, v / ENTRIES) <= |old(freelist)|)
      ensures !alloc ==> (ok <==> EntryAt(pages[..], d, v / ENTRIES).present)
      ensures ok && alloc ==>
                && |freelist| == |old(freelist)| - Absent(old(pages[..]), d, v / ENTRIES)
                && Tabled(old(pages[..]), pages[..], d, v / ENTRIES, v / ENTRIES + 1)
    {
      ghost var ps := pages[..];
      DirIsTable(ps, dirs, freelist, held, d);
      var i := v / ENTRIES;
      var e := pages[d].entries[i];
      assert e == EntryAt(ps, d, i);
      if e.present {
        TableNotHeld(ps, dirs, freelist, held, d, v);
        return e.frame, true;
      }
      if !alloc { return 0, false; }
      t, ok := Kalloc();
      if !ok { return; }
      Fill(t, ZeroTable());
      ghost var qs := pages[..];
      assert SameDir(ps, qs, d);
      assert !EntryAt(qs, d, i).present;
      TableKeeps(qs, dirs, freelist, held, d, i, t, W + U);
      assert Split(qs, dirs, freelist, held, d) && d !in held by { DirIsTable(qs, dirs, freelist, held, d); }
      held := held - {t};
      pages[d] := Table(pages[d].entries[i := Entry(true, t, W + U)]);
      assert pages[..] == Wrote(qs, d, i, Entry(true, t, W + U));
      forall d' | d' in dirs && d' != d ensures SameDir(ps, pages[..], d') {
        SameDirThen(ps, qs, pages[..], d');
      }
      forall w: nat ensures SameAt(ps, pages[..], d, w) {
        assert SameAt(ps, qs, d, w) && SameAt(qs, pages[..], d, w);
      }
      NewGate(qs, pages[..], dirs, d, i);
      TableNotHeld(pages[..], dirs, freelist, held, d, v);
    }

    /** One page of mappages: a page that is mapped already is the panic "remap". A user page must be one the
      kernel holds, and becomes the directory's. */
    method MapOne(d: nat, v: nat, frame: nat, flags: nat) returns (r: Outcome)
      requires Valid() && d in dirs && v < TOP
      requires v < USER ==> frame in held && frame < pages.Length && pages[frame].Data?
      modifies this`freelist, this`held, pages
      ensures Valid() && held == if r.Done? && v < USER then old(held) - {frame} else old(held)
      ensures forall p :: p in old(held) ==> p < pages.Length && pages[p] == old(pages[p])
      ensures forall d' :: d' in dirs && d' != d ==> SameDir(old(pages[..]), pages[..], d')
      ensures forall w: nat :: w != v ==> SameAt(old(pages[..]), pages[..], d, w)
      ensures r == if old(Pte(pages[..], d, v)).present then Panic
                   else if Absent(old(pages[..]), d, v / ENTRIES) <= |old(freelist)| then Done else NoMemory
      ensures r.Done? ==>
                && SameEntry(Pte(pages[..], d, v), Entry(true, frame, flags))
                && |freelist| == |old(freelist)| - Absent(old(pages[..]), d, v / ENTRIES)
                && Tabled(old(pages[..]), pages[..], d, v / ENTRIES, v / ENTRIES + 1)
      ensures !r.Done? ==> pages[..] == old(pages[..]) && freelist == old(freelist)
    {
      ghost var ps := pages[..];
      PresentHasTable(ps, d, v);
      var t, ok := Walkpgdir(d, v, true);
      ghost var qs := pages[..];
      assert SameAt(ps, qs, d, v);
      if !ok { return NoMemory; }
      TableNotHeld(qs, dirs, freelist, held, d, v);
      if pages[t].entries[v % ENTRIES].present { return Panic; }
      WroteSpaces(qs, dirs, d, v, Entry(true, frame, flags));
      if v < USER {
        MapKeeps(qs, dirs, freelist, held, d, v, frame, flags);
        held := held - {frame};
      } else {
        MapKernelKeeps(qs, dirs, freelist, held, d, v, Entry(true, frame, flags));
      }
      ghost var rs := Wrote(qs, t, v % ENTRIES, Entry(true, frame, flags));
      SameGates(qs, rs, dirs, d);
      hide Own, Gated;
      pages[t] := Table(pages[t].entries[v % ENTRIES := Entry(true, frame, flags)]);
      assert pages[..] == rs;
      forall d' | d' in dirs && d' != d ensures SameDir(ps, rs, d') {
        SameDirThen(ps, qs, rs, d');
      }
      forall w: nat | w != v ensures SameAt(ps, rs, d, w) {
        assert SameAt(ps, qs, d, w) && SameAt(qs, rs, d, w);
      }
      return Done;
    }

    /** Maps n pages from v on, up to the first that is mapped already, which is the panic "remap", or the first
      for whose table there is no free page; the pages before it, v..a, stay mapped. Frames for user pages are
      ones the kernel holds and become the directory's. */
    method Mappages(d: nat, v: nat, n: nat, frame: nat, flags: nat) returns (r: Outcome, ghost a: nat)
      requires Valid() && d in dirs && 0 < n && v + n <= TOP
      requires v < USER ==> v + n <= USER && CanHand(pages[..], held, frame, n)
      modifies this`freelist, this`held, pages
      ensures v <= a && Valid() && held == old(held) - Handed(v, frame, a - v)
      ensures forall p :: p in old(held) ==> p < pages.Length && pages[p] == old(pages[p])
      ensures forall d' :: d' in dirs && d' != d ==> SameDir(old(pages[..]), pages[..], d')
      ensures forall w: nat :: !(v <= w < a) ==> SameAt(old(pages[..]), pages[..], d, w)
      ensures forall w: nat :: v <= w < a ==>
                SameEntry(Pte(pages[..], d, w), Entry(true, frame + (w - v), flags))
      ensures MapResult(old(pages[..]), |old(freelist)|, d, v, n, r, a)
      ensures |freelist| == |old(freelist)| - TablesFor(old(pages[..]), d, v, a)
      ensures Tabled(old(pages[..]), pages[..], d, v / ENTRIES, TableEnd(v, a))
      ensures a == v ==> pages[..] == old(pages[..]) && freelist == old(freelist)
    {
      hide Own, SameDir, Tabled, TablesFor, Mapped, SameAt, Valid, Handed, CanHand, FirstPresent;
      ghost var ps := pages[..];
      r, a := MapRun(d, v, n, frame, flags);
      MappedIs(ps, pages[..], dirs, d, v, a, frame, flags);
    }

    /** The loop of mappages. */
    method MapRun(d: nat, v: nat, n: nat, frame: nat, flags: nat) returns (r: Outcome, ghost a: nat)
      requires Valid() && d in dirs && 0 < n && v + n <= TOP
      requires v < USER ==> v + n <= USER && CanHand(pages[..], held, frame, n)
      modifies this`freelist, this`held, pages
      ensures v <= a && Valid() && held == old(held) - Handed(v, frame, a - v)
      ensures forall p :: p in old(held) ==> p < pages.Length && pages[p] == old(pages[p])
      ensures Mapped(old(pages[..]), pages[..], dirs, d, v, a, frame, flags)
      ensures MapResult(old(pages[..]), |old(freelist)|, d, v, n, r, a)
      ensures |freelist| == |old(freelist)| - TablesFor(old(pages[..]), d, v, a)
      ensures a == v ==> pages[..] == old(pages[..]) && freelist == old(freelist)
    {
      hide Own, SameDir, Tabled, TablesFor, Mapped, SameAt, Valid, Handed, CanHand, MapResult;
      ghost var ps := pages[..];
      a, r := v, Done;
      var pa, last := frame, v + n - 1;
      var at := v;
      HeldInRange();
      MappedNone(ps, dirs, d, v, frame, flags);
      HandedNone(v, frame);
      while true
        invariant v <= a == at <= last && pa == frame + (a - v) && Valid()
        invariant held == old(held) - Handed(v, frame, a - v)
        invariant forall p :: p in old(held) ==> p < pages.Length && pages[p] == old(pages[p])
        invariant Mapped(ps, pages[..], dirs, d, v, a, frame, flags)
        invariant forall w: nat :: v <= w < a ==> !Pte(ps, d, w).present
        invariant |freelist| == |old(freelist)| - TablesFor(ps, d, v, a)
        invariant a == v ==> pages[..] == ps && freelist == old(freelist)
        decreases last - at
      {
        ghost var qs, free := pages[..], |freelist|;
        MappedNext(ps, qs, dirs, d, v, a, frame, flags);
        HandedNext(ps, old(held), v, frame, n, a - v);
        r := MapOne(d, at, pa, flags);
        MapStops(ps, qs, |old(freelist)|, free, d, v, n, r, a);
        if r != Done { return; }
        HandedStay(ps, qs, pages[..], dirs, d, v, a, frame, flags, old(held));
        MappedOne(ps, qs, pages[..], dirs, d, v, a, frame, flags);
        a := a + 1;
        if at == last { return; }
        at := at + 1;
        pa := pa + 1;
      }
    }

    // -------------------------------------------------------------- taking pages away

    /** Unmaps and frees every page between newsz and oldsz. Where a page table is missing the loop jumps
      over all the addresses it would map, which changes nothing but the time it takes. */
    method Deallocuvm(d: nat, oldsz: nat, newsz: nat) returns (sz: nat)
      requires Valid() && d in dirs && oldsz <= KERNBASE
      modifies this`freelist, this`held, pages
      ensures Valid() && held == old(held) && sz == if newsz >= oldsz then oldsz else newsz
      ensures forall p :: p in held ==> p < pages.Length && pages[p] == old(pages[p])
      ensures forall d' :: d' in dirs && d' != d ==> SameDir(old(pages[..]), pages[..], d')
      ensures forall i: nat :: EntryAt(pages[..], d, i) == EntryAt(old(pages[..]), d, i)
      ensures forall v: nat :: if Up(newsz) <= v < Up(oldsz) then !Pte(pages[..], d, v).present
                               else SameAt(old(pages[..]), pages[..], d, v)
    {
      ghost var ps := pages[..];
      SameDirRefl(ps, dirs);
      if newsz >= oldsz {
        return oldsz;
      }
      hide Own;
      var a := Up(newsz) * PGSIZE;
      var v := Up(newsz);
      while a < oldsz
        invariant a == v * PGSIZE && Up(newsz) <= v && Valid() && held == old(held)
        invariant forall p :: p in held ==> p < pages.Length && pages[p] == old(pages[p])
        invariant forall d' :: d' in dirs && d' != d ==> SameDir(ps, pages[..], d')
        invariant forall i: nat :: EntryAt(pages[..], d, i) == EntryAt(ps, d, i)
        invariant forall w: nat :: if Up(newsz) <= w < v && w < Up(oldsz) then !Pte(pages[..], d, w).present
                                   else SameAt(ps, pages[..], d, w)
        decreases oldsz + SPAN - a
      {
        ghost var qs := pages[..];
        PageBelow(a, v, oldsz);
        var t, found := Walkpgdir(d, v, false);
        if !found {
          a := (a / SPAN + 1) * SPAN - PGSIZE;
          NextTable(v);
          forall w: nat | v <= w < (v / ENTRIES + 1) * ENTRIES ensures !Pte(qs, d, w).present {
            assert w / ENTRIES == v / ENTRIES;
          }
          v := (v / ENTRIES + 1) * ENTRIES - 1;
        } else if pages[t].entries[v % ENTRIES].present {
          DropPage(d, v, t);
          SameDirsThen(ps, qs, pages[..], dirs - {d});
          forall w: nat | w != v && !(Up(newsz) <= w < v && w < Up(oldsz)) ensures SameAt(ps, pages[..], d, w) {
            assert SameAt(ps, qs, d, w) && SameAt(qs, pages[..], d, w);
          }
          forall w: nat | Up(newsz) <= w < v ensures SameEntry(Pte(pages[..], d, w), Pte(qs, d, w)) {
            assert SameAt(qs, pages[..], d, w);
          }
        }
        a := a + PGSIZE;
        v := v + 1;
      }
      sz := newsz;
    }

    /** kfree of the page mapped at v and *pte = 0: two different pages, so the order does not matter. */
    method DropPage(d: nat, v: nat, t: nat)
      requires Valid() && d in dirs && v < USER && Pte(pages[..], d, v).present && t == TableOf(pages[..], d, v)
      modifies this`freelist, this`held, pages
      ensures Valid() && held == old(held) && !Pte(pages[..], d, v).present
      ensures forall p :: p in held ==> p < pages.Length && pages[p] == old(pages[p])
      ensures forall d' :: d' in dirs && d' != d ==> SameDir(old(pages[..]), pages[..], d')
      ensures forall i: nat :: EntryAt(pages[..], d, i) == EntryAt(old(pages[..]), d, i)
      ensures forall w: nat :: w != v ==> SameAt(old(pages[..]), pages[..], d, w)
    {
      ghost var ps := pages[..];
      ghost var h := held;
      UnmapKeeps(ps, dirs, freelist, held, d, v);
      WroteSpaces(ps, dirs, d, v, ABSENT);
      TableNotHeld(ps, dirs, freelist, held, d, v);
      LeafIsData(ps, dirs, freelist, held, d, v);
      var p := pages[t].entries[v % ENTRIES].frame;
      pages[t] := Table(pages[t].entries[v % ENTRIES := ABSENT]);
      ghost var qs := pages[..];
      assert qs == Wrote(ps, t, v % ENTRIES, ABSENT);
      held := held + {p};
      SameGates(ps, qs, dirs, d);
      hide Own, Gated;
      Kfree(p);
      ghost var rs := pages[..];
      forall d' | d' in dirs && d' != d ensures SameDir(ps, rs, d') {
        SameDirThen(ps, qs, rs, d');
      }
      assert SameDir(qs, rs, d);
      forall w: nat | w != v ensures SameAt(ps, rs, d, w) {
        assert SameAt(ps, qs, d, w) && SameAt(qs, rs, d, w);
      }
      assert SameAt(qs, rs, d, v);
    }

    /** Every page the directory owns goes back to the free list, once: kfree takes only pages that are in
      use. Nothing else is freed and no other directory changes. */
    method Freevm(d: nat)
      requires Valid() && d in dirs
      modifies this, pages
      ensures Valid() && dirs == old(dirs) - {d} && held == old(held)
      ensures forall p :: p in held ==> p < pages.Length && pages[p] == old(pages[p])
      ensures forall d' :: d' in dirs ==> SameDir(old(pages[..]), pages[..], d')
      ensures forall p :: p in freelist <==> p in old(freelist) || p in old(Estate(pages[..], d))
    {
      ghost var ps, free, ds, h := pages[..], freelist, dirs, held;
      var _ := Deallocuvm(d, KERNBASE, 0);
      ghost var qs := pages[..];
      OnlyTables(ps, qs, dirs, freelist, held, d);
      DropDirKeeps(qs, dirs, freelist, held, d);
      DirIsTable(qs, dirs, freelist, held, d);
      GatedSame(qs, qs, dirs, dirs - {d});
      dirs := dirs - {d};
      held := held + Estate(qs, d);
      hide Own, SameDir, Gated;
      SameDirRefl(qs, dirs);
      var i := 0;
      while i < ENTRIES
        invariant i <= ENTRIES && Valid() && dirs == ds - {d}
        invariant held == h + {d} + Frames(qs, d, i) && pages[d] == qs[d]
        invariant forall p :: p in h ==> p < pages.Length && pages[p] == ps[p]
        invariant forall d' :: d' in dirs ==> SameDir(qs, pages[..], d')
      {
        ghost var rs := pages[..];
        FramesNext(qs, ds, h, d, i);
        if pages[d].entries[i].present {
          Kfree(pages[d].entries[i].frame);
          SameDirsThen(qs, rs, pages[..], dirs);
        }
        i := i + 1;
      }
      ghost var rs := pages[..];
      Kfree(d);
      assert held == h;
      SameDirsThen(qs, rs, pages[..], dirs);
      SameDirsThen(ps, qs, pages[..], dirs);
      FreedAre(ps, pages[..], ds, free, freelist, held, d);
    }

    // -------------------------------------------------------------- whole address spaces

    /** Giving up on a directory made since `ps`: the same pages are free as then. */
    method Abandon(c: nat, ghost ps: Pages, ghost ds: set<nat>, ghost free: seq<nat>)
      requires Valid() && c !in ds && dirs == ds + {c} && Own(ps, ds, free, held) && |ps| == pages.Length
      requires forall d :: d in ds ==> SameDir(ps, pages[..], d)
      modifies this, pages
      ensures Valid() && dirs == ds && held == old(held)
      ensures forall p :: p in held ==> p < pages.Length && pages[p] == old(pages[p])
      ensures forall d :: d in ds ==> SameDir(ps, pages[..], d)
      ensures forall p :: p in freelist <==> p in free
    {
      hide Own, SameDir, Estate;
      ghost var qs := pages[..];
      Freevm(c);
      assert dirs == ds;
      SameDirsThen(ps, qs, pages[..], ds);
      SameFree(ps, pages[..], ds, free, freelist, held);
    }

    /** The k-th line of kmap. */
    method MapLine(d: nat, k: nat) returns (ok: bool)
      requires Valid() && d in dirs && k < |Kmap(data)|
      requires KernelTabled(pages[..], d, data, k) && KernelRuns(pages[..], d, data, k)
      modifies this`freelist, this`held, pages
      ensures Valid() && held == old(held)
      ensures forall p :: p in held ==> p < pages.Length && pages[p] == old(pages[p])
      ensures forall d' :: d' in dirs && d' != d ==> SameDir(old(pages[..]), pages[..], d')
      ensures KernelTables(data, k) <= KernelTables(data, k + 1) <= KERNELNEED - 1
      ensures ok <==> KernelTables(data, k + 1) - KernelTables(data, k) <= |old(freelist)|
      ensures ok ==>
                && |freelist| == |old(freelist)| - (KernelTables(data, k + 1) - KernelTables(data, k))
                && KernelTabled(pages[..], d, data, k + 1) && KernelRuns(pages[..], d, data, k + 1)
    {
      ghost var ps := pages[..];
      hide Own, SameDir, KernelTabled, KernelRuns, KernelTables, TablesFor, Tabled, SameAt, Handed, CanHand;
      KernelNext(ps, d, data, k);
      var r := Kmap(data)[k];
      HandedKernel(r.v, r.frame, r.n);
      var result, a := Mappages(d, r.v, r.n, r.frame, r.flags);
      HandedKernel(r.v, r.frame, a - r.v);
      assert FirstPresent(ps, d, r.v, r.v + r.n) == r.v + r.n;
      ok := result == Done;
      if ok { KernelDone(ps, pages[..], d, data, k); }
    }

    /** A new directory with the kernel's mappings, if 49 pages are free; else the same pages are free as
      before. */
    method Setupkvm() returns (d: nat, ok: bool)
      requires Valid()
      modifies this, pages
      ensures Valid() && held == old(held)
      ensures ok <==> |old(freelist)| >= KERNELNEED
      ensures forall p :: p in held ==> p < pages.Length && pages[p] == old(pages[p])
      ensures forall d' :: d' in old(dirs) ==> SameDir(old(pages[..]), pages[..], d')
      ensures ok ==> d !in old(dirs) && dirs == old(dirs) + {d} && |freelist| == |old(freelist)| - KERNELNEED
      ensures ok ==> forall v: nat :: v < TOP ==> SameEntry(Pte(pages[..], d, v), KernelPte(data, v))
      ensures ok ==> forall i: nat :: i < USER / ENTRIES ==> !EntryAt(pages[..], d, i).present
      ensures ok ==> forall v: nat :: v < TOP ==> PhysicalAt(pages[..], d, v)
      ensures ok ==> forall v: nat :: v < TOP ==> !UserReads(pages[..], d, v)
      ensures ok ==> forall v: nat :: v < TOP ==>
                       (KernelWrites(pages[..], d, v) <==>
                        0x8_0000 <= v < 0x8_0100 || 0x8_0000 + data <= v < 0x8_8000 || 0xF_C000 <= v)
      ensures !ok ==> dirs == old(dirs) && forall p :: p in freelist <==> p in old(freelist)
    {
      ghost var ps, ds, free := pages[..], dirs, freelist;
      hide Own, SameDir, KernelTabled, KernelRuns, KernelTables, TablesFor, Tabled, Estate, SameAt, Valid;
      HeldInRange();
      SameDirRefl(ps, dirs);
      d, ok := Kalloc();
      if !ok { return; }
      Fill(d, ZeroTable());
      ghost var qs := pages[..];
      HeldInRange();
      NewDirKeeps(qs, dirs, freelist, held, d);
      NewDirGated(qs, dirs, d);
      dirs, held := dirs + {d}, held - {d};
      assert held == old(held);
      BecomesValid();
      EmptyTabled(qs, d, data);
      var k := 0;
      while k < |Kmap(data)|
        invariant k <= |Kmap(data)| && Valid() && dirs == ds + {d} && held == old(held)
        invariant forall p :: p in held ==> p < pages.Length && pages[p] == ps[p]
        invariant forall d' :: d' in ds ==> SameDir(ps, pages[..], d')
        invariant KernelTabled(pages[..], d, data, k) && KernelRuns(pages[..], d, data, k)
        invariant |freelist| == |free| - 1 - KernelTables(data, k)
      {
        ghost var rs := pages[..];
        ok := MapLine(d, k);
        SameDirsThen(ps, rs, pages[..], ds);
        if !ok {
          Abandon(d, ps, ds, free);
          return;
        }
        k := k + 1;
      }
      KernelAll(pages[..], d, data);
      HeldInRange();
      hide UserReads, KernelWrites, PhysicalAt, Gated;
      KernelAllows(pages[..], dirs, d, data);
    }

    /** Grows a process: zeroed pages it can write from oldsz to newsz, if none of these pages is mapped and there
      is a free page for each of them and for each page table that is missing. The panic "remap" comes if the
      pages before the first mapped one can be had, and a page for it. Otherwise allocuvm gives up, and then
      nothing is left mapped from oldsz to newsz, and every other page is as it was. */
    method Allocuvm(d: nat, oldsz: nat, newsz: nat) returns (r: Option<nat>)
      requires Valid() && d in dirs
      modifies this`freelist, this`held, pages
      ensures r.Some? ==> Valid() && held == old(held)
      ensures r.Some? ==> forall p :: p in held ==> p < pages.Length && pages[p] == old(pages[p])
      ensures r.Some? ==> forall d' :: d' in dirs && d' != d ==> SameDir(old(pages[..]), pages[..], d')
      ensures newsz >= KERNBASE ==> r == Some(0)
      ensures newsz < KERNBASE && newsz < oldsz ==> r == Some(oldsz)
      ensures oldsz <= newsz < KERNBASE ==>
                r == match GrowResult(old(pages[..]), |old(freelist)|, d, oldsz, newsz)
                     case Done => Some(newsz) case NoMemory => Some(0) case Panic => None
      ensures r.Some? ==> forall v: nat ::
                if oldsz <= newsz < KERNBASE && Up(oldsz) <= v < Up(newsz)
                then (if r.value == newsz then New(pages[..], d, v) else !Pte(pages[..], d, v).present)
                else SameAt(old(pages[..]), pages[..], d, v)
      ensures r.Some? ==> forall v: nat ::
                UserReads(pages[..], d, v) == if oldsz <= newsz < KERNBASE && Up(oldsz) <= v < Up(newsz)
                                              then r.value == newsz else UserReads(old(pages[..]), d, v)
      ensures r.Some? ==> forall v: nat ::
                UserWrites(pages[..], d, v) == if oldsz <= newsz < KERNBASE && Up(oldsz) <= v < Up(newsz)
                                               then r.value == newsz else UserWrites(old(pages[..]), d, v)
    {
      ghost var ps := pages[..];
      SameDirRefl(ps, dirs);
      if newsz >= KERNBASE { return Some(0); }
      if newsz < oldsz { return Some(oldsz); }
      hide Own, GrowResult, Grown, SameDir, Valid, SameAt, New, Gated, UserReads, UserWrites;
      HeldInRange();
      var o := GrowPages(d, oldsz, newsz);
      if o == Panic { return None; }
      HeldInRange();
      if o == NoMemory {
        GrownAllows(ps, pages[..], dirs, d, Up(oldsz), Up(newsz), false);
        return Some(0);
      }
      GrownIs(ps, pages[..], dirs, d, Up(oldsz), Up(newsz));
      GrownAllows(ps, pages[..], dirs, d, Up(oldsz), Up(newsz), true);
      return Some(newsz);
    }

    /** The loop of allocuvm. */
    method GrowPages(d: nat, oldsz: nat, newsz: nat) returns (r: Outcome)
      requires Valid() && d in dirs && oldsz <= newsz < KERNBASE
      modifies this`freelist, this`held, pages
      ensures r == GrowResult(old(pages[..]), |old(freelist)|, d, oldsz, newsz)
      ensures r != Panic ==> Valid() && held == old(held)
      ensures r != Panic ==> forall p :: p in held ==> p < pages.Length && pages[p] == old(pages[p])
      ensures r == Done ==> Grown(old(pages[..]), pages[..], dirs, d, Up(oldsz), Up(newsz))
      ensures r == NoMemory ==> forall d' :: d' in dirs && d' != d ==> SameDir(old(pages[..]), pages[..], d')
      ensures r == NoMemory ==> forall v: nat :: if Up(oldsz) <= v < Up(newsz) then !Pte(pages[..], d, v).present
                                                 else SameAt(old(pages[..]), pages[..], d, v)
    {
      ghost var ps := pages[..];
      hide Own, Frame, Need, TableEnd, Grown, SameDir, Tabled, Up, Valid, SameAt, New, GrowResult;
      HeldInRange();
      var a := Up(oldsz) * PGSIZE;
      ghost var lo, hi := Up(oldsz), Up(newsz);
      UpMono(oldsz, newsz);
      var v := Up(oldsz);
      GrownNone(ps, dirs, d, lo);
      while a < newsz
        invariant a == v * PGSIZE && lo <= v <= hi && Valid() && held == old(held)
        invariant forall p :: p in held ==> p < pages.Length && pages[p] == old(pages[p])
        invariant Grown(ps, pages[..], dirs, d, lo, v) && |freelist| == |old(freelist)| - Need(ps, d, lo, v)
        invariant forall w: nat :: lo <= w < v ==> !Pte(ps, d, w).present
        decreases newsz - a
      {
        ghost var qs, free := pages[..], |freelist|;
        PageBelow(a, v, newsz);
        GrownNext(ps, qs, dirs, d, lo, v);
        r := AddPage(d, v);
        GrowStops(ps, qs, |old(freelist)|, free, d, oldsz, newsz, v, r);
        if r == Panic { return; }
        if r == NoMemory {
          ghost var rs := pages[..];
          var _ := Deallocuvm(d, newsz, oldsz);
          Ungrown(ps, qs, rs, pages[..], dirs, d, lo, v, hi);
          return;
        }
        GrownOne(ps, qs, pages[..], dirs, d, lo, v);
        a := a + PGSIZE;
        v := v + 1;
      }
      UpReached(newsz, v);
      GrowEnds(ps, |old(freelist)|, d, oldsz, newsz);
      r := Done;
    }

    /** kalloc, fill and map: one more user page with the given bytes, or nothing, or the panic "remap". */
    method PutPage(d: nat, v: nat, c: Content, flags: nat) returns (r: Outcome)
      requires Valid() && d in dirs && v < USER && c.Data?
      modifies this`freelist, this`held, pages
      ensures r == PutResult(old(pages[..]), |old(freelist)|, d, v)
      ensures r != Panic ==> Valid() && held == old(held)
      ensures r != Panic ==> forall p :: p in held ==> p < pages.Length && pages[p] == old(pages[p])
      ensures r != Panic ==> forall d' :: d' in dirs && d' != d ==> SameDir(old(pages[..]), pages[..], d')
      ensures r != Panic ==> forall w: nat :: w != v || r == NoMemory ==> SameAt(old(pages[..]), pages[..], d, w)
      ensures r == Done ==>
                && Pte(pages[..], d, v).present && Pte(pages[..], d, v).flags == flags && Frame(pages[..], d, v) == c
                && |freelist| == |old(freelist)| - 1 - Absent(old(pages[..]), d, v / ENTRIES)
                && Tabled(old(pages[..]), pages[..], d, v / ENTRIES, v / ENTRIES + 1)
    {
      ghost var ps := pages[..];
      hide Own, Tabled, TablesFor;
      SameDirRefl(ps, dirs);
      var mem, ok := Kalloc();
      if !ok { return NoMemory; }
      Fill(mem, c);
      ghost var qs, free := pages[..], |freelist|;
      assert SameDir(ps, qs, d) && SameAt(ps, qs, d, v);
      OneTable(ps, qs, d, v);
      HandedNone(v, mem);
      HandedOne(v, mem);
      ghost var a;
      r, a := Mappages(d, v, 1, mem, flags);
      OneMapped(ps, qs, free, d, v, r, a);
      if r == Panic { return; }
      ghost var rs := pages[..];
      if r == Done { SameTabled(ps, qs, rs, d, v / ENTRIES, v / ENTRIES + 1); }
      SameDirsThen(ps, qs, rs, dirs - {d});
      forall w: nat | w != v ensures SameAt(ps, rs, d, w) { SameThen(ps, qs, rs, d, w); }
      if r == Done {
        assert Pte(rs, d, v) == Entry(true, mem, flags);
      } else {
        Kfree(mem);
        SameDirsThen(ps, rs, pages[..], dirs - {d});
        assert SameDir(rs, pages[..], d);
        forall w: nat ensures SameAt(ps, pages[..], d, w) {
          assert SameAt(rs, pages[..], d, w);
          assert w != v ==> SameAt(ps, rs, d, w);
        }
      }
      assert held == old(held);
    }

    /** One zeroed user page. */
    method AddPage(d: nat, v: nat) returns (r: Outcome)
      requires Valid() && d in dirs && v < USER
      modifies this`freelist, this`held, pages
      ensures r == PutResult(old(pages[..]), |old(freelist)|, d, v)
      ensures r != Panic ==> Valid() && held == old(held)
      ensures r != Panic ==> forall p :: p in held ==> p < pages.Length && pages[p] == old(pages[p])
      ensures r != Panic ==> forall d' :: d' in dirs && d' != d ==> SameDir(old(pages[..]), pages[..], d')
      ensures r != Panic ==> forall w: nat :: w != v || r == NoMemory ==> SameAt(old(pages[..]), pages[..], d, w)
      ensures r == Done ==>
                && New(pages[..], d, v)
                && |freelist| == |old(freelist)| - 1 - Absent(old(pages[..]), d, v / ENTRIES)
                && Tabled(old(pages[..]), pages[..], d, v / ENTRIES, v / ENTRIES + 1)
    {
      r := PutPage(d, v, ZeroData(), W + U);
    }

    /** One round of copyuvm: the page must be there, and is copied. */
    method CopyPage(d: nat, c: nat, v: nat) returns (r: Outcome)
      requires Valid() && d in dirs && c in dirs && v < USER
      modifies this`freelist, this`held, pages
      ensures r == if old(Pte(pages[..], d, v)).present then PutResult(old(pages[..]), |old(freelist)|, c, v) else Panic
      ensures r != Panic ==> Valid() && held == old(held)
      ensures r != Panic ==> forall d' :: d' in dirs && d' != c ==> SameDir(old(pages[..]), pages[..], d')
      ensures r != Panic ==> forall w: nat :: w != v || r == NoMemory ==> SameAt(old(pages[..]), pages[..], c, w)
      ensures r == Done ==>
                && Pte(pages[..], c, v).present && Pte(pages[..], c, v).flags == old(Pte(pages[..], d, v)).flags
                && Frame(pages[..], c, v) == Frame(old(pages[..]), d, v)
                && |freelist| == |old(freelist)| - 1 - Absent(old(pages[..]), c, v / ENTRIES)
                && Tabled(old(pages[..]), pages[..], c, v / ENTRIES, v / ENTRIES + 1)
    {
      hide Own, SameDir, Frame, PutResult, SameAt, Tabled;
      ghost var ps := pages[..];
      PresentHasTable(ps, d, v);
      var t, found := Walkpgdir(d, v, false);
      if !found || !pages[t].entries[v % ENTRIES].present { return Panic; }
      var e := pages[t].entries[v % ENTRIES];
      LeafIsData(ps, dirs, freelist, held, d, v);
      FrameIs(ps, d, v);
      r := PutPage(c, v, pages[e.frame], e.flags);
    }

    /** A new address space with the same user pages as d, flags and bytes, on pages of its own, if all of them are
      there and there is a free page for each, for their page tables and for setupkvm. It panics if the first
      that is not there is reached; otherwise it gives up and the same pages are free as before. The parent does
      not change. */
    method Copyuvm(d: nat, sz: nat) returns (r: Outcome, c: nat)
      requires Valid() && d in dirs && sz < KERNBASE
      modifies this, pages
      ensures r == CopyResult(old(pages[..]), |old(freelist)|, d, sz)
      ensures r != Panic ==> Valid() && held == old(held)
      ensures r != Panic ==> forall d' :: d' in old(dirs) ==> SameDir(old(pages[..]), pages[..], d')
      ensures r == Done ==> c !in old(dirs) && dirs == old(dirs) + {c}
      ensures r == Done ==> forall v: nat :: v < USER ==>
                       if v < Up(sz) then Copied(old(pages[..]), pages[..], d, c, v) else !Pte(pages[..], c, v).present
      ensures r == Done ==> forall v: nat :: USER <= v < TOP ==> SameEntry(Pte(pages[..], c, v), KernelPte(data, v))
      ensures r == Done ==> forall v: nat :: v < TOP ==>
                       UserReads(pages[..], c, v) == (v < USER && v < Up(sz) && UserReads(old(pages[..]), d, v))
      ensures r == Done ==> forall v: nat :: v < TOP ==>
                       UserWrites(pages[..], c, v) == (v < USER && v < Up(sz) && UserWrites(old(pages[..]), d, v))
      ensures r == NoMemory ==> dirs == old(dirs) && forall p :: p in freelist <==> p in old(freelist)
    {
      ghost var ps, ds, free := pages[..], dirs, freelist;
      hide Own, SameDir, Frame, Need, Copying, Tables, KernelPte, Valid, CopyResult, PutResult, Up, Gated, UserReads;
      hide UserWrites, KernelWrites, Copied, Pte;
      HeldInRange();
      var ok;
      c, ok := Setupkvm();
      CopyBegins(ps, |free|, d, sz, ok);
      if !ok { return NoMemory, c; }
      ghost var psc := pages[..];
      HeldInRange();
      CopyStarts(ps, psc, ds, d, c, data);
      r := CopyRounds(d, c, sz, ps, psc, ds, free);
      if r != Done { return; }
      HeldInRange();
      CopyEnds(ps, psc, pages[..], ds, d, c, data, Up(sz));
      CopyAllows(ps, pages[..], ds, dirs, d, c, data, Up(sz));
    }

    /** The loop of copyuvm, from the state ps with the free list `free`; psc is where setupkvm left it. */
    method CopyRounds(d: nat, c: nat, sz: nat, ghost ps: Pages, ghost psc: Pages, ghost ds: set<nat>,
                      ghost free: seq<nat>)
      returns (r: Outcome)
      requires Valid() && d in ds && c !in ds && dirs == ds + {c} && sz < KERNBASE && pages[..] == psc
      requires Own(ps, ds, free, held) && |ps| == pages.Length && Copying(ps, psc, psc, ds, d, c, data, 0)
      requires |free| >= KERNELNEED && |freelist| == |free| - KERNELNEED
      requires forall i: nat :: i < USER / ENTRIES ==> !EntryAt(psc, c, i).present
      modifies this, pages
      ensures r == CopyResult(ps, |free|, d, sz)
      ensures r != Panic ==> Valid() && held == old(held) && forall d' :: d' in ds ==> SameDir(ps, pages[..], d')
      ensures r == Done ==> dirs == ds + {c} && Copying(ps, psc, pages[..], ds, d, c, data, Up(sz))
      ensures r == Done ==> forall v: nat :: v < Up(sz) ==> Pte(ps, d, v).present
      ensures r == NoMemory ==> dirs == ds && forall p :: p in freelist <==> p in free
    {
      hide Own, SameDir, Frame, Need, Copying, Tables, KernelPte, Valid, CopyResult, PutResult, Up, Gated;
      hide Copied, Pte;
      var i, v: nat := 0, 0;
      NeedNone(psc, c);
      UpUser(sz);
      while i < sz
        invariant i == v * PGSIZE && v <= Up(sz) && Valid() && held == old(held) && dirs == ds + {c}
        invariant Copying(ps, psc, pages[..], ds, d, c, data, v)
        invariant |freelist| == |free| - KERNELNEED - Need(psc, c, 0, v)
        invariant forall w: nat :: w < v ==> Pte(ps, d, w).present
        decreases sz - i
      {
        ghost var qs, free1 := pages[..], |freelist|;
        PageBelow(i, v, sz);
        CopyNext(ps, psc, qs, ds, d, c, data, v);
        CopyStops(ps, psc, qs, |free|, free1, d, c, sz, v);
        r := CopyPage(d, c, v);
        if r == Panic { return; }
        CopyOne(ps, psc, qs, pages[..], ds, d, c, data, v, r == Done);
        if r == NoMemory {
          Abandon(c, ps, ds, free);
          return;
        }
        i := i + PGSIZE;
        v := v + 1;
      }
      UpReached(sz, v);
      CopyEnds(ps, psc, pages[..], ds, d, c, data, v);
      CopyAll(ps, psc, |free|, |freelist|, d, c, sz);
      r := Done;
    }
  }

  /** The first v pages have been copied to directory c, which was psc when it was new; the directories there
    were before are as they were. */
  ghost predicate Copying(ps: Pages, psc: Pages, qs: Pages, ds: set<nat>, d: nat, c: nat, data: nat, v: nat) {
    && (forall d' :: d' in ds ==> SameDir(ps, qs, d'))
    && (forall w: nat :: w < USER ==> if w < v then Copied(ps, qs, d, c, w) else !Pte(qs, c, w).present)
    && (forall w: nat :: USER <= w < TOP ==> SameEntry(Pte(qs, c, w), KernelPte(data, w)))
    && Tabled(psc, qs, c, 0, TableEnd(0, v))
  }

  lemma CopyStarts(ps: Pages, psc: Pages, ds: set<nat>, d: nat, c: nat, data: nat)
    requires forall d' :: d' in ds ==> SameDir(ps, psc, d')
    requires forall v: nat :: v < TOP ==> SameEntry(Pte(psc, c, v), KernelPte(data, v))
    ensures Copying(ps, psc, psc, ds, d, c, data, 0)
  {
    TabledNone(psc, c, 0);
  }

  lemma NeedNone(psc: Pages, c: nat)
    ensures Need(psc, c, 0, 0) == 0
  {
  }

  lemma CopyNext(ps: Pages, psc: Pages, qs: Pages, ds: set<nat>, d: nat, c: nat, data: nat, v: nat)
    requires Copying(ps, psc, qs, ds, d, c, data, v) && d in ds && v < USER
    ensures SameAt(ps, qs, d, v) && Pte(qs, d, v).present == Pte(ps, d, v).present && !Pte(qs, c, v).present
    ensures Pte(qs, d, v).present ==> EntryAt(qs, d, v / ENTRIES).present
    ensures Need(psc, c, 0, v + 1) == Need(psc, c, 0, v) + 1 + Absent(qs, c, v / ENTRIES)
  {
    SpaceOf(ps, qs, d, v);
    PresentHasTable(qs, d, v);
    NextCost(psc, qs, c, 0, v);
  }

  /** How copyuvm ends, with `free` free pages: at a page of the parent that is missing, for want of memory, or
    well. */
  function CopyResult(ps: Pages, free: nat, d: nat, sz: nat): Outcome {
    var w := FirstAbsent(ps, d, 0, Up(sz));
    if free < KERNELNEED + w + Tables(w) then NoMemory else if w < Up(sz) then Panic else Done
  }

  lemma CopyBegins(ps: Pages, free: nat, d: nat, sz: nat, ok: bool)
    requires ok <==> free >= KERNELNEED
    ensures !ok ==> CopyResult(ps, free, d, sz) == NoMemory
  {
  }

  /** One page more, or none because there was no memory. */
  lemma CopyOne(ps: Pages, psc: Pages, qs: Pages, rs: Pages, ds: set<nat>, d: nat, c: nat, data: nat, v: nat, ok: bool)
    requires Copying(ps, psc, qs, ds, d, c, data, v) && v < USER && SameAt(ps, qs, d, v) && Pte(ps, d, v).present
    requires c !in ds && forall d' :: d' in ds ==> SameDir(qs, rs, d')
    requires forall w: nat :: w != v || !ok ==> SameAt(qs, rs, c, w)
    requires ok ==> Pte(rs, c, v).present && Pte(rs, c, v).flags == Pte(qs, d, v).flags
    requires ok ==> Frame(rs, c, v) == Frame(qs, d, v)
    requires ok ==> Tabled(qs, rs, c, v / ENTRIES, v / ENTRIES + 1)
    ensures forall d' :: d' in ds ==> SameDir(ps, rs, d')
    ensures ok ==> Copying(ps, psc, rs, ds, d, c, data, v + 1)
  {
    hide SameDir, Frame, Tabled, KernelPte;
    SameDirsThen(ps, qs, rs, ds);
    if ok {
      NextPage(psc, qs, rs, c, 0, v);
      forall w: nat | w < USER && w != v ensures if w < v then Copied(ps, rs, d, c, w) else !Pte(rs, c, w).present {
        assert SameAt(qs, rs, c, w);
      }
      forall w: nat | USER <= w < TOP ensures SameEntry(Pte(rs, c, w), KernelPte(data, w)) {
        assert SameAt(qs, rs, c, w);
      }
    }
  }

  lemma CopyEnds(ps: Pages, psc: Pages, qs: Pages, ds: set<nat>, d: nat, c: nat, data: nat, v: nat)
    requires Copying(ps, psc, qs, ds, d, c, data, v)
    ensures forall d' :: d' in ds ==> SameDir(ps, qs, d')
    ensures forall w: nat :: w < USER ==> if w < v then Copied(ps, qs, d, c, w) else !Pte(qs, c, w).present
    ensures forall w: nat :: USER <= w < TOP ==> SameEntry(Pte(qs, c, w), KernelPte(data, w))
  {
  }

  lemma DirIsTable(ps: Pages, dirs: set<nat>, free: seq<nat>, held: set<nat>, d: nat)
    requires Own(ps, dirs, free, held) && d in dirs
    ensures d < |ps| && IsTable(ps[d]) && d !in held && Split(ps, dirs, free, held, d)
  {
    assert Ptr(ps, dirs, Root(d)) == Some(d);
    assert Fits(ps, Root(d), d);
    assert Split(ps, dirs, free, held, d);
  }

  lemma NewDirGated(ps: Pages, dirs: set<nat>, d: nat)
    requires Gated(ps, dirs) && d < |ps| && ps[d] == ZeroTable()
    ensures Gated(ps, dirs + {d})
  {
  }

  /** A new directory entry that allows everything. */
  lemma NewGate(ps: Pages, qs: Pages, dirs: set<nat>, d: nat, i: nat)
    requires Gated(ps, dirs) && d in dirs && EntryAt(qs, d, i).flags == W + U
    requires forall d' :: d' in dirs && d' != d ==> SameDir(ps, qs, d')
    requires forall j: nat :: j != i ==> EntryAt(qs, d, j) == EntryAt(ps, d, j)
    ensures Gated(qs, dirs)
  {
    forall d', j: nat | d' in dirs && EntryAt(qs, d', j).present
      ensures Writable(EntryAt(qs, d', j)) && ForUser(EntryAt(qs, d', j))
    {
      if d' != d { assert SameDir(ps, qs, d'); }
    }
  }

  /** No directory entry changes. */
  lemma SameGates(ps: Pages, qs: Pages, dirs: set<nat>, d: nat)
    requires Gated(ps, dirs) && forall i: nat :: EntryAt(qs, d, i) == EntryAt(ps, d, i)
    requires forall d' :: d' in dirs && d' != d ==> SameDir(ps, qs, d')
    ensures Gated(qs, dirs)
  {
    forall d', i: nat | d' in dirs ensures EntryAt(qs, d', i) == EntryAt(ps, d', i) {
      if d' != d { assert SameDir(ps, qs, d'); }
    }
    GatedSame(ps, qs, dirs, dirs);
  }

  lemma TableNotHeld(ps: Pages, dirs: set<nat>, free: seq<nat>, held: set<nat>, d: nat, v: nat)
    requires Own(ps, dirs, free, held) && d in dirs && v < TOP && EntryAt(ps, d, v / ENTRIES).present
    ensures var t := TableOf(ps, d, v);
            t !in held && t < |ps| && IsTable(ps[t]) && ps[t].entries[v % ENTRIES] == Pte(ps, d, v)
  {
    var t := TableOf(ps, d, v);
    assert Ptr(ps, dirs, Pt(d, v / ENTRIES)) == Some(t);
    assert Fits(ps, Pt(d, v / ENTRIES), t) && Split(ps, dirs, free, held, t);
  }

  lemma LeafIsData(ps: Pages, dirs: set<nat>, free: seq<nat>, held: set<nat>, d: nat, v: nat)
    requires Own(ps, dirs, free, held) && d in dirs && v < USER && Pte(ps, d, v).present
    ensures var p := Pte(ps, d, v).frame; p < |ps| && ps[p].Data? && p !in held
  {
    var p := Pte(ps, d, v).frame;
    assert Ptr(ps, dirs, Leaf(d, v)) == Some(p);
    assert Fits(ps, Leaf(d, v), p) && Split(ps, dirs, free, held, p);
  }

  lemma SameDirRefl(ps: Pages, dirs: set<nat>)
    ensures forall d :: d in dirs ==> SameDir(ps, ps, d)
  {
  }

  lemma SameDirsThen(ps: Pages, qs: Pages, rs: Pages, dirs: set<nat>)
    requires forall d :: d in dirs ==> SameDir(ps, qs, d) && SameDir(qs, rs, d)
    ensures forall d :: d in dirs ==> SameDir(ps, rs, d)
  {
    forall d | d in dirs ensures SameDir(ps, rs, d) { SameDirThen(ps, qs, rs, d); }
  }

  /** The address of a page below oldsz is that of a user page, one of those the loop is to unmap. */
  lemma PageBelow(a: nat, v: nat, oldsz: nat)
    requires a == v * PGSIZE && a < oldsz <= KERNBASE
    ensures v < Up(oldsz) && v < USER
  {
  }

  /** PGADDR(PDX(a) + 1, 0, 0) is the first page of the next page table. */
  lemma NextTable(v: nat)
    ensures (v * PGSIZE / SPAN + 1) * SPAN == (v / ENTRIES + 1) * ENTRIES * PGSIZE
  {
    assert SPAN == ENTRIES * PGSIZE;
    assert v == v / ENTRIES * ENTRIES + v % ENTRIES;
    assert v * PGSIZE == v / ENTRIES * SPAN + v % ENTRIES * PGSIZE;
    assert v % ENTRIES * PGSIZE < SPAN;
    assert v * PGSIZE / SPAN == v / ENTRIES;
  }

  /** The page tables under the entries of directory d from i on. */
  function Frames(ps: Pages, d: nat, i: nat): set<nat> {
    set j | i <= j < ENTRIES && EntryAt(ps, d, j).present :: EntryAt(ps, d, j).frame
  }

  /** What a directory still owns when no user page is mapped. */
  ghost predicate Bare(ps: Pages, ds: set<nat>, held: set<nat>, d: nat) {
    && Estate(ps, d) == {d} + Frames(ps, d, 0)
    && held !! Estate(ps, d)
    && (forall i: nat :: i < ENTRIES && EntryAt(ps, d, i).present ==> EntryAt(ps, d, i).frame != d)
    && (forall i: nat, j: nat :: i < j < ENTRIES && EntryAt(ps, d, i).present && EntryAt(ps, d, j).present
                                ==> EntryAt(ps, d, i).frame != EntryAt(ps, d, j).frame)
  }

  lemma OnlyTables(ps: Pages, qs: Pages, dirs: set<nat>, free: seq<nat>, held: set<nat>, d: nat)
    requires Own(qs, dirs, free, held) && d in dirs
    requires forall v: nat :: v < USER ==> !Pte(qs, d, v).present
    ensures Bare(qs, dirs, held, d)
  {
    DropDirKeeps(qs, dirs, free, held, d);
    forall s: Slot | s.d == d ensures Ptr(qs, {d}, s) == Ptr(qs, dirs, s) {}
    assert Ptr(qs, dirs, Root(d)) == Some(d) && Fits(qs, Root(d), d);
    forall i: nat | i < ENTRIES && EntryAt(qs, d, i).present
      ensures EntryAt(qs, d, i).frame in Estate(qs, d) && EntryAt(qs, d, i).frame != d
    {
      assert Ptr(qs, {d}, Pt(d, i)) == Some(EntryAt(qs, d, i).frame);
      assert Fits(qs, Pt(d, i), EntryAt(qs, d, i).frame);
    }
    forall i: nat, j: nat | i < j < ENTRIES && EntryAt(qs, d, i).present && EntryAt(qs, d, j).present
      ensures EntryAt(qs, d, i).frame != EntryAt(qs, d, j).frame
    {
      assert Ptr(qs, dirs, Pt(d, i)) == Some(EntryAt(qs, d, i).frame);
      assert Ptr(qs, dirs, Pt(d, j)) == Some(EntryAt(qs, d, j).frame);
    }
    assert Ptr(qs, {d}, Root(d)) == Some(d);
    forall p | p in Estate(qs, d) ensures p in {d} + Frames(qs, d, 0) {
      var s: Slot :| s.d == d && Ptr(qs, {d}, s) == Some(p);
    }
  }

  lemma FramesNext(ps: Pages, ds: set<nat>, held: set<nat>, d: nat, i: nat)
    requires Bare(ps, ds, held, d) && i < ENTRIES
    ensures var e := EntryAt(ps, d, i);
            Frames(ps, d, i) == Frames(ps, d, i + 1) + if e.present then {e.frame} else {}
    ensures var e := EntryAt(ps, d, i);
            e.present ==> e.frame !in Frames(ps, d, i + 1) && e.frame !in held && e.frame != d
  {
    var e := EntryAt(ps, d, i);
    assert e.present ==> e.frame in Frames(ps, d, 0);
  }

  lemma FreedAre(ps: Pages, qs: Pages, dirs: set<nat>, free: seq<nat>, free': seq<nat>, held: set<nat>, d: nat)
    requires Own(ps, dirs, free, held) && Own(qs, dirs - {d}, free', held) && |ps| == |qs| && d in dirs
    requires forall d' :: d' in dirs && d' != d ==> SameDir(ps, qs, d')
    ensures forall p :: p in free' <==> p in free || p in Estate(ps, d)
  {
    DropDirKeeps(ps, dirs, free, held, d);
    var rest := dirs - {d};
    forall s: Slot ensures Ptr(qs, rest, s) == Ptr(ps, rest, s) {
      if s.Leaf? && s.d in rest { assert SameDir(ps, qs, s.d) && SameAt(ps, qs, s.d, s.v); }
    }
    forall p ensures p in free' <==> p in free || p in Estate(ps, d) {
      if 0 <= p < |ps| {
        assert Split(ps, rest, free, held + Estate(ps, d), p) && Split(qs, rest, free', held, p);
        SamePointed(ps, qs, rest, rest, p);
      }
    }
  }

  /** The first page the first k lines of kmap leave unmapped. */
  function Upto(data: nat, k: nat): nat {
    if k == 0 then 0x8_0000 else if k == 1 then 0x8_0100 else if k == 2 then 0x8_0000 + data
    else if k == 3 then 0x8_8000 else TOP
  }

  lemma RangeFits(data: nat, k: nat)
    requires 0x100 < data < 0x8000 && k < |Kmap(data)|
    ensures var r := Kmap(data)[k];
            && Upto(data, k) <= r.v && r.v + r.n == Upto(data, k + 1) <= TOP && r.n > 0 && r.v >= USER
            && (forall v: nat :: r.v <= v < r.v + r.n ==>
                 KernelPte(data, v) == Entry(true, r.frame + (v - r.v), r.flags))
            && (forall v: nat :: Upto(data, k) <= v < r.v ==> KernelPte(data, v) == ABSENT)
            && (k == 0 ==> forall v: nat :: v < Upto(data, 0) ==> KernelPte(data, v) == ABSENT)
  {
  }

  // ---------------------------------------------------------------- who may do what

  /** After growing: the new pages are the process's to read and write, and nothing else has changed. */
  lemma GrownAllows(ps: Pages, qs: Pages, dirs: set<nat>, d: nat, lo: nat, hi: nat, done: bool)
    requires Gated(ps, dirs) && Gated(qs, dirs) && d in dirs
    requires forall v: nat :: if lo <= v < hi then (if done then New(qs, d, v) else !Pte(qs, d, v).present)
                              else SameAt(ps, qs, d, v)
    ensures forall v: nat :: UserReads(qs, d, v) == if lo <= v < hi then done else UserReads(ps, d, v)
    ensures forall v: nat :: UserWrites(qs, d, v) == if lo <= v < hi then done else UserWrites(ps, d, v)
  {
    forall v: nat
      ensures UserReads(qs, d, v) == if lo <= v < hi then done else UserReads(ps, d, v)
      ensures UserWrites(qs, d, v) == if lo <= v < hi then done else UserWrites(ps, d, v)
    {
      Access(ps, dirs, d, v);
      Access(qs, dirs, d, v);
      hide Gated, UserReads, KernelWrites, Pte, Frame;
      assert !(lo <= v < hi) ==> SameAt(ps, qs, d, v);
    }
  }

  /** A copy allows its process what the original allows, and nothing above KERNBASE. */
  lemma CopyAllows(ps: Pages, qs: Pages, dirs: set<nat>, dirs': set<nat>, d: nat, c: nat, data: nat, n: nat)
    requires Gated(ps, dirs) && Gated(qs, dirs') && d in dirs && c in dirs'
    requires forall v: nat :: v < USER ==> if v < n then Copied(ps, qs, d, c, v) else !Pte(qs, c, v).present
    requires forall v: nat :: USER <= v < TOP ==> SameEntry(Pte(qs, c, v), KernelPte(data, v))
    requires forall v: nat :: v < n ==> Pte(ps, d, v).present
    ensures forall v: nat :: v < TOP ==> UserReads(qs, c, v) == (v < USER && v < n && UserReads(ps, d, v))
    ensures forall v: nat :: v < TOP ==> UserWrites(qs, c, v) == (v < USER && v < n && UserWrites(ps, d, v))
  {
    forall v: nat | v < TOP
      ensures UserReads(qs, c, v) == (v < USER && v < n && UserReads(ps, d, v))
      ensures UserWrites(qs, c, v) == (v < USER && v < n && UserWrites(ps, d, v))
    {
      Access(ps, dirs, d, v);
      Access(qs, dirs', c, v);
      hide Gated, UserReads, KernelWrites, Pte, Frame;
    }
  }

  /** The 128 megabytes from KERNBASE on are physical memory, the devices are at their own addresses, and nothing
    else is mapped. */
  predicate PhysicalAt(ps: Pages, d: nat, v: nat) {
    if 0x8_0000 <= v < 0x8_8000 then Pte(ps, d, v).present && Pte(ps, d, v).frame == v - 0x8_0000
    else if 0xF_C000 <= v < 0x10_0000 then Pte(ps, d, v).present && Pte(ps, d, v).frame == v
    else !Pte(ps, d, v).present
  }

  /** A new directory allows no process anything; its kernel writes all it maps except its own text. */
  lemma KernelAllows(ps: Pages, dirs: set<nat>, d: nat, data: nat)
    requires Gated(ps, dirs) && d in dirs && 0x100 < data < 0x8000
    requires forall v: nat :: v < TOP ==> SameEntry(Pte(ps, d, v), KernelPte(data, v))
    ensures forall v: nat :: v < TOP ==> !UserReads(ps, d, v) && PhysicalAt(ps, d, v)
    ensures forall v: nat :: v < TOP ==>
              (KernelWrites(ps, d, v) <==>
               0x8_0000 <= v < 0x8_0100 || 0x8_0000 + data <= v < 0x8_8000 || 0xF_C000 <= v)
  {
    forall v: nat | v < TOP
      ensures !UserReads(ps, d, v) && PhysicalAt(ps, d, v)
      ensures KernelWrites(ps, d, v) <==>
              0x8_0000 <= v < 0x8_0100 || 0x8_0000 + data <= v < 0x8_8000 || 0xF_C000 <= v
    {
      Access(ps, dirs, d, v);
      hide Gated, UserReads, KernelWrites, Pte, Frame;
    }
  }

  /** A page the process can write, all zero. */
  ghost predicate New(ps: Pages, d: nat, v: nat) {
    && Pte(ps, d, v).present && Pte(ps, d, v).flags == W + U
    && Frame(ps, d, v).Data? && |Frame(ps, d, v).bytes| == 4096 && forall b :: b in Frame(ps, d, v).bytes ==> b == 0
  }

  lemma NewStays(ps: Pages, qs: Pages, d: nat, v: nat)
    ensures New(ps, d, v) && v < USER && SameAt(ps, qs, d, v) ==> New(qs, d, v)
  {
  }

  lemma SameThen(ps: Pages, qs: Pages, rs: Pages, d: nat, v: nat)
    ensures SameAt(ps, qs, d, v) && SameAt(qs, rs, d, v) ==> SameAt(ps, rs, d, v)
  {
  }

  ghost predicate Copied(ps: Pages, qs: Pages, d: nat, c: nat, v: nat) {
    && Pte(qs, c, v).present && Pte(qs, c, v).flags == Pte(ps, d, v).flags
    && Frame(qs, c, v) == Frame(ps, d, v)
  }

  lemma SpaceOf(ps: Pages, qs: Pages, d: nat, v: nat)
    requires SameDir(ps, qs, d)
    ensures SameAt(ps, qs, d, v)
  {
  }

  lemma PresentHasTable(ps: Pages, d: nat, v: nat)
    ensures Pte(ps, d, v).present ==> EntryAt(ps, d, v / ENTRIES).present
  {
  }

  lemma FrameIs(ps: Pages, d: nat, v: nat)
    requires Pte(ps, d, v).frame < |ps|
    ensures Frame(ps, d, v) == ps[Pte(ps, d, v).frame]
  {
  }

  /** Two directories never map one page, so the child's pages are not the parent's. */
  lemma SpacesDisjoint(ps: Pages, dirs: set<nat>, free: seq<nat>, held: set<nat>, d: nat, v: nat, c: nat, w: nat)
    requires Own(ps, dirs, free, held) && d in dirs && c in dirs && v < USER && w < USER
    requires Pte(ps, d, v).present && Pte(ps, c, w).present && Pte(ps, d, v).frame == Pte(ps, c, w).frame
    ensures d == c && v == w
  {
    assert Ptr(ps, dirs, Leaf(d, v)) == Some(Pte(ps, d, v).frame) == Ptr(ps, dirs, Leaf(c, w));
  }

  /** The jump wraps to address zero, and the loop of deallocuvm starts over, exactly from a page that the
    last page table would map. */
  lemma JumpWraps(a: nat)
    requires a < 0x1_0000_0000
    ensures (a / SPAN + 1) * SPAN % 0x1_0000_0000 <= a <==> a >= 0xFFC0_0000
  {
  }

  lemma OldFree(ps: Pages, dirs: set<nat>, free: seq<nat>, held: set<nat>)
    requires Own(ps, dirs, free, held)
    ensures forall p :: p in free ==> p !in held
  {
    forall p | p in free ensures p !in held { assert Split(ps, dirs, free, held, p); }
  }

  /** Frames for n user pages that the kernel holds. */
  ghost predicate CanHand(ps: Pages, held: set<nat>, frame: nat, n: nat) {
    forall f: nat :: frame <= f < frame + n ==> f in held && f < |ps| && ps[f].Data?
  }

  /** The frames that are the directory's once k pages from v on are mapped: kernel pages have no owner. */
  function Handed(v: nat, frame: nat, k: nat): set<nat> {
    if v >= USER || k == 0 then {} else Handed(v, frame, k - 1) + {frame + k - 1}
  }

  lemma {:induction false} HandedHas(v: nat, frame: nat, k: nat, f: nat)
    ensures f in Handed(v, frame, k) <==> v < USER && frame <= f < frame + k
  {
    if k > 0 { HandedHas(v, frame, k - 1, f); }
  }

  lemma HandedNone(v: nat, frame: nat)
    ensures Handed(v, frame, 0) == {}
  {
  }

  lemma HandedKernel(v: nat, frame: nat, k: nat)
    requires v >= USER
    ensures Handed(v, frame, k) == {}
  {
  }

  lemma HandedOne(v: nat, frame: nat)
    ensures Handed(v, frame, 1) == if v < USER then {frame} else {}
  {
    assert Handed(v, frame, 0) == {};
  }

  lemma HandedNext(ps: Pages, held: set<nat>, v: nat, frame: nat, n: nat, k: nat)
    requires k < n && (v < USER ==> CanHand(ps, held, frame, n))
    ensures v < USER ==> frame + k in held - Handed(v, frame, k) && frame + k < |ps| && ps[frame + k].Data?
    ensures Handed(v, frame, k + 1) == Handed(v, frame, k) + if v < USER then {frame + k} else {}
  {
    HandedHas(v, frame, k, frame + k);
  }

  /** Mapping the next page leaves every frame as it was, those already handed over too. */
  lemma HandedStay(ps: Pages, qs: Pages, rs: Pages, dirs: set<nat>, d: nat, v: nat, a: nat, frame: nat, flags: nat,
                   held: set<nat>)
    requires Mapped(ps, qs, dirs, d, v, a, frame, flags) && v <= a && (v < USER ==> a <= USER) && |qs| == |rs|
    requires forall w: nat :: w != a ==> SameAt(qs, rs, d, w)
    requires forall p :: p in held ==> p < |qs| && p < |ps| && qs[p] == ps[p]
    requires forall p :: p in held - Handed(v, frame, a - v) ==> p < |qs| && rs[p] == qs[p]
    ensures forall p :: p in held ==> p < |ps| && p < |rs| && rs[p] == ps[p]
  {
    hide Tabled, SameDir, Handed;
    forall p | p in held ensures rs[p] == ps[p] {
      HandedHas(v, frame, a - v, p);
      if p in Handed(v, frame, a - v) {
        var w := v + (p - frame);
        assert SameEntry(Pte(qs, d, w), Entry(true, p, flags)) && SameAt(qs, rs, d, w);
      }
    }
  }

  /** Pages v..a of directory d have been mapped to frames from `frame` on; other directories, other pages and
    other page tables are as they were. */
  ghost predicate Mapped(ps: Pages, qs: Pages, dirs: set<nat>, d: nat, v: nat, a: nat, frame: nat, flags: nat) {
    && (forall d' :: d' in dirs && d' != d ==> SameDir(ps, qs, d'))
    && (forall w: nat :: !(v <= w < a) ==> SameAt(ps, qs, d, w))
    && (forall w: nat :: v <= w < a ==> SameEntry(Pte(qs, d, w), Entry(true, frame + (w - v), flags)))
    && Tabled(ps, qs, d, v / ENTRIES, TableEnd(v, a))
  }

  lemma MappedNone(ps: Pages, dirs: set<nat>, d: nat, v: nat, frame: nat, flags: nat)
    ensures Mapped(ps, ps, dirs, d, v, v, frame, flags) && TablesFor(ps, d, v, v) == 0
  {
    TabledNone(ps, d, v);
  }

  /** The next page is unmapped still, and what it costs is part of what the run costs. */
  lemma MappedNext(ps: Pages, qs: Pages, dirs: set<nat>, d: nat, v: nat, a: nat, frame: nat, flags: nat)
    requires Mapped(ps, qs, dirs, d, v, a, frame, flags) && v <= a
    ensures Pte(qs, d, a).present == Pte(ps, d, a).present
    ensures TablesFor(ps, d, v, a + 1) == TablesFor(ps, d, v, a) + Absent(qs, d, a / ENTRIES)
  {
    hide Tabled, TablesFor;
    assert SameAt(ps, qs, d, a);
    NextCost(ps, qs, d, v, a);
  }

  /** How mappages ends, with `free` free pages, and where. */
  ghost predicate MapResult(ps: Pages, free: nat, d: nat, v: nat, n: nat, r: Outcome, a: nat) {
    var w := FirstPresent(ps, d, v, v + n);
    && r == (if TablesFor(ps, d, v, w) > free then NoMemory else if w < v + n then Panic else Done)
    && v <= a && (if r == NoMemory then a < w && TablesFor(ps, d, v, a + 1) > free else a == w)
    && TablesFor(ps, d, v, a) <= free
  }

  /** What one page comes to decides it, if it is not mapped. */
  lemma MapStops(ps: Pages, qs: Pages, free0: nat, free: nat, d: nat, v: nat, n: nat, r: Outcome, a: nat)
    requires v <= a < v + n && forall w: nat :: v <= w < a ==> !Pte(ps, d, w).present
    requires Pte(qs, d, a).present == Pte(ps, d, a).present && free == free0 - TablesFor(ps, d, v, a)
    requires TablesFor(ps, d, v, a + 1) == TablesFor(ps, d, v, a) + Absent(qs, d, a / ENTRIES)
    requires r == if Pte(qs, d, a).present then Panic else if Absent(qs, d, a / ENTRIES) <= free then Done else NoMemory
    ensures r != Done ==> MapResult(ps, free0, d, v, n, r, a)
    ensures r == Done ==> !Pte(ps, d, a).present && (a + 1 == v + n ==> MapResult(ps, free0, d, v, n, r, a + 1))
  {
    hide TablesFor;
    var w := FirstPresent(ps, d, v, v + n);
    assert w >= a;
    if r == NoMemory { NeedGrows(ps, d, v, a + 1, w); }
  }

  /** How the page in v comes to be, with `free` free pages: kalloc, then mappages. */
  function PutResult(ps: Pages, free: nat, d: nat, v: nat): Outcome {
    if free == 0 then NoMemory
    else if Pte(ps, d, v).present then Panic
    else if 1 + Absent(ps, d, v / ENTRIES) <= free then Done else NoMemory
  }

  lemma OneMapped(ps: Pages, qs: Pages, free: nat, d: nat, v: nat, r: Outcome, a: nat)
    requires MapResult(qs, free, d, v, 1, r, a) && Pte(qs, d, v).present == Pte(ps, d, v).present
    requires TablesFor(qs, d, v, v + 1) == Absent(ps, d, v / ENTRIES)
    ensures r == PutResult(ps, free + 1, d, v) && a == if r == Done then v + 1 else v
  {
    assert TablesFor(qs, d, v, v) == 0;
  }

  lemma MappedOne(ps: Pages, qs: Pages, rs: Pages, dirs: set<nat>, d: nat, v: nat, a: nat, frame: nat, flags: nat)
    requires Mapped(ps, qs, dirs, d, v, a, frame, flags) && v <= a
    requires forall d' :: d' in dirs && d' != d ==> SameDir(qs, rs, d')
    requires forall w: nat :: w != a ==> SameAt(qs, rs, d, w)
    requires SameEntry(Pte(rs, d, a), Entry(true, frame + (a - v), flags))
             && Tabled(qs, rs, d, a / ENTRIES, a / ENTRIES + 1)
    ensures Mapped(ps, rs, dirs, d, v, a + 1, frame, flags)
  {
    hide SameDir, Tabled;
    SameDirsThen(ps, qs, rs, dirs - {d});
    NextPage(ps, qs, rs, d, v, a);
    forall w: nat | !(v <= w < a + 1) ensures SameAt(ps, rs, d, w) { SameThen(ps, qs, rs, d, w); }
    forall w: nat | v <= w < a ensures SameEntry(Pte(rs, d, w), Entry(true, frame + (w - v), flags)) {
      assert SameAt(qs, rs, d, w);
    }
  }

  lemma MappedIs(ps: Pages, qs: Pages, dirs: set<nat>, d: nat, v: nat, a: nat, frame: nat, flags: nat)
    requires Mapped(ps, qs, dirs, d, v, a, frame, flags)
    ensures forall d' :: d' in dirs && d' != d ==> SameDir(ps, qs, d')
    ensures forall w: nat :: !(v <= w < a) ==> SameAt(ps, qs, d, w)
    ensures forall w: nat :: v <= w < a ==> SameEntry(Pte(qs, d, w), Entry(true, frame + (w - v), flags))
    ensures Tabled(ps, qs, d, v / ENTRIES, TableEnd(v, a))
  {
  }

  // ---------------------------------------------------------------- the kernel's part

  /** The first k lines of kmap are mapped and nothing else. */
  ghost predicate KernelRuns(ps: Pages, d: nat, data: nat, k: nat) {
    forall v: nat :: v < TOP ==> SameEntry(Pte(ps, d, v), if v < Upto(data, k) then KernelPte(data, v) else ABSENT)
  }

  lemma EmptyTabled(ps: Pages, d: nat, data: nat)
    requires d < |ps| && ps[d] == ZeroTable() && 0x100 < data < 0x8000
    ensures KernelTabled(ps, d, data, 0) && KernelRuns(ps, d, data, 0)
  {
    forall v: nat | v < TOP ensures SameEntry(Pte(ps, d, v), if v < Upto(data, 0) then KernelPte(data, v) else ABSENT) {
      assert !EntryAt(ps, d, v / ENTRIES).present;
    }
  }

  /** Before line k: its pages are free to map, and what it costs. */
  lemma KernelNext(ps: Pages, d: nat, data: nat, k: nat)
    requires 0x100 < data < 0x8000 && k < |Kmap(data)| && KernelTabled(ps, d, data, k) && KernelRuns(ps, d, data, k)
    ensures var r := Kmap(data)[k];
            && r.n > 0 && r.v >= USER && r.v + r.n <= TOP
            && (forall v: nat :: r.v <= v < r.v + r.n ==> !Pte(ps, d, v).present)
            && TablesFor(ps, d, r.v, r.v + r.n) == KernelTables(data, k + 1) - KernelTables(data, k)
    ensures KernelTables(data, k) <= KernelTables(data, k + 1) <= KERNELNEED - 1
  {
    RangeFits(data, k);
    var r := Kmap(data)[k];
    forall v: nat | r.v <= v < r.v + r.n ensures !Pte(ps, d, v).present {
      assert SameEntry(Pte(ps, d, v), ABSENT);
    }
    var mid := if k < 3 then 512 + KernelTables(data, k) else 1008;
    MissingRest(ps, d, r.v / ENTRIES, mid, TableEnd(r.v, r.v + r.n));
  }

  lemma KernelDone(ps: Pages, qs: Pages, d: nat, data: nat, k: nat)
    requires 0x100 < data < 0x8000 && k < |Kmap(data)| && KernelTabled(ps, d, data, k) && KernelRuns(ps, d, data, k)
    requires var r := Kmap(data)[k];
             && Tabled(ps, qs, d, r.v / ENTRIES, TableEnd(r.v, r.v + r.n))
             && (forall v: nat :: !(r.v <= v < r.v + r.n) ==> SameAt(ps, qs, d, v))
             && (forall v: nat :: r.v <= v < r.v + r.n ==>
                  SameEntry(Pte(qs, d, v), Entry(true, r.frame + (v - r.v), r.flags)))
    ensures KernelTabled(qs, d, data, k + 1) && KernelRuns(qs, d, data, k + 1)
  {
    RangeFits(data, k);
    var r := Kmap(data)[k];
    forall v: nat | v < TOP
      ensures SameEntry(Pte(qs, d, v), if v < Upto(data, k + 1) then KernelPte(data, v) else ABSENT)
    {
      if !(r.v <= v < r.v + r.n) { assert SameAt(ps, qs, d, v); }
    }
  }

  lemma KernelAll(ps: Pages, d: nat, data: nat)
    requires 0x100 < data < 0x8000 && KernelTabled(ps, d, data, 4) && KernelRuns(ps, d, data, 4)
    ensures forall v: nat :: v < TOP ==> SameEntry(Pte(ps, d, v), KernelPte(data, v))
    ensures forall i: nat :: i < USER / ENTRIES ==> !EntryAt(ps, d, i).present
  {
  }

  // ---------------------------------------------------------------- growing

  lemma OneTable(ps: Pages, qs: Pages, d: nat, v: nat)
    requires SameDir(ps, qs, d)
    ensures TablesFor(qs, d, v, v + 1) == Absent(ps, d, v / ENTRIES) && TableEnd(v, v + 1) == v / ENTRIES + 1
  {
    assert MissingTables(qs, d, v / ENTRIES, v / ENTRIES) == 0;
    assert EntryAt(qs, d, v / ENTRIES) == EntryAt(ps, d, v / ENTRIES);
  }

  lemma UpMono(m: nat, n: nat)
    ensures m <= n ==> Up(m) <= Up(n)
  {
  }

  lemma UpUser(n: nat)
    requires n <= KERNBASE
    ensures Up(n) <= USER
  {
  }

  lemma UpReached(n: nat, v: nat)
    requires v <= Up(n) && v * PGSIZE >= n
    ensures v == Up(n)
  {
  }

  /** Page tables for the first n user pages of an empty directory. */
  function Tables(n: nat): nat {
    (n + ENTRIES - 1) / ENTRIES
  }

  lemma NeedFresh(ps: Pages, d: nat, n: nat)
    requires n <= USER && forall i: nat :: i < USER / ENTRIES ==> !EntryAt(ps, d, i).present
    ensures Need(ps, d, 0, n) == n + Tables(n)
  {
    if n > 0 { MissingRest(ps, d, 0, 0, TableEnd(0, n)); }
  }

  /** Pages lo..v of directory d are new; other pages, and other directories, are as they were. */
  ghost predicate Grown(ps: Pages, qs: Pages, dirs: set<nat>, d: nat, lo: nat, v: nat) {
    && (forall d' :: d' in dirs && d' != d ==> SameDir(ps, qs, d'))
    && (forall w: nat :: if lo <= w < v then New(qs, d, w) else SameAt(ps, qs, d, w))
    && Tabled(ps, qs, d, lo / ENTRIES, TableEnd(lo, v))
  }

  lemma GrownNone(ps: Pages, dirs: set<nat>, d: nat, lo: nat)
    ensures Grown(ps, ps, dirs, d, lo, lo) && Need(ps, d, lo, lo) == 0
  {
    TabledNone(ps, d, lo);
  }

  /** How allocuvm ends, with `free` free pages. */
  function GrowResult(ps: Pages, free: nat, d: nat, oldsz: nat, newsz: nat): Outcome {
    var lo, hi := Up(oldsz), Up(newsz);
    if hi <= lo then Done
    else
      var w := FirstPresent(ps, d, lo, hi);
      if Need(ps, d, lo, w) + (if w < hi then 1 else 0) > free then NoMemory else if w < hi then Panic else Done
  }

  lemma GrowStops(ps: Pages, qs: Pages, free0: nat, free: nat, d: nat, oldsz: nat, newsz: nat, v: nat, r: Outcome)
    requires Up(oldsz) <= v < Up(newsz) && r == PutResult(qs, free, d, v)
    requires forall w: nat :: Up(oldsz) <= w < v ==> !Pte(ps, d, w).present
    requires Pte(qs, d, v).present == Pte(ps, d, v).present && free == free0 - Need(ps, d, Up(oldsz), v)
    requires Need(ps, d, Up(oldsz), v + 1) == Need(ps, d, Up(oldsz), v) + 1 + Absent(qs, d, v / ENTRIES)
    ensures r != Done ==> GrowResult(ps, free0, d, oldsz, newsz) == r
    ensures r == Done ==> !Pte(ps, d, v).present && Need(ps, d, Up(oldsz), v + 1) <= free0
  {
    hide Need, Up;
    var lo, hi := Up(oldsz), Up(newsz);
    var w := FirstPresent(ps, d, lo, hi);
    assert w >= v;
    if r == NoMemory && w > v { NeedGrows(ps, d, lo, v + 1, w); }
  }

  lemma GrowEnds(ps: Pages, free: nat, d: nat, oldsz: nat, newsz: nat)
    requires Up(oldsz) <= Up(newsz) && Need(ps, d, Up(oldsz), Up(newsz)) <= free
    requires forall w: nat :: Up(oldsz) <= w < Up(newsz) ==> !Pte(ps, d, w).present
    ensures GrowResult(ps, free, d, oldsz, newsz) == Done
  {
    hide Need, Up;
  }

  lemma CopyStops(ps: Pages, psc: Pages, qs: Pages, free0: nat, free: nat, d: nat, c: nat, sz: nat, v: nat)
    requires v < Up(sz) <= USER && forall w: nat :: w < v ==> Pte(ps, d, w).present
    requires free0 >= KERNELNEED && free == free0 - KERNELNEED - Need(psc, c, 0, v)
    requires Need(psc, c, 0, v + 1) == Need(psc, c, 0, v) + 1 + Absent(qs, c, v / ENTRIES)
    requires (forall i: nat :: i < USER / ENTRIES ==> !EntryAt(psc, c, i).present) && !Pte(qs, c, v).present
    ensures !Pte(ps, d, v).present ==> CopyResult(ps, free0, d, sz) == Panic
    ensures PutResult(qs, free, c, v) != Panic
    ensures Pte(ps, d, v).present && PutResult(qs, free, c, v) == NoMemory ==>
              CopyResult(ps, free0, d, sz) == NoMemory
  {
    hide Need, Up;
    var w := FirstAbsent(ps, d, 0, Up(sz));
    assert w >= v;
    NeedFresh(psc, c, v);
    NeedFresh(psc, c, w);
    if w > v { NeedGrows(psc, c, 0, v + 1, w); }
  }

  lemma CopyAll(ps: Pages, psc: Pages, free0: nat, free: nat, d: nat, c: nat, sz: nat)
    requires Up(sz) <= USER && forall w: nat :: w < Up(sz) ==> Pte(ps, d, w).present
    requires free0 >= KERNELNEED && free == free0 - KERNELNEED - Need(psc, c, 0, Up(sz))
    requires forall i: nat :: i < USER / ENTRIES ==> !EntryAt(psc, c, i).present
    ensures CopyResult(ps, free0, d, sz) == Done
  {
    hide Need, Up;
    NeedFresh(psc, c, Up(sz));
  }

  lemma GrownNext(ps: Pages, qs: Pages, dirs: set<nat>, d: nat, lo: nat, v: nat)
    requires Grown(ps, qs, dirs, d, lo, v) && lo <= v
    ensures Pte(qs, d, v).present == Pte(ps, d, v).present
    ensures Need(ps, d, lo, v + 1) == Need(ps, d, lo, v) + 1 + Absent(qs, d, v / ENTRIES)
  {
    assert SameAt(ps, qs, d, v);
    NextCost(ps, qs, d, lo, v);
  }

  lemma GrownOne(ps: Pages, qs: Pages, rs: Pages, dirs: set<nat>, d: nat, lo: nat, v: nat)
    requires Grown(ps, qs, dirs, d, lo, v) && lo <= v < USER
    requires forall d' :: d' in dirs && d' != d ==> SameDir(qs, rs, d')
    requires (forall w: nat :: w != v ==>
                       SameAt(qs, rs, d, w)) && New(rs, d, v) && Tabled(qs, rs, d, v / ENTRIES, v / ENTRIES + 1)
    ensures Grown(ps, rs, dirs, d, lo, v + 1)
  {
    hide SameDir, Tabled, Frame;
    SameDirsThen(ps, qs, rs, dirs - {d});
    NextPage(ps, qs, rs, d, lo, v);
    forall w: nat | w != v ensures if lo <= w < v then New(rs, d, w) else SameAt(ps, rs, d, w) {
      SameThen(ps, qs, rs, d, w);
      NewStays(qs, rs, d, w);
    }
  }

  /** A failed growth taken back. */
  lemma Ungrown(ps: Pages, qs: Pages, rs: Pages, ts: Pages, dirs: set<nat>, d: nat, lo: nat, v: nat, hi: nat)
    requires Grown(ps, qs, dirs, d, lo, v) && v <= hi
    requires forall d' :: d' in dirs && d' != d ==> SameDir(qs, rs, d') && SameDir(rs, ts, d')
    requires forall w: nat :: SameAt(qs, rs, d, w)
    requires forall w: nat :: if lo <= w < hi then !Pte(ts, d, w).present else SameAt(rs, ts, d, w)
    ensures forall d' :: d' in dirs && d' != d ==> SameDir(ps, ts, d')
    ensures forall w: nat :: if lo <= w < hi then !Pte(ts, d, w).present else SameAt(ps, ts, d, w)
  {
    hide SameDir, Tabled, Frame;
    SameDirsThen(ps, qs, rs, dirs - {d});
    SameDirsThen(ps, rs, ts, dirs - {d});
    forall w: nat | !(lo <= w < hi) ensures SameAt(ps, ts, d, w) {
      SameThen(ps, qs, rs, d, w);
      SameThen(ps, rs, ts, d, w);
    }
  }

  lemma GrownIs(ps: Pages, qs: Pages, dirs: set<nat>, d: nat, lo: nat, v: nat)
    requires Grown(ps, qs, dirs, d, lo, v)
    ensures forall d' :: d' in dirs && d' != d ==> SameDir(ps, qs, d')
    ensures forall w: nat :: if lo <= w < v then New(qs, d, w) else SameAt(ps, qs, d, w)
  {
  }
}
