/** user/umalloc.c: the Kernighan and Ritchie allocator. Addresses and sizes are in units of
  sizeof(Header) = 8 bytes; `ptr` and `size` are the fields of the headers in memory. */
module Heap {

  const HEADER: nat := 8
  const MINUNITS: nat := 4096                     // kernel calls are for at least this many units

  type uint32 = x: int | 0 <= x < 0x1_0000_0000

  /** nunits in malloc, with the wrap-around of the 32-bit addition. */
  function Units(nbytes: uint32): (n: nat)
    ensures n > 0
  {
    (nbytes + HEADER - 1) % 0x1_0000_0000 / HEADER + 1
  }

  /** The units asked for hold a header and nbytes bytes, unless the addition wraps. */
  lemma UnitsCover(nbytes: uint32)
    ensures (Units(nbytes) - 1) * HEADER >= nbytes <==> nbytes <= 0xFFFF_FFF8
    ensures nbytes <= 0xFFFF_FFF8 ==> (Units(nbytes) - 2) * HEADER < nbytes
  {
  }

  /** What morecore asks for: at least MINUNITS. */
  function CoreUnits(nunits: nat): nat {
    if nunits < MINUNITS then MINUNITS else nunits
  }

  /** The argument of sbrk, an int, is the number of bytes only below this many units; above, the
    product wraps to zero or a negative number. */
  const SBRKLIMIT: nat := 0x1000_0000

  function SbrkArgument(nu: nat): int {
    var bytes := nu * HEADER % 0x1_0000_0000;
    if bytes < 0x8000_0000 then bytes else bytes - 0x1_0000_0000
  }

  lemma SbrkArgumentIsBytes(nu: nat)
    requires 0 < nu <= 0x2000_0000
    ensures SbrkArgument(nu) == nu * HEADER <==> nu < SBRKLIMIT
    ensures nu >= SBRKLIMIT ==> SbrkArgument(nu) <= 0
  {
  }

  // ---------------------------------------------------------------- the free list

  /** A free block: its header and its size, header included. */
  datatype Node = Node(addr: nat, units: nat) {
    function End(): nat { addr + units }
  }

  /** Address order, no overlap; the first node is `base`, which has no units. */
  ghost predicate Ordered(base: nat, free: seq<Node>) {
    && 0 < |free| && free[0] == Node(base, 0) && base > 0
    && (forall i :: 0 < i < |free| ==> free[i].units > 0)
    && (forall i :: 0 < i < |free| ==> free[i - 1].End() <= free[i].addr && free[i - 1].addr < free[i].addr)
  }

  lemma {:induction false} OrderedPair(base: nat, free: seq<Node>, i: nat, j: nat)
    requires Ordered(base, free) && i < j < |free|
    ensures free[i].End() <= free[j].addr && free[i].addr < free[j].addr
    decreases j - i
  {
    if i + 1 < j { OrderedPair(base, free, i + 1, j); }
  }

  function Succ(free: seq<Node>, i: nat): nat
    requires i < |free|
  {
    if i + 1 < |free| then free[i + 1].addr else free[0].addr
  }

  /** The headers in memory form the single cycle that visits the nodes in order. */
  ghost predicate Linked(free: seq<Node>, ptr: map<nat, nat>, size: map<nat, nat>) {
    forall i :: 0 <= i < |free| ==> LinkedAt(free, i, ptr, size)
  }

  predicate LinkedAt(free: seq<Node>, i: nat, ptr: map<nat, nat>, size: map<nat, nat>)
    requires i < |free|
  {
    && free[i].addr in ptr && ptr[free[i].addr] == Succ(free, i)
    && free[i].addr in size && size[free[i].addr] == free[i].units
  }

  predicate Touch(free: seq<Node>, i: nat)
    requires i + 1 < |free|
  {
    free[i].End() == free[i + 1].addr
  }

  /** No two free blocks touch. */
  predicate Coalesced(free: seq<Node>) {
    forall i :: 0 <= i < |free| - 1 ==> !Touch(free, i)
  }

  /** Blocks handed out: above base, with their size in the header, and apart from each other. */
  ghost predicate LiveBlocks(base: nat, live: map<nat, nat>, size: map<nat, nat>) {
    && (forall a :: a in live ==> a > base && live[a] > 0 && a in size && size[a] == live[a])
    && (forall a, b :: a in live && b in live && a < b ==> a + live[a] <= b)
  }

  /** No block handed out overlaps a free one. */
  ghost predicate Apart(free: seq<Node>, live: map<nat, nat>) {
    forall i, a :: 0 <= i < |free| && a in live ==> free[i].End() <= a || a + live[a] <= free[i].addr
  }

  ghost predicate InFree(free: seq<Node>, x: nat) {
    exists i :: 0 <= i < |free| && free[i].addr <= x < free[i].End()
  }

  ghost predicate InLive(live: map<nat, nat>, x: nat) {
    exists a :: a in live && a <= x < a + live[a]
  }

  /** Every unit sbrk gave is in a free block or in one handed out, and there are no others: with
    Apart, the sizes of free and live blocks add up to what sbrk gave. */
  ghost predicate Conserved(arena: set<nat>, free: seq<Node>, live: map<nat, nat>) {
    forall x: nat :: x in arena <==> InFree(free, x) || InLive(live, x)
  }

  ghost predicate HeapInv(base: nat, free: seq<Node>, live: map<nat, nat>, arena: set<nat>) {
    Ordered(base, free) && Apart(free, live) && Conserved(arena, free, live)
  }

  /** Where block bp goes: after the last free block below it. */
  ghost predicate Place(free: seq<Node>, k: nat, bp: nat) {
    && k < |free| && free[k].addr < bp
    && (k + 1 < |free| ==> bp < free[k + 1].addr)
  }

  lemma {:induction false} FindPlace(base: nat, free: seq<Node>, bp: nat, n: nat) returns (k: nat)
    requires Ordered(base, free) && bp > base && 0 < n <= |free|
    requires forall i :: 0 <= i < |free| ==> free[i].addr != bp
    requires n < |free| ==> bp < free[n].addr
    ensures Place(free, k, bp)
    decreases n
  {
    if free[n - 1].addr < bp { k := n - 1; }
    else { k := FindPlace(base, free, bp, n - 1); }
  }

  // ---------------------------------------------------------------- free, as steps on the list

  function InsertAt(free: seq<Node>, k: nat, b: Node): (r: seq<Node>)
    requires k < |free|
    ensures |r| == |free| + 1
    ensures forall i :: 0 <= i < |r| ==> r[i] == if i <= k then free[i] else if i == k + 1 then b else free[i - 1]
  {
    free[..k + 1] + [b] + free[k + 1..]
  }

  /** Block j takes in the one after it. */
  function MergeAt(free: seq<Node>, j: nat): (r: seq<Node>)
    requires j + 1 < |free|
    ensures |r| == |free| - 1
    ensures forall i :: 0 <= i < |r| ==> r[i] == if i < j then free[i]
              else if i == j then Node(free[j].addr, free[j].units + free[j + 1].units) else free[i + 1]
  {
    free[..j] + [Node(free[j].addr, free[j].units + free[j + 1].units)] + free[j + 2..]
  }

  lemma InsertOrdered(base: nat, free: seq<Node>, k: nat, b: Node)
    requires Ordered(base, free) && Place(free, k, b.addr) && b.units > 0
    requires forall i :: 0 <= i < |free| ==> free[i].End() <= b.addr || b.End() <= free[i].addr
    ensures Ordered(base, InsertAt(free, k, b))
  {
    var r := InsertAt(free, k, b);
    assert r[k + 1] == b && r[k] == free[k];
  }

  /** Block bp goes from the live blocks into the list, after its predecessor. */
  lemma InsertKeeps(base: nat, free: seq<Node>, live: map<nat, nat>, arena: set<nat>, k: nat, bp: nat)
    requires HeapInv(base, free, live, arena) && bp in live && live[bp] > 0 && Place(free, k, bp)
    requires forall a, b :: a in live && b in live && a < b ==> a + live[a] <= b
    ensures HeapInv(base, InsertAt(free, k, Node(bp, live[bp])), live - {bp}, arena)
  {
    var b, live' := Node(bp, live[bp]), live - {bp};
    var r := InsertAt(free, k, b);
    InsertOrdered(base, free, k, b);
    hide InFree, InLive, Place, Ordered;
    forall x: nat ensures x in arena <==> InFree(r, x) || InLive(live', x) {
      InsertCovers(free, live, k, bp, x);
    }
  }

  lemma InsertCovers(free: seq<Node>, live: map<nat, nat>, k: nat, bp: nat, x: nat)
    requires bp in live && k < |free|
    ensures InFree(free, x) || InLive(live, x)
            <==> InFree(InsertAt(free, k, Node(bp, live[bp])), x) || InLive(live - {bp}, x)
  {
    var r := InsertAt(free, k, Node(bp, live[bp]));
    if InFree(free, x) {
      var i :| 0 <= i < |free| && free[i].addr <= x < free[i].End();
      assert r[if i <= k then i else i + 1] == free[i];
    }
    if InLive(live, x) {
      var a :| a in live && a <= x < a + live[a];
      if a == bp { assert r[k + 1].addr == bp; } else { assert a in live - {bp}; }
    }
    if InLive(live - {bp}, x) {
      var a :| a in live - {bp} && a <= x < a + (live - {bp})[a];
      assert a in live;
    }
  }

  lemma MergeKeeps(base: nat, free: seq<Node>, live: map<nat, nat>, arena: set<nat>, j: nat)
    requires HeapInv(base, free, live, arena) && 0 < j && j + 1 < |free| && Touch(free, j)
    requires forall a :: a in live ==> live[a] > 0
    ensures HeapInv(base, MergeAt(free, j), live, arena)
  {
    var r := MergeAt(free, j);
    MergeOrdered(base, free, j);
    MergeApart(free, live, j);
    hide InFree, InLive, Ordered, Apart;
    forall x: nat ensures x in arena <==> InFree(r, x) || InLive(live, x) {
      MergeCovers(free, j, x);
    }
  }

  lemma MergeOrdered(base: nat, free: seq<Node>, j: nat)
    requires Ordered(base, free) && 0 < j && j + 1 < |free| && Touch(free, j)
    ensures Ordered(base, MergeAt(free, j))
  {
  }

  lemma MergeApart(free: seq<Node>, live: map<nat, nat>, j: nat)
    requires Apart(free, live) && j + 1 < |free| && Touch(free, j) && forall a :: a in live ==> live[a] > 0
    ensures Apart(MergeAt(free, j), live)
  {
    var r := MergeAt(free, j);
    forall i, a | 0 <= i < |r| && a in live ensures r[i].End() <= a || a + live[a] <= r[i].addr {
      assert free[j].End() <= a || a + live[a] <= free[j].addr;
      assert free[j + 1].End() <= a || a + live[a] <= free[j + 1].addr;
    }
  }

  lemma MergeCovers(free: seq<Node>, j: nat, x: nat)
    requires j + 1 < |free| && Touch(free, j)
    ensures InFree(free, x) <==> InFree(MergeAt(free, j), x)
  {
    var r := MergeAt(free, j);
    if InFree(free, x) {
      var i :| 0 <= i < |free| && free[i].addr <= x < free[i].End();
      var i' := if i <= j then i else i - 1;
      assert r[i'].addr <= x < r[i'].End();
    }
    if InFree(r, x) {
      var i :| 0 <= i < |r| && r[i].addr <= x < r[i].End();
      var i' := if i < j || (i == j && x < free[j + 1].addr) then i else i + 1;
      assert free[i'].addr <= x < free[i'].End();
    }
  }

  /** Steps from i forward to j around a cycle of n. */
  function Dist(n: nat, i: nat, j: nat): nat
    requires i < n && j < n
  {
    if i <= j then j - i else n - i + j
  }

  function Next(n: nat, i: nat): nat
    requires i < n
  {
    if i + 1 < n then i + 1 else 0
  }

  datatype Outcome = Block(p: nat) | NoMemory | Undefined

  class Heap {
    const base: nat               // the address of the static header
    var ptr: map<nat, nat>        // header fields in memory, by header address
    var size: map<nat, nat>
    var freep: nat                // 0 before the first malloc
    ghost var free: seq<Node>     // the free list, from base, in address order
    ghost var live: map<nat, nat> // blocks handed out: header address and units
    ghost var arena: set<nat>     // all units sbrk has given

    ghost predicate Valid()
      reads this
    {
      && base > 0 && LiveBlocks(base, live, size)
      && if freep == 0 then free == [] && live == map[] && arena == {}
         else
           && HeapInv(base, free, live, arena)
           && Linked(free, ptr, size) && Coalesced(free)
           && OnList(free, freep)
    }

    constructor (base: nat)
      requires base > 0
      ensures Valid() && this.base == base && live == map[] && arena == {}
    {
      this.base := base;
      ptr, size, freep := map[], map[], 0;
      free, live, arena := [], map[], {};
    }

    /** The search loop of free: from freep, at most one lap, to the place of bp. */
    method FindSpot(bp: nat) returns (p: nat, ghost k: nat)
      requires Valid() && bp in live && freep != 0
      ensures Place(free, k, bp) && free[k].addr == p
    {
      hide InFree, InLive, Coalesced, Place, Ordered, Apart, Conserved, Stops;
      NotListed(base, free, live, bp);
      ListStarts(base, free, bp);
      k := FindPlace(base, free, bp, |free|);
      p := freep;
      ghost var i :| 0 <= i < |free| && free[i].addr == freep;
      SpotTest(base, free, i, k, bp);
      NodeFacts(free, ptr, size, i);
      while !Stops(p, ptr[p], bp)
        invariant 0 <= i < |free| && free[i].addr == p && k < |free|
        invariant p in ptr && ptr[p] == Succ(free, i)
        invariant Stops(p, Succ(free, i), bp) <==> i == k
        decreases Dist(|free|, i, k)
      {
        p := ptr[p];
        i := Next(|free|, i);
        SpotTest(base, free, i, k, bp);
        NodeFacts(free, ptr, size, i);
      }
    }

    /** free: the block leaves the live ones, all other live blocks stay, no unit is lost, and the
      list is again one ordered cycle in which no two blocks touch. */
    method Free(ap: nat)
      requires Valid() && ap > 0 && ap - 1 in live
      modifies this
      ensures Valid() && freep != 0
      ensures live == old(live) - {ap - 1} && arena == old(arena)
      ensures Near(free, freep, old(live)[ap - 1])
    {
      hide InFree, InLive, Place, HeapInv, Coalesced, Linked, Near, OnList;
      var bp := ap - 1;
      var p; ghost var k;
      p, k := FindSpot(bp);
      SpotFacts(base, free, ptr, size, live, arena, k, bp);
      ghost var forward := k + 1 < |free| && bp + size[bp] == free[k + 1].addr;
      ghost var backward := p + size[p] == bp;
      free := FreeKeeps(base, free, ptr, size, live, arena, k, bp, forward, backward);
      live := live - {bp};
      Relink(p, bp);
      freep := p;
    }

    /** The header writes of free: merge with the block above, then
      with the one below. */
    method Relink(p: nat, bp: nat)
      requires p in ptr && p in size && bp in size && p != bp
      requires bp + size[bp] == ptr[p] ==> ptr[p] in ptr && ptr[p] in size
      modifies this`ptr, this`size
      ensures var forward, backward := old(bp + size[bp] == ptr[p]), old(p + size[p] == bp);
              && ptr == PtrsAfter(old(ptr), p, bp, old(ptr[p]), forward, backward)
              && size == SizesAfter(old(size), p, bp, old(ptr[p]), forward, backward)
    {
      if bp + size[bp] == ptr[p] {
        size := size[bp := size[bp] + size[ptr[p]]];
        ptr := ptr[bp := ptr[ptr[p]]];
      } else {
        ptr := ptr[bp := ptr[p]];
      }
      if p + size[p] == bp {
        size := size[p := size[p] + size[bp]];
        ptr := ptr[p := ptr[bp]];
      } else {
        ptr := ptr[p := bp];
      }
    }

    /** morecore: at least MINUNITS units from sbrk go onto the free list. `grant` is the address sbrk
      returns, 0 when it fails. */
    method Morecore(nunits: nat, grant: nat) returns (r: nat)
      requires Valid() && freep != 0 && CoreUnits(nunits) < SBRKLIMIT
      requires grant == 0 || Fresh(base, arena, grant, CoreUnits(nunits))
      modifies this
      ensures Valid() && freep != 0 && live == old(live)
      ensures grant == 0 ==> r == 0 && free == old(free) && arena == old(arena) && freep == old(freep)
      ensures grant == 0 ==> size == old(size) && ptr == old(ptr)
      ensures grant != 0 ==> r == freep && Near(free, freep, CoreUnits(nunits))
                             && arena == old(arena) + Span(grant, CoreUnits(nunits))
    {
      hide InFree, InLive, HeapInv, Coalesced, Linked, Near, OnList;
      var nu := if nunits < MINUNITS then MINUNITS else nunits;
      if grant == 0 {
        return 0;
      }
      GrantKeeps(base, free, ptr, size, live, arena, grant, nu);
      var hp := grant;
      size := size[hp := nu];
      live, arena := live[hp := nu], arena + Span(hp, nu);
      assert live - {hp} == old(live);
      Free(hp + 1);
      return freep;
    }

    /** The block at p = free[j] is large enough: unlink it, or split its tail off. */
    method TakeFrom(prevp: nat, p: nat, nunits: nat, ghost j: nat) returns (r: nat)
      requires Valid() && freep != 0 && 0 < j < |free| && nunits > 0
      requires free[j].addr == p && free[j - 1].addr == prevp && free[j].units >= nunits
      modifies this
      ensures Valid() && freep == prevp && r > 0 && arena == old(arena)
      ensures r - 1 !in old(live) && live == old(live)[r - 1 := nunits]
    {
      hide InFree, InLive, HeapInv, Coalesced, Linked;
      NodeFacts(free, ptr, size, j);
      HeadFacts(base, free, live, arena, j - 1);
      var q := p;
      if size[p] == nunits {
        TakeExact(base, free, ptr, size, live, arena, j);
        free, live := Without(free, j), live[p := nunits];
        ptr := ptr[prevp := ptr[p]];
      } else {
        TakeTail(base, free, ptr, size, live, arena, j, nunits);
        free := free[j := Node(p, free[j].units - nunits)];
        size := size[p := size[p] - nunits];
        q := p + size[p];
        size := size[q := nunits];
        live := live[q := nunits];
      }
      freep := prevp;
      assert free[j - 1].addr == freep;
      return q + 1;
    }

    /** malloc. If some free block is large enough, one is used and sbrk is not called. Otherwise sbrk
      is called once: when it fails malloc returns 0 and changes nothing, else the new units join the
      heap and the block comes from it. Past the range of sbrk's argument the outcome is undefined.
      The block has Units(nbytes) units that were in no live block, and the loop ends within a lap of
      the list after the call of morecore. */
    method Malloc(nbytes: uint32, grant: nat) returns (r: Outcome)
      requires Valid()
      requires grant == 0 || Fresh(base, arena, grant, CoreUnits(Units(nbytes)))
      modifies this
      ensures Valid()
      ensures r.Block? ==> r.p > 0 && r.p - 1 !in old(live) && live == old(live)[r.p - 1 := Units(nbytes)]
      ensures !r.Block? ==> live == old(live)
      ensures arena == old(arena) + if r.Block? && !Fits(old(free), Units(nbytes))
                                    then Span(grant, CoreUnits(Units(nbytes))) else {}
      ensures (exists i :: 0 <= i < |old(free)| && old(free)[i].units >= Units(nbytes))
              ==> r.Block? && arena == old(arena)
      ensures r.Undefined? <==> !Fits(old(free), Units(nbytes)) && CoreUnits(Units(nbytes)) >= SBRKLIMIT
      ensures r.NoMemory? <==> !Fits(old(free), Units(nbytes)) && CoreUnits(Units(nbytes)) < SBRKLIMIT && grant == 0
    {
      hide InFree, InLive, HeapInv, Coalesced, Linked, LiveBlocks, OnList, Near, Fits, Passed, Ahead, Fresh;
      var nunits := Units(nbytes);
      ghost var free0 := free;
      FitsAny(free0, nunits);
      var prevp := freep;
      if prevp == 0 {
        FreshHeap(base, nunits);
        ptr, size := ptr[base := base], size[base := 0];
        freep, prevp := base, base;
        free := [Node(base, 0)];
      }
      ghost var f: nat := Index(free, freep);
      NodeFacts(free, ptr, size, f);
      var p := ptr[prevp];
      ghost var i: nat, grown := Next(|free|, f), false;
      PassedNone(free, i, nunits);
      while true
        invariant Valid() && freep != 0 && live == old(live)
        invariant f < |free| && i < |free| && free[f].addr == freep && free[i].addr == p
        invariant i > 0 ==> free[i - 1].addr == prevp
        invariant !grown ==> arena == old(arena) && (Fits(free0, nunits) <==> Fits(free, nunits))
        invariant !grown ==> Passed(free, Next(|free|, f), i, nunits)
        invariant grown ==> !Fits(free0, nunits) && grant != 0 && CoreUnits(nunits) < SBRKLIMIT
        invariant grown ==> arena == old(arena) + Span(grant, CoreUnits(nunits)) && Ahead(free, i, f, nunits)
        decreases if grown then 0 else 1, Dist(|free|, i, f)
      {
        NodeFacts(free, ptr, size, i);
        HeadFacts(base, free, live, arena, i);
        if size[p] >= nunits {
          FitsAt(free, i, nunits);
          var q := TakeFrom(prevp, p, nunits, i);
          return Block(q);
        }
        if p == freep {
          Positions(base, free, live, arena, i, f);
          LapDone(free, f, nunits);
          if CoreUnits(nunits) >= SBRKLIMIT {
            return Undefined;
          }
          p := Morecore(nunits, grant);
          if p == 0 {
            return NoMemory;
          }
          grown := true;
          f := NearIndex(free, freep, CoreUnits(nunits));
          i := f;
          NearAhead(free, f, nunits);
          NodeFacts(free, ptr, size, i);
        } else {
          Advance(free, f, i, nunits);
        }
        prevp := p;
        p := ptr[p];
        i := Next(|free|, i);
      }
    }
  }

  /** The size fields after free, by which neighbours it merged with. */
  function SizesAfter(size: map<nat, nat>, p: nat, bp: nat, next: nat, forward: bool, backward: bool): map<nat, nat>
    requires p in size && bp in size && (forward ==> next in size) && p != bp
  {
    var size1 := if forward then size[bp := size[bp] + size[next]] else size;
    if backward then size1[p := size1[p] + size1[bp]] else size1
  }

  function PtrsAfter(ptr: map<nat, nat>, p: nat, bp: nat, next: nat, forward: bool, backward: bool): map<nat, nat>
    requires p in ptr && (forward ==> next in ptr) && p != bp
  {
    var ptr1 := ptr[bp := if forward then ptr[next] else ptr[p]];
    ptr1[p := if backward then ptr1[bp] else bp]
  }

  /** What free does to the headers keeps every invariant of the heap. */
  lemma FreeKeeps(base: nat, free: seq<Node>, ptr: map<nat, nat>, size: map<nat, nat>, live: map<nat, nat>,
                  arena: set<nat>, k: nat, bp: nat, forward: bool, backward: bool)
    returns (r: seq<Node>)
    requires HeapInv(base, free, live, arena) && Linked(free, ptr, size) && Coalesced(free)
    requires LiveBlocks(base, live, size) && bp in live && Place(free, k, bp)
    requires forward <==> k + 1 < |free| && bp + live[bp] == free[k + 1].addr
    requires backward <==> free[k].End() == bp
    ensures var p, next := free[k].addr, Succ(free, k);
            && p in ptr && p in size && p != bp && (forward ==> next in ptr && next in size)
            && var ptr', size' := PtrsAfter(ptr, p, bp, next, forward, backward),
                                  SizesAfter(size, p, bp, next, forward, backward);
            && HeapInv(base, r, live - {bp}, arena) && Linked(r, ptr', size') && Coalesced(r)
            && LiveBlocks(base, live - {bp}, size')
            && Near(r, p, live[bp]) && OnList(r, p) && p > 0
  {
    hide InFree, InLive, Place, Ordered, Apart, Conserved, Coalesced, Linked;
    SpotFacts(base, free, ptr, size, live, arena, k, bp);
    var p, next := free[k].addr, Succ(free, k);
    r := InsertAt(free, k, Node(bp, live[bp]));
    var ptr1, size1 := ptr[bp := ptr[p]][p := bp], size;
    InsertKeeps(base, free, live, arena, k, bp);
    InsertLinked(base, free, ptr, size, k, bp);
    InsertCoalesced(free, k, Node(bp, live[bp]));
    if forward {
      assert r[k + 2] == free[k + 1] && Touch(r, k + 1);
      MergeKeeps(base, r, live - {bp}, arena, k + 1);
      MergeLinked(base, r, ptr1, size1, k + 1);
      MergeCoalesced(r, k + 1);
      ptr1, size1 := ptr1[bp := ptr1[next]], size1[bp := size1[bp] + size1[next]];
      r := MergeAt(r, k + 1);
    } else {
      NoForward(free, k, Node(bp, live[bp]));
    }
    if backward {
      assert Touch(r, k);
      MergeKeeps(base, r, live - {bp}, arena, k);
      MergeLinked(base, r, ptr1, size1, k);
      MergeCoalesced(r, k);
      ptr1, size1 := ptr1[p := ptr1[bp]], size1[p := size1[p] + size1[bp]];
      r := MergeAt(r, k);
    } else {
      NoBackward(r, k);
    }
    assert r[k].addr == p;
    assert ptr1 == PtrsAfter(ptr, p, bp, next, forward, backward);
    StaysLive(base, live, size, size1, bp, p);
  }

  lemma NoForward(free: seq<Node>, k: nat, b: Node)
    requires k < |free| && CoalescedBut(InsertAt(free, k, b), k, k + 1)
    requires k + 1 < |free| ==> b.End() != free[k + 1].addr
    ensures CoalescedBut(InsertAt(free, k, b), k, k)
  {
  }

  lemma NoBackward(r: seq<Node>, k: nat)
    requires k + 1 < |r| && CoalescedBut(r, k, k) && !Touch(r, k)
    ensures Coalesced(r)
  {
  }

  lemma ListStarts(base: nat, free: seq<Node>, bp: nat)
    requires Ordered(base, free)
    ensures |free| > 0 && free[0].addr == base
  {
  }

  /** The two tests with which the search loop of free stops at p. */
  predicate Stops(p: nat, next: nat, bp: nat) {
    (bp > p && bp < next) || (p >= next && (bp > p || bp < next))
  }

  /** They hold at the place of bp and nowhere else on the cycle. */
  lemma SpotTest(base: nat, free: seq<Node>, i: nat, k: nat, bp: nat)
    requires Ordered(base, free) && Place(free, k, bp) && i < |free|
    ensures Stops(free[i].addr, Succ(free, i), bp) <==> i == k
  {
    if i < k {
      OrderedPair(base, free, i, k);
      if i + 1 < k { OrderedPair(base, free, i + 1, k); }
    } else if i > k {
      if i > k + 1 { OrderedPair(base, free, k + 1, i); }
      OrderedPair(base, free, 0, i);
    }
    if i + 1 == |free| && i > 0 { OrderedPair(base, free, 0, i); }
    if k > 0 { OrderedPair(base, free, 0, k); }
  }

  lemma NotListed(base: nat, free: seq<Node>, live: map<nat, nat>, bp: nat)
    requires Ordered(base, free) && Apart(free, live) && bp in live && live[bp] > 0 && bp > base
    ensures forall i :: 0 <= i < |free| ==> free[i].addr != bp
  {
    forall i | 0 <= i < |free| ensures free[i].addr != bp {
      assert free[i].End() <= bp || bp + live[bp] <= free[i].addr;
    }
  }

  ghost predicate OnList(free: seq<Node>, p: nat) {
    exists i :: 0 <= i < |free| && free[i].addr == p
  }

  /** freep's block or the one after it has at least so many units. */
  ghost predicate Near(free: seq<Node>, freep: nat, units: nat) {
    exists k :: 0 <= k < |free| && free[k].addr == freep
             && (free[k].units >= units || free[Next(|free|, k)].units >= units)
  }

  /** No two free blocks touch, except perhaps at i or j. */
  predicate CoalescedBut(free: seq<Node>, i: nat, j: nat) {
    forall m :: 0 <= m < |free| - 1 && m != i && m != j ==> !Touch(free, m)
  }

  lemma InsertCoalesced(free: seq<Node>, k: nat, b: Node)
    requires Coalesced(free) && k < |free|
    ensures CoalescedBut(InsertAt(free, k, b), k, k + 1)
  {
    var r := InsertAt(free, k, b);
    forall m | 0 <= m < |r| - 1 && m != k && m != k + 1 ensures !Touch(r, m) {
      assert !Touch(free, if m < k then m else m - 1);
    }
  }

  lemma MergeCoalesced(free: seq<Node>, j: nat)
    requires j + 1 < |free| && Touch(free, j)
    ensures j > 0 && CoalescedBut(free, j - 1, j) ==> CoalescedBut(MergeAt(free, j), j - 1, j - 1)
    ensures CoalescedBut(free, j, j) ==> Coalesced(MergeAt(free, j))
  {
    var r := MergeAt(free, j);
    forall m | 0 <= m < |r| - 1 ensures Touch(r, m) ==> Touch(free, if m < j then m else m + 1) {
    }
  }

  lemma DistinctNodes(base: nat, free: seq<Node>, i: nat, j: nat)
    requires Ordered(base, free) && i < |free| && j < |free| && i != j
    ensures free[i].addr != free[j].addr
  {
    if i < j { OrderedPair(base, free, i, j); } else { OrderedPair(base, free, j, i); }
  }

  lemma InsertLinked(base: nat, free: seq<Node>, ptr: map<nat, nat>, size: map<nat, nat>, k: nat, bp: nat)
    requires Ordered(base, free) && Linked(free, ptr, size) && k < |free| && bp in size
    requires forall i :: 0 <= i < |free| ==> free[i].addr != bp
    ensures free[k].addr in ptr
    ensures Linked(InsertAt(free, k, Node(bp, size[bp])), ptr[bp := ptr[free[k].addr]][free[k].addr := bp], size)
  {
    var r := InsertAt(free, k, Node(bp, size[bp]));
    assert LinkedAt(free, k, ptr, size);
    var ptr' := ptr[bp := ptr[free[k].addr]][free[k].addr := bp];
    forall i | 0 <= i < |r| ensures LinkedAt(r, i, ptr', size) {
      if i != k + 1 {
        var i' := if i <= k then i else i - 1;
        assert LinkedAt(free, i', ptr, size);
        if i' != k { DistinctNodes(base, free, i', k); }
      }
    }
  }

  lemma MergeLinked(base: nat, free: seq<Node>, ptr: map<nat, nat>, size: map<nat, nat>, j: nat)
    requires Ordered(base, free) && Linked(free, ptr, size) && j + 1 < |free|
    ensures free[j].addr in size && free[j + 1].addr in size && free[j + 1].addr in ptr
    ensures Linked(MergeAt(free, j), ptr[free[j].addr := ptr[free[j + 1].addr]],
                   size[free[j].addr := size[free[j].addr] + size[free[j + 1].addr]])
  {
    var r := MergeAt(free, j);
    assert LinkedAt(free, j, ptr, size) && LinkedAt(free, j + 1, ptr, size);
    var ptr', size' := ptr[free[j].addr := ptr[free[j + 1].addr]],
                       size[free[j].addr := size[free[j].addr] + size[free[j + 1].addr]];
    forall i | 0 <= i < |r| ensures LinkedAt(r, i, ptr', size') {
      if i != j {
        var i' := if i < j then i else i + 1;
        assert LinkedAt(free, i', ptr, size);
        DistinctNodes(base, free, i', j);
      }
    }
  }

  /** What the code finds in the headers at the place of bp. */
  lemma SpotFacts(base: nat, free: seq<Node>, ptr: map<nat, nat>, size: map<nat, nat>, live: map<nat, nat>,
                  arena: set<nat>, k: nat, bp: nat)
    requires HeapInv(base, free, live, arena) && Linked(free, ptr, size) && LiveBlocks(base, live, size)
    requires Place(free, k, bp) && bp in live
    ensures k < |free| && size[bp] == live[bp] > 0 && forall i :: 0 <= i < |free| ==> free[i].addr != bp
    ensures var p := free[k].addr;
            && p in ptr && p in size && p !in live && ptr[p] == Succ(free, k) && size[p] == free[k].units && p > 0
            && (bp + size[bp] == ptr[p] <==> k + 1 < |free| && bp + size[bp] == free[k + 1].addr)
            && (p + size[p] == bp ==> k > 0)
    ensures k + 1 < |free| ==> free[k + 1].addr in ptr && free[k + 1].addr in size
                               && free[k + 1].addr != free[k].addr && size[free[k + 1].addr] == free[k + 1].units
  {
    NotListed(base, free, live, bp);
    assert LinkedAt(free, k, ptr, size) && (k + 1 < |free| ==> LinkedAt(free, k + 1, ptr, size));
    if k > 0 { OrderedPair(base, free, 0, k); }
    if k + 1 < |free| { OrderedPair(base, free, k, k + 1); }
  }

  lemma NodeFacts(free: seq<Node>, ptr: map<nat, nat>, size: map<nat, nat>, i: nat)
    requires Linked(free, ptr, size) && i < |free|
    ensures free[i].addr in ptr && free[i].addr in size
    ensures ptr[free[i].addr] == Succ(free, i) && size[free[i].addr] == free[i].units
  {
    assert LinkedAt(free, i, ptr, size);
  }

  lemma StaysLive(base: nat, live: map<nat, nat>, size: map<nat, nat>, size': map<nat, nat>, bp: nat, p: nat)
    requires LiveBlocks(base, live, size) && p !in live
    requires forall a :: a in size && a != bp && a != p ==> a in size' && size'[a] == size[a]
    ensures LiveBlocks(base, live - {bp}, size')
  {
  }

  // ---------------------------------------------------------------- malloc, as steps on the list

  function Without(free: seq<Node>, j: nat): (r: seq<Node>)
    requires j < |free|
    ensures |r| == |free| - 1
    ensures forall i :: 0 <= i < |r| ==> r[i] == if i < j then free[i] else free[i + 1]
  {
    free[..j] + free[j + 1..]
  }

  lemma TakeExactList(base: nat, free: seq<Node>, j: nat)
    requires Ordered(base, free) && Coalesced(free) && 0 < j < |free|
    ensures Ordered(base, Without(free, j)) && Coalesced(Without(free, j))
  {
    var r := Without(free, j);
    assert !Touch(free, j - 1);
    forall i | 0 <= i < |r| - 1 ensures !Touch(r, i) {
      if i != j - 1 { assert !Touch(free, if i < j then i else i + 1); }
    }
  }

  lemma TakeExactLinked(base: nat, free: seq<Node>, ptr: map<nat, nat>, size: map<nat, nat>, j: nat)
    requires Ordered(base, free) && Linked(free, ptr, size) && 0 < j < |free|
    ensures free[j].addr in ptr && Linked(Without(free, j), ptr[free[j - 1].addr := ptr[free[j].addr]], size)
  {
    assert LinkedAt(free, j, ptr, size);
    var r, ptr' := Without(free, j), ptr[free[j - 1].addr := ptr[free[j].addr]];
    forall i | 0 <= i < |r| ensures LinkedAt(r, i, ptr', size) {
      var i' := if i < j then i else i + 1;
      assert LinkedAt(free, i', ptr, size);
      if i' != j - 1 { DistinctNodes(base, free, i', j - 1); }
    }
  }

  lemma ApartFromNode(base: nat, free: seq<Node>, live: map<nat, nat>, j: nat)
    requires Ordered(base, free) && Apart(free, live) && 0 < j < |free| && forall a :: a in live ==> live[a] > 0
    ensures forall i :: 0 <= i < |free| && i != j ==> free[i].End() <= free[j].addr || free[j].End() <= free[i].addr
    ensures forall a :: a in live ==> free[j].End() <= a || a + live[a] <= free[j].addr
    ensures free[j].addr > base && free[j].addr !in live
  {
    OrderedPair(base, free, 0, j);
    forall i | 0 <= i < |free| && i != j
      ensures free[i].End() <= free[j].addr || free[j].End() <= free[i].addr
    {
      if i < j { OrderedPair(base, free, i, j); } else { OrderedPair(base, free, j, i); }
    }
  }

  /** An exact fit leaves the list and becomes a live block. */
  lemma TakeExact(base: nat, free: seq<Node>, ptr: map<nat, nat>, size: map<nat, nat>, live: map<nat, nat>,
                  arena: set<nat>, j: nat)
    requires HeapInv(base, free, live, arena) && Linked(free, ptr, size) && Coalesced(free)
    requires LiveBlocks(base, live, size) && 0 < j < |free|
    ensures var r, a := Without(free, j), free[j].addr;
            && a in ptr && a !in live && HeapInv(base, r, live[a := free[j].units], arena)
            && Linked(r, ptr[free[j - 1].addr := ptr[a]], size) && Coalesced(r)
            && LiveBlocks(base, live[a := free[j].units], size)
  {
    TakeExactList(base, free, j);
    TakeExactLinked(base, free, ptr, size, j);
    assert LinkedAt(free, j, ptr, size);
    ApartFromNode(base, free, live, j);
    hide Linked, Coalesced, InFree, InLive;
    forall x: nat ensures x in arena <==> InFree(Without(free, j), x)
                                          || InLive(live[free[j].addr := free[j].units], x) {
      TakeExactCovers(free, live, j, x);
    }
  }

  lemma TakeExactCovers(free: seq<Node>, live: map<nat, nat>, j: nat, x: nat)
    requires j < |free| && free[j].addr !in live
    ensures InFree(free, x) || InLive(live, x)
            <==> InFree(Without(free, j), x) || InLive(live[free[j].addr := free[j].units], x)
  {
    var r, live' := Without(free, j), live[free[j].addr := free[j].units];
    if InFree(free, x) {
      var i :| 0 <= i < |free| && free[i].addr <= x < free[i].End();
      if i == j { assert free[j].addr in live'; } else { assert r[if i < j then i else i - 1] == free[i]; }
    }
    if InLive(live, x) {
      var a :| a in live && a <= x < a + live[a];
      assert a in live';
    }
    if InLive(live', x) {
      var a :| a in live' && a <= x < a + live'[a];
      if a == free[j].addr { assert free[j].addr <= x < free[j].End(); }
    }
  }

  lemma TakeTailList(base: nat, free: seq<Node>, ptr: map<nat, nat>, size: map<nat, nat>, j: nat, n: nat)
    requires Ordered(base, free) && Coalesced(free) && Linked(free, ptr, size)
    requires 0 < j < |free| && 0 < n < free[j].units
    ensures var a, rest := free[j].addr, free[j].units - n;
            var r := free[j := Node(a, rest)];
            Ordered(base, r) && Coalesced(r) && Linked(r, ptr, size[a := rest][a + rest := n])
  {
    var a, rest := free[j].addr, free[j].units - n;
    var r, size' := free[j := Node(a, rest)], size[a := rest][a + rest := n];
    forall i | 0 <= i < |r| ensures LinkedAt(r, i, ptr, size') {
      assert LinkedAt(free, i, ptr, size);
      if i < j { OrderedPair(base, free, i, j); }
      if i > j { OrderedPair(base, free, j, i); }
    }
    forall i | 0 <= i < |r| - 1 ensures !Touch(r, i) {
      assert !Touch(free, i);
    }
  }

  /** The tail of a larger block becomes a live block. */
  lemma TakeTail(base: nat, free: seq<Node>, ptr: map<nat, nat>, size: map<nat, nat>, live: map<nat, nat>,
                 arena: set<nat>, j: nat, n: nat)
    requires HeapInv(base, free, live, arena) && Linked(free, ptr, size) && Coalesced(free)
    requires LiveBlocks(base, live, size) && 0 < j < |free| && 0 < n < free[j].units
    ensures var a, rest := free[j].addr, free[j].units - n;
            var r, q := free[j := Node(a, rest)], a + rest;
            && q !in live && HeapInv(base, r, live[q := n], arena)
            && Linked(r, ptr, size[a := rest][q := n]) && Coalesced(r)
            && LiveBlocks(base, live[q := n], size[a := rest][q := n])
  {
    TakeTailList(base, free, ptr, size, j, n);
    ApartFromNode(base, free, live, j);
    hide Linked, Coalesced, InFree, InLive, Ordered;
    var a, rest := free[j].addr, free[j].units - n;
    forall x: nat ensures x in arena <==> InFree(free[j := Node(a, rest)], x) || InLive(live[a + rest := n], x) {
      TakeTailCovers(free, live, j, n, x);
    }
  }

  lemma TakeTailCovers(free: seq<Node>, live: map<nat, nat>, j: nat, n: nat, x: nat)
    requires j < |free| && 0 < n < free[j].units && free[j].addr + free[j].units - n !in live
    ensures InFree(free, x) || InLive(live, x)
            <==> InFree(free[j := Node(free[j].addr, free[j].units - n)], x)
                 || InLive(live[free[j].addr + free[j].units - n := n], x)
  {
    var q := free[j].addr + free[j].units - n;
    var r, live' := free[j := Node(free[j].addr, free[j].units - n)], live[q := n];
    if InFree(free, x) {
      var i :| 0 <= i < |free| && free[i].addr <= x < free[i].End();
      if i == j && x >= q { assert q in live'; } else { assert r[i].addr <= x < r[i].End(); }
    }
    if InLive(live, x) {
      var a :| a in live && a <= x < a + live[a];
      assert a in live';
    }
    if InFree(r, x) {
      var i :| 0 <= i < |r| && r[i].addr <= x < r[i].End();
      assert free[i].addr <= x < free[i].End();
    }
    if InLive(live', x) {
      var a :| a in live' && a <= x < a + live'[a];
      if a == q { assert free[j].addr <= x < free[j].End(); }
    }
  }

  /** Some free block has n units. */
  predicate Fits(free: seq<Node>, n: nat) {
    exists i :: 0 <= i < |free| && free[i].units >= n
  }

  /** The units a, a + 1, ... (n of them). */
  function Span(a: nat, n: nat): (s: set<nat>)
    ensures forall x: nat :: x in s <==> a <= x < a + n
  {
    if n == 0 then {} else Span(a, n - 1) + {a + n - 1}
  }

  /** What sbrk promises: units it has not given before, above the program's own data. */
  ghost predicate Fresh(base: nat, arena: set<nat>, grant: nat, nu: nat) {
    grant > base && arena !! Span(grant, nu)
  }

  lemma HeadFacts(base: nat, free: seq<Node>, live: map<nat, nat>, arena: set<nat>, i: nat)
    requires HeapInv(base, free, live, arena) && i < |free|
    ensures free[i].addr > 0 && (free[i].units > 0 ==> i > 0)
  {
    if i > 0 { OrderedPair(base, free, 0, i); }
  }

  lemma Positions(base: nat, free: seq<Node>, live: map<nat, nat>, arena: set<nat>, i: nat, j: nat)
    requires HeapInv(base, free, live, arena) && i < |free| && j < |free| && free[i].addr == free[j].addr
    ensures i == j
  {
    if i != j { DistinctNodes(base, free, i, j); }
  }

  ghost function Index(free: seq<Node>, p: nat): (i: nat)
    requires OnList(free, p)
    ensures i < |free| && free[i].addr == p
  {
    var i :| 0 <= i < |free| && free[i].addr == p; i
  }

  ghost function NearIndex(free: seq<Node>, p: nat, units: nat): (k: nat)
    requires Near(free, p, units)
    ensures k < |free| && free[k].addr == p
    ensures free[k].units >= units || free[Next(|free|, k)].units >= units
  {
    var k :| 0 <= k < |free| && free[k].addr == p
             && (free[k].units >= units || free[Next(|free|, k)].units >= units); k
  }

  lemma FreshHeap(base: nat, n: nat)
    requires base > 0
    ensures HeapInv(base, [Node(base, 0)], map[], {})
    ensures forall ptr: map<nat, nat>, size: map<nat, nat> ::
              base in ptr && base in size && ptr[base] == base && size[base] == 0 ==> Linked([Node(base, 0)], ptr, size)
    ensures OnList([Node(base, 0)], base) && Coalesced([Node(base, 0)])
    ensures forall size: map<nat, nat> :: LiveBlocks(base, map[], size)
    ensures n > 0 ==> !Fits([Node(base, 0)], n) && !Fits([], n)
  {
    assert [Node(base, 0)][0].addr == base;
  }

  /** The nodes from s up to (not including) i are all too small: the lap so far. */
  ghost predicate Passed(free: seq<Node>, s: nat, i: nat, n: nat)
    requires s < |free| && i < |free|
  {
    forall m :: 0 <= m < |free| && Dist(|free|, s, m) < Dist(|free|, s, i) ==> free[m].units < n
  }

  /** From i up to and including f there is a node that is large enough. */
  ghost predicate Ahead(free: seq<Node>, i: nat, f: nat, n: nat)
    requires i < |free| && f < |free|
  {
    exists m :: 0 <= m < |free| && Dist(|free|, i, m) <= Dist(|free|, i, f) && free[m].units >= n
  }

  lemma PassedNone(free: seq<Node>, s: nat, n: nat)
    requires s < |free|
    ensures Passed(free, s, s, n)
  {
  }

  lemma FitsAt(free: seq<Node>, i: nat, n: nat)
    requires i < |free| && free[i].units >= n
    ensures Fits(free, n)
  {
  }

  lemma FitsAny(free: seq<Node>, n: nat)
    ensures (exists i :: 0 <= i < |free| && free[i].units >= n) ==> Fits(free, n)
  {
  }

  /** One more node is too small, and it is not the last of the lap. */
  lemma Advance(free: seq<Node>, f: nat, i: nat, n: nat)
    requires f < |free| && i < |free| && i != f && free[i].units < n
    ensures Passed(free, Next(|free|, f), i, n) ==> Passed(free, Next(|free|, f), Next(|free|, i), n)
    ensures Ahead(free, i, f, n) ==> Ahead(free, Next(|free|, i), f, n)
    ensures Dist(|free|, Next(|free|, i), f) < Dist(|free|, i, f)
  {
    if Ahead(free, i, f, n) {
      var m :| 0 <= m < |free| && Dist(|free|, i, m) <= Dist(|free|, i, f) && free[m].units >= n;
      assert Dist(|free|, Next(|free|, i), m) <= Dist(|free|, Next(|free|, i), f);
    }
  }

  /** After a whole lap nothing fits; and a lap that had a fitting node ahead does not get here. */
  lemma LapDone(free: seq<Node>, f: nat, n: nat)
    requires f < |free| && free[f].units < n
    ensures Passed(free, Next(|free|, f), f, n) ==> !Fits(free, n)
    ensures !Ahead(free, f, f, n)
  {
  }

  lemma NearAhead(free: seq<Node>, f: nat, n: nat)
    requires f < |free| && (free[f].units >= n || free[Next(|free|, f)].units >= n)
    ensures Ahead(free, Next(|free|, f), f, n)
  {
    var i := Next(|free|, f);
    assert Dist(|free|, i, i) <= Dist(|free|, i, f) && Dist(|free|, i, f) <= Dist(|free|, i, f);
  }

  /** New units may be treated as a live block that is about to be freed. */
  lemma GrantKeeps(base: nat, free: seq<Node>, ptr: map<nat, nat>, size: map<nat, nat>, live: map<nat, nat>,
                   arena: set<nat>, hp: nat, nu: nat)
    requires HeapInv(base, free, live, arena) && Linked(free, ptr, size) && LiveBlocks(base, live, size)
    requires Fresh(base, arena, hp, nu) && nu > 0
    ensures hp !in live && HeapInv(base, free, live[hp := nu], arena + Span(hp, nu))
    ensures Linked(free, ptr, size[hp := nu]) && LiveBlocks(base, live[hp := nu], size[hp := nu])
  {
    GrantApart(base, free, live, arena, hp, nu);
    GrantLinked(free, ptr, size, hp, nu);
    GrantLive(base, live, size, hp, nu);
    hide Linked, Fresh, InFree, InLive, LiveBlocks, Ordered;
    forall x: nat ensures x in arena + Span(hp, nu) <==> InFree(free, x) || InLive(live[hp := nu], x) {
      GrantCovers(live, hp, nu, x);
    }
  }

  lemma GrantLive(base: nat, live: map<nat, nat>, size: map<nat, nat>, hp: nat, nu: nat)
    requires LiveBlocks(base, live, size) && hp > base && nu > 0
    requires forall a :: a in live ==> a + live[a] <= hp || hp + nu <= a
    ensures LiveBlocks(base, live[hp := nu], size[hp := nu])
  {
  }

  lemma GrantApart(base: nat, free: seq<Node>, live: map<nat, nat>, arena: set<nat>, hp: nat, nu: nat)
    requires HeapInv(base, free, live, arena) && Fresh(base, arena, hp, nu) && nu > 0
    requires forall a :: a in live ==> live[a] > 0
    ensures forall a :: a in live ==> a + live[a] <= hp || hp + nu <= a
    ensures forall i :: 0 <= i < |free| ==> free[i].addr != hp && (free[i].End() <= hp || hp + nu <= free[i].addr)
    ensures hp !in live
  {
    hide Apart;
    forall a | a in live ensures a + live[a] <= hp || hp + nu <= a {
      assert InLive(live, a) && (a <= hp < a + live[a] ==> InLive(live, hp));
    }
    forall i | 0 <= i < |free| ensures free[i].addr != hp && (free[i].End() <= hp || hp + nu <= free[i].addr) {
      if i > 0 {
        assert InFree(free, free[i].addr) && (free[i].addr <= hp < free[i].End() ==> InFree(free, hp));
      }
    }
  }

  lemma GrantCovers(live: map<nat, nat>, hp: nat, nu: nat, x: nat)
    requires hp !in live
    ensures InLive(live[hp := nu], x) <==> InLive(live, x) || x in Span(hp, nu)
  {
    var live' := live[hp := nu];
    if InLive(live, x) { var a :| a in live && a <= x < a + live[a]; assert a in live'; }
    if x in Span(hp, nu) { assert hp in live'; }
    if InLive(live', x) {
      var a :| a in live' && a <= x < a + live'[a];
      assert a != hp ==> a in live;
    }
  }

  lemma GrantLinked(free: seq<Node>, ptr: map<nat, nat>, size: map<nat, nat>, hp: nat, nu: nat)
    requires Linked(free, ptr, size) && nu > 0
    requires forall i :: 0 <= i < |free| ==> free[i].addr != hp
    ensures Linked(free, ptr, size[hp := nu])
  {
    var size' := size[hp := nu];
    forall i | 0 <= i < |free| ensures LinkedAt(free, i, ptr, size') {
      assert LinkedAt(free, i, ptr, size);
    }
  }
}
