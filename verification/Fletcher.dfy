/** fletcher32 of kernel/fs.c (lines 47-65): two 32-bit sums over 16-bit words, folded every 360 words. */
module Fletcher {

  const WRAP: nat := 0x1_0000_0000
  const M: nat := 0xffff        // the modulus of the checksum, and both sums at the start
  const BLOCK: nat := 360

  type uint16 = x: int | 0 <= x < 0x1_0000

  /** The first sum over the first k words, never reduced. */
  function S1(data: seq<uint16>, k: nat): nat
    requires k <= |data|
  {
    if k == 0 then M else S1(data, k - 1) + data[k - 1]
  }

  /** The second sum: the first sums added up. */
  function S2(data: seq<uint16>, k: nat): nat
    requires k <= |data|
  {
    if k == 0 then M else S2(data, k - 1) + S1(data, k)
  }

  predicate Congruent(a: int, b: int) {
    (a - b) % M == 0
  }

  /** (s & 0xffff) + (s >> 16) */
  function Fold(s: nat): nat {
    s % 0x1_0000 + s / 0x1_0000
  }

  lemma FoldCongruent(s: nat, t: nat)
    requires Congruent(s, t)
    ensures Congruent(Fold(s), t)
  {
    assert s == 0x1_0000 * (s / 0x1_0000) + s % 0x1_0000;
    assert s - Fold(s) == M * (s / 0x1_0000);
    var q := (s - t) / M;
    assert s - t == M * q;
    assert Fold(s) - t == M * (q - s / 0x1_0000);
  }

  lemma CongruentPlus(a: int, b: int, d: int)
    requires Congruent(a, b)
    ensures Congruent(a + d, b + d)
  {
  }

  lemma CongruentSum(a: int, b: int, c: int, d: int)
    requires Congruent(a, b) && Congruent(c, d)
    ensures Congruent(a + c, b + d)
  {
    var p, q := (a - b) / M, (c - d) / M;
    assert a - b == M * p && c - d == M * q;
    assert (a + c) - (b + d) == M * (p + q);
  }

  /** Twice the sum of the first t positive integers. */
  function Triangle(t: nat): nat {
    if t == 0 then 0 else Triangle(t - 1) + 2 * t
  }

  lemma {:induction false} TriangleClosed(t: nat)
    ensures Triangle(t) == t * (t + 1)
  {
    if t > 0 { TriangleClosed(t - 1); }
  }

  lemma {:induction false} TriangleGrows(k: nat, n: nat)
    requires k <= n
    ensures Triangle(k) <= Triangle(n)
    decreases n
  {
    if k < n { TriangleGrows(k, n - 1); }
  }

  /** Bounds at the start of a block of 360 words, and after t words of it. */
  const FIRST: nat := 65896
  const SECOND: nat := 131070

  predicate InBlock(sum1: nat, sum2: nat, t: nat) {
    sum1 <= FIRST + M * t && 2 * sum2 <= 2 * SECOND + 2 * FIRST * t + M * Triangle(t)
  }

  lemma InBlockStarts(sum1: nat, sum2: nat)
    requires sum1 <= FIRST && sum2 <= SECOND
    ensures InBlock(sum1, sum2, 0)
  {
  }

  lemma InBlockNext(sum1: nat, sum2: nat, t: nat, d: uint16)
    requires InBlock(sum1, sum2, t)
    ensures InBlock(sum1 + d, sum2 + (sum1 + d), t + 1)
  {
  }

  lemma InBlockFits(sum1: nat, sum2: nat, t: nat)
    requires InBlock(sum1, sum2, t) && t <= BLOCK
    ensures sum1 < WRAP && sum2 < WRAP
    ensures Fold(sum1) <= FIRST && Fold(sum2) <= SECOND
  {
    TriangleGrows(t, BLOCK);
    TriangleClosed(BLOCK);
  }

  /** Both sums agree modulo 65535 with the unbounded ones over k words. */
  predicate Agree(data: seq<uint16>, sum1: nat, sum2: nat, k: nat) {
    k <= |data| && Congruent(sum1, S1(data, k)) && Congruent(sum2, S2(data, k))
  }

  lemma AgreeNext(data: seq<uint16>, sum1: nat, sum2: nat, k: nat)
    requires Agree(data, sum1, sum2, k) && k < |data|
    ensures Agree(data, sum1 + data[k], sum2 + (sum1 + data[k]), k + 1)
  {
    CongruentPlus(sum1, S1(data, k), data[k]);
    CongruentSum(sum2, S2(data, k), sum1 + data[k], S1(data, k + 1));
  }

  lemma AgreeFolded(data: seq<uint16>, sum1: nat, sum2: nat, k: nat)
    requires Agree(data, sum1, sum2, k)
    ensures Agree(data, Fold(sum1), Fold(sum2), k)
  {
    FoldCongruent(sum1, S1(data, k));
    FoldCongruent(sum2, S2(data, k));
  }

  /** The value a 32-bit variable keeps. */
  function Uint(x: nat): nat {
    x % WRAP
  }

  lemma UintSmall(x: nat)
    requires x < WRAP
    ensures Uint(x) == x
  {
  }

  /** How many words of the current block have been added. */
  function Phase(k: nat): nat {
    k % 360
  }

  lemma PhaseNext(k: nat)
    ensures Phase(k) < BLOCK && Phase(0) == 0
    ensures Phase(k + 1) == if Phase(k) + 1 == BLOCK then 0 else Phase(k) + 1
  {
  }

  lemma {:induction false} PhaseSmall(t: nat)
    requires t <= BLOCK
    ensures Phase(t) == if t == BLOCK then 0 else t
  {
  }

  /** Both sums. */
  datatype Sums = Sums(a: nat, b: nat)

  function Folded(s: Sums): Sums {
    Sums(Fold(s.a), Fold(s.b))
  }

  /** The sums without any bound on integers, folded after every 360th word: just after the k-th word ... */
  function Raw(data: seq<uint16>, k: nat): Sums
    requires k <= |data|
    decreases k, 0
  {
    if k == 0 then Sums(M, M)
    else
      var p := Held(data, k - 1);
      Sums(p.a + data[k - 1], p.b + (p.a + data[k - 1]))
  }

  /** ... and before the next one. */
  function Held(data: seq<uint16>, k: nat): Sums
    requires k <= |data|
    decreases k, 1
  {
    if k > 0 && Phase(k) == 0 then Folded(Raw(data, k)) else Raw(data, k)
  }

  /** The sums at the end: folded once more. */
  function Final(data: seq<uint16>, n: nat): Sums
    requires n <= |data|
  {
    if n == 0 then Sums(M, M) else Folded(Raw(data, n))
  }

  /** At no word of any data does a sum reach 2^32. */
  lemma {:induction false} NeverWraps(data: seq<uint16>, k: nat)
    requires k <= |data|
    ensures Raw(data, k).a < WRAP && Raw(data, k).b < WRAP
    ensures Fold(Raw(data, k).a) <= FIRST && Fold(Raw(data, k).b) <= SECOND
    ensures InBlock(Held(data, k).a, Held(data, k).b, Phase(k))
  {
    hide InBlock, Fold, Phase;
    PhaseNext(k);
    if k == 0 {
      StartFits();
    } else {
      NeverWraps(data, k - 1);
      PhaseNext(k - 1);
      var p, r, t := Held(data, k - 1), Raw(data, k), Phase(k - 1);
      InBlockNext(p.a, p.b, t, data[k - 1]);
      InBlockFits(r.a, r.b, t + 1);
      InBlockStarts(Fold(r.a), Fold(r.b));
    }
  }

  lemma {:induction false} HeldAgrees(data: seq<uint16>, k: nat)
    requires k <= |data|
    ensures Agree(data, Raw(data, k).a, Raw(data, k).b, k) && Agree(data, Held(data, k).a, Held(data, k).b, k)
  {
    if k > 0 {
      HeldAgrees(data, k - 1);
      AgreeNext(data, Held(data, k - 1).a, Held(data, k - 1).b, k - 1);
    }
    AgreeFolded(data, Raw(data, k).a, Raw(data, k).b, k);
  }

  /** The result is congruent modulo 65535 to the plain sums of all words. */
  lemma FinalAgrees(data: seq<uint16>, n: nat)
    requires n <= |data|
    ensures Agree(data, Final(data, n).a, Final(data, n).b, n)
  {
    HeldAgrees(data, n);
    AgreeFolded(data, Raw(data, n).a, Raw(data, n).b, n);
  }

  /** For every length the two 32-bit sums come out as if integers had no bound: neither ever wraps. A length
    of zero or less leaves both at their start. */
  method Fletcher32(data: seq<uint16>, len: int) returns (word: nat, ghost sum1: nat, ghost sum2: nat)
    requires len <= |data|
    ensures Sums(sum1, sum2) == Final(data, if len < 0 then 0 else len) && word == Packed(sum1, sum2)
    ensures 0 < sum1 < 0x2_0000 && 0 < sum2 < 0x2_0000
    ensures Agree(data, sum1, sum2, if len < 0 then 0 else len)
    ensures Agree(data, word % 0x1_0000, word / 0x1_0000, if len < 0 then 0 else len)
            <==> sum1 < 0x1_0000 && sum2 < 0x1_0000
  {
    var a, b;
    a, b := FoldedSums(data, len);
    ghost var n: nat := if len < 0 then 0 else len;
    FinalAgrees(data, n);
    FinalFits(data, n);
    PackedAgrees(data, a, b, n);
    word, sum1, sum2 := Packed(a, b), a, b;
  }

  method FoldedSums(data: seq<uint16>, len: int) returns (sum1: nat, sum2: nat)
    requires len <= |data|
    ensures Sums(sum1, sum2) == Final(data, if len < 0 then 0 else len)
  {
    sum1, sum2 := 0xffff, 0xffff;
    hide Fold, InBlock, Phase, Raw, Held;
    PhaseNext(0);
    StartIs(data);
    var left, at: nat := len, 0;
    while left > 0
      invariant left < 0 ==> left == len && at == 0
      invariant left >= 0 ==> at + left == len
      invariant Sums(sum1, sum2) == Final(data, at)
      invariant left > 0 ==> Phase(at) == 0 && Held(data, at) == Final(data, at)
    {
      var tlen := if left > 360 then 360 else left;
      left := left - tlen;
      sum1, sum2 := AddBlock(data, at, tlen, sum1, sum2);
      at := at + tlen;
      BlockEnds(data, at, tlen);
      sum1, sum2 := Fold(sum1), Fold(sum2);
    }
  }

  /** The inner loop, with the wrap-around of 32-bit additions. */
  method AddBlock(data: seq<uint16>, start: nat, tlen: nat, a: nat, b: nat) returns (sum1: nat, sum2: nat)
    requires 0 < tlen <= BLOCK && start + tlen <= |data| && Phase(start) == 0 && Sums(a, b) == Held(data, start)
    ensures Sums(sum1, sum2) == Raw(data, start + tlen) && Phase(start + tlen) == Phase(tlen)
  {
    hide Fold, Uint, InBlock, Phase, Raw, Held;
    PhaseNext(0);
    sum1, sum2 := a, b;
    var t: nat := 0;
    while t < tlen
      invariant t <= tlen && Phase(start + t) == Phase(t)
      invariant Sums(sum1, sum2) == if t == 0 then Held(data, start) else Raw(data, start + t)
    {
      var d := data[start + t];
      NeverWraps(data, start + t + 1);
      NextSums(data, start + t, t);
      UintSmall(sum1 + d);
      UintSmall(sum2 + (sum1 + d));
      sum1 := Uint(sum1 + d);
      sum2 := Uint(sum2 + sum1);
      t := t + 1;
    }
  }

  lemma StartFits()
    ensures M < WRAP && Fold(M) <= FIRST && Fold(M) <= SECOND && InBlock(M, M, 0)
  {
  }

  lemma StartIs(data: seq<uint16>)
    ensures Held(data, 0) == Sums(M, M) == Final(data, 0)
  {
  }

  /** The word after the k-th, the t-th of its block. */
  lemma NextSums(data: seq<uint16>, k: nat, t: nat)
    requires k < |data| && t < BLOCK && Phase(k) == Phase(t)
    ensures var p := if t == 0 then Held(data, k) else Raw(data, k);
            Raw(data, k + 1) == Sums(p.a + data[k], p.b + (p.a + data[k]))
    ensures Phase(k + 1) == Phase(t + 1)
  {
    PhaseNext(k);
    PhaseNext(t);
    PhaseSmall(t);
  }

  /** Between blocks. */
  lemma BlockEnds(data: seq<uint16>, k: nat, t: nat)
    requires 0 < k <= |data| && 0 < t <= BLOCK && Phase(k) == Phase(t)
    ensures Folded(Raw(data, k)) == Final(data, k)
    ensures t == BLOCK ==> Phase(k) == 0 && Held(data, k) == Final(data, k)
  {
    PhaseSmall(t);
  }

  // ---------------------------------------------------------------- why 360

  lemma {:induction false} SumsBound(data: seq<uint16>, k: nat)
    requires k <= |data|
    ensures S1(data, k) <= M * (k + 1)
    ensures 2 * S2(data, k) <= M * (2 + 2 * k + Triangle(k))
  {
    if k > 0 {
      SumsBound(data, k - 1);
    }
  }

  lemma {:induction false} SumsOfOnes(data: seq<uint16>, k: nat)
    requires k <= |data| && forall i :: 0 <= i < |data| ==> data[i] == 0xffff
    ensures S1(data, k) == M * (k + 1)
    ensures 2 * S2(data, k) == M * (2 + 2 * k + Triangle(k))
  {
    if k > 0 {
      SumsOfOnes(data, k - 1);
    }
  }

  /** Data of n words can be summed without folding. */
  ghost predicate FitsUnfolded(n: nat) {
    forall data: seq<uint16> | |data| == n :: S2(data, n) < WRAP
  }

  /** 360 is the largest block that is safe whatever the data. */
  lemma LargestBlock(n: nat)
    ensures FitsUnfolded(n) <==> n <= BLOCK
  {
    if n <= BLOCK {
      forall data: seq<uint16> | |data| == n ensures S2(data, n) < WRAP {
        SumsBound(data, n);
        TriangleGrows(n, BLOCK);
        TriangleClosed(BLOCK);
      }
    } else {
      var data: seq<uint16> := seq(n, _ => 0xffff);
      SumsOfOnes(data, n);
      TriangleGrows(BLOCK + 1, n);
      TriangleClosed(BLOCK + 1);
      assert S2(data, n) >= WRAP;
    }
  }

  // ---------------------------------------------------------------- the packed word

  /** x | y */
  function Or(x: nat, y: nat): nat {
    if x == 0 && y == 0 then 0
    else 2 * Or(x / 2, y / 2) + if x % 2 == 1 || y % 2 == 1 then 1 else 0
  }

  /** (sum2 << 16) | sum1 in 32 bits */
  function Packed(sum1: nat, sum2: nat): nat {
    Or(Uint(sum2 * 0x1_0000), sum1)
  }

  lemma {:induction false} OrZero(x: nat)
    ensures Or(x, 0) == x
  {
    if x > 0 { OrZero(x / 2); }
  }

  lemma OrEven(x: nat, a: nat)
    ensures Or(2 * x, a) == 2 * Or(x, a / 2) + a % 2
  {
    assert (2 * x) / 2 == x;
    if x == 0 && a == 0 { assert Or(x, a / 2) == 0; }
  }

  /** The bits beside the two zeros at the end of 4x, and so on by doubling. */
  lemma OrBy4(x: nat, a: nat)
    ensures Or(4 * x, a) == 4 * Or(x, a / 4) + a % 4
  {
    OrEven(2 * x, a);
    OrEven(x, a / 2);
    hide Or;
  }

  lemma OrBy16(x: nat, a: nat)
    ensures Or(16 * x, a) == 16 * Or(x, a / 16) + a % 16
  {
    OrBy4(4 * x, a);
    OrBy4(x, a / 4);
    hide Or;
  }

  lemma OrBy256(x: nat, a: nat)
    ensures Or(256 * x, a) == 256 * Or(x, a / 256) + a % 256
  {
    OrBy16(16 * x, a);
    OrBy16(x, a / 16);
    hide Or;
  }

  lemma OrShifted(x: nat, a: nat)
    ensures Or(0x1_0000 * x, a) == 0x1_0000 * Or(x, a / 0x1_0000) + a % 0x1_0000
  {
    OrBy256(256 * x, a);
    OrBy256(x, a / 256);
    hide Or;
  }

  /** The halves of the packed word, when each sum has at most one bit beyond its sixteen. */
  lemma PackedHalves(a: nat, b: nat)
    requires a < 0x2_0000 && b < 0x2_0000
    ensures Packed(a, b) % 0x1_0000 == a % 0x1_0000
    ensures Packed(a, b) / 0x1_0000 == Or(b % 0x1_0000, a / 0x1_0000)
    ensures a < 0x1_0000 ==> Packed(a, b) / 0x1_0000 == b % 0x1_0000
  {
    var h := b % 0x1_0000;
    UintShifted(b);
    OrShifted(h, a);
    OrZero(h);
    hide Or, Uint;
    InHalves(Or(h, a / 0x1_0000), a % 0x1_0000);
  }

  lemma UintShifted(b: nat)
    requires b < 0x2_0000
    ensures Uint(b * 0x1_0000) == 0x1_0000 * (b % 0x1_0000)
  {
    assert b == if b < 0x1_0000 then b % 0x1_0000 else 0x1_0000 + b % 0x1_0000;
  }

  lemma InHalves(hi: nat, lo: nat)
    requires lo < 0x1_0000
    ensures (0x1_0000 * hi + lo) / 0x1_0000 == hi && (0x1_0000 * hi + lo) % 0x1_0000 == lo
  {
  }

  /** The word of the two sums holds them modulo 65535, one in each half, exactly if both fit their halves. */
  lemma PackedAgrees(data: seq<uint16>, a: nat, b: nat, n: nat)
    requires n <= |data| && a < 0x2_0000 && b < 0x2_0000 && Agree(data, a, b, n)
    ensures Agree(data, Packed(a, b) % 0x1_0000, Packed(a, b) / 0x1_0000, n) <==> a < 0x1_0000 && b < 0x1_0000
  {
    PackedHalves(a, b);
    hide Packed, S1, S2;
    Neighbours(a, S1(data, n));
    Neighbours(b, S2(data, n));
  }

  /** A number and the next are not both congruent to s. */
  lemma Neighbours(a: nat, s: nat)
    requires Congruent(a, s) && a < 0x2_0000
    ensures Congruent(a % 0x1_0000, s) <==> a < 0x1_0000
  {
    if a >= 0x1_0000 {
      assert a % 0x1_0000 == a - 0x1_0000;
      var q := (a - s) / M;
      assert a - s == M * q && a % 0x1_0000 - s == M * (q - 2) + (M - 1);
    }
  }

  lemma {:induction false} RawPositive(data: seq<uint16>, k: nat)
    requires k <= |data|
    ensures Raw(data, k).a > 0 && Raw(data, k).b > 0 && Held(data, k).a > 0 && Held(data, k).b > 0
  {
    if k > 0 { RawPositive(data, k - 1); }
    FoldPositive(Raw(data, k).a);
    FoldPositive(Raw(data, k).b);
  }

  lemma FoldPositive(s: nat)
    ensures s > 0 ==> Fold(s) > 0
  {
  }

  lemma FinalFits(data: seq<uint16>, n: nat)
    requires n <= |data|
    ensures 0 < Final(data, n).a < 0x2_0000 && 0 < Final(data, n).b < 0x2_0000
  {
    NeverWraps(data, n);
    RawPositive(data, n);
    FoldPositive(Raw(data, n).a);
    FoldPositive(Raw(data, n).b);
  }

  /** On these two words the first sum keeps a carry, and the low half of the checksum is 0 where it should be 1. */
  lemma CarryIsLost()
    ensures var data: seq<uint16> := [0x8000, 0x8000];
            && Final(data, 2) == Sums(0x1_0000, 0x8001) && Packed(0x1_0000, 0x8001) % 0x1_0000 == 0
            && Congruent(S1(data, 2), 1) && !Congruent(S1(data, 2), 0)
  {
    var data: seq<uint16> := [0x8000, 0x8000];
    assert Raw(data, 1) == Sums(0x1_7fff, 0x2_7ffe) && Held(data, 1) == Raw(data, 1);
    assert Raw(data, 2) == Sums(0x1_ffff, 0x4_7ffd);
    assert S1(data, 1) == 0x1_7fff && S1(data, 2) == 0x1_ffff;
    PackedHalves(0x1_0000, 0x8001);
  }
}
