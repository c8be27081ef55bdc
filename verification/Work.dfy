/** Block work: the bit-by-bit long division behind the most-work rule. */
module Work {
  import opened Primitives
  import opened Digits
  import opened Compact
  import opened Wide
  import opened Pow

  /** Expected hashes for a target below 256^size: all values over target plus one. */
  function ExpectedHashes(size: nat, target: nat): nat {
    Pow256(size) / (target + 1)
  }

  /** The work of one block; nothing for an invalid target. */
  function BlockWork(bits: nat): nat {
    match Decode(bits)
    case None => 0
    case Some(target) => ExpectedHashes(BYTES, target)
  }

  /** The work of a target is the largest number of times target plus one fits in 2^256. */
  lemma WorkIsLargest(bits: nat, target: nat)
    requires Decode(bits) == Some(target)
    ensures var w := BlockWork(bits); w * (target + 1) <= Pow256(32) < (w + 1) * (target + 1)
  {
    Decompose(Pow256(BYTES), target + 1);
  }

  /** An easier target never counts for more work. */
  lemma EasierIsNoMoreWork(hard: nat, easy: nat)
    requires Decode(hard).Some? && Decode(easy).Some? && Decode(hard).value <= Decode(easy).value
    ensures BlockWork(easy) <= BlockWork(hard)
  {
    DivisorMono(Pow256(BYTES), Decode(hard).value + 1, Decode(easy).value + 1);
  }

  lemma DivisorMono(n: nat, a: nat, b: nat)
    requires 0 < a <= b
    ensures n / b <= n / a
  {
    var q := n / b;
    Decompose(n, b);
    Decompose(n, a);
    MulMono(a, b, q);
    assert q * a <= n;
    assert (n / a + 1) * a == (n / a) * a + a;
    MulCancel(q, n / a + 1, a);
  }

  lemma HalfOfAll()
    ensures 0x80_0000 * Pow256(29) * 2 == Pow256(BYTES)
  {
    SmallPowers();
    Pow256Sum(3, 29);
  }

  lemma QuotientFits(n: nat, d: nat)
    requires 2 <= d <= n
    ensures 1 <= n / d && 2 * (n / d) <= n
  {
    Decompose(n, d);
    MulMono(2, d, n / d);
  }

  /** A valid target's work is positive and fits in 256 bits with room to spare. */
  lemma WorkFits(bits: nat)
    requires Decode(bits).Some?
    ensures 1 <= BlockWork(bits) && 2 * BlockWork(bits) <= Pow256(BYTES)
  {
    DecodedIsBelowHalf(bits);
    HalfOfAll();
    QuotientFits(Pow256(BYTES), Decode(bits).value + 1);
  }

  /** Dividing the complement and adding one is dividing 2^256 itself. */
  lemma ComplementDivision(total: nat, d: nat, q: nat, r: nat)
    requires d > 0 && total - d == q * d + r && r < d
    ensures total / d == q + 1
  {
    assert (q + 1) * d == q * d + d;
    QuotientIs(total, d, q + 1, r);
  }

  lemma {:induction false} ComplementValue(s: Bytes, t: Bytes)
    requires |s| == |t| && forall i :: 0 <= i < |s| ==> t[i] as int == 255 - s[i] as int
    ensures Val(t) == Pow256(|s|) - 1 - Val(s)
  {
    if s != [] { ComplementValue(s[1..], t[1..]); }
  }

  // ---- long division ----

  /** A dividend h seen through k divisors and a remainder, with the quotient kept p-fold in q. */
  ghost predicate Dividing(h: nat, d: nat, p: nat, q: nat, rem: nat, k: nat) {
    h == k * d + rem && rem < d && q == k * p
  }

  /** Bringing down one more bit, when the divisor does not fit. */
  lemma BringDown(h: nat, d: nat, p: nat, q: nat, rem: nat, k: nat, b: nat)
    requires Dividing(h, d, 2 * p, q, rem, k) && 2 * rem + b < d
    ensures Dividing(2 * h + b, d, p, q, 2 * rem + b, 2 * k)
  {
    MulAssoc(2, k, d);
    assert k * (2 * p) == (2 * k) * p;
  }

  /** Bringing down one more bit, when the divisor fits once more. */
  lemma BringDownAndSubtract(h: nat, d: nat, p: nat, q: nat, rem: nat, k: nat, b: nat)
    requires Dividing(h, d, 2 * p, q, rem, k) && 2 * rem + b >= d && b < 2
    ensures Dividing(2 * h + b, d, p, q + p, 2 * rem + b - d, 2 * k + 1)
  {
    MulAssoc(2, k, d);
    assert (2 * k + 1) * d == (2 * k) * d + d;
    assert k * (2 * p) == (2 * k) * p;
    assert (2 * k + 1) * p == (2 * k) * p + p;
  }

  /** The quotient bit about to be set is still clear. */
  lemma NextBitIsClear(q: nat, k: nat, bit: nat)
    requires q == k * Pow2(bit + 1)
    ensures BitOf(q, bit) == 0
  {
    assert k * (2 * Pow2(bit)) == (2 * k) * Pow2(bit);
    ShiftOfMultiple(2 * k, bit);
  }

  /** Shifts a remainder up and brings one bit of the dividend into its lowest place. */
  method BringBit(nt: array<byte>, rem: array<byte>, bit: nat)
    requires nt.Length == rem.Length && nt != rem && bit < 8 * nt.Length
    requires 2 * Val(rem[..]) < Pow256(rem.Length)
    modifies rem
    ensures Val(rem[..]) == 2 * old(Val(rem[..])) + BitOf(Val(nt[..]), bit)
  {
    ShiftLeftOne(rem);
    BitOfVal(nt[..], bit);
    ghost var shifted := rem[..];
    rem[0] := (rem[0] as int + BitOf(nt[bit / 8] as nat, bit % 8)) as byte;
    ValUpdate(shifted, 0, rem[0]);
    assert rem[..] == shifted[0 := rem[0]];
  }

  method RaiseBit(q: array<byte>, bit: nat)
    requires bit < 8 * q.Length && BitOf(Val(q[..]), bit) == 0
    modifies q
    ensures Val(q[..]) == old(Val(q[..])) + Pow2(bit)
  {
    SetBitAdds(q[..], bit);
    ghost var was := q[..];
    q[bit / 8] := SetBit(q[bit / 8], bit % 8);
    assert q[..] == was[bit / 8 := q[bit / 8]];
  }

  /** One pass of the loop: bring a bit down and subtract the divisor when it fits. */
  method DivisionStep(nt: array<byte>, den: array<byte>, q: array<byte>, rem: array<byte>, bit: nat,
                      ghost h: nat, ghost k: nat)
    returns (ghost next: nat)
    requires nt.Length == den.Length == q.Length == rem.Length
    requires nt != den && nt != q && nt != rem && den != q && den != rem && q != rem
    requires bit < 8 * nt.Length && 2 * Val(den[..]) <= Pow256(den.Length)
    requires Dividing(h, Val(den[..]), Pow2(bit + 1), Val(q[..]), Val(rem[..]), k)
    modifies q, rem
    ensures Dividing(2 * h + BitOf(Val(nt[..]), bit), Val(den[..]), Pow2(bit), Val(q[..]), Val(rem[..]), next)
  {
    ghost var r, d, b, q0 := Val(rem[..]), Val(den[..]), BitOf(Val(nt[..]), bit), Val(q[..]);
    BringBit(nt, rem, bit);
    var c := Compare(rem, den);
    if c >= 0 {
      BringDownAndSubtract(h, d, Pow2(bit), q0, r, k, b);
      NextBitIsClear(q0, k, bit);
      next := 2 * k + 1;
      Subtract(rem, den);
      RaiseBit(q, bit);
    } else {
      BringDown(h, d, Pow2(bit), q0, r, k, b);
      next := 2 * k;
    }
  }

  /** q := floor(nt / den), one bit at a time from the most significant. */
  method Divide(nt: array<byte>, den: array<byte>, q: array<byte>) returns (ghost r: nat)
    requires nt.Length == den.Length == q.Length
    requires nt != den && nt != q && den != q
    requires 0 < 2 * Val(den[..]) <= Pow256(den.Length)
    modifies q
    ensures Val(nt[..]) == Val(q[..]) * Val(den[..]) + r && r < Val(den[..])
  {
    var rem := new byte[nt.Length];
    Clear(q);
    Clear(rem);
    ghost var n, d, k := Val(nt[..]), Val(den[..]), 0;
    var bit := 8 * nt.Length;
    ValBound(nt[..]);
    Pow256IsPow2(nt.Length);
    ShiftedOut(n, bit);
    while bit > 0
      invariant 0 <= bit <= 8 * nt.Length
      invariant Val(nt[..]) == n && Val(den[..]) == d
      invariant Dividing(ShiftRight(n, bit), d, Pow2(bit), Val(q[..]), Val(rem[..]), k)
    {
      bit := bit - 1;
      ShiftStep(n, bit);
      k := DivisionStep(nt, den, q, rem, bit, ShiftRight(n, bit + 1), k);
    }
    assert k * 1 == k;
    r := Val(rem[..]);
  }

  /** The complement of a target and the target plus one, as the division wants them. */
  method Prepare(target: array<byte>, nt: array<byte>, den: array<byte>, one: array<byte>)
    requires 0 < target.Length == nt.Length == den.Length == one.Length
    requires target != nt && target != den && target != one && nt != den && nt != one && den != one
    requires Val(target[..]) + 1 < Pow256(target.Length)
    modifies nt, den, one
    ensures Val(nt[..]) == Pow256(target.Length) - 1 - Val(target[..])
    ensures Val(den[..]) == Val(target[..]) + 1 && Val(one[..]) == 1
  {
    for i := 0 to target.Length
      invariant forall k :: 0 <= k < i ==> nt[k] as int == 255 - target[k] as int && den[k] == target[k]
    {
      nt[i] := (255 - target[i] as int) as byte;
      den[i] := target[i];
    }
    assert den[..] == target[..];
    ComplementValue(target[..], nt[..]);
    SetToOne(one);
    Add(den, one);
  }

  /** The division on buffers: the complement over target plus one, plus one. */
  method WorkOfTarget(target: array<byte>, work: array<byte>)
    requires 0 < target.Length == work.Length && target != work
    requires 0 < Val(target[..]) && 2 * (Val(target[..]) + 1) <= Pow256(target.Length)
    modifies work
    ensures Val(work[..]) == ExpectedHashes(target.Length, Val(target[..]))
  {
    var n := target.Length;
    var nt, den, one := new byte[n], new byte[n], new byte[n];
    Prepare(target, nt, den, one);
    ghost var r := Divide(nt, den, work);
    ghost var total, d, q := Pow256(n), Val(den[..]), Val(work[..]);
    ComplementDivision(total, d, q, r);
    QuotientFits(total, d);
    Add(work, one);
  }

  lemma TargetFits(bits: nat, size: nat)
    requires Decode(bits).Some? && size == BYTES
    ensures 0 < Decode(bits).value && 2 * (Decode(bits).value + 1) <= Pow256(size)
  {
    DecodedIsBelowHalf(bits);
    HalfOfAll();
  }

  /** The work of a block, exactly, from its nBits. */
  method WorkOf(bits: U32, work: array<byte>)
    requires work.Length == BYTES
    modifies work
    ensures Val(work[..]) == BlockWork(bits)
  {
    Clear(work);
    var target := new byte[BYTES];
    var ok := BitsToTarget(bits, target);
    if !ok { return; }
    TargetFits(bits, target.Length);
    WorkOfTarget(target, work);
  }

  // ---- the work of a branch ----

  function TotalWork(branch: seq<U32>): nat {
    if branch == [] then 0 else TotalWork(branch[..|branch| - 1]) + BlockWork(branch[|branch| - 1])
  }

  /** No more headers than the least of their targets. */
  ghost predicate FewerThanTargets(branch: seq<U32>, count: nat) {
    forall i :: 0 <= i < |branch| && Decode(branch[i]).Some? ==> count <= Decode(branch[i]).value
  }

  lemma WorkIsAShare(bits: nat, count: nat)
    requires Decode(bits).Some? && count <= Decode(bits).value
    ensures BlockWork(bits) <= ExpectedHashes(BYTES, count)
  {
    DivisorMono(Pow256(BYTES), count + 1, Decode(bits).value + 1);
  }

  lemma OneMore(k: nat, share: nat)
    ensures (k + 1) * share == k * share + share
  {
  }

  /** Each header's work is at most an equal share. */
  lemma {:induction false} TotalIsBounded(branch: seq<U32>, count: nat, share: nat)
    requires FewerThanTargets(branch, count) && share == ExpectedHashes(BYTES, count)
    ensures TotalWork(branch) <= |branch| * share
  {
    if branch != [] {
      var k := |branch| - 1;
      TotalIsBounded(branch[..k], count, share);
      OneMore(k, share);
      if Decode(branch[k]).Some? { WorkIsAShare(branch[k], count); }
    }
  }

  lemma OneShareToSpare(total: nat, n: nat)
    requires total > 0
    ensures n * (total / (n + 1)) < total
  {
    Decompose(total, n + 1);
    OneMore(n, total / (n + 1));
    assert (total / (n + 1)) * (n + 1) == (n + 1) * (total / (n + 1));
    if total / (n + 1) == 0 { assert n * 0 == 0; }
  }

  /** So their sum never reaches 2^256. */
  lemma TotalFits(branch: seq<U32>)
    requires FewerThanTargets(branch, |branch|)
    ensures TotalWork(branch) < Pow256(BYTES)
  {
    TotalIsBounded(branch, |branch|, ExpectedHashes(BYTES, |branch|));
    OneShareToSpare(Pow256(BYTES), |branch|);
  }

  /** The sum as 256-bit additions make it. */
  function Accumulated(branch: seq<U32>): (r: nat)
    ensures r < Pow256(BYTES)
  {
    if branch == [] then 0
    else
      WorkIsSmall(branch[|branch| - 1]);
      Wrap(Accumulated(branch[..|branch| - 1]) + BlockWork(branch[|branch| - 1]), BYTES)
  }

  lemma WorkIsSmall(bits: nat)
    ensures BlockWork(bits) < Pow256(BYTES)
  {
    if Decode(bits).Some? { WorkFits(bits); }
  }

  lemma {:induction false} TotalGrows(branch: seq<U32>, k: nat)
    requires k <= |branch|
    ensures TotalWork(branch[..k]) <= TotalWork(branch)
  {
    if k < |branch| {
      assert branch[..|branch| - 1][..k] == branch[..k];
      TotalGrows(branch[..|branch| - 1], k);
    } else {
      assert branch[..k] == branch;
    }
  }

  lemma {:induction false} NoWrap(branch: seq<U32>)
    requires TotalWork(branch) < Pow256(BYTES)
    ensures Accumulated(branch) == TotalWork(branch)
  {
    if branch != [] {
      TotalGrows(branch, |branch| - 1);
      NoWrap(branch[..|branch| - 1]);
    }
  }

  /** With no more headers than the least of their targets, the sum is exact. */
  lemma AccumulatedIsTotal(branch: seq<U32>)
    requires FewerThanTargets(branch, |branch|)
    ensures Accumulated(branch) == TotalWork(branch)
  {
    TotalFits(branch);
    NoWrap(branch);
  }

  /** The sum is exact if and only if it stays below 2^256. */
  lemma AccumulatedIsTotalIff(branch: seq<U32>)
    ensures Accumulated(branch) == TotalWork(branch) <==> TotalWork(branch) < Pow256(BYTES)
  {
    if TotalWork(branch) < Pow256(BYTES) { NoWrap(branch); }
  }

  /** The compact form of a target of one. */
  const HARDEST: U32 := 0x0101_0000

  lemma HardestWork()
    ensures Decode(HARDEST) == Some(1) && BlockWork(HARDEST) + BlockWork(HARDEST) == Pow256(BYTES)
  {
    HardestDecodes();
    HalfOfAll();
    HalvesMakeWhole(Pow256(BYTES), 0x80_0000 * Pow256(29));
  }

  lemma HardestDecodes()
    ensures Decode(HARDEST) == Some(1)
  {
    SmallPowers();
  }

  lemma HalvesMakeWhole(total: nat, half: nat)
    requires half * 2 == total
    ensures total / 2 + total / 2 == total
  {
  }

  /** Two headers of a target of one, which no proof of work can meet, sum to nothing. */
  lemma SumCanVanish()
    ensures Accumulated([HARDEST, HARDEST]) == 0
  {
    var two, one: seq<U32> := [HARDEST, HARDEST], [HARDEST];
    assert two[..1] == one && one[..0] == [];
    HardestWork();
    assert Accumulated(one) == Wrap(0 + BlockWork(HARDEST), BYTES);
  }

  /** The running sum of a branch's work. */
  method BranchWork(branch: seq<U32>, acc: array<byte>)
    requires acc.Length == BYTES
    modifies acc
    ensures Val(acc[..]) == Accumulated(branch)
  {
    Clear(acc);
    for i := 0 to |branch|
      invariant Val(acc[..]) == Accumulated(branch[..i])
    {
      assert branch[..i + 1][..i] == branch[..i];
      AddWork(branch[i], acc);
    }
    assert branch[..|branch|] == branch;
  }

  method AddWork(bits: U32, acc: array<byte>)
    requires acc.Length == BYTES
    modifies acc
    ensures Val(acc[..]) == Wrap(old(Val(acc[..])) + BlockWork(bits), BYTES)
  {
    var w := new byte[acc.Length];
    WorkOf(bits, w);
    Add(acc, w);
  }

  method Clear(a: array<byte>)
    modifies a
    ensures Val(a[..]) == 0
  {
    for i := 0 to a.Length
      invariant forall k :: 0 <= k < i ==> a[k] == 0
    {
      a[i] := 0;
    }
    ValZeros(a[..]);
  }

  method SetToOne(a: array<byte>)
    requires a.Length > 0
    modifies a
    ensures Val(a[..]) == 1
  {
    Clear(a);
    ghost var was := a[..];
    ValIsZero(was);
    a[0] := 1;
    ValUpdate(was, 0, 1);
    assert a[..] == was[0 := 1];
  }
}
