/** Big-endian digit strings in any base up to 256, and conversion that keeps leading zeros. */
module Radix {
  import opened Primitives
  import opened Digits

  predicate InBase(d: Bytes, base: nat) {
    forall i :: 0 <= i < |d| ==> d[i] as int < base
  }

  function Value(d: Bytes, base: nat): nat {
    if d == [] then 0 else Value(d[..|d| - 1], base) * base + d[|d| - 1] as nat
  }

  /** The digits of a number without leading zeros; none at all for zero. */
  function Canon(v: nat, base: nat): Bytes
    requires 2 <= base <= 256
  {
    if v == 0 then [] else Canon(v / base, base) + [(v % base) as byte]
  }

  function LeadingZeros(d: Bytes): (z: nat)
    ensures z <= |d| && (forall i :: 0 <= i < z ==> d[i] == 0) && (z < |d| ==> d[z] != 0)
  {
    if d == [] || d[0] != 0 then 0
    else
      assert forall i :: 0 <= i < |d| - 1 ==> d[1..][i] == d[i + 1];
      1 + LeadingZeros(d[1..])
  }

  /** A digit string rewritten in another base, one zero for every leading zero. */
  function Convert(d: Bytes, from: nat, to: nat): Bytes
    requires 2 <= to <= 256
  {
    Zeros(LeadingZeros(d)) + Canon(Value(d, from), to)
  }

  lemma Snoc(q: nat, base: nat, r: nat)
    requires r < base
    ensures (q * base + r) / base == q && (q * base + r) % base == r
  {
    QuotientIs(q * base + r, base, q, r);
  }

  lemma CanonUnfolds(v: nat, base: nat) returns (q: nat, r: byte)
    requires 2 <= base <= 256 && v > 0
    ensures q < v && r as int < base && v == q * base + r as nat && (q == 0 ==> r != 0)
    ensures Canon(v, base) == Canon(q, base) + [r]
  {
    Shrinks(v, base);
    Decompose(v, base);
    q, r := v / base, (v % base) as byte;
  }

  lemma {:induction false} CanonIsCanonical(v: nat, base: nat)
    requires 2 <= base <= 256
    ensures InBase(Canon(v, base), base)
    ensures Value(Canon(v, base), base) == v
    ensures LeadingZeros(Canon(v, base)) == 0
    ensures v > 0 ==> Canon(v, base) != []
  {
    if v != 0 {
      var q, r := CanonUnfolds(v, base);
      CanonIsCanonical(q, base);
      Appended(Canon(q, base), r, base);
      StillCanonical(Canon(q, base), r);
    }
  }

  lemma Appended(high: Bytes, r: byte, base: nat)
    ensures Value(high + [r], base) == Value(high, base) * base + r as nat
  {
    assert (high + [r])[..|high|] == high;
  }

  lemma StillCanonical(high: Bytes, r: byte)
    requires LeadingZeros(high) == 0 && (high == [] ==> r != 0)
    ensures LeadingZeros(high + [r]) == 0
  {
    if high != [] { assert (high + [r])[0] == high[0]; }
  }

  lemma {:induction false} ZerosAddNothing(n: nat, d: Bytes, base: nat)
    ensures Value(Zeros(n) + d, base) == Value(d, base)
    decreases n + |d|
  {
    if d != [] {
      var k := |d| - 1;
      assert (Zeros(n) + d)[..n + k] == Zeros(n) + d[..k];
      ZerosAddNothing(n, d[..k], base);
    } else if n > 0 {
      assert (Zeros(n) + d)[..n - 1] == Zeros(n - 1) + [];
      ZerosAddNothing(n - 1, [], base);
    }
  }

  /** A string whose first digit is not zero is the canonical form of its value. */
  lemma {:induction false} CanonOfValue(d: Bytes, base: nat)
    requires 2 <= base <= 256 && InBase(d, base) && (d != [] ==> d[0] != 0)
    ensures Canon(Value(d, base), base) == d
    ensures d != [] ==> Value(d, base) > 0
  {
    if d != [] {
      var k := |d| - 1;
      var q, r := Value(d[..k], base), d[k] as nat;
      CanonOfValue(d[..k], base);
      Snoc(q, base, r);
      if k > 0 { MulMono(1, q, base); }
      assert d == d[..k] + [d[k]];
    }
  }

  /** Every digit string is its leading zeros and the canonical form of its value. */
  lemma ZerosAndCanon(d: Bytes, base: nat)
    requires 2 <= base <= 256 && InBase(d, base)
    ensures d == Zeros(LeadingZeros(d)) + Canon(Value(d, base), base)
  {
    var z := LeadingZeros(d);
    assert d == Zeros(z) + d[z..];
    ZerosAddNothing(z, d[z..], base);
    CanonOfValue(d[z..], base);
  }

  lemma {:induction false} ZerosCounted(n: nat, d: Bytes)
    requires LeadingZeros(d) == 0
    ensures LeadingZeros(Zeros(n) + d) == n
  {
    if n == 0 {
      assert Zeros(0) + d == d;
    } else {
      assert (Zeros(n) + d)[1..] == Zeros(n - 1) + d;
      ZerosCounted(n - 1, d);
    }
  }

  /** Converting keeps the value and the number of leading zeros. */
  lemma ConvertKeeps(d: Bytes, from: nat, to: nat)
    requires 2 <= to <= 256
    ensures InBase(Convert(d, from, to), to)
    ensures Value(Convert(d, from, to), to) == Value(d, from)
    ensures LeadingZeros(Convert(d, from, to)) == LeadingZeros(d)
  {
    CanonIsCanonical(Value(d, from), to);
    ZerosAddNothing(LeadingZeros(d), Canon(Value(d, from), to), to);
    ZerosCounted(LeadingZeros(d), Canon(Value(d, from), to));
  }

  /** Converting there and back gives the same string. */
  lemma ConvertBack(d: Bytes, from: nat, to: nat)
    requires 2 <= from <= 256 && 2 <= to <= 256 && InBase(d, from)
    ensures Convert(Convert(d, from, to), to, from) == d
  {
    ConvertKeeps(d, from, to);
    ZerosAndCanon(d, from);
  }

  // ---- lengths ----

  lemma {:induction false} ValueGrows(d: Bytes, k: nat, base: nat)
    requires k <= |d| && base > 0
    ensures Value(d[..k], base) <= Value(d, base)
  {
    if k < |d| {
      var n := |d| - 1;
      assert d[..n][..k] == d[..k];
      ValueGrows(d[..n], k, base);
      MulMono(1, base, Value(d[..n], base));
      assert 1 * Value(d[..n], base) <= base * Value(d[..n], base) == Value(d[..n], base) * base;
    } else {
      assert d[..k] == d;
    }
  }

  lemma {:induction false} CanonGrows(v: nat, w: nat, base: nat)
    requires 2 <= base <= 256 && v <= w
    ensures |Canon(v, base)| <= |Canon(w, base)|
    decreases w, 1
  {
    if v > 0 {
      QuotientGrows(v, w, base);
      Shrinks(w, base);
      CanonGrowsBy(v, w, Quotient(v, base), Quotient(w, base), base);
    }
  }

  lemma {:induction false} CanonGrowsBy(v: nat, w: nat, q: nat, s: nat, base: nat)
    requires 2 <= base <= 256 && 0 < v <= w && q == v / base && s == w / base && q <= s < w
    ensures |Canon(v, base)| <= |Canon(w, base)|
    decreases w, 0
  {
    CanonGrows(q, s, base);
    CanonLonger(v, q, base);
    CanonLonger(w, s, base);
  }

  lemma CanonLonger(v: nat, q: nat, base: nat)
    requires 2 <= base <= 256 && v > 0 && q == v / base
    ensures |Canon(v, base)| == |Canon(q, base)| + 1
  {
  }

  lemma QuotientGrows(v: nat, w: nat, base: nat)
    requires base > 0 && v <= w
    ensures v / base <= w / base
  {
    Decompose(v, base);
    Decompose(w, base);
    assert (w / base + 1) * base == (w / base) * base + base;
    MulCancel(v / base, w / base + 1, base);
  }

  lemma Shrinks(v: nat, base: nat)
    requires base >= 2 && v > 0
    ensures v / base < v
  {
    Decompose(v, base);
    MulMono(2, base, v / base);
    assert base * (v / base) == (v / base) * base;
  }

  /** Two bytes never need more than three base-58 digits, at any size. */
  lemma {:induction false} DigitsNeeded(v: nat, pairs: nat)
    requires v < Pow256(2 * pairs)
    ensures |Canon(v, 58)| <= 3 * pairs
  {
    if pairs > 0 && v > 0 {
      var w := v / 58 / 58 / 58;
      assert Pow256(2 * pairs) == 65536 * Pow256(2 * (pairs - 1)) by {
        assert Pow256(2 * pairs) == 256 * Pow256(2 * pairs - 1);
      }
      assert w < Pow256(2 * (pairs - 1));
      DigitsNeeded(w, pairs - 1);
      CanonThrice(v);
    }
  }

  lemma CanonThrice(v: nat)
    ensures |Canon(v, 58)| <= |Canon(v / 58 / 58 / 58, 58)| + 3
  {
    if v > 0 && v / 58 > 0 && v / 58 / 58 > 0 {
      assert |Canon(v / 58 / 58, 58)| == |Canon(v / 58 / 58 / 58, 58)| + 1;
      assert |Canon(v / 58, 58)| == |Canon(v / 58 / 58, 58)| + 1;
    }
  }
}
