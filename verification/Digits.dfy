/** Numbers as little-endian byte sequences: values, positions and single bits. */
module Digits {
  import opened Primitives

  // ---- products and quotients ----

  lemma MulMono(a: int, b: int, c: int)
    requires a <= b && 0 <= c
    ensures a * c <= b * c
  {
  }

  lemma MulAssoc(a: int, b: int, c: int)
    ensures a * (b * c) == (a * b) * c
  {
  }

  lemma MulComm(a: int, b: int)
    ensures a * b == b * a
  {
  }

  lemma MulCancel(a: int, b: int, c: int)
    requires 0 <= c && a * c < b * c
    ensures a < b
  {
    if b <= a { MulMono(b, a, c); }
  }

  /** Two decompositions by the same divisor, seen from the smaller quotient. */
  lemma QuotientNotBelow(a: int, b: int, q: int, r: int, d: int)
    requires d > 0 && a * d + b == q * d + r && 0 <= b < d && 0 <= r
    ensures q <= a
  {
    assert (a + 1) * d == a * d + d;
    MulCancel(q, a + 1, d);
  }

  lemma QuotientIs(n: int, d: int, q: int, r: int)
    requires d > 0 && n == q * d + r && 0 <= r < d
    ensures n / d == q && n % d == r
  {
    var a, b := n / d, n % d;
    assert n == a * d + b;
    QuotientNotBelow(a, b, q, r, d);
    QuotientNotBelow(q, r, a, b, d);
  }

  lemma Decompose(n: nat, d: nat)
    requires d > 0
    ensures n == (n / d) * d + n % d && 0 <= n % d < d
  {
  }

  /** A whole quotient. */
  function Quotient(n: nat, d: nat): nat
    requires d > 0
  {
    n / d
  }

  lemma Regroup(s: nat, b: nat, t: nat, a: nat, r: nat)
    requires r < a && t < b
    ensures (s * b + t) * a + r == s * (a * b) + (t * a + r)
    ensures 0 <= t * a + r < a * b
  {
    MulAssoc(s, b, a);
    assert b * a == a * b;
    assert (s * b + t) * a == (s * b) * a + t * a;
    MulMono(t + 1, b, a);
    assert (t + 1) * a == t * a + a;
    MulMono(0, t, a);
  }

  lemma DivideTwice(n: nat, a: nat, b: nat)
    requires a > 0 && b > 0
    ensures a * b > 0 && n / (a * b) == n / a / b
  {
    var q := n / a;
    Decompose(n, a);
    Decompose(q, b);
    DivideByParts(n, a, b, q, n % a, q / b, q % b);
  }

  lemma DivideByParts(n: nat, a: nat, b: nat, q: nat, r: nat, s: nat, t: nat)
    requires n == q * a + r && r < a && q == s * b + t && t < b
    ensures a * b > 0 && n / (a * b) == s
  {
    Regroup(s, b, t, a, r);
    QuotientIs(n, a * b, s, t * a + r);
  }

  // ---- powers ----

  function Pow2(n: nat): (p: nat)
    ensures p > 0
  {
    if n == 0 then 1 else 2 * Pow2(n - 1)
  }

  function Pow256(n: nat): (p: nat)
    ensures p > 0
  {
    if n == 0 then 1 else 256 * Pow256(n - 1)
  }

  lemma {:induction false} Pow2Sum(a: nat, b: nat)
    ensures Pow2(a + b) == Pow2(a) * Pow2(b)
  {
    if a > 0 {
      Pow2Sum(a - 1, b);
      MulAssoc(2, Pow2(a - 1), Pow2(b));
    }
  }

  lemma {:induction false} Pow256Grows(a: nat, b: nat)
    requires a <= b
    ensures Pow256(a) <= Pow256(b)
  {
    if a < b { Pow256Grows(a, b - 1); }
  }

  lemma {:induction false} Pow256Sum(a: nat, b: nat)
    ensures Pow256(a + b) == Pow256(a) * Pow256(b)
  {
    if a > 0 {
      Pow256Sum(a - 1, b);
      MulAssoc(256, Pow256(a - 1), Pow256(b));
    }
  }

  lemma Pow2Of8()
    ensures Pow2(8) == 256
  {
    assert Pow2(4) == 16;
    Pow2Sum(4, 4);
  }

  lemma {:induction false} Pow256IsPow2(n: nat)
    ensures Pow256(n) == Pow2(8 * n)
  {
    if n > 0 {
      Pow256IsPow2(n - 1);
      Pow2Sum(8, 8 * (n - 1));
      Pow2Of8();
    }
  }

  // ---- values ----

  /** Value of a little-endian byte sequence. */
  function Val(s: Bytes): nat {
    if s == [] then 0 else s[0] as nat + 256 * Val(s[1..])
  }

  lemma {:induction false} ValBound(s: Bytes)
    ensures Val(s) < Pow256(|s|)
  {
    if s != [] { ValBound(s[1..]); }
  }

  lemma {:induction false} ValConcat(a: Bytes, b: Bytes)
    ensures Val(a + b) == Val(a) + Pow256(|a|) * Val(b)
  {
    if a == [] {
      assert a + b == b;
    } else {
      ValConcat(a[1..], b);
      assert (a + b)[1..] == a[1..] + b;
      MulAssoc(256, Pow256(|a| - 1), Val(b));
    }
  }

  lemma ValSplit(s: Bytes, k: nat)
    requires k <= |s|
    ensures Val(s) == Val(s[..k]) + Pow256(k) * Val(s[k..])
    ensures Val(s[..k]) < Pow256(k)
  {
    assert s == s[..k] + s[k..];
    ValConcat(s[..k], s[k..]);
    ValBound(s[..k]);
  }

  lemma ValOne(b: byte)
    ensures Val([b]) == b as nat
  {
    assert [b][1..] == [];
  }

  lemma ValAppend(s: Bytes, b: byte)
    ensures Val(s + [b]) == Val(s) + b as nat * Pow256(|s|)
  {
    ValConcat(s, [b]);
    ValOne(b);
  }

  /** One more byte of a prefix. */
  lemma ValPrefix(s: Bytes, k: nat)
    requires k < |s|
    ensures Val(s[..k + 1]) == Val(s[..k]) + s[k] as nat * Pow256(k)
  {
    assert s[..k + 1] == s[..k] + [s[k]];
    ValAppend(s[..k], s[k]);
  }

  lemma {:induction false} ValUpdate(s: Bytes, j: nat, v: byte)
    requires j < |s|
    ensures Val(s[j := v]) == Val(s) + (v as int - s[j] as int) * Pow256(j)
  {
    var t := s[j := v];
    if j == 0 {
      assert t[1..] == s[1..];
    } else {
      assert t[1..] == s[1..][j - 1 := v];
      ValUpdate(s[1..], j - 1, v);
      var d, p := v as int - s[j] as int, Pow256(j - 1);
      assert 256 * (d * p) == d * (256 * p);
    }
  }

  lemma {:induction false} ValZeros(s: Bytes)
    requires forall i :: 0 <= i < |s| ==> s[i] == 0
    ensures Val(s) == 0
  {
    if s != [] { ValZeros(s[1..]); }
  }

  lemma {:induction false} ValIsZero(s: Bytes)
    requires Val(s) == 0
    ensures forall i :: 0 <= i < |s| ==> s[i] == 0
  {
    if s != [] {
      ValIsZero(s[1..]);
      assert forall i :: 1 <= i < |s| ==> s[i] == s[1..][i - 1];
    }
  }

  /** The first difference from the top decides the order. */
  lemma {:induction false} TopDifferenceDecides(a: Bytes, b: Bytes, k: nat)
    requires k < |a| == |b| && a[k] < b[k] && a[k + 1..] == b[k + 1..]
    ensures Val(a) < Val(b)
  {
    if k > 0 {
      assert a[1..][k..] == a[k + 1..] && b[1..][k..] == b[k + 1..];
      TopDifferenceDecides(a[1..], b[1..], k - 1);
    }
  }

  /** Sequences of one length are determined by their value. */
  lemma {:induction false} ValIsInjective(a: Bytes, b: Bytes)
    requires |a| == |b| && Val(a) == Val(b)
    ensures a == b
  {
    if a != [] {
      assert a[0] as nat == b[0] as nat;
      ValIsInjective(a[1..], b[1..]);
      assert a == [a[0]] + a[1..] && b == [b[0]] + b[1..];
    }
  }

  // ---- bits ----

  function ShiftRight(n: nat, k: nat): nat {
    if k == 0 then n else ShiftRight(n / 2, k - 1)
  }

  function BitOf(n: nat, k: nat): nat {
    ShiftRight(n, k) % 2
  }

  /** A value shifted right by one bit less is twice the shift plus the bit. */
  lemma {:induction false} ShiftStep(n: nat, k: nat)
    ensures ShiftRight(n, k) == 2 * ShiftRight(n, k + 1) + BitOf(n, k)
  {
    if k > 0 { ShiftStep(n / 2, k - 1); }
  }

  lemma {:induction false} ShiftSum(n: nat, a: nat, b: nat)
    ensures ShiftRight(n, a + b) == ShiftRight(ShiftRight(n, a), b)
  {
    if a > 0 { ShiftSum(n / 2, a - 1, b); }
  }

  lemma {:induction false} ShiftedOut(n: nat, k: nat)
    requires n < Pow2(k)
    ensures ShiftRight(n, k) == 0
  {
    if k > 0 { ShiftedOut(n / 2, k - 1); }
  }

  lemma {:induction false} ShiftOfMultiple(m: nat, k: nat)
    ensures ShiftRight(m * Pow2(k), k) == m
  {
    if k > 0 {
      assert m * (2 * Pow2(k - 1)) == 2 * (m * Pow2(k - 1));
      ShiftOfMultiple(m, k - 1);
    }
  }

  /** Adding a multiple of 2^k only adds to what is left after shifting by k. */
  lemma {:induction false} LowBits(x: nat, y: nat, h: nat, k: nat)
    requires y == Pow2(k) * h
    ensures ShiftRight(x + y, k) == ShiftRight(x, k) + h
  {
    if k > 0 {
      var half := Pow2(k - 1) * h;
      MulAssoc(2, Pow2(k - 1), h);
      assert y == 2 * half;
      LowBits(x / 2, half, h, k - 1);
      HalfOfSum(x, half);
    }
  }

  lemma HalfOfSum(x: nat, half: nat)
    ensures (x + 2 * half) / 2 == x / 2 + half
  {
  }

  /** Setting a clear bit of a w-bit number stays within w bits. */
  lemma {:induction false} HasRoom(x: nat, k: nat, w: nat)
    requires k < w && x < Pow2(w) && BitOf(x, k) == 0
    ensures x + Pow2(k) < Pow2(w)
  {
    if k > 0 {
      assert BitOf(x, k) == BitOf(x / 2, k - 1);
      HasRoom(x / 2, k - 1, w - 1);
      RoomAbove(x, Pow2(k - 1), Pow2(w - 1));
    } else {
      RoomBelow(x, Pow2(w - 1));
    }
  }

  lemma RoomAbove(x: nat, p: nat, q: nat)
    requires x / 2 + p < q
    ensures x + 2 * p < 2 * q
  {
  }

  lemma RoomBelow(x: nat, q: nat)
    requires x % 2 == 0 && x < 2 * q
    ensures x + 1 < 2 * q
  {
  }

  /** Setting bit k of a byte. */
  function SetBit(b: byte, k: nat): (r: byte)
    requires k < 8
    ensures BitOf(b as nat, k) == 0 ==> r as int == b as int + Pow2(k)
  {
    if BitOf(b as nat, k) == 1 then b else
      Pow2Of8();
      HasRoom(b as nat, k, 8);
      (b as int + Pow2(k)) as byte
  }

  lemma LowBitOfByte(x: nat, h: nat, bit: nat)
    requires bit < 8
    ensures BitOf(x + 256 * h, bit) == BitOf(x, bit)
  {
    ByteAbove(h, bit);
    EvenAbove(x, 256 * h, Pow2(7 - bit) * h, bit);
  }

  lemma EvenAbove(x: nat, y: nat, g: nat, bit: nat)
    requires y == Pow2(bit) * (2 * g)
    ensures BitOf(x + y, bit) == BitOf(x, bit)
  {
    LowBits(x, y, 2 * g, bit);
    EvenAdds(ShiftRight(x, bit), g);
  }

  lemma EvenAdds(a: nat, g: nat)
    ensures (a + 2 * g) % 2 == a % 2
  {
  }

  /** What stands above a byte is even when shifted by less than a byte. */
  lemma ByteAbove(h: nat, bit: nat)
    requires bit < 8
    ensures 256 * h == Pow2(bit) * (2 * (Pow2(7 - bit) * h))
  {
    Pow2Of8();
    Pow2Sum(bit, 8 - bit);
    MulAssoc(2, Pow2(7 - bit), h);
    assert Pow2(8 - bit) * h == 2 * (Pow2(7 - bit) * h);
    MulAssoc(Pow2(bit), Pow2(8 - bit), h);
  }

  lemma ShiftByte(x: nat, h: nat)
    requires x < 256
    ensures ShiftRight(x + 256 * h, 8) == h
  {
    Pow2Of8();
    LowBits(x, 256 * h, h, 8);
    ShiftedOut(x, 8);
  }

  /** The bits of a value are the bits of its bytes. */
  lemma {:induction false} BitOfVal(s: Bytes, bit: nat)
    requires bit / 8 < |s|
    ensures BitOf(Val(s), bit) == BitOf(s[bit / 8] as nat, bit % 8)
  {
    if bit < 8 {
      LowBitOfByte(s[0] as nat, Val(s[1..]), bit);
    } else {
      BitOfVal(s[1..], bit - 8);
      ShiftSum(Val(s), 8, bit - 8);
      ShiftByte(s[0] as nat, Val(s[1..]));
    }
  }

  /** Setting a clear bit adds its weight to the value. */
  lemma SetBitAdds(s: Bytes, bit: nat)
    requires bit / 8 < |s| && BitOf(Val(s), bit) == 0
    ensures Val(s[bit / 8 := SetBit(s[bit / 8], bit % 8)]) == Val(s) + Pow2(bit)
  {
    var j, k := bit / 8, bit % 8;
    BitOfVal(s, bit);
    ValUpdate(s, j, SetBit(s[j], k));
    Pow256IsPow2(j);
    Pow2Sum(k, 8 * j);
  }
}
