/** Compact targets: a one-byte exponent and a 23-bit mantissa for a 256-bit number. */
module Compact {
  import opened Primitives
  import opened Digits

  // ---- number of bytes ----

  function ByteLength(n: nat): nat {
    if n == 0 then 0 else 1 + ByteLength(n / 256)
  }

  lemma {:induction false} ByteLengthIs(n: nat, size: nat)
    requires n < Pow256(size) && (size > 0 ==> Pow256(size - 1) <= n)
    ensures ByteLength(n) == size
  {
    if size == 1 {
      assert Pow256(1) == 256 && n / 256 == 0;
    } else if size > 1 {
      assert Pow256(size) == 256 * Pow256(size - 1) && Pow256(size - 1) == 256 * Pow256(size - 2);
      ByteLengthIs(n / 256, size - 1);
    }
  }

  lemma {:induction false} ByteLengthBounds(n: nat)
    ensures n < Pow256(ByteLength(n))
    ensures n > 0 ==> ByteLength(n) > 0 && Pow256(ByteLength(n) - 1) <= n
  {
    if n > 0 {
      ByteLengthBounds(n / 256);
    }
  }

  // ---- decoding ----

  lemma SmallPowers()
    ensures Pow256(0) == 1 && Pow256(1) == 256 && Pow256(2) == 65536 && Pow256(3) == 16777216
  {
  }

  function Exponent(bits: nat): nat { bits / 0x100_0000 }

  function Mantissa(bits: nat): nat { bits % 0x80_0000 }

  predicate Negative(bits: nat) { (bits / 0x80_0000) % 2 == 1 }

  /** The target a compact form stands for; none for zero, negative or too wide. */
  function Decode(bits: nat): Option<nat> {
    var exp, mant := Exponent(bits), Mantissa(bits);
    if Negative(bits) || mant == 0 then None
    else if exp <= 3 then
      var n := mant / Pow256(3 - exp);
      if n == 0 then None else Some(n)
    else if exp > 32 then None
    else Some(mant * Pow256(exp - 3))
  }

  /** What decoding leaves of the mantissa, and the zero bytes below it. */
  function Kept(bits: nat): nat {
    if Exponent(bits) >= 3 then Mantissa(bits)
    else if Exponent(bits) == 2 then Mantissa(bits) / 256
    else if Exponent(bits) == 1 then Mantissa(bits) / 65536
    else 0
  }

  function Shift(bits: nat): nat {
    if Exponent(bits) >= 3 then Exponent(bits) - 3 else 0
  }

  lemma DecodedForm(bits: nat)
    ensures Decode(bits).Some? <==> !Negative(bits) && Kept(bits) > 0 && Shift(bits) <= 29
    ensures Decode(bits).Some? ==> Decode(bits).value == Kept(bits) * Pow256(Shift(bits))
    ensures Kept(bits) < 0x80_0000
  {
    SmallPowers();
    var mant := Mantissa(bits);
    assert mant / 16777216 == 0;
    if Exponent(bits) == 3 { assert mant / 1 == mant; }
  }

  /**
   A compact form by its value: with the sign bit clear and an exponent of at most 32 it stands for the whole part of
   mantissa times 256^(exponent - 3), if that is positive, and otherwise for nothing.
   */
  lemma DecodeIsWholePart(bits: nat, v: nat)
    ensures var exp, mant := bits / 0x100_0000, bits % 0x80_0000;
      Decode(bits) == Some(v) <==>
        && (bits / 0x80_0000) % 2 == 0 && exp <= 32 && v > 0
        && v * Pow256(3) <= mant * Pow256(exp) < (v + 1) * Pow256(3)
  {
    var exp, mant := Exponent(bits), Mantissa(bits);
    if exp <= 3 {
      ShortWholePart(mant, exp, v);
    } else if exp <= 32 {
      LongForm(mant, exp);
      LongWholePart(mant, Pow256(exp - 3), Pow256(3), v);
    }
  }

  lemma ShortWholePart(mant: nat, exp: nat, v: nat)
    requires exp <= 3
    ensures v == mant / Pow256(3 - exp) <==> v * Pow256(3) <= mant * Pow256(exp) < (v + 1) * Pow256(3)
  {
    SmallPowers();
    if exp == 0 {
      assert v == mant / 16777216 <==> v * 16777216 <= mant < (v + 1) * 16777216;
    } else if exp == 1 {
      assert v == mant / 65536 <==> v * 65536 <= mant < (v + 1) * 65536;
    } else if exp == 2 {
      assert v == mant / 256 <==> v * 256 <= mant < (v + 1) * 256;
    } else {
      assert mant / 1 == mant;
    }
  }

  lemma LongForm(mant: nat, exp: nat)
    requires exp >= 3
    ensures mant * Pow256(exp) == mant * Pow256(exp - 3) * Pow256(3)
  {
    Pow256Sum(exp - 3, 3);
    assert mant * (Pow256(exp - 3) * Pow256(3)) == mant * Pow256(exp - 3) * Pow256(3);
  }

  lemma LongWholePart(mant: nat, p: nat, q: nat, v: nat)
    requires q > 0
    ensures v == mant * p <==> v * q <= mant * p * q < (v + 1) * q
  {
    var n := mant * p;
    if v < n { MulMono(v + 1, n, q); }
    if v > n { MulMono(n + 1, v, q); }
  }

  /** A decoded target is positive and leaves the top bit clear. */
  lemma DecodedIsBelowHalf(bits: nat)
    requires Decode(bits).Some?
    ensures 0 < Decode(bits).value < 0x80_0000 * Pow256(29)
  {
    DecodedForm(bits);
    var m, e := Kept(bits), Shift(bits);
    Pow256Grows(e, 29);
    MulMono(m, 0x7f_ffff, Pow256(e));
    MulMono(1, m, Pow256(e));
  }

  // ---- encoding ----

  /** The leading three bytes of a number, shifted up when it is shorter. */
  function Leading(n: nat): nat {
    var size := ByteLength(n);
    if size <= 1 then n * 65536
    else if size == 2 then n * 256
    else Quotient(n, Pow256(size - 3))
  }

  /** The compact form: leading bytes with the sign bit kept clear, zero for zero. */
  function Encode(n: nat): nat {
    var size, lead := ByteLength(n), Leading(n);
    if n == 0 then 0
    else if lead >= 0x80_0000 then (size + 1) * 0x100_0000 + lead / 256
    else size * 0x100_0000 + lead
  }

  /** A form the encoder can produce: no mantissa byte is wasted at either end. */
  predicate Canonical(bits: nat) {
    && !Negative(bits)
    && Mantissa(bits) >= 0x8000
    && Exponent(bits) >= 1
    && (Exponent(bits) == 1 ==> Mantissa(bits) % 65536 == 0)
    && (Exponent(bits) == 2 ==> Mantissa(bits) % 256 == 0)
  }

  lemma Fields(exp: nat, mant: nat)
    requires mant < 0x80_0000
    ensures var bits := exp * 0x100_0000 + mant;
            Exponent(bits) == exp && Mantissa(bits) == mant && !Negative(bits)
  {
  }

  /** A number of at most three significant bytes followed by e zero bytes. */
  lemma LeadingOf(m: nat, e: nat)
    requires 0 < m < 0x100_0000
    ensures var l := if m < 256 then 1 else if m < 65536 then 2 else 3;
            ByteLength(m * Pow256(e)) == e + l && Leading(m * Pow256(e)) == m * Pow256(3 - l)
  {
    SmallPowers();
    var l := if m < 256 then 1 else if m < 65536 then 2 else 3;
    var n, p := m * Pow256(e), Pow256(e);
    Pow256Sum(l - 1, e);
    Pow256Sum(l, e);
    MulMono(Pow256(l - 1), m, p);
    MulCompare(m, Pow256(l), p);
    ByteLengthIs(n, e + l);
    LeadingShift(m, e, l);
  }

  lemma MulCompare(a: nat, b: nat, p: nat)
    requires a < b && p > 0
    ensures a * p < b * p
  {
    MulMono(a + 1, b, p);
    assert (a + 1) * p == a * p + p;
  }

  lemma LeadingShift(m: nat, e: nat, l: nat)
    requires 1 <= l <= 3 && ByteLength(m * Pow256(e)) == e + l
    ensures Leading(m * Pow256(e)) == m * Pow256(3 - l)
  {
    SmallPowers();
    if e + l <= 2 {
      assert e == 0 || (e == 1 && l == 1);
    } else {
      var k := e + l - 3;
      Pow256Sum(3 - l, k);
      MulAssoc(m, Pow256(3 - l), Pow256(k));
      QuotientIs(m * Pow256(e), Pow256(k), m * Pow256(3 - l), 0);
    }
  }

  lemma EncodeOf(m: nat, e: nat)
    requires 0 < m < 0x80_0000
    ensures Encode(m * Pow256(e)) ==
      (if m >= 0x8000 then (e + 3) * 0x100_0000 + m
       else if m >= 0x80 then (e + 2) * 0x100_0000 + m * 256
       else (e + 1) * 0x100_0000 + m * 65536)
  {
    SmallPowers();
    LeadingOf(m, e);
    MulMono(1, m, Pow256(e));
    EncodeFrom(m * Pow256(e), ByteLength(m * Pow256(e)), Leading(m * Pow256(e)));
  }

  lemma EncodeFrom(n: nat, size: nat, lead: nat)
    requires n > 0 && size == ByteLength(n) && lead == Leading(n)
    ensures Encode(n) ==
      if lead >= 0x80_0000 then (size + 1) * 0x100_0000 + lead / 256 else size * 0x100_0000 + lead
  {
  }

  lemma SameFields(exp: nat, mant: nat, exp2: nat, mant2: nat)
    requires mant < 0x100_0000 && mant2 < 0x100_0000
    ensures exp * 0x100_0000 + mant == exp2 * 0x100_0000 + mant2 <==> exp == exp2 && mant == mant2
  {
  }

  lemma FieldsOf(bits: nat)
    requires !Negative(bits)
    ensures bits == Exponent(bits) * 0x100_0000 + Mantissa(bits)
  {
  }

  /** Encoding gives back the bits a target was decoded from exactly when they are canonical. */
  lemma EncodeDecode(bits: nat)
    requires Decode(bits).Some?
    ensures Encode(Decode(bits).value) == bits <==> Canonical(bits)
  {
    DecodedForm(bits);
    FieldsOf(bits);
    EncodeOf(Kept(bits), Shift(bits));
    FormIsCanonical(Exponent(bits), Mantissa(bits), Kept(bits), Shift(bits), bits);
  }

  lemma FormIsCanonical(exp: nat, mant: nat, m: nat, e: nat, bits: nat)
    requires exp == Exponent(bits) && mant == Mantissa(bits) && !Negative(bits)
    requires m == Kept(bits) > 0 && e == Shift(bits)
    ensures Canonical(bits) <==>
              (if m >= 0x8000 then (e + 3) * 0x100_0000 + m
               else if m >= 0x80 then (e + 2) * 0x100_0000 + m * 256
               else (e + 1) * 0x100_0000 + m * 65536) == exp * 0x100_0000 + mant
  {
    if m >= 0x8000 {
      SameFields(e + 3, m, exp, mant);
    } else if m >= 0x80 {
      SameFields(e + 2, m * 256, exp, mant);
    } else {
      SameFields(e + 1, m * 65536, exp, mant);
    }
  }

  // ---- rounding ----

  /** The power of the unit a number is rounded to. */
  function Unit(n: nat): nat {
    var size := ByteLength(n);
    if size <= 2 then 0 else if Leading(n) >= 0x80_0000 then size - 2 else size - 3
  }

  lemma QuotientRange(n: nat, p: nat, lo: nat, hi: nat)
    requires p > 0 && lo * p <= n < hi * p
    ensures lo <= n / p < hi
  {
    Decompose(n, p);
    MulCancel(n / p, hi, p);
    assert (n / p + 1) * p == (n / p) * p + p;
    MulCancel(lo, n / p + 1, p);
  }

  lemma SizeFits(n: nat)
    requires n < 0x80_0000 * Pow256(29)
    ensures ByteLength(n) <= 32
  {
    ByteLengthBounds(n);
    SmallPowers();
    Pow256Sum(3, 29);
    if ByteLength(n) > 32 { Pow256Grows(32, ByteLength(n) - 1); }
  }

  lemma LeadingRange(n: nat)
    requires ByteLength(n) >= 3
    ensures Leading(n) == n / Pow256(ByteLength(n) - 3)
    ensures 0x1_0000 <= Leading(n) < 0x100_0000
  {
    var size := ByteLength(n);
    ByteLengthBounds(n);
    SmallPowers();
    Pow256Sum(2, size - 3);
    Pow256Sum(3, size - 3);
    QuotientRange(n, Pow256(size - 3), 0x1_0000, 0x100_0000);
    if size == 3 { assert n * 1 == n / 1; }
  }

  /** The number in units is its leading bytes, without the lowest when they would reach the sign bit. */
  lemma UnitQuotient(n: nat)
    requires ByteLength(n) >= 3
    ensures n / Pow256(Unit(n)) == if Leading(n) >= 0x80_0000 then Leading(n) / 256 else Leading(n)
  {
    LeadingRange(n);
    if Leading(n) >= 0x80_0000 {
      var p := Pow256(ByteLength(n) - 3);
      assert Pow256(Unit(n)) == p * 256;
      DivideTwice(n, p, 256);
    }
  }

  /** The unit of a number below the top bit. */
  lemma UnitBound(n: nat)
    requires ByteLength(n) >= 3 && n < 0x80_0000 * Pow256(29)
    ensures Unit(n) <= 29
  {
    SizeFits(n);
    LeadingRange(n);
    if ByteLength(n) == 32 { QuotientRange(n, Pow256(29), 0, 0x80_0000); }
  }

  /** The rounded number in units: the mantissa of its compact form. */
  lemma UnitFits(n: nat)
    requires ByteLength(n) >= 3 && n < 0x80_0000 * Pow256(29)
    ensures Unit(n) <= 29 && 0x8000 <= n / Pow256(Unit(n)) < 0x80_0000
    ensures Encode(n) == (Unit(n) + 3) * 0x100_0000 + n / Pow256(Unit(n))
  {
    UnitBound(n);
    LeadingRange(n);
    UnitQuotient(n);
    EncodeFrom(n, ByteLength(n), Leading(n));
  }

  /** What survives encoding: the number rounded down to its unit. */
  function Rounded(n: nat): nat {
    n - n % Pow256(Unit(n))
  }

  /** The target of canonical fields. */
  lemma DecodeFields(exp: nat, mant: nat)
    requires 1 <= exp <= 32 && 0x8000 <= mant < 0x80_0000
    requires (exp == 1 ==> mant % 65536 == 0) && (exp == 2 ==> mant % 256 == 0)
    ensures var bits := exp * 0x100_0000 + mant;
            && Canonical(bits) && Decode(bits).Some?
            && (exp == 1 ==> Decode(bits).value == mant / 65536)
            && (exp == 2 ==> Decode(bits).value == mant / 256)
            && (exp >= 3 ==> Decode(bits).value == mant * Pow256(exp - 3))
  {
    Fields(exp, mant);
    DecodedForm(exp * 0x100_0000 + mant);
    SmallPowers();
  }

  lemma SmallIsExact(n: nat)
    requires 0 < n < 65536
    ensures Canonical(Encode(n)) && Decode(Encode(n)) == Some(n)
  {
    SmallPowers();
    EncodeOf(n, 0);
    assert n * Pow256(0) == n;
    if n >= 0x8000 {
      DecodeFields(3, n);
    } else if n >= 0x80 {
      DecodeFields(2, n * 256);
    } else {
      DecodeFields(1, n * 65536);
    }
  }

  lemma DecodeUnits(bits: nat, n: nat, u: nat, m: nat)
    requires u <= 29 && 0x8000 <= m < 0x80_0000 && m == n / Pow256(u)
    requires bits == (u + 3) * 0x100_0000 + m
    ensures Canonical(bits) && Decode(bits) == Some(n - n % Pow256(u))
  {
    DecodeFields(u + 3, m);
    Decompose(n, Pow256(u));
  }

  lemma LargeRounds(n: nat)
    requires ByteLength(n) >= 3 && n < 0x80_0000 * Pow256(29)
    ensures Canonical(Encode(n)) && Decode(Encode(n)) == Some(Rounded(n))
  {
    UnitFits(n);
    RoundsTo(n, Unit(n), Encode(n), Rounded(n));
  }

  lemma RoundsTo(n: nat, u: nat, bits: nat, r: int)
    requires u <= 29 && 0x8000 <= n / Pow256(u) < 0x80_0000 && bits == (u + 3) * 0x100_0000 + n / Pow256(u)
    requires r == n - n % Pow256(u)
    ensures Canonical(bits) && Decode(bits) == Some(r)
  {
    DecodeUnits(bits, n, u, Quotient(n, Pow256(u)));
  }

  lemma ByteLengthSmall(n: nat)
    ensures ByteLength(n) >= 3 <==> n >= 65536
  {
    SmallPowers();
    ByteLengthBounds(n);
    if ByteLength(n) >= 3 { Pow256Grows(2, ByteLength(n) - 1); } else { Pow256Grows(ByteLength(n), 2); }
  }

  /** Nothing representable lies strictly between a number and its multiple of a fitting unit. */
  lemma NothingBetween(n: nat, u: nat, m: nat, e: nat)
    requires n / Pow256(u) >= 0x8000
    requires m < 0x80_0000 && m * Pow256(e) <= n
    ensures m * Pow256(e) <= (n / Pow256(u)) * Pow256(u)
  {
    if e >= u {
      Pow256Sum(e - u, u);
      CoarserIsMultiple(n, Pow256(u), m, Pow256(e - u));
    } else {
      Pow256Grows(e, u - 1);
      BelowUnit(m, Pow256(e), Pow256(u - 1), n / Pow256(u));
    }
  }

  lemma CoarserIsMultiple(n: nat, p: nat, m: nat, k: nat)
    requires p > 0 && m * (k * p) <= n
    ensures m * (k * p) <= (n / p) * p
  {
    MulAssoc(m, k, p);
    MultipleBelow(n, p, m * k);
  }

  lemma BelowUnit(m: nat, p: nat, r: nat, q: nat)
    requires p <= r && m < 0x80_0000 && q >= 0x8000
    ensures m * p <= q * (256 * r)
  {
    MulMono(m, 0x80_0000, p);
    MulMono(0x8000, q, 256 * r);
  }

  lemma MultipleBelow(n: nat, p: nat, k: nat)
    requires p > 0 && k * p <= n
    ensures k * p <= (n / p) * p
  {
    Decompose(n, p);
    assert (n / p + 1) * p == (n / p) * p + p;
    MulCancel(k, n / p + 1, p);
    MulMono(k, n / p, p);
  }

  /** Less than one part in 32768 is lost. */
  lemma RoundedIsClose(n: nat, p: nat)
    requires p > 0 && n / p >= 0x8000
    ensures n % p <= n && 0x8000 * (n % p) < n
  {
    Decompose(n, p);
    MulMono(0x8000, n / p, p);
  }

  /** No target between the rounded number and the number has a compact form. */
  lemma RoundedIsBest(n: nat, bits: nat)
    requires ByteLength(n) >= 3 && n < 0x80_0000 * Pow256(29)
    requires Decode(bits).Some? && Decode(bits).value <= n
    ensures Decode(bits).value <= Rounded(n)
  {
    UnitFits(n);
    DecodedForm(bits);
    Decompose(n, Pow256(Unit(n)));
    NothingBetween(n, Unit(n), Kept(bits), Shift(bits));
  }

  /**
   * Encoding rounds down to the nearest target that has a compact form, loses less than one
   * part in 32768, and always produces canonical bits.
   */
  lemma EncodeRoundsDown(n: nat)
    requires 0 < n < 0x80_0000 * Pow256(29)
    ensures Canonical(Encode(n)) && Decode(Encode(n)).Some?
    ensures var v := Decode(Encode(n)).value; v <= n && 0x8000 * (n - v) < n
    ensures forall bits: nat :: Decode(bits).Some? && Decode(bits).value <= n
              ==> Decode(bits).value <= Decode(Encode(n)).value
  {
    ByteLengthSmall(n);
    if n < 65536 {
      SmallIsExact(n);
    } else {
      LargeRounds(n);
      UnitFits(n);
      RoundedIsClose(n, Pow256(Unit(n)));
      forall bits: nat | Decode(bits).Some? && Decode(bits).value <= n
        ensures Decode(bits).value <= Rounded(n)
      {
        RoundedIsBest(n, bits);
      }
    }
  }
}
