/** Digishield: the next block's target from the previous one and its solve time. */
module Retarget {
  import opened Primitives
  import opened Digits
  import opened Compact
  import opened Wide
  import opened Pow

  const TARGET_SPACING := 60
  const WIDE_BYTES := 40

  /** Division that truncates toward zero. */
  function Truncated(a: int, d: int): int
    requires d > 0
  {
    if a >= 0 then a / d else -((-a) / d)
  }

  /** The spacing, moved an eighth of the way to the solve time, rounded toward the spacing and kept within limits. */
  function Modulated(actual: int): (m: nat)
    ensures 45 <= m <= 90 && (actual > 300 ==> m == 90) && (actual < -60 ==> m == 45)
    ensures 60 <= actual <= 300 ==> 60 <= m <= actual && 8 * (m - 60) <= actual - 60 < 8 * (m - 60 + 1)
    ensures -60 <= actual <= 60 ==> actual <= m <= 60 && 8 * (60 - m) <= 60 - actual < 8 * (60 - m + 1)
  {
    var m := TARGET_SPACING + Truncated(actual - TARGET_SPACING, 8);
    if m < 45 then 45 else if m > 90 then 90 else m
  }

  /** The next target before it is rounded to a compact form. */
  function NextTarget(prev: nat, actual: int, limit: nat): nat {
    var scaled := prev * Modulated(actual) / TARGET_SPACING;
    if scaled > limit then limit else scaled
  }

  /** The nBits required of the next block; zero when either input is no target. */
  function NextBits(prevBits: nat, actual: int, limitBits: nat): nat {
    match (Decode(prevBits), Decode(limitBits))
    case (Some(prev), Some(limit)) => Encode(NextTarget(prev, actual, limit))
    case _ => 0
  }

  // ---- what the rule guarantees ----

  /** The next target is the sixtieth part of the previous one times that time, rounded down, or the limit if less. */
  lemma NextTargetIsScaled(prev: nat, actual: int, limit: nat)
    ensures var t, m := NextTarget(prev, actual, limit), Modulated(actual);
      t <= limit && 60 * t <= prev * m && (t < limit ==> prev * m < 60 * (t + 1))
  {
    var product := prev * Modulated(actual);
    assert product == product / 60 * 60 + product % 60;
  }

  lemma ZeroBitsDecodeToNothing()
    ensures Decode(0) == None && Encode(0) == 0
  {
  }

  lemma NextTargetWithinLimit(prev: nat, actual: int, limit: nat)
    ensures NextTarget(prev, actual, limit) <= limit
  {
  }

  /** The next target never exceeds the limit, and its bits are always canonical. */
  lemma NextStaysWithinLimit(prevBits: nat, actual: int, limitBits: nat)
    ensures var next := NextBits(prevBits, actual, limitBits);
            Decode(next).Some? ==>
              Decode(limitBits).Some? && Decode(next).value <= Decode(limitBits).value && Canonical(next)
  {
    ZeroBitsDecodeToNothing();
    if Decode(prevBits).Some? && Decode(limitBits).Some? {
      var limit := Decode(limitBits).value;
      var n := NextTarget(Decode(prevBits).value, actual, limit);
      NextTargetWithinLimit(Decode(prevBits).value, actual, limit);
      DecodedIsBelowHalf(limitBits);
      if n > 0 { EncodeRoundsDown(n); }
    }
  }

  lemma ScaledIsPositive(prev: nat, m: nat)
    requires prev > 0 && 45 <= m <= 90
    ensures prev * m / TARGET_SPACING == 0 <==> prev == 1 && m < 60
  {
    if prev >= 2 { MulMono(2, prev, m); } else { assert prev * m == m; }
  }

  /** There is a next target unless an input is none or the smallest target would shrink. */
  lemma NextExists(prevBits: nat, actual: int, limitBits: nat)
    ensures Decode(NextBits(prevBits, actual, limitBits)).Some? <==>
              && Decode(prevBits).Some? && Decode(limitBits).Some?
              && !(Decode(prevBits).value == 1 && Modulated(actual) < TARGET_SPACING)
  {
    ZeroBitsDecodeToNothing();
    if Decode(prevBits).Some? && Decode(limitBits).Some? {
      DecodedIsBelowHalf(prevBits);
      DecodedIsBelowHalf(limitBits);
      var prev, limit := Decode(prevBits).value, Decode(limitBits).value;
      ScaledIsPositive(prev, Modulated(actual));
      EncodedExists(NextTarget(prev, actual, limit));
    }
  }

  /** Every number below the top bit but zero has a compact form that decodes. */
  lemma EncodedExists(n: nat)
    requires n < 0x80_0000 * Pow256(29)
    ensures Decode(Encode(n)).Some? <==> n > 0
  {
    if n > 0 { EncodeRoundsDown(n); } else { ZeroBitsDecodeToNothing(); }
  }

  /** A block solved on schedule keeps nBits within the limit exactly when they are canonical. */
  lemma OnScheduleKeepsBits(prevBits: nat, limitBits: nat)
    requires Decode(prevBits).Some? && Decode(limitBits).Some?
    requires Decode(prevBits).value <= Decode(limitBits).value
    ensures NextBits(prevBits, TARGET_SPACING, limitBits) == prevBits <==> Canonical(prevBits)
  {
    EncodeDecode(prevBits);
    var prev := Decode(prevBits).value;
    assert prev * 60 / 60 == prev;
  }

  lemma ModulatedIsMonotone(fast: int, slow: int)
    requires fast <= slow
    ensures Modulated(fast) <= Modulated(slow)
  {
  }

  lemma ScaledIsMonotone(prev: nat, m: nat, n: nat)
    requires m <= n
    ensures prev * m / TARGET_SPACING <= prev * n / TARGET_SPACING
  {
    MulMono(m, n, prev);
    assert prev * m <= prev * n;
  }

  /** A slower block never makes the next target harder. */
  lemma SlowerIsNoHarder(prevBits: nat, fast: int, slow: int, limitBits: nat)
    requires fast <= slow
    requires Decode(NextBits(prevBits, fast, limitBits)).Some?
    ensures Decode(NextBits(prevBits, slow, limitBits)).Some?
    ensures Decode(NextBits(prevBits, fast, limitBits)).value <= Decode(NextBits(prevBits, slow, limitBits)).value
  {
    NextExists(prevBits, fast, limitBits);
    NextExists(prevBits, slow, limitBits);
    ModulatedIsMonotone(fast, slow);
    var prev, limit := Decode(prevBits).value, Decode(limitBits).value;
    ScaledIsMonotone(prev, Modulated(fast), Modulated(slow));
    DecodedIsBelowHalf(limitBits);
    var a, b := NextTarget(prev, fast, limit), NextTarget(prev, slow, limit);
    if a > 0 {
      EncodeRoundsDown(a);
      EncodeRoundsDown(b);
    } else {
      ZeroBitsDecodeToNothing();
    }
  }

  // ---- the 40-byte multiply and divide ----

  /** The bytes done so far and the carry make the product of the bytes read so far. */
  ghost predicate Multiplied(low: Bytes, carry: nat, x: Bytes, m: nat) {
    |low| <= |x| && Val(low) + carry * Pow256(|low|) == Val(x[..|low|]) * m
  }

  lemma MultiplyColumn(low: Bytes, c: nat, x: Bytes, m: nat, v: byte, e: nat)
    requires Multiplied(low, c, x, m) && |low| < |x|
    requires v as int + 256 * e == c + x[|low|] as int * m
    ensures Multiplied(low + [v], e, x, m)
  {
    var i := |low|;
    ProductColumn(Val(low), x[i] as int, m, c, v as int, e, Val(x[..i]), Pow256(i));
    ValPrefix(x, i);
    ValAppend(low, v);
  }

  lemma ProductColumn(low: int, x: int, m: int, c: int, v: int, e: int, xv: int, p: int)
    requires low + c * p == xv * m && v + 256 * e == c + x * m
    ensures low + v * p + e * (256 * p) == (xv + x * p) * m
  {
    MulAssoc(e, 256, p);
    assert (v + 256 * e) * p == v * p + (e * 256) * p by { assert 256 * e == e * 256; }
    var y := x * m;
    assert (c + y) * p == c * p + y * p;
    assert y * p == (x * p) * m by { MulAssoc(x, m, p); MulAssoc(x, p, m); assert m * p == p * m; }
    assert (xv + x * p) * m == xv * m + (x * p) * m;
  }

  function ProductByte(s: nat): (r: (byte, nat))
    ensures r.0 as int + 256 * r.1 == s
  {
    ((s % 256) as byte, s / 256)
  }

  /** Byte i of the product, with the carry from below. */
  method MultiplyByte(x: array<byte>, m: nat, wide: array<byte>, i: nat, carry: nat, ghost factor: Bytes)
    returns (next: nat)
    requires x != wide && i < x.Length < wide.Length && m <= 90 && carry <= 90 && factor == x[..]
    requires Multiplied(wide[..i], carry, factor, m)
    modifies wide
    ensures Multiplied(wide[..i + 1], next, factor, m) && next <= 90
    ensures forall k :: i < k < wide.Length ==> wide[k] == old(wide[k])
  {
    ghost var low := wide[..i];
    SmallProduct(x[i] as nat, m);
    var column := ProductByte(carry + x[i] as int * m);
    wide[i] := column.0;
    next := column.1;
    MultiplyColumn(low, carry, factor, m, wide[i], next);
    assert wide[..i + 1] == low + [wide[i]];
  }

  /** wide := x * m for a small m: the carry out of the top fits in the extra bytes. */
  method MultiplySmall(x: array<byte>, m: nat, wide: array<byte>)
    requires x != wide && x.Length < wide.Length && m <= 90
    modifies wide
    ensures Val(wide[..]) == Val(x[..]) * m
  {
    ghost var factor := x[..];
    for i := 0 to wide.Length
      invariant forall k :: 0 <= k < i ==> wide[k] == 0
    {
      wide[i] := 0;
    }
    var carry := 0;
    var i := 0;
    while i < x.Length
      invariant 0 <= i <= x.Length && 0 <= carry <= 90
      invariant forall k :: i <= k < wide.Length ==> wide[k] == 0
      invariant Multiplied(wide[..i], carry, factor, m)
    {
      carry := MultiplyByte(x, m, wide, i, carry, factor);
      i := i + 1;
    }
    assert factor[..i] == factor;
    SpillCarry(wide, i, carry);
  }

  /** Writes the last carry above the product's body. */
  method SpillCarry(wide: array<byte>, start: nat, last: nat)
    requires start < wide.Length && last <= 90
    requires forall k :: start <= k < wide.Length ==> wide[k] == 0
    modifies wide
    ensures Val(wide[..]) == old(Val(wide[..start])) + last * Pow256(start)
  {
    ghost var was := wide[..];
    var i, carry := start, last;
    while i < wide.Length && carry > 0
      invariant start <= i <= wide.Length
      invariant wide[..start] == was[..start]
      invariant (i == start && carry == last && wide[..] == was)
             || (i == start + 1 && carry == 0 && wide[..] == was[start := last as byte])
    {
      wide[i] := (carry % 256) as byte;
      carry := carry / 256;
      i := i + 1;
    }
    ValSplit(was, start);
    ValZeros(was[start..]);
    assert last == 0 ==> was[start := last as byte] == was;
    ValUpdate(was, start, last as byte);
  }

  lemma SmallProduct(x: nat, m: nat)
    requires x < 256 && m <= 90
    ensures x * m <= 255 * 90
  {
    MulMono(x, 255, m);
    assert x * m <= 255 * m;
  }

  /** The bytes from i up hold the quotient of what was there; rem is what is left over. */
  method DivideBySpacing(wide: array<byte>)
    modifies wide
    ensures Val(wide[..]) == old(Val(wide[..])) / TARGET_SPACING
  {
    ghost var was := wide[..];
    var rem, i := 0, wide.Length;
    while i > 0
      invariant 0 <= i <= wide.Length && 0 <= rem < 60
      invariant wide[..i] == was[..i]
      invariant 60 * Val(wide[i..]) + rem == Val(was[i..])
    {
      i := i - 1;
      ghost var high := wide[i + 1..];
      assert wide[i] == was[..i + 1][i];
      var cur := rem * 256 + wide[i] as int;
      wide[i] := (cur / 60) as byte;
      rem := cur % 60;
      assert wide[i..] == [wide[i]] + high;
      assert was[i..] == [was[i]] + was[i + 1..];
    }
    assert wide[0..] == wide[..] && was[0..] == was;
  }

  lemma NothingAbove(wide: Bytes, size: nat)
    requires size <= |wide| && forall i :: size <= i < |wide| ==> wide[i] == 0
    ensures Val(wide) == Val(wide[..size])
  {
    ValSplit(wide, size);
    ValZeros(wide[size..]);
  }

  lemma SomethingAbove(wide: Bytes, size: nat, i: nat, limit: nat)
    requires size <= i < |wide| && wide[i] != 0 && limit < Pow256(size)
    ensures Val(wide) > limit
  {
    ValSplit(wide, size);
    var high := wide[size..];
    assert high[i - size] != 0;
    if Val(high) == 0 { ValIsZero(high); }
    MulMono(1, Val(high), Pow256(size));
    assert Pow256(size) * Val(high) == Val(high) * Pow256(size);
  }

  lemma CutAtLimit(wide: Bytes, size: nat, limit: nat)
    requires size <= |wide| && limit < Pow256(size)
    ensures (exists i :: size <= i < |wide| && wide[i] != 0) ==> Val(wide) > limit
    ensures (forall i :: size <= i < |wide| ==> wide[i] == 0) ==> Val(wide) == Val(wide[..size])
  {
    if forall i :: size <= i < |wide| ==> wide[i] == 0 {
      NothingAbove(wide, size);
    } else {
      var i :| size <= i < |wide| && wide[i] != 0;
      SomethingAbove(wide, size, i, limit);
    }
  }

  method Copy(from: array<byte>, to: array<byte>)
    requires from != to && to.Length <= from.Length
    modifies to
    ensures to[..] == from[..to.Length]
  {
    for i := 0 to to.Length
      invariant to[..i] == from[..i]
    {
      to[i] := from[i];
    }
  }

  /** The scaled target, cut to 32 bytes and to the limit. */
  method CapAtLimit(wide: array<byte>, limit: array<byte>, t: array<byte>)
    requires limit.Length == t.Length < wide.Length && t != wide && t != limit
    modifies t
    ensures Val(t[..]) == if Val(wide[..]) > Val(limit[..]) then Val(limit[..]) else Val(wide[..])
  {
    ghost var w, l := wide[..], limit[..];
    var over := false;
    for i := t.Length to wide.Length
      invariant over <==> exists k :: t.Length <= k < i && wide[k] != 0
    {
      if wide[i] != 0 { over := true; }
    }
    ValBound(l);
    CutAtLimit(w, t.Length, Val(l));
    Copy(wide, t);
    assert w[..t.Length] == wide[..t.Length];
    var c := 1;
    if !over { c := Compare(t, limit); }
    if over || c > 0 {
      Copy(limit, t);
      assert limit[..t.Length] == limit[..];
    }
  }

  /** The nBits required after a block, from the two timestamps before it. */
  method NextBitsFor(prevBits: U32, prevTime: int, prevprevTime: int, powLimit: U32) returns (bits: nat)
    ensures bits == NextBits(prevBits, prevTime - prevprevTime, powLimit)
  {
    var actual := prevTime - prevprevTime;
    var modulated := 60 + Truncated(actual - 60, 8);
    if modulated < 45 { modulated := 45; }
    if modulated > 90 { modulated := 90; }
    var prev, limit := new byte[BYTES], new byte[BYTES];
    var ok := BitsToTarget(prevBits, prev);
    if !ok { return 0; }
    ok := BitsToTarget(powLimit, limit);
    if !ok { return 0; }
    var wide, t := new byte[WIDE_BYTES], new byte[BYTES];
    MultiplySmall(prev, modulated, wide);
    DivideBySpacing(wide);
    CapAtLimit(wide, limit, t);
    bits := TargetToBits(t);
  }
}
