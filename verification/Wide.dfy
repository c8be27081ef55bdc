/** Little-endian arithmetic on byte arrays of one size (32 bytes wherever it is used), carry by carry. */
module Wide {
  import opened Primitives
  import opened Digits

  const BYTES := 32

  /** A sum of two numbers of the given size, reduced to that size. */
  function Wrap(n: nat, size: nat): (r: int)
    ensures n < Pow256(size) ==> r == n
  {
    if n < Pow256(size) then n else n - Pow256(size)
  }

  /** One column of an addition: what the new prefix is worth. */
  lemma AddColumn(low: int, x: int, y: int, c: int, v: int, e: int, av: int, bv: int, p: int)
    requires low + c * p == av + bv && v + 256 * e == x + y + c
    ensures low + v * p + e * (256 * p) == (av + x * p) + (bv + y * p)
  {
    MulAssoc(e, 256, p);
    assert (v + 256 * e) * p == v * p + (e * 256) * p by { assert 256 * e == e * 256; }
    assert (x + y + c) * p == x * p + y * p + c * p;
  }

  lemma BorrowColumn(low: int, x: int, y: int, c: int, d: int, e: int, av: int, bv: int, p: int)
    requires low - c * p == av - bv && d - 256 * e == x - y - c
    ensures low + d * p - e * (256 * p) == (av + x * p) - (bv + y * p)
  {
    MulAssoc(e, 256, p);
    assert (d - 256 * e) * p == d * p - (e * 256) * p by { assert 256 * e == e * 256; }
    assert (x - y - c) * p == x * p - y * p - c * p;
  }

  /** Three-way comparison from the most significant byte. */
  method Compare(a: array<byte>, b: array<byte>) returns (r: int)
    requires a.Length == b.Length
    ensures r == (if Val(a[..]) < Val(b[..]) then -1 else if Val(a[..]) > Val(b[..]) then 1 else 0)
  {
    var i := a.Length;
    while i > 0
      invariant 0 <= i <= a.Length
      invariant a[i..] == b[i..]
    {
      i := i - 1;
      assert a[..][i + 1..] == a[i + 1..] && b[..][i + 1..] == b[i + 1..];
      if a[i] < b[i] {
        TopDifferenceDecides(a[..], b[..], i);
        return -1;
      }
      if a[i] > b[i] {
        TopDifferenceDecides(b[..], a[..], i);
        return 1;
      }
      assert a[i..] == [a[i]] + a[i + 1..] && b[i..] == [b[i]] + b[i + 1..];
    }
    assert a[..] == a[0..] && b[..] == b[0..];
    return 0;
  }

  /** The columns below |low| are done: kept bytes plus the carry are the sum so far. */
  ghost predicate Summed(low: Bytes, carry: nat, x: Bytes, y: Bytes) {
    && |low| <= |x| == |y|
    && Val(low) + carry * Pow256(|low|) == Val(x[..|low|]) + Val(y[..|low|])
  }

  lemma SumColumn(low: Bytes, c: nat, x: Bytes, y: Bytes, v: byte, e: nat)
    requires Summed(low, c, x, y) && |low| < |x|
    requires v as int + 256 * e == x[|low|] as int + y[|low|] as int + c
    ensures Summed(low + [v], e, x, y)
  {
    var i := |low|;
    AddColumn(Val(low), x[i] as int, y[i] as int, c, v as int, e, Val(x[..i]), Val(y[..i]), Pow256(i));
    ValPrefix(x, i);
    ValPrefix(y, i);
    ValAppend(low, v);
  }

  lemma SummedWhole(s: Bytes, c: nat, x: Bytes, y: Bytes)
    requires Summed(s, c, x, y) && |s| == |x| && c <= 1
    ensures Val(x) + Val(y) == if c == 0 then Val(s) else Val(s) + Pow256(|s|)
  {
    assert x[..|s|] == x && y[..|s|] == y;
    CarryIs(c, Pow256(|s|));
  }

  lemma CarryIs(c: nat, p: nat)
    requires c <= 1
    ensures c * p == if c == 0 then 0 else p
  {
  }

  lemma SumDone(s: Bytes, c: nat, total: nat)
    requires total == if c == 0 then Val(s) else Val(s) + Pow256(|s|)
    ensures Val(s) == Wrap(total, |s|)
  {
    ValBound(s);
  }

  /** A column sum split into the byte kept and the carry handed on. */
  function SumByte(s: nat): (r: (byte, nat))
    requires s < 512
    ensures r.0 as int + 256 * r.1 == s && r.1 <= 1
  {
    ((s % 256) as byte, s / 256)
  }

  /** a += b modulo 2^256. */
  method Add(a: array<byte>, b: array<byte>)
    requires a.Length == b.Length && a != b
    modifies a
    ensures Val(a[..]) == Wrap(old(Val(a[..])) + Val(b[..]), a.Length)
  {
    ghost var was, plus := a[..], b[..];
    var carry, i := 0, 0;
    while i < a.Length
      invariant 0 <= i <= a.Length && 0 <= carry <= 1
      invariant forall k :: i <= k < a.Length ==> a[k] == was[k]
      invariant Summed(a[..i], carry, was, plus)
    {
      ghost var low := a[..i];
      var column := SumByte(a[i] as int + b[i] as int + carry);
      a[i] := column.0;
      SumColumn(low, carry, was, plus, a[i], column.1);
      assert a[..i + 1] == low + [a[i]];
      carry := column.1;
      i := i + 1;
    }
    assert a[..i] == a[..];
    SummedWhole(a[..], carry, was, plus);
    SumDone(a[..], carry, Val(was) + Val(plus));
  }

  ghost predicate Differed(low: Bytes, borrow: nat, x: Bytes, y: Bytes) {
    && |low| <= |x| == |y|
    && Val(low) - borrow * Pow256(|low|) == Val(x[..|low|]) - Val(y[..|low|])
  }

  lemma DifferenceColumn(low: Bytes, c: nat, x: Bytes, y: Bytes, v: byte, e: nat)
    requires Differed(low, c, x, y) && |low| < |x|
    requires v as int - 256 * e == x[|low|] as int - y[|low|] as int - c
    ensures Differed(low + [v], e, x, y)
  {
    var i := |low|;
    BorrowColumn(Val(low), x[i] as int, y[i] as int, c, v as int, e, Val(x[..i]), Val(y[..i]), Pow256(i));
    ValPrefix(x, i);
    ValPrefix(y, i);
    ValAppend(low, v);
  }

  lemma DifferenceDone(s: Bytes, e: nat, x: Bytes, y: Bytes)
    requires Differed(s, e, x, y) && |s| == |x| && Val(x) >= Val(y)
    ensures Val(s) == Val(x) - Val(y)
  {
    assert x[..|s|] == x && y[..|s|] == y;
    ValBound(s);
    if e > 0 { MulMono(1, e, Pow256(|s|)); }
  }

  /** a -= b, for a no smaller than b: no borrow is left over. */
  method Subtract(a: array<byte>, b: array<byte>)
    requires a.Length == b.Length && a != b
    requires Val(a[..]) >= Val(b[..])
    modifies a
    ensures Val(a[..]) == old(Val(a[..])) - Val(b[..])
  {
    ghost var was, less := a[..], b[..];
    var borrow, i := 0, 0;
    while i < a.Length
      invariant 0 <= i <= a.Length && 0 <= borrow <= 1
      invariant forall k :: i <= k < a.Length ==> a[k] == was[k]
      invariant Differed(a[..i], borrow, was, less)
    {
      ghost var low, c := a[..i], borrow;
      var d := a[i] as int - b[i] as int - borrow;
      borrow := if d < 0 then 1 else 0;
      if borrow == 1 { d := d + 256; }
      a[i] := d as byte;
      DifferenceColumn(low, c, was, less, a[i], borrow);
      assert a[..i + 1] == low + [a[i]];
      i := i + 1;
    }
    assert a[..i] == a[..];
    DifferenceDone(a[..], borrow, was, less);
  }

  /** A byte moved up one bit with the bit shifted in from below. */
  function Doubled(x: byte, c: nat): (v: byte)
    requires c <= 1
    ensures v as int + 256 * (x as int / 128) == 2 * x as int + c
    ensures c == 0 ==> v as int % 2 == 0
  {
    ((2 * x as int) % 256 + c) as byte
  }

  /** a := 2a modulo 2^256. */
  method ShiftLeftOne(a: array<byte>)
    requires a.Length > 0
    modifies a
    ensures Val(a[..]) == Wrap(2 * old(Val(a[..])), a.Length)
    ensures a[0] as int % 2 == 0
  {
    ghost var was := a[..];
    var carry, i := 0, 0;
    while i < a.Length
      invariant 0 <= i <= a.Length && 0 <= carry <= 1
      invariant forall k :: i <= k < a.Length ==> a[k] == was[k]
      invariant Summed(a[..i], carry, was, was)
      invariant if i == 0 then carry == 0 else a[0] as int % 2 == 0
    {
      ghost var low := a[..i];
      var next := a[i] as int / 128;
      a[i] := Doubled(a[i], carry);
      SumColumn(low, carry, was, was, a[i], next);
      assert a[..i + 1] == low + [a[i]];
      carry := next;
      i := i + 1;
    }
    assert a[..i] == a[..];
    SummedWhole(a[..], carry, was, was);
    SumDone(a[..], carry, Val(was) + Val(was));
  }
}
