/** Strict DER signatures: the offset-by-offset parser against the encoding it accepts. */
module Der {
  import opened Primitives

  // ---- big-endian numbers ----

  function BeVal(s: Bytes): nat {
    if s == [] then 0 else BeVal(s[..|s| - 1]) * 256 + s[|s| - 1] as nat
  }

  lemma {:induction false} BeOrder(a: Bytes, b: Bytes, k: nat)
    requires k < |a| == |b| && a[..k] == b[..k] && a[k] < b[k]
    ensures BeVal(a) < BeVal(b)
  {
    var n := |a| - 1;
    if k < n {
      assert a[..n][..k] == a[..k] && b[..n][..k] == b[..k];
      BeOrder(a[..n], b[..n], k);
    } else {
      assert a[..n] == b[..n];
    }
  }

  /** Byte-by-byte comparison from the most significant end. */
  method BeCompare(a: Bytes, b: Bytes) returns (r: int)
    requires |a| == |b|
    ensures r < 0 <==> BeVal(a) < BeVal(b)
    ensures r == 0 <==> BeVal(a) == BeVal(b)
  {
    var i := 0;
    while i < |a|
      invariant 0 <= i <= |a| && a[..i] == b[..i]
    {
      if a[i] != b[i] {
        if a[i] < b[i] {
          BeOrder(a, b, i);
          return -1;
        } else {
          BeOrder(b, a, i);
          return 1;
        }
      }
      i := i + 1;
    }
    assert a == b;
    return 0;
  }

  /** Half the order of secp256k1: the largest s a signature may carry. */
  const N_HALF: Bytes := [
    0x7f, 0xff, 0xff, 0xff, 0xff, 0xff, 0xff, 0xff, 0xff, 0xff, 0xff, 0xff, 0xff, 0xff, 0xff, 0xff,
    0x5d, 0x57, 0x6e, 0x73, 0x57, 0xa4, 0x50, 0x1d, 0xdf, 0xe9, 0x2f, 0x46, 0x68, 0x1b, 0x20, 0xa0]

  // ---- the format ----

  /** A positive DER integer: sign bit clear and no padding byte that is not needed for it. */
  predicate DerInt(v: Bytes) {
    && 1 <= |v| <= 33
    && v[0] < 0x80
    && (|v| > 1 && v[0] == 0 ==> v[1] >= 0x80)
  }

  function DerEncode(r: Bytes, s: Bytes): Bytes
    requires |r| <= 33 && |s| <= 33
  {
    [0x30, (4 + |r| + |s|) as byte, 0x02, |r| as byte] + r + [0x02, |s| as byte] + s + [0x01]
  }

  /** The last 32 bytes of an integer, padded on the left. */
  function Fixed(v: Bytes): (f: Bytes)
    ensures |f| == 32
  {
    if |v| > 32 then v[|v| - 32..] else Zeros(32 - |v|) + v
  }

  predicate Encodes(p: Bytes, r: Bytes, s: Bytes) {
    DerInt(r) && DerInt(s) && 9 <= |p| <= 73 && p == DerEncode(r, s)
  }

  /** A strict DER pair whose s, in its last 32 bytes, does not exceed a bound. */
  predicate IsSignature(p: Bytes, r: Bytes, s: Bytes, bound: Bytes) {
    Encodes(p, r, s) && BeVal(Fixed(s)) <= BeVal(bound)
  }

  // ---- the parser ----

  /** An integer of the given length at an offset, read in place. */
  predicate DerIntAt(p: Bytes, at: nat, len: nat) {
    && 1 <= len <= 33 && at + len <= |p|
    && p[at] < 0x80
    && (len > 1 && p[at] == 0 ==> p[at + 1] >= 0x80)
  }

  /** The accepted layout, offset by offset. */
  predicate Layout(p: Bytes, lenR: nat, lenS: nat) {
    && 9 <= |p| <= 73 && |p| == 7 + lenR + lenS
    && p[0] == 0x30 && p[1] as int == |p| - 3 && p[2] == 0x02 && p[3] as int == lenR
    && DerIntAt(p, 4, lenR)
    && p[4 + lenR] == 0x02 && p[5 + lenR] as int == lenS
    && DerIntAt(p, 6 + lenR, lenS)
    && p[|p| - 1] == 0x01
  }

  lemma LayoutIsEncoding(p: Bytes, lenR: nat, lenS: nat)
    requires Layout(p, lenR, lenS)
    ensures p == DerEncode(p[4..4 + lenR], p[6 + lenR..6 + lenR + lenS])
    ensures DerInt(p[4..4 + lenR]) && DerInt(p[6 + lenR..6 + lenR + lenS])
  {
  }

  lemma EncodedBytes(p: Bytes, r: Bytes, s: Bytes)
    requires |r| <= 33 && |s| <= 33 && p == DerEncode(r, s)
    ensures |p| == 7 + |r| + |s|
    ensures p[0] == 0x30 && p[1] as int == |p| - 3 && p[2] == 0x02 && p[3] as int == |r|
    ensures p[4 + |r|] == 0x02 && p[5 + |r|] as int == |s| && p[|p| - 1] == 0x01
    ensures r == p[4..4 + |r|] && s == p[6 + |r|..6 + |r| + |s|]
  {
  }

  lemma IntInPlace(p: Bytes, at: nat, v: Bytes)
    requires at + |v| <= |p| && v == p[at..at + |v|] && DerInt(v)
    ensures DerIntAt(p, at, |v|)
  {
    assert v[0] == p[at] && (|v| > 1 ==> v[1] == p[at + 1]);
  }

  lemma EncodingHasLayout(p: Bytes, r: Bytes, s: Bytes)
    requires Encodes(p, r, s)
    ensures Layout(p, |r|, |s|)
    ensures r == p[4..4 + |r|] && s == p[6 + |r|..6 + |r| + |s|]
  {
    EncodedBytes(p, r, s);
    IntInPlace(p, 4, r);
    IntInPlace(p, 6 + |r|, s);
  }

  /** Reads the layout's two lengths, refusing every other layout. */
  method Offsets(p: Bytes) returns (ok: bool, lenR: nat, lenS: nat)
    ensures ok ==> Layout(p, lenR, lenS)
    ensures !ok ==> forall a, b :: !Layout(p, a, b)
  {
    var n := |p|;
    lenR, lenS := 0, 0;
    if n < 9 || n > 73 { return false, 0, 0; }
    if p[n - 1] != 0x01 { return false, 0, 0; }
    var dl := n - 1;
    if p[0] != 0x30 || p[1] as int != dl - 2 { return false, 0, 0; }
    if p[2] != 0x02 { return false, 0, 0; }
    lenR := p[3] as int;
    if lenR == 0 || lenR > 33 || 4 + lenR + 2 > dl { return false, 0, 0; }
    if p[4] >= 0x80 { return false, 0, 0; }
    if lenR > 1 && p[4] == 0 && p[5] < 0x80 { return false, 0, 0; }
    if p[4 + lenR] != 0x02 { return false, 0, 0; }
    lenS := p[5 + lenR] as int;
    if lenS == 0 || lenS > 33 { return false, 0, 0; }
    if 6 + lenR + lenS != dl { return false, 0, 0; }
    var at := 6 + lenR;
    if p[at] >= 0x80 { return false, 0, 0; }
    if lenS > 1 && p[at] == 0 && p[at + 1] < 0x80 { return false, 0, 0; }
    return true, lenR, lenS;
  }

  lemma LayoutIsUnique(p: Bytes, lenR: nat, lenS: nat, r: Bytes, s: Bytes)
    requires Layout(p, lenR, lenS) && Encodes(p, r, s)
    ensures r == p[4..4 + lenR] && s == p[6 + lenR..6 + lenR + lenS]
  {
    EncodingHasLayout(p, r, s);
  }

  method ParseBelow(p: Bytes, bound: Bytes) returns (ok: bool, r32: Bytes, s32: Bytes)
    requires |bound| == 32
    ensures ok ==> exists r, s :: IsSignature(p, r, s, bound) && r32 == Fixed(r) && s32 == Fixed(s)
    ensures !ok ==> forall r, s :: !IsSignature(p, r, s, bound)
  {
    var valid, lenR, lenS := Offsets(p);
    if !valid {
      forall r, s | Encodes(p, r, s)
        ensures false
      {
        EncodingHasLayout(p, r, s);
      }
      return false, [], [];
    }
    var r, s := p[4..4 + lenR], p[6 + lenR..6 + lenR + lenS];
    r32, s32 := Fixed(r), Fixed(s);
    LayoutIsEncoding(p, lenR, lenS);
    assert Encodes(p, r, s);
    var c := BeCompare(s32, bound);
    ok := c <= 0;
    if ok {
      assert IsSignature(p, r, s, bound);
    } else {
      forall a, b | Encodes(p, a, b)
        ensures a == r && b == s
      {
        LayoutIsUnique(p, lenR, lenS, a, b);
      }
    }
  }

  /**
   Accepts exactly the strict DER pairs with the SIGHASH_ALL byte whose s has low last 32
   bytes, and returns the last 32 bytes of both integers. AcceptedIsLowUnlessCut says when
   that makes s itself low, AcceptsHighS that it need not.
   */
  method DerParse(p: Bytes) returns (ok: bool, r32: Bytes, s32: Bytes)
    ensures ok ==> exists r, s :: IsSignature(p, r, s, N_HALF) && r32 == Fixed(r) && s32 == Fixed(s)
    ensures !ok ==> forall r, s :: !IsSignature(p, r, s, N_HALF)
  {
    ok, r32, s32 := ParseBelow(p, N_HALF);
  }

  /** A signature determines both of its integers. */
  lemma SignatureIsUnique(p: Bytes, r: Bytes, s: Bytes, r2: Bytes, s2: Bytes)
    requires Encodes(p, r, s) && Encodes(p, r2, s2)
    ensures r == r2 && s == s2
  {
    EncodingHasLayout(p, r, s);
    EncodingHasLayout(p, r2, s2);
  }

  // ---- what the fixed form keeps ----

  lemma {:induction false} LeadingZeros(z: Bytes, v: Bytes)
    requires forall i :: 0 <= i < |z| ==> z[i] == 0
    ensures BeVal(z + v) == BeVal(v)
    decreases |z| + |v|
  {
    if v != [] {
      assert (z + v)[..|z + v| - 1] == z + v[..|v| - 1];
      LeadingZeros(z, v[..|v| - 1]);
    } else if z != [] {
      assert z + v == z;
      assert z[..|z| - 1] + [] == z[..|z| - 1];
      LeadingZeros(z[..|z| - 1], []);
    }
  }

  lemma {:induction false} BePositive(v: Bytes, w: Bytes)
    requires |v| == 1 && v[0] > 0
    ensures BeVal(v + w) > BeVal(w)
  {
    if w == [] {
      assert v + w == v && v[..0] == [];
    } else {
      assert (v + w)[..|v + w| - 1] == v + w[..|w| - 1];
      BePositive(v, w[..|w| - 1]);
    }
  }

  /** The 32-byte form has the integer's value exactly when no significant byte was cut off. */
  lemma FixedKeepsValue(v: Bytes)
    requires 1 <= |v| <= 33
    ensures BeVal(Fixed(v)) == BeVal(v) <==> |v| <= 32 || v[0] == 0
  {
    if |v| <= 32 { FixedOfShort(v); } else { FixedOfLong(v); }
  }

  lemma FixedOfShort(v: Bytes)
    requires |v| <= 32
    ensures BeVal(Fixed(v)) == BeVal(v)
  {
    LeadingZeros(Zeros(32 - |v|), v);
  }

  lemma FixedOfLong(v: Bytes)
    requires |v| == 33
    ensures BeVal(Fixed(v)) == BeVal(v) <==> v[0] == 0
  {
    assert Fixed(v) == v[1..];
    FirstByteCut(v);
  }

  lemma FirstByteCut(v: Bytes)
    requires v != []
    ensures BeVal(v[1..]) == BeVal(v) <==> v[0] == 0
  {
    assert v == v[..1] + v[1..];
    if v[0] == 0 { LeadingZeros(v[..1], v[1..]); } else { BePositive(v[..1], v[1..]); }
  }

  /**
   An accepted s is low itself exactly when it has at most 32 bytes, for no accepted one begins with a zero byte
   and 32 more.
   */
  lemma AcceptedIsLowUnlessCut(p: Bytes, r: Bytes, s: Bytes)
    requires IsSignature(p, r, s, N_HALF)
    ensures BeVal(s) <= BeVal(N_HALF) <==> |s| <= 32
    ensures |s| <= 32 || s[0] > 0
  {
    FixedKeepsValue(s);
    if |s| == 33 {
      assert s == s[..1] + s[1..];
      if s[0] > 0 {
        LongIsHigher(s[..1], s[1..], N_HALF);
      } else {
        BeOrder(N_HALF, s[1..], 0);
      }
    }
  }

  predicate FitsWord(v: Bytes) {
    |v| <= 32 || (|v| == 33 && v[0] == 0)
  }

  /** The rule of the Go and C# implementations: both integers must fit 32 bytes, and s itself is compared. */
  predicate IsWholeSignature(p: Bytes, r: Bytes, s: Bytes) {
    Encodes(p, r, s) && FitsWord(r) && FitsWord(s) && BeVal(s) <= BeVal(N_HALF)
  }

  /**
   Of the encodings accepted here, that rule accepts exactly those with a fitting r and an s of at most 32 bytes;
   it accepts no other.
   */
  lemma WholeFormAcceptsLess(p: Bytes, r: Bytes, s: Bytes)
    ensures IsWholeSignature(p, r, s) <==> IsSignature(p, r, s, N_HALF) && FitsWord(r) && |s| <= 32
  {
    if IsSignature(p, r, s, N_HALF) { AcceptedIsLowUnlessCut(p, r, s); }
    if IsWholeSignature(p, r, s) { FixedKeepsValue(s); }
  }

  /** A number with a nonzero byte in front exceeds every number of the other bytes' length. */
  lemma {:induction false} LongIsHigher(v: Bytes, w: Bytes, b: Bytes)
    requires |v| == 1 && v[0] > 0 && |w| == |b|
    ensures BeVal(v + w) > BeVal(b)
  {
    if w == [] {
      assert v + w == v && v[..0] == [];
    } else {
      assert (v + w)[..|v + w| - 1] == v + w[..|w| - 1];
      LongIsHigher(v, w[..|w| - 1], b[..|b| - 1]);
    }
  }

  const ONE: Bytes := [0x01]

  /** Two to the 256, as a 33-byte integer. */
  const HIGH_S: Bytes := ONE + Zeros(32)

  /** An encoding that is accepted although its s is above the bound: only its last 32 bytes are compared. */
  lemma AcceptsHighS()
    ensures IsSignature(DerEncode(ONE, HIGH_S), ONE, HIGH_S, N_HALF)
    ensures BeVal(HIGH_S) > BeVal(N_HALF)
  {
    var p := DerEncode(ONE, HIGH_S);
    assert Encodes(p, ONE, HIGH_S);
    assert Fixed(HIGH_S) == HIGH_S[1..] == Zeros(32);
    assert Zeros(32) + [] == Zeros(32);
    LeadingZeros(Zeros(32), []);
    assert BeVal(Fixed(HIGH_S)) == 0;
    LongIsHigher(ONE, Zeros(32), N_HALF);
  }
}
