/** Proof-of-work arithmetic on 32-byte targets: compact codec, block work, retargeting. */
module Pow {
  import opened Primitives
  import opened Digits
  import opened Compact
  import opened Wide

  // ---- compact codec on buffers ----

  lemma FirstThree(t: Bytes)
    requires |t| >= 3 && forall i :: 3 <= i < |t| ==> t[i] == 0
    ensures Val(t) == t[0] as nat + 256 * t[1] as nat + 65536 * t[2] as nat
  {
    var u := t[1..];
    var v := u[1..];
    ValZeros(v[1..]);
    assert Val(v) == t[2] as nat;
    assert Val(u) == t[1] as nat + 256 * Val(v);
  }

  lemma ThreeBytes(m: nat)
    ensures m == m % 256 + 256 * ((m / 256) % 256) + 65536 * (m / 65536)
  {
  }

  /** Three bytes above e zero bytes and below f more. */
  lemma ValThree(s: Bytes, e: nat, m: nat)
    requires m < 0x100_0000 && e + 3 <= |s|
    requires s[e] as nat == m % 256 && s[e + 1] as nat == (m / 256) % 256 && s[e + 2] as nat == m / 65536
    requires forall i :: 0 <= i < |s| && !(e <= i < e + 3) ==> s[i] == 0
    ensures Val(s) == m * Pow256(e)
  {
    FirstThree(s[e..]);
    ThreeBytes(m);
    assert Val(s[e..]) == m;
    ValAbove(s, e);
    MulComm(m, Pow256(e));
  }

  /** A number above e zero bytes. */
  lemma ValAbove(s: Bytes, e: nat)
    requires e <= |s| && forall i :: 0 <= i < e ==> s[i] == 0
    ensures Val(s) == Pow256(e) * Val(s[e..])
  {
    ValSplit(s, e);
    ValZeros(s[..e]);
  }

  /** Decodes nBits into a target buffer; the buffer is zero when there is no target. */
  method BitsToTarget(bits: U32, t: array<byte>) returns (ok: bool)
    requires t.Length == BYTES
    modifies t
    ensures ok == Decode(bits).Some?
    ensures Val(t[..]) == (if ok then Decode(bits).value else 0)
  {
    for i := 0 to BYTES
      invariant forall k :: 0 <= k < i ==> t[k] == 0
    {
      t[i] := 0;
    }
    ValZeros(t[..]);
    DecodedForm(bits);
    SmallPowers();
    var exp, mant := bits / 0x100_0000, bits % 0x80_0000;
    if (bits / 0x80_0000) % 2 == 1 { return false; }
    if mant == 0 { return false; }
    if exp <= 3 {
      mant := ShiftDown(mant, 3 - exp);
      if mant == 0 { return false; }
      exp := 3;
    }
    if exp > 32 { return false; }
    t[exp - 1] := (mant / 65536) as byte;
    t[exp - 2] := ((mant / 256) % 256) as byte;
    t[exp - 3] := (mant % 256) as byte;
    ValThree(t[..], exp - 3, mant);
    return true;
  }

  /** A mantissa shifted right by whole bytes. */
  function ShiftDown(mant: nat, n: nat): (r: nat)
    ensures r <= mant
  {
    if n == 0 then mant else if n == 1 then mant / 256 else if n == 2 then mant / 65536 else mant / 0x100_0000
  }

  /** The bytes from the third-highest non-zero position are the leading three. */
  lemma LeadingBytes(s: Bytes, size: nat)
    requires 3 <= size <= |s| && s[size - 1] != 0
    requires forall i :: size <= i < |s| ==> s[i] == 0
    ensures ByteLength(Val(s)) == size
    ensures Leading(Val(s)) == s[size - 1] as nat * 65536 + s[size - 2] as nat * 256 + s[size - 3] as nat
  {
    var e := size - 3;
    var lead := s[size - 1] as nat * 65536 + s[size - 2] as nat * 256 + s[size - 3] as nat;
    ValSplit(s, e);
    FirstThree(s[e..]);
    LeadingIs(Val(s), e, lead, Val(s[..e]));
  }

  lemma LeadingIs(n: nat, e: nat, lead: nat, low: nat)
    requires n == low + Pow256(e) * lead && low < Pow256(e) && 0x1_0000 <= lead < 0x100_0000
    ensures ByteLength(n) == e + 3 && Leading(n) == lead
  {
    SmallPowers();
    Pow256Sum(2, e);
    Pow256Sum(3, e);
    var p := Pow256(e);
    assert p * lead == lead * p;
    MulMono(0x1_0000, lead, p);
    MulMono(lead + 1, 0x100_0000, p);
    assert (lead + 1) * p == lead * p + p;
    ByteLengthIs(n, e + 3);
    QuotientIs(n, p, lead, low);
    assert e == 0 ==> n * 1 == lead;
  }

  lemma ShortValue(s: Bytes, size: nat)
    requires 1 <= size <= 2 <= |s| && s[size - 1] != 0
    requires forall i :: size <= i < |s| ==> s[i] == 0
    ensures ByteLength(Val(s)) == size
    ensures Leading(Val(s)) == if size == 2 then s[1] as nat * 65536 + s[0] as nat * 256 else s[0] as nat * 65536
  {
    SmallPowers();
    ValZeros(s[1..][1..]);
    assert s[1..][0] == s[1];
    assert Val(s) == s[0] as nat + 256 * s[1] as nat;
    ByteLengthIs(Val(s), size);
  }

  lemma EncodeIs(n: nat, size: nat, lead: nat)
    requires size == ByteLength(n) > 0 && lead == Leading(n) < 0x100_0000
    ensures Encode(n) == if (lead / 0x80_0000) % 2 == 1 then (size + 1) * 0x100_0000 + lead / 256
                         else size * 0x100_0000 + lead
  {
  }

  /** The compact form of a target buffer. */
  method TargetToBits(t: array<byte>) returns (bits: nat)
    requires t.Length == BYTES
    ensures bits == Encode(Val(t[..]))
  {
    var size := BYTES;
    while size > 0 && t[size - 1] == 0
      invariant 0 <= size <= BYTES
      invariant forall i :: size <= i < BYTES ==> t[i] == 0
    {
      size := size - 1;
    }
    if size == 0 {
      ValZeros(t[..]);
      return 0;
    }
    var mant;
    if size >= 3 {
      mant := t[size - 1] as nat * 65536 + t[size - 2] as nat * 256 + t[size - 3] as nat;
      LeadingBytes(t[..], size);
    } else if size == 2 {
      mant := t[1] as nat * 65536 + t[0] as nat * 256;
      ShortValue(t[..], size);
    } else {
      mant := t[0] as nat * 65536;
      ShortValue(t[..], size);
    }
    EncodeIs(Val(t[..]), size, mant);
    if (mant / 0x80_0000) % 2 == 1 {
      mant := mant / 256;
      size := size + 1;
    }
    bits := size * 0x100_0000 + mant;
  }
}
