/** Base58Check addresses: text to bytes and back, with the buffers the program uses. */
module Base58 {
  import opened Primitives
  import opened Digits
  import opened Radix

  const NUM_BYTES := 64
  const TEXT_DIGITS := 96

  // ---- the alphabet ----

  /** The base-58 alphabet: digits without zero, letters without I, O and l, in runs of consecutive characters. */
  function CharOf(d: byte): (c: char)
    requires d < 58
    ensures (d < 9 <==> '1' <= c <= '9') && (d < 9 ==> d as int == c as int - '1' as int)
    ensures (9 <= d < 17 <==> 'A' <= c <= 'H') && (9 <= d < 17 ==> d as int - 9 == c as int - 'A' as int)
    ensures (17 <= d < 22 <==> 'J' <= c <= 'N') && (17 <= d < 22 ==> d as int - 17 == c as int - 'J' as int)
    ensures (22 <= d < 33 <==> 'P' <= c <= 'Z') && (22 <= d < 33 ==> d as int - 22 == c as int - 'P' as int)
    ensures (33 <= d < 44 <==> 'a' <= c <= 'k') && (33 <= d < 44 ==> d as int - 33 == c as int - 'a' as int)
    ensures (44 <= d <==> 'm' <= c <= 'z') && (44 <= d ==> d as int - 44 == c as int - 'm' as int)
  {
    if d < 9 then (49 + d as int) as char
    else if d < 17 then (56 + d as int) as char
    else if d < 22 then (57 + d as int) as char
    else if d < 33 then (58 + d as int) as char
    else if d < 44 then (64 + d as int) as char
    else (65 + d as int) as char
  }

  predicate IsDigit(c: char, d: byte) {
    d < 58 && CharOf(d) == c
  }

  lemma DigitIsUnique(c: char, d: byte, e: byte)
    requires IsDigit(c, d) && IsDigit(c, e)
    ensures d == e
  {
  }

  function Text(d: Bytes): (s: string)
    requires InBase(d, 58)
    ensures |s| == |d| && forall i :: 0 <= i < |d| ==> IsDigit(s[i], d[i])
  {
    seq(|d|, i requires 0 <= i < |d| => CharOf(d[i]))
  }

  /** The digits a string spells. */
  ghost predicate Spells(s: string, d: Bytes) {
    |s| == |d| && forall i :: 0 <= i < |s| ==> IsDigit(s[i], d[i])
  }

  lemma SpellingIsUnique(s: string, d: Bytes, e: Bytes)
    requires Spells(s, d) && Spells(s, e)
    ensures d == e
  {
    forall i | 0 <= i < |s| ensures d[i] == e[i] { DigitIsUnique(s[i], d[i], e[i]); }
  }

  lemma SpellingIsText(s: string, d: Bytes)
    requires Spells(s, d)
    ensures InBase(d, 58) && Text(d) == s
  {
  }

  // ---- what the codec means ----

  type Checksum = Bytes -> Hash256

  /** Version, payload and the first four bytes of their double hash. */
  function Checked(hash: Checksum, version: byte, payload: Bytes): Bytes {
    var body := [version] + payload;
    body + hash(body)[..4]
  }

  function Encoded(hash: Checksum, version: byte, payload: Bytes): string {
    ConvertKeeps(Checked(hash, version, payload), 256, 58);
    Text(Convert(Checked(hash, version, payload), 256, 58))
  }

  /** A string is the address of a version and payload short enough for the program's buffer. */
  ghost predicate IsAddress(hash: Checksum, s: string, version: byte, payload: Bytes) {
    |payload| + 5 <= NUM_BYTES && s == Encoded(hash, version, payload)
  }

  /**
   An address spells in base 58 the number its bytes are in base 256, with as many leading zeros; the bytes are the
   version, the payload and the first four bytes of the hash of both.
   */
  lemma AddressReads(hash: Checksum, s: string, version: byte, payload: Bytes) returns (d: Bytes, b: Bytes)
    requires IsAddress(hash, s, version, payload)
    ensures Spells(s, d) && Value(d, 58) == Value(b, 256) && LeadingZeros(d) == LeadingZeros(b)
    ensures |b| == |payload| + 5 && b[0] == version && b[1..|b| - 4] == payload
    ensures b[|b| - 4..] == hash(b[..|b| - 4])[..4]
  {
    b := Checked(hash, version, payload);
    ConvertKeeps(b, 256, 58);
    d := Convert(b, 256, 58);
    assert b[..|b| - 4] == [version] + payload;
  }

  // ---- the byte buffers ----

  /** Bytes are digits in base 256. */
  lemma BytesAreDigits(d: Bytes)
    ensures InBase(d, 256)
  {
  }

  /** The quotient bytes so far, the remainder and the bytes they came from. */
  ghost predicate Divided(done: Bytes, rem: nat, seen: Bytes) {
    rem < 58 && Value(done, 256) * 58 + rem == Value(seen, 256)
  }

  lemma DivideByte(done: Bytes, rem: nat, seen: Bytes, x: byte, q: byte, r: nat)
    requires Divided(done, rem, seen) && rem * 256 + x as nat == q as nat * 58 + r && r < 58
    ensures Divided(done + [q], r, seen + [x])
  {
    Appended(done, q, 256);
    Appended(seen, x, 256);
  }

  /** One division of the buffer's number by 58, most significant byte first. */
  method DivideInPlace(num: array<byte>, start: nat, blen: nat) returns (rem: nat)
    requires start <= blen <= num.Length
    modifies num
    ensures Divided(num[start..blen], rem, old(num[start..blen]))
  {
    ghost var was := num[..];
    rem := 0;
    var i := start;
    while i < blen
      invariant start <= i <= blen
      invariant forall k :: i <= k < num.Length ==> num[k] == was[k]
      invariant Divided(num[start..i], rem, was[start..i])
    {
      ghost var done, left := num[start..i], rem;
      var v := rem * 256 + num[i] as int;
      assert v / 58 < 256;
      num[i] := (v / 58) as byte;
      rem := v % 58;
      DivideByte(done, left, was[start..i], was[i], num[i], rem);
      assert num[start..i + 1] == done + [num[i]];
      assert was[start..i + 1] == was[start..i] + [was[i]];
      i := i + 1;
    }
  }

  lemma DropZero(d: Bytes)
    requires d != [] && d[0] == 0
    ensures Value(d[1..], 256) == Value(d, 256)
  {
    assert d == Zeros(1) + d[1..];
    ZerosAddNothing(1, d[1..], 256);
  }

  /** Moves start past zero bytes: the number stays, and its first byte is significant. */
  method SkipZeros(num: array<byte>, from: nat, blen: nat) returns (start: nat)
    requires from <= blen <= num.Length
    ensures from <= start <= blen && (start < blen ==> num[start] != 0)
    ensures Value(num[start..blen], 256) == Value(num[from..blen], 256)
    ensures forall i :: from <= i < start ==> num[i] == 0
  {
    start := from;
    while start < blen && num[start] == 0
      invariant from <= start <= blen
      invariant Value(num[start..blen], 256) == Value(num[from..blen], 256)
      invariant forall i :: from <= i < start ==> num[i] == 0
    {
      DropZero(num[start..blen]);
      assert num[start..blen][1..] == num[start + 1..blen];
      start := start + 1;
    }
  }

  lemma LeadingZerosAre(d: Bytes, z: nat)
    requires z <= |d| && (forall i :: 0 <= i < z ==> d[i] == 0) && (z < |d| ==> d[z] != 0)
    ensures LeadingZeros(d) == z
  {
  }

  // ---- writing ----

  function Reversed(d: Bytes): (r: Bytes)
    ensures |r| == |d| && forall i :: 0 <= i < |d| ==> r[i] == d[|d| - 1 - i]
  {
    if d == [] then [] else Reversed(d[1..]) + [d[0]]
  }

  lemma ReversedSnoc(d: Bytes, x: byte)
    ensures Reversed(d + [x]) == [x] + Reversed(d)
  {
  }

  /** The number left to write and the digits written so far, lowest first, make the whole number. */
  ghost predicate Writing(total: nat, left: nat, written: Bytes) {
    InBase(written, 58) && Canon(total, 58) == Canon(left, 58) + Reversed(written)
  }

  lemma WriteDigit(total: nat, left: nat, written: Bytes, q: nat, r: nat)
    requires Writing(total, left, written) && left > 0 && left == q * 58 + r && r < 58
    ensures Writing(total, q, written + [r as byte])
  {
    ReversedSnoc(written, r as byte);
    assert Canon(left, 58) == Canon(q, 58) + [r as byte];
    assert Canon(q, 58) + [r as byte] + Reversed(written) == Canon(q, 58) + ([r as byte] + Reversed(written));
  }

  /** While bytes are left their number is positive, and the digit buffer has room. */
  lemma RoomForDigits(d: Bytes, total: nat, left: Bytes, written: Bytes)
    requires |d| <= NUM_BYTES && total == Value(d, 256)
    requires Writing(total, Value(left, 256), written) && left != [] && left[0] != 0
    ensures Value(left, 256) > 0 && |written| < TEXT_DIGITS
  {
    BytesAreDigits(left);
    CanonOfValue(left, 256);
    ValueBound(d);
    Pow256Grows(|d|, NUM_BYTES);
    DigitsNeeded(total, 32);
    CanonIsCanonical(Value(left, 256), 58);
  }

  lemma {:induction false} ValueBound(d: Bytes)
    ensures Value(d, 256) < Pow256(|d|)
  {
    if d != [] { ValueBound(d[..|d| - 1]); }
  }

  method PutDigit(tmp: array<char>, count: nat, digit: byte, ghost written: Bytes)
    requires count < tmp.Length && digit < 58 && Spells(tmp[..count], written)
    modifies tmp
    ensures Spells(tmp[..count + 1], written + [digit])
  {
    ghost var text := tmp[..count];
    tmp[count] := CharOf(digit);
    assert tmp[..count + 1] == text + [tmp[count]];
  }

  /** Writes the digits of the number in num[start..blen], lowest first, into the digit buffer. */
  method WriteDigits(num: array<byte>, zeros: nat, blen: nat, tmp: array<char>)
    returns (count: nat, ghost written: Bytes)
    requires zeros <= blen <= num.Length == NUM_BYTES && tmp.Length == TEXT_DIGITS
    requires zeros < blen ==> num[zeros] != 0
    modifies num, tmp
    ensures count <= TEXT_DIGITS && Spells(tmp[..count], written)
    ensures Reversed(written) == Canon(old(Value(num[zeros..blen], 256)), 58)
  {
    ghost var all := num[zeros..blen];
    ghost var total := Value(all, 256);
    var start := zeros;
    count, written := 0, [];
    while start < blen
      invariant zeros <= start <= blen
      invariant start < blen ==> num[start] != 0
      invariant count == |written| <= TEXT_DIGITS && Spells(tmp[..count], written)
      invariant Writing(total, Value(num[start..blen], 256), written)
      decreases blen - start, Value(num[start..blen], 256)
    {
      ghost var left := num[start..blen];
      RoomForDigits(all, total, left, written);
      var rem := DivideInPlace(num, start, blen);
      WriteDigit(total, Value(left, 256), written, Value(num[start..blen], 256), rem);
      PutDigit(tmp, count, rem as byte, written);
      written := written + [rem as byte];
      count := count + 1;
      start := SkipZeros(num, start, blen);
    }
  }

  /** Assembles the address: one '1' for every leading zero byte, then the digits highest first. */
  method Assemble(zeros: nat, tmp: array<char>, count: nat, ghost written: Bytes) returns (out: string)
    requires count <= tmp.Length && Spells(tmp[..count], written) && InBase(written, 58)
    ensures Spells(out, Zeros(zeros) + Reversed(written))
  {
    out := "";
    for i := 0 to zeros
      invariant |out| == i && forall k :: 0 <= k < i ==> out[k] == '1'
    {
      out := out + ['1'];
    }
    var left := count;
    while left > 0
      invariant 0 <= left <= count
      invariant |out| == zeros + (count - left)
      invariant forall k :: 0 <= k < zeros ==> out[k] == '1'
      invariant forall k :: left <= k < count ==> out[zeros + count - 1 - k] == tmp[k]
    {
      left := left - 1;
      out := out + [tmp[left]];
    }
    forall i | 0 <= i < |out|
      ensures IsDigit(out[i], (Zeros(zeros) + Reversed(written))[i])
    {
      if i < zeros {
        assert IsDigit('1', 0);
      } else {
        var k := zeros + count - 1 - i;
        assert out[i] == tmp[k] == tmp[..count][k];
      }
    }
  }

  method Load(buf: Bytes, num: array<byte>)
    requires |buf| <= num.Length
    modifies num
    ensures num[..|buf|] == buf
  {
    for i := 0 to |buf|
      invariant num[..i] == buf[..i]
    {
      num[i] := buf[i];
    }
  }

  lemma ReversedInBase(d: Bytes)
    requires InBase(Reversed(d), 58)
    ensures InBase(d, 58)
  {
    assert forall i :: 0 <= i < |d| ==> d[i] == Reversed(d)[|d| - 1 - i];
  }

  /** The address of a version and payload, when it fits the input and output buffers. */
  method Encode(hash: Checksum, version: byte, payload: Bytes, outMax: nat) returns (ok: bool, out: string)
    ensures ok <==> |payload| + 5 <= NUM_BYTES && |Encoded(hash, version, payload)| + 1 <= outMax
    ensures ok ==> out == Encoded(hash, version, payload)
  {
    if |payload| + 5 > NUM_BYTES { return false, ""; }
    var buf := Checked(hash, version, payload);
    var blen := |buf|;
    var num, tmp := new byte[NUM_BYTES], new char[TEXT_DIGITS];
    Load(buf, num);
    assert num[0..blen] == buf;
    var zeros := SkipZeros(num, 0, blen);
    LeadingZerosAre(buf, zeros);
    var count;
    ghost var written;
    count, written := WriteDigits(num, zeros, blen, tmp);
    CanonIsCanonical(Value(buf, 256), 58);
    ReversedInBase(written);
    out := Assemble(zeros, tmp, count, written);
    ConvertKeeps(buf, 256, 58);
    assert Convert(buf, 256, 58) == Zeros(zeros) + Reversed(written);
    SpellingIsText(out, Convert(buf, 256, 58));
    if zeros + count + 1 > outMax { return false, out; }
    return true, out;
  }

  // ---- reading ----

  /** The digit a character stands for, by search through the alphabet. */
  method DigitOf(c: char) returns (d: int)
    ensures d >= 0 ==> d < 58 && IsDigit(c, d as byte)
    ensures d < 0 ==> forall e :: !IsDigit(c, e)
  {
    var i := 0;
    while i < 58
      invariant 0 <= i <= 58
      invariant forall e :: IsDigit(c, e) ==> i <= e as int
    {
      if CharOf(i as byte) == c { return i; }
      i := i + 1;
    }
    return -1;
  }

  lemma {:induction false} ValueCons(x: byte, d: Bytes)
    ensures Value([x] + d, 256) == x as nat * Pow256(|d|) + Value(d, 256)
  {
    if d == [] {
      assert [x] + d == [x] && [x][..0] == [];
    } else {
      var k := |d| - 1;
      assert ([x] + d)[..k + 1] == [x] + d[..k];
      ValueCons(x, d[..k]);
      assert 256 * (x as nat * Pow256(k)) == x as nat * (256 * Pow256(k));
    }
  }

  /** The bytes still to multiply with the carry, above the bytes already done. */
  ghost predicate Accumulating(total: nat, high: Bytes, carry: nat, low: Bytes) {
    total == (Value(high, 256) * 58 + carry) * Pow256(|low|) + Value(low, 256)
  }

  lemma AccumulateByte(total: nat, high: Bytes, x: byte, carry: nat, low: Bytes, b: byte, e: nat)
    requires Accumulating(total, high + [x], carry, low)
    requires x as nat * 58 + carry == e * 256 + b as nat
    ensures Accumulating(total, high, e, [b] + low)
  {
    Appended(high, x, 256);
    ValueCons(b, low);
    var a := Value(high, 256) * 58 + e;
    assert Value(high + [x], 256) * 58 + carry == a * 256 + b as nat;
    Distribute(a, b as nat, Pow256(|low|));
  }

  lemma Distribute(a: nat, b: nat, p: nat)
    ensures (a * 256 + b) * p == a * (256 * p) + b * p
  {
    MulAssoc(a, 256, p);
    assert (a * 256 + b) * p == (a * 256) * p + b * p;
  }

  /** Multiplies the buffer's number by 58 and adds a digit; the carry out is below 58. */
  method MultiplyAdd(num: array<byte>, blen: nat, digit: nat) returns (carry: nat)
    requires blen <= num.Length && digit < 58
    modifies num
    ensures carry < 58 && num[blen..] == old(num[blen..])
    ensures Accumulating(old(Value(num[..blen], 256)) * 58 + digit, [], carry, num[..blen])
  {
    ghost var was := num[..];
    ghost var total := Value(was[..blen], 256) * 58 + digit;
    carry := digit;
    var i := 0;
    assert num[blen..blen] == [];
    while i < blen
      invariant 0 <= i <= blen && 0 <= carry < 58
      invariant num[..blen - i] == was[..blen - i] && num[blen..] == was[blen..]
      invariant Accumulating(total, was[..blen - i], carry, num[blen - i..blen])
    {
      var at := blen - 1 - i;
      ghost var low, before := num[at + 1..blen], carry;
      assert num[at] == was[..at + 1][at];
      var v := num[at] as int * 58 + carry;
      num[at] := (v % 256) as byte;
      carry := v / 256;
      assert was[..at + 1] == was[..at] + [was[at]];
      AccumulateByte(total, was[..at], was[at], before, low, num[at], carry);
      assert num[at..blen] == [num[at]] + low;
      i := i + 1;
    }
    assert num[0..blen] == num[..blen] && was[..0] == [];
  }

  /** Shifts the buffer up one byte and puts a byte in front. */
  method Prepend(num: array<byte>, blen: nat, b: byte)
    requires blen < num.Length
    modifies num
    ensures num[..blen + 1] == [b] + old(num[..blen])
  {
    ghost var was := num[..blen];
    var i := blen;
    while i > 0
      invariant 0 <= i <= blen
      invariant num[..i] == was[..i]
      invariant forall k :: i < k <= blen ==> num[k] == was[k - 1]
    {
      num[i] := num[i - 1];
      i := i - 1;
    }
    num[0] := b;
  }

  /** With a carry left, the longer number is canonical; without one, the number still is. */
  lemma StaysCanonical(was: nat, digit: nat, carry: nat, low: Bytes)
    requires |low| == |Canon(was, 256)|
    requires Accumulating(was * 58 + digit, [], carry, low) && carry < 256
    ensures Canon(was * 58 + digit, 256) == if carry > 0 then [carry as byte] + low else low
  {
    var total := was * 58 + digit;
    BytesAreDigits(low);
    ValueCons(carry as byte, low);
    if carry > 0 {
      BytesAreDigits([carry as byte] + low);
      CanonOfValue([carry as byte] + low, 256);
    } else {
      ZerosAndCanon(low, 256);
      CanonGrows(was, total, 256);
    }
  }

  /** Puts what is left of the carry in front of the buffer's number, when there is room. */
  method PushCarry(num: array<byte>, len: nat, left: nat, ghost whole: Bytes) returns (ok: bool, blen: nat)
    requires len <= num.Length && left < 58
    requires whole == if left > 0 then [left as byte] + num[..len] else num[..len]
    modifies num
    ensures ok <==> |whole| <= num.Length
    ensures ok ==> blen == |whole| && num[..blen] == whole
  {
    blen := len;
    var carry := left;
    while carry > 0
      invariant 0 <= carry && (carry > 0 ==> carry == left && blen == len && num[..] == old(num[..]))
      invariant carry == 0 ==> blen == |whole| <= num.Length && num[..blen] == whole
      decreases carry
    {
      if blen >= num.Length { return false, blen; }
      Prepend(num, blen, (carry % 256) as byte);
      blen := blen + 1;
      carry := carry / 256;
    }
    return true, blen;
  }

  /** One digit of the address folded into the buffer, unless the number outgrows it. */
  method Accumulate(num: array<byte>, len: nat, digit: nat, ghost was: nat) returns (ok: bool, blen: nat)
    requires len <= num.Length == NUM_BYTES && digit < 58 && num[..len] == Canon(was, 256)
    modifies num
    ensures ok ==> blen <= NUM_BYTES && num[..blen] == Canon(was * 58 + digit, 256)
    ensures !ok ==> |Canon(was * 58 + digit, 256)| > NUM_BYTES
  {
    CanonIsCanonical(was, 256);
    var carry := MultiplyAdd(num, len, digit);
    StaysCanonical(was, digit, carry, num[..len]);
    ok, blen := PushCarry(num, len, carry, Canon(was * 58 + digit, 256));
  }

  lemma LongerNeedsMore(d: Bytes, k: nat)
    requires k <= |d| && |Canon(Value(d[..k], 58), 256)| > NUM_BYTES
    ensures |Canon(Value(d, 58), 256)| > NUM_BYTES
  {
    ValueGrows(d, k, 58);
    CanonGrows(Value(d[..k], 58), Value(d, 58), 256);
  }

  lemma NotSpelled(s: string, i: nat)
    requires i < |s| && forall d :: !IsDigit(s[i], d)
    ensures forall d :: !Spells(s, d)
  {
    forall d
      ensures !Spells(s, d)
    {
      if i < |d| { assert !IsDigit(s[i], d[i]); }
    }
  }

  /** The number an address spells, as the bytes of the buffer. */
  method ReadNumber(s: string, num: array<byte>) returns (ok: bool, blen: nat, ghost digits: Bytes)
    requires num.Length == NUM_BYTES
    modifies num
    ensures ok ==> Spells(s, digits) && blen <= NUM_BYTES && num[..blen] == Canon(Value(digits, 58), 256)
    ensures !ok ==> forall d :: Spells(s, d) ==> |Canon(Value(d, 58), 256)| > NUM_BYTES
  {
    blen, digits := 0, [];
    for i := 0 to |s|
      invariant Spells(s[..i], digits) && blen <= NUM_BYTES
      invariant num[..blen] == Canon(Value(digits, 58), 256)
    {
      var d := DigitOf(s[i]);
      if d < 0 {
        NotSpelled(s, i);
        return false, blen, digits;
      }
      Appended(digits, d as byte, 58);
      ghost var more := digits + [d as byte];
      assert Spells(s[..i + 1], more);
      var fits;
      fits, blen := Accumulate(num, blen, d, Value(digits, 58));
      if !fits {
        forall e | Spells(s, e)
          ensures |Canon(Value(e, 58), 256)| > NUM_BYTES
        {
          SpellingIsUnique(s[..i + 1], e[..i + 1], more);
          LongerNeedsMore(e, i + 1);
        }
        return false, blen, digits;
      }
      digits := more;
    }
    assert s[..|s|] == s;
    return true, blen, digits;
  }

  /** The digits of an address, and the checked bytes they convert back to. */
  lemma AddressSpells(hash: Checksum, s: string, version: byte, payload: Bytes) returns (d: Bytes)
    requires IsAddress(hash, s, version, payload)
    ensures Spells(s, d) && InBase(d, 58)
    ensures Convert(d, 58, 256) == Checked(hash, version, payload)
  {
    var full := Checked(hash, version, payload);
    d := Convert(full, 256, 58);
    BytesAreDigits(full);
    ConvertKeeps(full, 256, 58);
    ConvertBack(full, 256, 58);
  }

  lemma CheckedParts(hash: Checksum, full: Bytes)
    requires |full| >= 5 && hash(full[..|full| - 4])[..4] == full[|full| - 4..]
    ensures Checked(hash, full[0], full[1..|full| - 4]) == full
  {
    assert [full[0]] + full[1..|full| - 4] == full[..|full| - 4];
  }

  lemma CheckedDetermines(hash: Checksum, full: Bytes, version: byte, payload: Bytes)
    requires full == Checked(hash, version, payload)
    ensures |full| == |payload| + 5 && version == full[0] && payload == full[1..|full| - 4]
    ensures hash(full[..|full| - 4])[..4] == full[|full| - 4..]
  {
    assert full[..|full| - 4] == [version] + payload;
  }

  /** The characters at the front that stand for zero bytes. */
  method CountOnes(s: string) returns (zeros: nat)
    ensures zeros <= |s| && (forall i :: 0 <= i < zeros ==> s[i] == '1') && (zeros < |s| ==> s[zeros] != '1')
  {
    zeros := 0;
    while zeros < |s| && s[zeros] == '1'
      invariant zeros <= |s| && forall i :: 0 <= i < zeros ==> s[i] == '1'
    {
      zeros := zeros + 1;
    }
  }

  lemma OnesAreZeros(s: string, d: Bytes, zeros: nat)
    requires Spells(s, d) && zeros <= |s| && (forall i :: 0 <= i < zeros ==> s[i] == '1')
    requires zeros < |s| ==> s[zeros] != '1'
    ensures LeadingZeros(d) == zeros
  {
    forall i | 0 <= i < zeros ensures d[i] == 0 { DigitIsUnique(s[i], d[i], 0); }
    LeadingZerosAre(d, zeros);
  }

  /** What a spelled, zero-padded number says about being an address. */
  lemma AddressIffChecked(hash: Checksum, s: string, d: Bytes, full: Bytes)
    requires Spells(s, d) && full == Convert(d, 58, 256)
    ensures forall v, p :: IsAddress(hash, s, v, p) <==> |p| + 5 <= NUM_BYTES && full == Checked(hash, v, p)
  {
    SpellingIsText(s, d);
    ConvertBack(d, 58, 256);
    forall v, p
      ensures IsAddress(hash, s, v, p) <==> |p| + 5 <= NUM_BYTES && full == Checked(hash, v, p)
    {
      if IsAddress(hash, s, v, p) {
        var e := AddressSpells(hash, s, v, p);
        SpellingIsUnique(s, d, e);
      }
    }
  }

  lemma OutgrownIsNoAddress(hash: Checksum, s: string)
    requires forall d :: Spells(s, d) ==> |Canon(Value(d, 58), 256)| > NUM_BYTES
    ensures forall v, p :: !IsAddress(hash, s, v, p)
  {
    forall v, p
      ensures !IsAddress(hash, s, v, p)
    {
      if IsAddress(hash, s, v, p) { var d := AddressSpells(hash, s, v, p); }
    }
  }

  /** Accepts exactly the addresses whose payload fits, and returns what they were made from. */
  method Decode(hash: Checksum, s: string, payloadMax: nat) returns (ok: bool, version: byte, payload: Bytes)
    ensures ok ==> IsAddress(hash, s, version, payload) && |payload| <= payloadMax
    ensures !ok ==> forall v, p :: |p| <= payloadMax ==> !IsAddress(hash, s, v, p)
  {
    version, payload := 0, [];
    var num := new byte[NUM_BYTES];
    var zeros := CountOnes(s);
    var read, blen;
    ghost var digits;
    read, blen, digits := ReadNumber(s, num);
    if !read {
      OutgrownIsNoAddress(hash, s);
      return false, version, payload;
    }
    OnesAreZeros(s, digits, zeros);
    var full := Zeros(zeros) + num[..blen];
    AddressIffChecked(hash, s, digits, full);
    ok, version, payload := Unwrap(hash, full, payloadMax);
  }

  /** Splits checked bytes of an allowed size into version and payload. */
  method Unwrap(hash: Checksum, full: Bytes, payloadMax: nat) returns (ok: bool, version: byte, payload: Bytes)
    ensures ok ==> |payload| + 5 <= NUM_BYTES && full == Checked(hash, version, payload) && |payload| <= payloadMax
    ensures !ok ==> forall v, p :: |p| + 5 <= NUM_BYTES && |p| <= payloadMax ==> full != Checked(hash, v, p)
  {
    var flen := |full|;
    forall v, p | full == Checked(hash, v, p)
      ensures flen == |p| + 5 && hash(full[..flen - 4])[..4] == full[flen - 4..]
    {
      CheckedDetermines(hash, full, v, p);
    }
    version, payload := 0, [];
    if flen > NUM_BYTES || flen < 5 { return false, version, payload; }
    if hash(full[..flen - 4])[..4] != full[flen - 4..] { return false, version, payload; }
    var plen := flen - 5;
    if plen > payloadMax { return false, version, payload; }
    CheckedParts(hash, full);
    version, payload := full[0], full[1..flen - 4];
    return true, version, payload;
  }

  /** An address has one reading, and a version and payload one address. */
  lemma AddressIsUnique(hash: Checksum, s: string, v: byte, p: Bytes, w: byte, q: Bytes)
    requires IsAddress(hash, s, v, p) && IsAddress(hash, s, w, q)
    ensures v == w && p == q
  {
    var d := AddressSpells(hash, s, v, p);
    var e := AddressSpells(hash, s, w, q);
    SpellingIsUnique(s, d, e);
    CheckedDetermines(hash, Convert(d, 58, 256), v, p);
    CheckedDetermines(hash, Convert(d, 58, 256), w, q);
  }
}
