/** Scripts as operations, and the deletion of a signature push from the signed script. */
module Script {
  import opened Primitives
  import Digits

  // ---- operations ----

  /** Length of the first operation with its data, none when it runs past the end. */
  function OpLen(s: Bytes): (len: Option<nat>)
    ensures len.Some? ==> 0 < len.value <= |s|
  {
    if s == [] then None
    else
      var op := s[0] as int;
      var header := if op == 0x4c then 2 else if op == 0x4d then 3 else if op == 0x4e then 5 else 1;
      if header > |s| then None
      else
        var data :=
          if op < 0x4c then op
          else if op == 0x4c then s[1] as int
          else if op == 0x4d then s[1] as int + 0x100 * s[2] as int
          else if op == 0x4e then
            s[1] as int + 0x100 * s[2] as int + 0x1_0000 * s[3] as int + 0x100_0000 * s[4] as int
          else 0;
        if header + data > |s| then None else Some(header + data)
  }

  /** How many bytes after the first one hold the length of the data. */
  function LengthBytes(op: byte): nat {
    if op == 0x4c then 1 else if op == 0x4d then 2 else if op == 0x4e then 4 else 0
  }

  /** An operation is its first byte, the length bytes, and as much data as those say, least significant byte first. */
  lemma OpLenByValue(s: Bytes)
    requires s != []
    ensures var k := LengthBytes(s[0]);
      if |s| < 1 + k then OpLen(s) == None
      else
        var data := if k > 0 then Digits.Val(s[1..1 + k]) else if s[0] < 0x4c then s[0] as nat else 0;
        OpLen(s) == if 1 + k + data <= |s| then Some(1 + k + data) else None
  {
    var k := LengthBytes(s[0]);
    if k > 0 && |s| > k {
      var d := s[1..1 + k];
      ValOfFour(d);
    }
  }

  lemma ValOfFour(d: Bytes)
    ensures |d| == 1 ==> Digits.Val(d) == d[0] as int
    ensures |d| == 2 ==> Digits.Val(d) == d[0] as int + 0x100 * d[1] as int
    ensures |d| == 4 ==>
      Digits.Val(d) == d[0] as int + 0x100 * d[1] as int + 0x1_0000 * d[2] as int + 0x100_0000 * d[3] as int
  {
    if |d| == 1 || |d| == 2 || |d| == 4 {
      assert Digits.Val(d) == d[0] as int + 256 * Digits.Val(d[1..]);
      if |d| > 1 { assert Digits.Val(d[1..]) == d[1] as int + 256 * Digits.Val(d[1..][1..]); }
      if |d| > 2 {
        assert d[1..][1..] == d[2..] && d[2..][1..] == d[3..] && d[3..][1..] == [];
        assert Digits.Val(d[2..]) == d[2] as int + 256 * Digits.Val(d[3..]);
        assert Digits.Val(d[3..]) == d[3] as int + 256 * Digits.Val([]);
      }
    }
  }

  /** The decodable operations from the start. */
  function Ops(s: Bytes): seq<Bytes>
    decreases |s|
  {
    match OpLen(s)
    case None => []
    case Some(k) => [s[..k]] + Ops(s[k..])
  }

  /** What is left where the next operation does not decode. */
  function Tail(s: Bytes): Bytes
    decreases |s|
  {
    match OpLen(s)
    case None => s
    case Some(k) => Tail(s[k..])
  }

  function Flatten(ops: seq<Bytes>): Bytes {
    if ops == [] then [] else ops[0] + Flatten(ops[1..])
  }

  function Without(ops: seq<Bytes>, pat: Bytes): seq<Bytes> {
    if ops == [] then []
    else (if ops[0] == pat then [] else [ops[0]]) + Without(ops[1..], pat)
  }

  lemma FlattenStep(op: Bytes, rest: seq<Bytes>, tail: Bytes)
    ensures Flatten([op] + rest) + tail == op + (Flatten(rest) + tail)
  {
    assert ([op] + rest)[1..] == rest;
  }

  /** Operations and the undecodable tail make up the whole script. */
  lemma {:induction false} OpsAndTail(s: Bytes)
    ensures Flatten(Ops(s)) + Tail(s) == s
    decreases |s|
  {
    match OpLen(s) {
      case None =>
      case Some(k) =>
        OpsAndTail(s[k..]);
        FlattenStep(s[..k], Ops(s[k..]), Tail(s));
        assert s[..k] + s[k..] == s;
    }
  }

  // ---- the program's 32-bit lengths ----

  /** The first operation has a four-byte length of 2^31 or more. */
  predicate NegativeLength(s: Bytes) {
    |s| >= 5 && s[0] == 0x4e && s[4] >= 0x80
  }

  /** How far the cursor moves when a four-byte length is read as a signed number. */
  function SignedMove(s: Bytes): Option<int> {
    if |s| >= 5 && s[0] == 0x4e then
      var raw := s[1] as int + 0x100 * s[2] as int + 0x1_0000 * s[3] as int + 0x100_0000 * s[4] as int;
      var len := if raw >= 0x8000_0000 then raw - TWO_TO_THE_32 else raw;
      if 5 + len > |s| then None else Some(5 + len)
    else
      match OpLen(s)
      case None => None
      case Some(k) => Some(k as int)
  }

  /** The signed reading is this one exactly when no length is negative. */
  lemma SignedMoveIsOpLen(s: Bytes)
    ensures (match OpLen(s) case None => SignedMove(s) == None case Some(k) => SignedMove(s) == Some(k as int))
       <==> !NegativeLength(s)
  {
  }

  // ---- deletion ----

  predicate StartsWith(s: Bytes, pat: Bytes) {
    |pat| <= |s| && s[..|pat|] == pat
  }

  /** The cursor's reading: drop the pattern wherever an operation could start, else move on by one. */
  function Deleted(s: Bytes, pat: Bytes): Bytes
    requires pat != []
    decreases |s|
  {
    if StartsWith(s, pat) then Deleted(s[|pat|..], pat)
    else
      match OpLen(s)
      case None => s
      case Some(k) => s[..k] + Deleted(s[k..], pat)
  }

  predicate IsOneOp(pat: Bytes) {
    OpLen(pat) == Some(|pat|)
  }

  lemma OpLenOfPrefix(s: Bytes, pat: Bytes)
    requires IsOneOp(pat) && StartsWith(s, pat)
    ensures OpLen(s) == Some(|pat|)
  {
    assert forall i :: 0 <= i < |pat| ==> s[i] == pat[i];
  }

  /** For a pattern that is one operation, the cursor filters the list of operations. */
  lemma {:induction false} DeletionIsFilter(s: Bytes, pat: Bytes)
    requires IsOneOp(pat)
    ensures Deleted(s, pat) == Flatten(Without(Ops(s), pat)) + Tail(s)
    decreases |s|
  {
    if StartsWith(s, pat) {
      OpLenOfPrefix(s, pat);
      DeletionIsFilter(s[|pat|..], pat);
      FilterStep(s[..|pat|], Ops(s[|pat|..]), Tail(s), pat);
    } else if OpLen(s).Some? {
      var k := OpLen(s).value;
      DeletionIsFilter(s[k..], pat);
      assert s[..k] != pat;
      FilterStep(s[..k], Ops(s[k..]), Tail(s), pat);
    }
  }

  lemma FilterStep(op: Bytes, rest: seq<Bytes>, tail: Bytes, pat: Bytes)
    ensures Flatten(Without([op] + rest, pat)) + tail
         == (if op == pat then [] else op) + (Flatten(Without(rest, pat)) + tail)
  {
    assert ([op] + rest)[1..] == rest;
    var kept := Without(rest, pat);
    if op != pat {
      assert ([op] + kept)[1..] == kept;
    } else {
      assert [] + kept == kept;
    }
  }

  /** Nothing is deleted exactly when no operation is the pattern. */
  lemma {:induction false} UnchangedIffAbsent(s: Bytes, pat: Bytes)
    requires IsOneOp(pat)
    ensures |Deleted(s, pat)| <= |s|
    ensures Deleted(s, pat) == s <==> pat !in Ops(s)
    decreases |s|
  {
    if StartsWith(s, pat) {
      OpLenOfPrefix(s, pat);
      UnchangedIffAbsent(s[|pat|..], pat);
      assert pat == Ops(s)[0];
    } else if OpLen(s).Some? {
      var k := OpLen(s).value;
      UnchangedIffAbsent(s[k..], pat);
      var rest := Deleted(s[k..], pat);
      assert s == s[..k] + s[k..];
      assert s[..k] + rest == s ==> rest == s[k..] by { assert (s[..k] + rest)[k..] == rest; }
      assert Ops(s)[0] == s[..k] != pat;
      assert Ops(s)[1..] == Ops(s[k..]);
      assert pat in Ops(s) <==> pat in Ops(s)[1..];
    }
  }

  lemma {:induction false} OpsOfFlatten(ops: seq<Bytes>, tail: Bytes)
    requires (forall op :: op in ops ==> IsOneOp(op)) && OpLen(tail) == None
    ensures Ops(Flatten(ops) + tail) == ops
  {
    if ops == [] {
      assert Flatten(ops) + tail == tail;
    } else {
      var op, rest := ops[0], Flatten(ops[1..]) + tail;
      OpsOfFlatten(ops[1..], tail);
      assert Flatten(ops) + tail == op + rest;
      assert (op + rest)[..|op|] == op && (op + rest)[|op|..] == rest;
      OpLenOfPrefix(op + rest, op);
    }
  }

  lemma {:induction false} OpsAreWhole(s: Bytes)
    ensures forall op :: op in Ops(s) ==> IsOneOp(op)
    ensures OpLen(Tail(s)) == None
    decreases |s|
  {
    if OpLen(s).Some? {
      var k := OpLen(s).value;
      OpsAreWhole(s[k..]);
      assert forall i :: 0 <= i < k ==> s[..k][i] == s[i];
      assert IsOneOp(s[..k]);
    }
  }

  lemma {:induction false} AbsentAfter(ops: seq<Bytes>, pat: Bytes)
    ensures pat !in Without(ops, pat)
    ensures forall op :: op in Without(ops, pat) ==> op in ops
  {
    if ops != [] { AbsentAfter(ops[1..], pat); }
  }

  /** Deleting twice is deleting once: what is left never joins into the pattern. */
  lemma DeletingTwiceIsOnce(s: Bytes, pat: Bytes)
    requires IsOneOp(pat)
    ensures Deleted(Deleted(s, pat), pat) == Deleted(s, pat)
    ensures Ops(Deleted(s, pat)) == Without(Ops(s), pat)
  {
    DeletionIsFilter(s, pat);
    OpsAreWhole(s);
    AbsentAfter(Ops(s), pat);
    OpsOfFlatten(Without(Ops(s), pat), Tail(s));
    UnchangedIffAbsent(Deleted(s, pat), pat);
  }

  // ---- the whole cursor loop with signed lengths ----

  /** No operation the cursor reads, from a position on, has a negative length. */
  predicate NoNegativeOnTheWay(s: Bytes, pat: Bytes)
    requires pat != []
    decreases |s|
  {
    if StartsWith(s, pat) then NoNegativeOnTheWay(s[|pat|..], pat)
    else !NegativeLength(s) && (OpLen(s).Some? ==> NoNegativeOnTheWay(s[OpLen(s).value..], pat))
  }

  /** The loop with signed moves: nothing when the cursor would stand still, go back or leave the script. */
  function SignedDeleted(s: Bytes, pat: Bytes): Option<Bytes>
    requires pat != []
    decreases |s|
  {
    if StartsWith(s, pat) then SignedDeleted(s[|pat|..], pat)
    else
      match SignedMove(s)
      case None => Some(s)
      case Some(k) =>
        if !(0 < k <= |s|) then None
        else
          match SignedDeleted(s[k..], pat)
          case None => None
          case Some(rest) => Some(s[..k] + rest)
  }

  /** On a script without negative lengths on the cursor's way the program's loop is the modelled one. */
  lemma {:induction false} SignedLoopIsDeletion(s: Bytes, pat: Bytes)
    requires pat != [] && NoNegativeOnTheWay(s, pat)
    ensures SignedDeleted(s, pat) == Some(Deleted(s, pat))
    decreases |s|
  {
    if StartsWith(s, pat) {
      SignedLoopIsDeletion(s[|pat|..], pat);
    } else {
      SignedMoveIsOpLen(s);
      if OpLen(s).Some? { SignedLoopIsDeletion(s[OpLen(s).value..], pat); }
    }
  }

  predicate IsNarrow(op: Bytes) {
    op != [] && op[0] != 0x4e
  }

  /** A script whose every operation is without a four-byte length has none on the way of a one-operation pattern. */
  lemma {:induction false} NoWideOpsNoneOnTheWay(s: Bytes, pat: Bytes)
    requires IsOneOp(pat) && Tail(s) == [] && forall op :: op in Ops(s) ==> IsNarrow(op)
    ensures NoNegativeOnTheWay(s, pat)
    decreases |s|
  {
    if StartsWith(s, pat) {
      OpLenOfPrefix(s, pat);
      assert Ops(s)[1..] == Ops(s[|pat|..]);
      NoWideOpsNoneOnTheWay(s[|pat|..], pat);
    } else if OpLen(s).Some? {
      var k := OpLen(s).value;
      assert Ops(s)[0] == s[..k] && Ops(s)[1..] == Ops(s[k..]);
      assert s[..k] in Ops(s) && s[..k][0] == s[0];
      NoWideOpsNoneOnTheWay(s[k..], pat);
    }
  }

  // ---- the cursor over a buffer ----

  const OUT_BYTES := 2048

  /** Advances pc over one operation; on failure the cursor ends at n. */
  method NextOp(s: array<byte>, n: nat, pc: nat) returns (ok: bool, next: nat)
    requires pc <= n <= s.Length
    ensures ok <==> OpLen(s[pc..n]).Some?
    ensures next == if ok then pc + OpLen(s[pc..n]).value else n
  {
    next := pc;
    if next >= n { return false, n; }
    ghost var rest := s[pc..n];
    var op, len := s[next] as int, 0;
    next := next + 1;
    if op < 0x4c {
      len := op;
    } else if op == 0x4c {
      if next + 1 > n { return false, n; }
      len := s[next] as int;
      next := next + 1;
    } else if op == 0x4d {
      if next + 2 > n { return false, n; }
      len := s[next] as int + 0x100 * s[next + 1] as int;
      next := next + 2;
    } else if op == 0x4e {
      if next + 4 > n { return false, n; }
      len := s[next] as int + 0x100 * s[next + 1] as int + 0x1_0000 * s[next + 2] as int
        + 0x100_0000 * s[next + 3] as int;
      next := next + 4;
    }
    if next + len > n { return false, n; }
    return true, next + len;
  }

  method Append(out: array<byte>, len: nat, s: array<byte>, lo: nat, hi: nat) returns (newLen: nat)
    requires out != s && lo <= hi <= s.Length && len + (hi - lo) <= out.Length
    modifies out
    ensures newLen == len + (hi - lo)
    ensures out[..newLen] == old(out[..len]) + s[lo..hi]
  {
    ghost var was := out[..len];
    var i := 0;
    while i < hi - lo
      invariant 0 <= i <= hi - lo
      invariant out[..len + i] == was + s[lo..lo + i]
    {
      out[len + i] := s[lo + i];
      i := i + 1;
    }
    newLen := len + (hi - lo);
  }

  predicate MatchesAt(input: Bytes, pc: nat, pat: Bytes) {
    pc + |pat| <= |input| && input[pc..pc + |pat|] == pat
  }

  lemma MatchIsPrefix(input: Bytes, pc: nat, pat: Bytes)
    requires pc <= |input|
    ensures MatchesAt(input, pc, pat) <==> StartsWith(input[pc..], pat)
  {
    if pc + |pat| <= |input| { assert input[pc..][..|pat|] == input[pc..pc + |pat|]; }
  }

  /** What the cursor will still give from a position on. */
  ghost predicate Yields(input: Bytes, pc: nat, pat: Bytes, left: Bytes) {
    pat != [] && pc <= |input| && left == Deleted(input[pc..], pat)
  }

  /** A match at the cursor is passed over. */
  lemma PassMatch(input: Bytes, pc: nat, pat: Bytes, left: Bytes)
    requires Yields(input, pc, pat, left) && MatchesAt(input, pc, pat)
    ensures Yields(input, pc + |pat|, pat, left)
  {
    MatchIsPrefix(input, pc, pat);
    assert input[pc..][|pat|..] == input[pc + |pat|..];
  }

  lemma Regroup(a: Bytes, b: Bytes, c: Bytes)
    ensures a + (b + c) == a + b + c
  {
  }

  /** One operation passed: it becomes pending before what the cursor will still give. */
  lemma OpTaken(input: Bytes, pc: nat, pat: Bytes, left: Bytes, ok: bool, next: nat) returns (rest: Bytes)
    requires Yields(input, pc, pat, left) && !MatchesAt(input, pc, pat)
    requires ok <==> OpLen(input[pc..]).Some?
    requires ok ==> next == pc + OpLen(input[pc..]).value
    ensures ok ==> pc < next <= |input| && Yields(input, next, pat, rest) && left == input[pc..next] + rest
    ensures !ok ==> left == input[pc..]
  {
    MatchIsPrefix(input, pc, pat);
    var s := input[pc..];
    rest := [];
    if ok {
      var k := next - pc;
      assert s[..k] == input[pc..next] && s[k..] == input[next..];
      rest := Deleted(s[k..], pat);
    }
  }

  lemma SameSlice(s: array<byte>, n: nat, input: Bytes, lo: nat, hi: nat)
    requires n <= s.Length && input == s[..n] && lo <= hi <= n
    ensures s[lo..hi] == input[lo..hi]
  {
  }

  /** Passes over the pattern as often as it repeats from the cursor on. */
  method SkipMatches(s: array<byte>, n: nat, pc: nat, pat: Bytes, ghost input: Bytes, ghost left: Bytes)
    returns (next: nat)
    requires pc <= n <= s.Length && input == s[..n] && Yields(input, pc, pat, left)
    ensures pc <= next <= n && !MatchesAt(input, next, pat) && Yields(input, next, pat, left)
  {
    next := pc;
    while n - next >= |pat| && s[next..next + |pat|] == pat
      invariant pc <= next <= n && Yields(input, next, pat, left)
    {
      SameSlice(s, n, input, next, next + |pat|);
      PassMatch(input, next, pat, left);
      next := next + |pat|;
    }
    if next + |pat| <= n { SameSlice(s, n, input, next, next + |pat|); }
  }

  /** Moves over one operation; where none decodes, the rest is left as it is. */
  method Advance(s: array<byte>, n: nat, pc: nat, pat: Bytes, ghost input: Bytes, ghost left: Bytes)
    returns (ok: bool, next: nat, ghost rest: Bytes)
    requires pc <= n <= s.Length && input == s[..n]
    requires Yields(input, pc, pat, left) && !MatchesAt(input, pc, pat)
    ensures ok ==> pc < next <= n && Yields(input, next, pat, rest) && left == s[pc..next] + rest
    ensures !ok ==> left == s[pc..n]
  {
    SameSlice(s, n, input, pc, n);
    assert input[pc..n] == input[pc..];
    ok, next := NextOp(s, n, pc);
    rest := OpTaken(input, pc, pat, left, ok, next);
    if ok { SameSlice(s, n, input, pc, next); }
  }

  /** Copies everything but the pattern's occurrences into a fresh buffer. */
  method CopyKept(s: array<byte>, n: nat, pat: Bytes, out: array<byte>, ghost result: Bytes) returns (len: nat)
    requires s != out && n <= s.Length && n <= out.Length && Yields(s[..n], 0, pat, result)
    modifies out
    ensures len <= n && out[..len] == result
  {
    ghost var input := s[..n];
    ghost var left := result;
    len := 0;
    var pc, from := 0, 0;
    assert out[..0] + s[0..0] + result == result;
    while true
      invariant 0 <= from <= pc <= n && len <= from
      invariant Yields(input, pc, pat, left)
      invariant result == out[..len] + s[from..pc] + left
      decreases n - pc
    {
      len := Append(out, len, s, from, pc);
      pc := SkipMatches(s, n, pc, pat, input, left);
      from := pc;
      var ok, next;
      ghost var rest;
      ok, next, rest := Advance(s, n, pc, pat, input, left);
      if !ok { break; }
      Regroup(out[..len], s[from..next], rest);
      pc := next;
      left := rest;
    }
    len := Append(out, len, s, from, n);
  }

  /** Deletes a pattern from the script in place and returns the new length. */
  method FindAndDelete(s: array<byte>, slen: nat, pat: Bytes) returns (newLen: nat)
    requires slen <= s.Length && slen <= OUT_BYTES
    modifies s
    ensures newLen <= slen
    ensures s[..newLen] == if pat == [] then old(s[..slen]) else Deleted(old(s[..slen]), pat)
  {
    if pat == [] { return slen; }
    var out := new byte[OUT_BYTES];
    assert s[..slen][0..] == s[..slen];
    var len := CopyKept(s, slen, pat, out, Deleted(s[..slen], pat));
    newLen := Append(s, 0, out, 0, len);
  }
}
