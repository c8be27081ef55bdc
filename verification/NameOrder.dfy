/**
 The ascending raw-byte order of names and the one sorted listing of a set of names.
 Every bitmap of the protocol is an index into such a listing.
 */
module NameOrder {
  import opened Primitives

  /** A name is 1 to 32 bytes. */
  type Name = b: Bytes | 1 <= |b| <= 32 witness [97]

  predicate Less(a: Bytes, b: Bytes) {
    b != [] && (a == [] || a[0] < b[0] || (a[0] == b[0] && Less(a[1..], b[1..])))
  }

  lemma {:induction false} LessIsTotal(a: Bytes, b: Bytes)
    ensures Less(a, b) || Less(b, a) || a == b
    ensures !(Less(a, b) && Less(b, a))
    ensures a == b ==> !Less(a, b)
  {
    if a != [] && b != [] && a[0] == b[0] {
      LessIsTotal(a[1..], b[1..]);
      assert a == [a[0]] + a[1..] && b == [b[0]] + b[1..];
    }
  }

  lemma {:induction false} LessIsTransitive(a: Bytes, b: Bytes, c: Bytes)
    requires Less(a, b) && Less(b, c)
    ensures Less(a, c)
  {
    if a != [] && a[0] == b[0] == c[0] {
      LessIsTransitive(a[1..], b[1..], c[1..]);
    }
  }

  ghost predicate Ascending(s: seq<Bytes>) {
    forall i, j :: 0 <= i < j < |s| ==> Less(s[i], s[j])
  }

  ghost predicate IsLeast(m: Name, s: set<Name>) {
    m in s && forall n :: n in s && n != m ==> Less(m, n)
  }

  lemma {:induction false} LeastExists(s: set<Name>)
    requires s != {}
    ensures exists m :: IsLeast(m, s)
  {
    var m :| m in s;
    if s == {m} {
      assert IsLeast(m, s);
    } else {
      LeastExists(s - {m});
      var k: Name :| IsLeast(k, s - {m});
      LessIsTotal(k, m);
      if Less(k, m) {
        assert IsLeast(k, s);
      } else {
        forall n | n in s && n != m ensures Less(m, n) {
          if n != k { LessIsTransitive(m, k, n); }
        }
        assert IsLeast(m, s);
      }
    }
  }

  ghost function Least(s: set<Name>): (m: Name)
    requires s != {}
    ensures IsLeast(m, s)
  {
    LeastExists(s);
    var m: Name :| IsLeast(m, s);
    m
  }

  /** The ascending listing of a set of names. */
  ghost function Sorted(s: set<Name>): (r: seq<Name>)
    ensures |r| == |s|
    ensures forall n :: n in r <==> n in s
    ensures Ascending(r)
  {
    if s == {} then [] else
      var m := Least(s);
      var rest := Sorted(s - {m});
      assert forall i :: 0 <= i < |rest| ==> rest[i] in s - {m};
      [m] + rest
  }

  /** There is only one ascending sequence with given elements. */
  lemma {:induction false} AscendingIsUnique(a: seq<Name>, b: seq<Name>)
    requires Ascending(a) && Ascending(b)
    requires forall n :: n in a <==> n in b
    ensures a == b
  {
    if a == [] {
      SomeElement(b);
    } else {
      assert b != [] by { assert a[0] in b; }
      SameHead(a, b);
      forall n | n in a[1..] ensures n in b[1..] {
        NotTheHead(a, n);
        assert n in b;
      }
      forall n | n in b[1..] ensures n in a[1..] {
        NotTheHead(b, n);
        assert n in a;
      }
      AscendingIsUnique(a[1..], b[1..]);
      assert a == [a[0]] + a[1..] && b == [b[0]] + b[1..];
    }
  }

  lemma SameHead(a: seq<Name>, b: seq<Name>)
    requires Ascending(a) && Ascending(b) && a != [] && b != []
    requires b[0] in a && a[0] in b
    ensures a[0] == b[0]
  {
    HeadIsLeast(a, b[0]);
    HeadIsLeast(b, a[0]);
    LessIsTotal(a[0], b[0]);
  }

  lemma HeadIsLeast(a: seq<Name>, n: Name)
    requires Ascending(a) && n in a
    ensures n == a[0] || Less(a[0], n)
  {
    var i :| 0 <= i < |a| && a[i] == n;
  }

  lemma SomeElement<T>(s: seq<T>)
    ensures s == [] || exists x :: x in s
  {
    if s != [] { assert s[0] in s; }
  }

  lemma NotTheHead(a: seq<Name>, n: Name)
    requires Ascending(a) && a != [] && n in a[1..]
    ensures n != a[0]
  {
    var i :| 1 <= i < |a| && a[i] == n;
    LessIsTotal(a[0], a[i]);
  }

  lemma AscendingIsDistinct(s: seq<Name>)
    requires Ascending(s)
    ensures forall i, j :: 0 <= i < j < |s| ==> s[i] != s[j]
  {
    forall i, j | 0 <= i < j < |s| ensures s[i] != s[j] {
      LessIsTotal(s[i], s[j]);
    }
  }

  /** One step of the library sort: put n at its place in an ascending listing. */
  method InsertName(s: seq<Name>, n: Name) returns (r: seq<Name>)
    requires Ascending(s) && n !in s
    ensures Ascending(r)
    ensures forall x :: x in r <==> x in s || x == n
  {
    var k := 0;
    while k < |s| && Less(s[k], n)
      invariant 0 <= k <= |s|
      invariant forall i :: 0 <= i < k ==> Less(s[i], n)
    {
      k := k + 1;
    }
    forall i | k <= i < |s| ensures Less(n, s[i]) {
      LessIsTotal(s[k], n);
      if i > k { LessIsTransitive(n, s[k], s[i]); }
    }
    r := s[..k] + [n] + s[k..];
    assert s == s[..k] + s[k..];
  }

  /** The library sort: names put in their place one by one. */
  method SortNames(names: set<Name>) returns (r: seq<Name>)
    ensures r == Sorted(names)
  {
    r := [];
    var left := names;
    while left != {}
      invariant Ascending(r) && left <= names
      invariant forall n :: n in r <==> n in names && n !in left
      decreases left
    {
      var n: Name :| n in left;
      r := InsertName(r, n);
      left := left - {n};
    }
    AscendingIsUnique(r, Sorted(names));
  }
}
