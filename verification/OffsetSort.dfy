/**
 The in-place preparation of the rebase offsets: an exchange sort of the array,
 then a sweep that keeps the first of each run of equal values.
 */
module OffsetSort {
  import opened Common

  ghost predicate Ascending(s: seq<u64>) {
    forall i, j :: 0 <= i < j < |s| ==> s[i] < s[j]
  }

  ghost predicate SameMembers(a: seq<u64>, b: seq<u64>) {
    forall x :: x in a <==> x in b
  }

  function Put(x: u64, s: seq<u64>): seq<u64> {
    if s == [] || x < s[0] then [x] + s
    else if x == s[0] then s
    else [s[0]] + Put(x, s[1..])
  }

  /** The members of a list, each once, in ascending order. */
  function Distinct(s: seq<u64>): seq<u64> {
    if s == [] then [] else Put(s[0], Distinct(s[1..]))
  }

  lemma InFront(x: u64, s: seq<u64>)
    requires Ascending(s) && forall y :: y in s ==> x < y
    ensures Ascending([x] + s)
  {
    var all := [x] + s;
    forall i, j | 0 <= i < j < |all|
      ensures all[i] < all[j]
    {
      assert all[j] == s[j - 1] && s[j - 1] in s;
    }
  }

  lemma {:induction false} PutAscends(x: u64, s: seq<u64>)
    requires Ascending(s)
    ensures Ascending(Put(x, s)) && SameMembers(Put(x, s), [x] + s)
    decreases |s|
  {
    if s == [] || x < s[0] {
      InFront(x, s);
    } else if x > s[0] {
      PutAscends(x, s[1..]);
      assert s == [s[0]] + s[1..];
      forall y | y in Put(x, s[1..]) ensures s[0] < y {
        assert y in [x] + s[1..];
      }
      InFront(s[0], Put(x, s[1..]));
    }
  }

  lemma {:induction false} DistinctAscends(s: seq<u64>)
    ensures Ascending(Distinct(s)) && SameMembers(Distinct(s), s)
    decreases |s|
  {
    if s != [] {
      DistinctAscends(s[1..]);
      PutAscends(s[0], Distinct(s[1..]));
      assert s == [s[0]] + s[1..];
    }
  }

  /** An ascending list is determined by its members. */
  lemma {:induction false} AscendingUnique(a: seq<u64>, b: seq<u64>)
    requires Ascending(a) && Ascending(b) && SameMembers(a, b)
    ensures a == b
    decreases |a|
  {
    assert (a != [] ==> a[0] in a) && (b != [] ==> b[0] in b);
    if b != [] {
      assert b[0] in a;
      assert a[0] in b;
      assert a[0] == b[0];
      assert a == [a[0]] + a[1..] && b == [b[0]] + b[1..];
      forall x ensures x in a[1..] <==> x in b[1..] {
        assert x in a[1..] <==> x in a && x != a[0];
        assert x in b[1..] <==> x in b && x != b[0];
      }
      AscendingUnique(a[1..], b[1..]);
    }
  }

  lemma SwapMembers(s: seq<u64>, i: nat, j: nat)
    requires i < j < |s|
    ensures SameMembers(s[i := s[j]][j := s[i]], s)
  {
    var t := s[i := s[j]][j := s[i]];
    forall x | x in s ensures x in t {
      var k :| 0 <= k < |s| && s[k] == x;
      assert t[if k == i then j else if k == j then i else k] == x;
    }
    forall x | x in t ensures x in s {
      var k :| 0 <= k < |t| && t[k] == x;
      assert s[if k == i then j else if k == j then i else k] == x;
    }
  }

  /** Each of the first `n` elements is at most every later one. */
  ghost predicate SortedUpTo(s: seq<u64>, n: nat) {
    forall i, j :: 0 <= i < n && i < j < |s| ==> s[i] <= s[j]
  }

  method Sort(a: array<u64>)
    modifies a
    ensures SortedUpTo(a[..], a.Length) && SameMembers(a[..], old(a[..]))
  {
    var i := 0;
    while i + 1 < a.Length
      invariant 0 <= i && SortedUpTo(a[..], i) && SameMembers(a[..], old(a[..]))
    {
      var j := i + 1;
      while j < a.Length
        invariant i < j <= a.Length && SortedUpTo(a[..], i) && SameMembers(a[..], old(a[..]))
        invariant forall k :: i < k < j ==> a[i] <= a[k]
      {
        if a[j] < a[i] {
          SwapMembers(a[..], i, j);
          ghost var s := a[..];
          a[i], a[j] := a[j], a[i];
          assert a[..] == s[i := s[j]][j := s[i]];
        }
        j := j + 1;
      }
      i := i + 1;
    }
  }

  /** Drops duplicates; what remains is the strictly ascending list of members. */
  method Dedup(a: array<u64>) returns (w: nat)
    requires SortedUpTo(a[..], a.Length)
    modifies a
    ensures w <= a.Length && a[..w] == Distinct(old(a[..]))
  {
    ghost var s := a[..];
    w := 0;
    var i := 0;
    while i < a.Length
      invariant 0 <= w <= i <= a.Length
      invariant a[i..] == s[i..]
      invariant Ascending(a[..w]) && SameMembers(a[..w], s[..i])
      invariant w > 0 && i < a.Length ==> a[w - 1] <= s[i]
    {
      assert s[..i + 1] == s[..i] + [s[i]] && a[i] == a[i..][0];
      if w == 0 || a[i] != a[w - 1] {
        ghost var kept := a[..w];
        a[w] := a[i];
        w := w + 1;
        assert a[..w] == kept + [s[i]];
      }
      i := i + 1;
    }
    assert s[..i] == s;
    DistinctAscends(s);
    AscendingUnique(a[..w], Distinct(s));
  }

  method SortDistinct(offsets: seq<u64>) returns (r: seq<u64>)
    ensures r == Distinct(offsets)
  {
    var a := new u64[|offsets|](i requires 0 <= i < |offsets| => offsets[i]);
    assert a[..] == offsets;
    Sort(a);
    ghost var sorted := a[..];
    var w := Dedup(a);
    r := a[..w];
    DistinctAscends(sorted);
    DistinctAscends(offsets);
    AscendingUnique(r, Distinct(offsets));
  }
}
