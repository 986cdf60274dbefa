/**
 The export trie as the converter builds it: insertion by descending, splitting
 and appending, and the alphabetical sort of siblings.  A node carries the edge
 string that leads to it, its exported offset if a symbol ends there, and the
 two fields that the sizing passes rewrite.
 */
module ExportTrie {
  import opened Common

  /** A character of a C string: any byte but the terminator. */
  type ch = x: int | 1 <= x < 256 witness 1
  type Str = seq<ch>

  datatype Trie = Trie(edge: Str, term: Option<nat>, kids: seq<Trie>, off: nat, size: nat)

  function NewNode(edge: Str): Trie {
    Trie(edge, None, [], 0, 0)
  }

  // ----- lookup and shape -----

  /** Index of the first sibling whose edge starts with `c`, or |kids|. */
  function FindKid(kids: seq<Trie>, c: ch): (i: nat)
    ensures i <= |kids|
    ensures i < |kids| ==> kids[i].edge != [] && kids[i].edge[0] == c
    ensures forall j :: 0 <= j < i ==> kids[j].edge == [] || kids[j].edge[0] != c
  {
    if kids == [] then 0
    else if kids[0].edge != [] && kids[0].edge[0] == c then 0
    else 1 + FindKid(kids[1..], c)
  }

  /** The offset exported under `s` below this node, by following edges. */
  function Lookup(t: Trie, s: Str): Option<nat>
    decreases |s|
  {
    if s == [] then t.term
    else
      var i := FindKid(t.kids, s[0]);
      if i < |t.kids| && t.kids[i].edge <= s
      then Lookup(t.kids[i], s[|t.kids[i].edge|..])
      else None
  }

  /** Sibling edges are nonempty and start with distinct characters. */
  ghost predicate Branching(kids: seq<Trie>) {
    && (forall k :: 0 <= k < |kids| ==> kids[k].edge != [])
    && (forall i, j :: 0 <= i < j < |kids| ==> kids[i].edge[0] != kids[j].edge[0])
  }

  ghost predicate WellFormed(t: Trie) {
    Branching(t.kids) && forall k :: 0 <= k < |t.kids| ==> WellFormed(t.kids[k])
  }

  // ----- insertion -----

  function CommonPrefix(a: Str, b: Str): (n: nat)
    ensures n <= |a| && n <= |b| && a[..n] == b[..n]
    ensures n < |a| && n < |b| ==> a[n] != b[n]
  {
    if a != [] && b != [] && a[0] == b[0] then 1 + CommonPrefix(a[1..], b[1..]) else 0
  }

  /** The node that takes the place of `c` once its edge is cut after `n` characters. */
  function SplitKid(c: Trie, n: nat): Trie
    requires n <= |c.edge|
  {
    NewNode(c.edge[..n]).(kids := [c.(edge := c.edge[n..])])
  }

  /** `trie_insert`: one iteration of its descent, then the rest of the name. */
  function Insert(t: Trie, p: Str, v: nat): (r: Trie)
    ensures r.edge == t.edge
    decreases |p|
  {
    if p == [] then t.(term := Some(v))
    else
      var i := FindKid(t.kids, p[0]);
      if i == |t.kids| then t.(kids := t.kids + [NewNode(p).(term := Some(v))])
      else
        var c := t.kids[i];
        var n := CommonPrefix(c.edge, p);
        var d := if n == |c.edge| then c else SplitKid(c, n);
        t.(kids := t.kids[i := Insert(d, p[n..], v)])
  }

  /** Which sibling is found depends only on the first characters of the edges. */
  lemma {:induction false} FindKidHeads(kids: seq<Trie>, kids': seq<Trie>, c: ch)
    requires |kids| == |kids'|
    requires forall k :: 0 <= k < |kids| ==>
      kids[k].edge != [] && kids'[k].edge != [] && kids[k].edge[0] == kids'[k].edge[0]
    ensures FindKid(kids, c) == FindKid(kids', c)
  {
    var i, j := FindKid(kids, c), FindKid(kids', c);
    assert i < |kids| ==> kids'[i].edge[0] == c;
    assert j < |kids| ==> kids[j].edge[0] == c;
  }

  lemma SplitKidMeaning(c: Trie, n: nat, q: Str)
    requires WellFormed(c) && 0 < n < |c.edge|
    ensures WellFormed(SplitKid(c, n))
    ensures Lookup(SplitKid(c, n), q) == if c.edge[n..] <= q then Lookup(c, q[|c.edge| - n..]) else None
  {
    var lower := c.(edge := c.edge[n..]);
    assert SplitKid(c, n).kids == [lower];
    if lower.edge <= q {
      assert Lookup(lower, q[|lower.edge|..]) == Lookup(c, q[|lower.edge|..]);
    }
  }

  /** Replacing one child by another that starts alike keeps the siblings apart. */
  lemma ReplacedKid(t: Trie, i: nat, d: Trie)
    requires WellFormed(t) && WellFormed(d) && i < |t.kids|
    requires d.edge != [] && d.edge[0] == t.kids[i].edge[0]
    ensures WellFormed(t.(kids := t.kids[i := d]))
    ensures forall c: ch :: FindKid(t.kids[i := d], c) == FindKid(t.kids, c)
  {
    forall c: ch ensures FindKid(t.kids[i := d], c) == FindKid(t.kids, c) {
      FindKidHeads(t.kids[i := d], t.kids, c);
    }
  }

  lemma AppendedKid(t: Trie, p: Str, v: nat, q: Str)
    requires WellFormed(t) && p != [] && FindKid(t.kids, p[0]) == |t.kids|
    ensures WellFormed(Insert(t, p, v))
    ensures Lookup(Insert(t, p, v), q) == if q == p then Some(v) else Lookup(t, q)
  {
    var leaf := NewNode(p).(term := Some(v));
    var r := Insert(t, p, v);
    assert r.kids == t.kids + [leaf];
    if q != [] {
      var k := FindKid(t.kids, q[0]);
      var k' := FindKid(r.kids, q[0]);
      if k < |t.kids| {
        assert r.kids[k] == t.kids[k] && k' == k;
      } else {
        assert r.kids[|t.kids|] == leaf;
        assert forall j :: 0 <= j < |t.kids| ==> r.kids[j] == t.kids[j];
        assert k' >= |t.kids|;
      }
    }
  }

  /**
   `trie_insert` is a map update: afterwards `p` names `v`, and every other name,
   whether a prefix, an extension or a divergence of `p`, names what it did before.
   */
  lemma {:induction false} InsertIsUpdate(t: Trie, p: Str, v: nat, q: Str)
    requires WellFormed(t)
    ensures WellFormed(Insert(t, p, v))
    ensures Lookup(Insert(t, p, v), q) == if q == p then Some(v) else Lookup(t, q)
    decreases |p|
  {
    if p == [] {
    } else if FindKid(t.kids, p[0]) == |t.kids| {
      AppendedKid(t, p, v, q);
    } else {
      var i := FindKid(t.kids, p[0]);
      var c := t.kids[i];
      var n := CommonPrefix(c.edge, p);
      var d := if n == |c.edge| then c else SplitKid(c, n);
      var below := if n <= |q| then q[n..] else [];
      if n < |c.edge| {
        SplitKidMeaning(c, n, below);
      }
      InsertIsUpdate(d, p[n..], v, below);
      var d' := Insert(d, p[n..], v);
      assert d'.edge == c.edge[..n] == p[..n];
      ReplacedKid(t, i, d');
      if q != [] && FindKid(t.kids, q[0]) == i {
        DescentSplits(c, n, q);
        assert q == p <==> d'.edge <= q && below == p[n..] by { SplitEq(p, q, n); }
      }
    }
  }

  lemma SplitEq(p: Str, q: Str, n: nat)
    requires n <= |p|
    ensures q == p <==> p[..n] <= q && q[n..] == p[n..]
  {
    assert p == p[..n] + p[n..];
    if n <= |q| {
      assert q == q[..n] + q[n..];
    }
  }

  /** Matching an edge is matching its first `n` characters and then the rest. */
  lemma DescentSplits(c: Trie, n: nat, q: Str)
    requires n <= |c.edge|
    ensures c.edge <= q <==> c.edge[..n] <= q && c.edge[n..] <= q[n..]
    ensures c.edge <= q ==> q[|c.edge|..] == q[n..][|c.edge| - n..]
  {
    assert c.edge == c.edge[..n] + c.edge[n..];
  }

  // ----- whole symbol lists -----

  datatype Symbol = Symbol(name: Str, offset: nat)

  /** The trie after inserting a list of symbols in order into an empty root. */
  function InsertAll(syms: seq<Symbol>): Trie {
    if syms == [] then NewNode([])
    else Insert(InsertAll(syms[..|syms| - 1]), syms[|syms| - 1].name, syms[|syms| - 1].offset)
  }

  /** The offset given by the last occurrence of a name in the list. */
  function LastOffset(syms: seq<Symbol>, q: Str): Option<nat> {
    if syms == [] then None
    else if syms[|syms| - 1].name == q then Some(syms[|syms| - 1].offset)
    else LastOffset(syms[..|syms| - 1], q)
  }

  lemma {:induction false} InsertAllMeaning(syms: seq<Symbol>, q: Str)
    ensures WellFormed(InsertAll(syms))
    ensures Lookup(InsertAll(syms), q) == LastOffset(syms, q)
  {
    if syms != [] {
      var front, last := syms[..|syms| - 1], syms[|syms| - 1];
      InsertAllMeaning(front, q);
      InsertIsUpdate(InsertAll(front), last.name, last.offset, q);
    }
  }

  // ----- the one-byte child count -----

  lemma {:induction false} Pigeonhole(s: seq<int>, lo: int, hi: int)
    requires lo <= hi
    requires forall k :: 0 <= k < |s| ==> lo <= s[k] < hi
    requires forall i, j :: 0 <= i < j < |s| ==> s[i] != s[j]
    ensures |s| <= hi - lo
    decreases hi - lo
  {
    if s != [] {
      assert lo <= s[0] < hi;
      if k :| 0 <= k < |s| && s[k] == hi - 1 {
        Pigeonhole(s[..k] + s[k + 1..], lo, hi - 1);
      } else {
        Pigeonhole(s, lo, hi - 1);
      }
    }
  }

  /** No node has more than 255 children, so the stored count byte is exact. */
  lemma ChildCountFits(t: Trie)
    requires WellFormed(t)
    ensures |t.kids| <= 255
  {
    var heads := seq(|t.kids|, k requires 0 <= k < |t.kids| => t.kids[k].edge[0]);
    Pigeonhole(heads, 1, 256);
  }

  // ----- sorting -----

  /** `strcmp(a, b) < 0` on unsigned characters. */
  predicate StrLess(a: Str, b: Str) {
    b != [] && (a == [] || a[0] < b[0] || (a[0] == b[0] && StrLess(a[1..], b[1..])))
  }

  predicate Ascending(kids: seq<Trie>) {
    forall i, j :: 0 <= i < j < |kids| ==> StrLess(kids[i].edge, kids[j].edge)
  }

  function Place(c: Trie, kids: seq<Trie>): seq<Trie> {
    if kids == [] || StrLess(c.edge, kids[0].edge) then [c] + kids
    else [kids[0]] + Place(c, kids[1..])
  }

  function SortKids(kids: seq<Trie>): seq<Trie> {
    if kids == [] then [] else Place(kids[0], SortKids(kids[1..]))
  }

  /** `trie_sort_children`: every sibling list in strcmp order. */
  function SortTrie(t: Trie): Trie {
    t.(kids := SortKids(seq(|t.kids|, k requires 0 <= k < |t.kids| => SortTrie(t.kids[k]))))
  }

  ghost predicate SameElements(a: seq<Trie>, b: seq<Trie>) {
    |a| == |b| && forall x :: x in a <==> x in b
  }

  /** On siblings that branch, strcmp order is the order of the first characters. */
  lemma HeadsDecide(a: Str, b: Str)
    requires a != [] && b != [] && a[0] != b[0]
    ensures StrLess(a, b) <==> a[0] < b[0]
  {
  }

  /** `c` starts differently from every node of `kids`. */
  ghost predicate Apart(c: Trie, kids: seq<Trie>) {
    c.edge != [] && forall x :: x in kids ==> x.edge != [] && x.edge[0] != c.edge[0]
  }

  lemma {:induction false} PlaceSorts(c: Trie, kids: seq<Trie>)
    requires Apart(c, kids) && Branching(kids) && Ascending(kids)
    ensures SameElements(Place(c, kids), [c] + kids)
    ensures Branching(Place(c, kids)) && Ascending(Place(c, kids))
    decreases |kids|
  {
    if kids == [] {
    } else if StrLess(c.edge, kids[0].edge) {
      PrependSmallest(c, kids);
    } else {
      var tail := kids[1..];
      assert kids == [kids[0]] + tail;
      PlaceSorts(c, tail);
      assert Apart(kids[0], tail);
      assert Apart(kids[0], [c] + tail);
      HeadsDecide(c.edge, kids[0].edge);
      HeadsDecide(kids[0].edge, c.edge);
      forall x | x in Place(c, tail) ensures StrLess(kids[0].edge, x.edge) {
        assert x in [c] + tail;
      }
      Prepend(kids[0], Place(c, tail));
    }
  }

  lemma Prepend(c: Trie, kids: seq<Trie>)
    requires Apart(c, kids) && Branching(kids) && Ascending(kids)
    requires forall x :: x in kids ==> StrLess(c.edge, x.edge)
    ensures Branching([c] + kids) && Ascending([c] + kids)
  {
  }

  lemma PrependSmallest(c: Trie, kids: seq<Trie>)
    requires Apart(c, kids) && Branching(kids) && Ascending(kids)
    requires kids != [] && StrLess(c.edge, kids[0].edge)
    ensures Branching([c] + kids) && Ascending([c] + kids)
  {
    HeadsDecide(c.edge, kids[0].edge);
    forall k | 0 <= k < |kids| ensures StrLess(c.edge, kids[k].edge) {
      HeadsDecide(c.edge, kids[k].edge);
      if 0 < k {
        HeadsDecide(kids[0].edge, kids[k].edge);
      }
    }
    Prepend(c, kids);
  }

  lemma {:induction false} SortKidsSorts(kids: seq<Trie>)
    requires Branching(kids)
    ensures SameElements(SortKids(kids), kids)
    ensures Branching(SortKids(kids)) && Ascending(SortKids(kids))
    decreases |kids|
  {
    if kids != [] {
      SortKidsSorts(kids[1..]);
      assert Apart(kids[0], kids[1..]);
      PlaceSorts(kids[0], SortKids(kids[1..]));
      assert kids == [kids[0]] + kids[1..];
    }
  }

  /** Lookup sees a sibling list only as the set of its members. */
  lemma FindKidSameElement(a: seq<Trie>, b: seq<Trie>, c: ch)
    requires Branching(a) && Branching(b) && SameElements(a, b)
    ensures FindKid(a, c) < |a| <==> FindKid(b, c) < |b|
    ensures FindKid(a, c) < |a| ==> a[FindKid(a, c)] == b[FindKid(b, c)]
  {
    var i, j := FindKid(a, c), FindKid(b, c);
    assert i < |a| ==> a[i] in b;
    assert j < |b| ==> b[j] in a;
  }

  lemma FirstIsLeast(a: seq<Trie>, k: nat)
    requires Branching(a) && Ascending(a) && k < |a|
    ensures a[0].edge[0] <= a[k].edge[0]
  {
    if k > 0 {
      HeadsDecide(a[0].edge, a[k].edge);
    }
  }

  /** There is only one ascending arrangement of a branching sibling list. */
  lemma {:induction false} AscendingUnique(a: seq<Trie>, b: seq<Trie>)
    requires Branching(a) && Branching(b) && Ascending(a) && Ascending(b) && SameElements(a, b)
    ensures a == b
    decreases |a|
  {
    if a != [] {
      assert a[0] in b && b[0] in a;
      var i :| 0 <= i < |b| && b[i] == a[0];
      var j :| 0 <= j < |a| && a[j] == b[0];
      FirstIsLeast(b, i);
      FirstIsLeast(a, j);
      forall x ensures x in a[1..] <==> x in b[1..] {
        MemberOfTail(a, x);
        MemberOfTail(b, x);
      }
      AscendingUnique(a[1..], b[1..]);
    }
  }

  lemma MemberOfTail(a: seq<Trie>, x: Trie)
    requires Branching(a) && a != []
    ensures x in a[1..] <==> x in a && x != a[0]
  {
    assert a == [a[0]] + a[1..];
  }

  /** Sorting changes the order of siblings and the meaning of no name. */
  lemma {:induction false} SortKeepsMeaning(t: Trie, q: Str)
    requires WellFormed(t)
    ensures WellFormed(SortTrie(t)) && SortTrie(t).edge == t.edge
    ensures Lookup(SortTrie(t), q) == Lookup(t, q)
    decreases t
  {
    var mid := seq(|t.kids|, k requires 0 <= k < |t.kids| => SortTrie(t.kids[k]));
    forall k | 0 <= k < |t.kids| ensures WellFormed(mid[k]) && mid[k].edge == t.kids[k].edge {
      SortKeepsMeaning(t.kids[k], []);
    }
    SortKidsSorts(mid);
    var sorted := SortTrie(t).kids;
    forall k | 0 <= k < |sorted| ensures WellFormed(sorted[k]) {
      assert sorted[k] in mid;
    }
    if q != [] {
      FindKidSameElement(sorted, mid, q[0]);
      FindKidHeads(mid, t.kids, q[0]);
      var i := FindKid(t.kids, q[0]);
      if i < |t.kids| && t.kids[i].edge <= q {
        SortKeepsMeaning(t.kids[i], q[|t.kids[i].edge|..]);
      }
    }
  }
}
