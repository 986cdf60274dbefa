/**
 The sizing passes.  A node's encoded size depends on the offsets its children
 had after the previous pass, so the converter repeats the pass until the total
 stops changing.  Here: the pass is monotone, an unchanged total means an
 unchanged trie, and without the pass limit the iteration always stops.
 */
module TrieSizing {
  import opened Common
  import opened Uleb
  import opened ExportTrie

  function TermBytes(term: Option<nat>): (b: seq<byte>)
    ensures |b| >= 1
  {
    match term
    case None => [0]
    case Some(v) => UlebBytes(1 + |UlebBytes(v)|) + [0] + UlebBytes(v)
  }

  /** Bytes taken by the edge strings and child offsets of a sibling list. */
  function EdgesSize(kids: seq<Trie>): nat {
    if kids == [] then 0
    else |kids[0].edge| + 1 + |UlebBytes(kids[0].off)| + EdgesSize(kids[1..])
  }

  function NodeSize(t: Trie): nat {
    |TermBytes(t.term)| + 1 + EdgesSize(t.kids)
  }

  /** `trie_compute_sizes`: records offsets and sizes in preorder from `base`. */
  function SizePass(t: Trie, base: nat): (r: (Trie, nat))
    ensures r.1 > base
    decreases t, 1
  {
    var n := NodeSize(t);
    var (kids, end) := SizeKids(t.kids, base + n);
    (t.(kids := kids, off := base, size := n), end)
  }

  function SizeKids(kids: seq<Trie>, base: nat): (r: (seq<Trie>, nat))
    ensures |r.0| == |kids| && r.1 >= base
    decreases kids, 0
  {
    if kids == [] then ([], base)
    else
      var (first, mid) := SizePass(kids[0], base);
      var (rest, end) := SizeKids(kids[1..], mid);
      ([first] + rest, end)
  }

  /** Same trie but for offsets, which are pointwise no larger. */
  ghost predicate Below(t: Trie, u: Trie)
    decreases t, 1
  {
    t.edge == u.edge && t.term == u.term && t.off <= u.off && BelowKids(t.kids, u.kids)
  }

  ghost predicate BelowKids(ks: seq<Trie>, us: seq<Trie>)
    decreases ks, 0
  {
    |ks| == |us| && (ks == [] || (Below(ks[0], us[0]) && BelowKids(ks[1..], us[1..])))
  }

  lemma {:induction false} EdgesMonotone(ks: seq<Trie>, us: seq<Trie>)
    requires BelowKids(ks, us)
    ensures EdgesSize(ks) <= EdgesSize(us)
    ensures EdgesSize(ks) == EdgesSize(us) ==>
      forall i :: 0 <= i < |ks| ==> |UlebBytes(ks[i].off)| == |UlebBytes(us[i].off)|
    decreases |ks|
  {
    if ks != [] {
      UlebMonotone(ks[0].off, us[0].off);
      EdgesMonotone(ks[1..], us[1..]);
    }
  }

  /** Larger offsets going in, larger offsets coming out. */
  lemma {:induction false} PassMonotone(t: Trie, u: Trie, b: nat, c: nat)
    requires Below(t, u) && b <= c
    ensures Below(SizePass(t, b).0, SizePass(u, c).0)
    ensures c - b <= SizePass(u, c).1 - SizePass(t, b).1
    decreases t, 1
  {
    EdgesMonotone(t.kids, u.kids);
    KidsMonotone(t.kids, u.kids, b + NodeSize(t), c + NodeSize(u));
  }

  lemma {:induction false} KidsMonotone(ks: seq<Trie>, us: seq<Trie>, b: nat, c: nat)
    requires BelowKids(ks, us) && b <= c
    ensures BelowKids(SizeKids(ks, b).0, SizeKids(us, c).0)
    ensures c - b <= SizeKids(us, c).1 - SizeKids(ks, b).1
    decreases ks, 0
  {
    if ks != [] {
      PassMonotone(ks[0], us[0], b, c);
      KidsMonotone(ks[1..], us[1..], SizePass(ks[0], b).1, SizePass(us[0], c).1);
    }
  }

  /** If the ends agree, so does every offset and size on the way. */
  lemma {:induction false} PassTight(t: Trie, u: Trie, b: nat)
    requires Below(t, u) && SizePass(t, b).1 == SizePass(u, b).1
    ensures SizePass(t, b) == SizePass(u, b)
    decreases t, 1
  {
    EdgesMonotone(t.kids, u.kids);
    KidsMonotone(t.kids, u.kids, b + NodeSize(t), b + NodeSize(u));
    assert NodeSize(t) == NodeSize(u);
    KidsTight(t.kids, u.kids, b + NodeSize(t));
  }

  lemma {:induction false} KidsTight(ks: seq<Trie>, us: seq<Trie>, b: nat)
    requires BelowKids(ks, us) && SizeKids(ks, b).1 == SizeKids(us, b).1
    ensures SizeKids(ks, b) == SizeKids(us, b)
    decreases ks, 0
  {
    if ks != [] {
      PassMonotone(ks[0], us[0], b, b);
      KidsMonotone(ks[1..], us[1..], SizePass(ks[0], b).1, SizePass(us[0], b).1);
      PassTight(ks[0], us[0], b);
      KidsTight(ks[1..], us[1..], SizePass(ks[0], b).1);
    }
  }

  // ----- the iteration -----

  /** No pass has run yet: every offset is the zero left by allocation. */
  ghost predicate Unsized(t: Trie) {
    t.off == 0 && forall k :: 0 <= k < |t.kids| ==> Unsized(t.kids[k])
  }

  /** The trie after `k` sizing passes. */
  function Passes(t: Trie, k: nat): Trie {
    if k == 0 then t else SizePass(Passes(t, k - 1), 0).0
  }

  /** The total that pass number `k` returns, counting from 1. */
  function Total(t: Trie, k: nat): nat
    requires k >= 1
  {
    SizePass(Passes(t, k - 1), 0).1
  }

  lemma {:induction false} UnsizedBelowPass(t: Trie, base: nat)
    requires Unsized(t)
    ensures Below(t, SizePass(t, base).0)
    decreases t, 1
  {
    UnsizedBelowKids(t.kids, base + NodeSize(t));
  }

  lemma {:induction false} UnsizedBelowKids(kids: seq<Trie>, base: nat)
    requires forall k :: 0 <= k < |kids| ==> Unsized(kids[k])
    ensures BelowKids(kids, SizeKids(kids, base).0)
    decreases kids, 0
  {
    if kids != [] {
      UnsizedBelowPass(kids[0], base);
      UnsizedBelowKids(kids[1..], SizePass(kids[0], base).1);
    }
  }

  /** From freshly built nodes, offsets and totals never decrease from pass to pass. */
  lemma {:induction false} PassesAscend(t: Trie, k: nat)
    requires Unsized(t)
    ensures Below(Passes(t, k), Passes(t, k + 1))
    ensures k >= 1 ==> Total(t, k) <= Total(t, k + 1)
    decreases k
  {
    if k == 0 {
      UnsizedBelowPass(t, 0);
    } else {
      PassesAscend(t, k - 1);
      PassMonotone(Passes(t, k - 1), Passes(t, k), 0, 0);
    }
  }

  /** The converter's stopping test: two equal totals mean nothing moved at all. */
  lemma EqualTotalsSettle(t: Trie, k: nat)
    requires Unsized(t) && k >= 1 && Total(t, k + 1) == Total(t, k)
    ensures Passes(t, k + 1) == Passes(t, k)
    ensures SizePass(Passes(t, k), 0) == (Passes(t, k), Total(t, k))
  {
    PassesAscend(t, k - 1);
    PassTight(Passes(t, k - 1), Passes(t, k), 0);
  }

  // ----- termination of the unlimited iteration -----

  /** Total size if every child offset took `k` bytes. */
  function Worst(t: Trie, k: nat): nat
    decreases t, 1
  {
    |TermBytes(t.term)| + 1 + WorstKids(t.kids, k)
  }

  function WorstKids(kids: seq<Trie>, k: nat): nat
    decreases kids, 0
  {
    if kids == [] then 0
    else |kids[0].edge| + 1 + k + Worst(kids[0], k) + WorstKids(kids[1..], k)
  }

  /** Number of nodes below the root. */
  function Descendants(t: Trie): nat
    decreases t, 1
  {
    DescendantsOf(t.kids)
  }

  function DescendantsOf(kids: seq<Trie>): nat
    decreases kids, 0
  {
    if kids == [] then 0 else 1 + Descendants(kids[0]) + DescendantsOf(kids[1..])
  }

  lemma Distribute(k: nat, a: nat, b: nat)
    ensures k * (1 + a + b) == k + k * a + k * b
  {
  }

  lemma {:induction false} WorstLinear(t: Trie, k: nat)
    ensures Worst(t, k) == Worst(t, 0) + k * Descendants(t)
    decreases t, 1
  {
    WorstKidsLinear(t.kids, k);
  }

  lemma {:induction false} WorstKidsLinear(kids: seq<Trie>, k: nat)
    ensures WorstKids(kids, k) == WorstKids(kids, 0) + k * DescendantsOf(kids)
    decreases kids, 0
  {
    if kids != [] {
      WorstLinear(kids[0], k);
      WorstKidsLinear(kids[1..], k);
      Distribute(k, Descendants(kids[0]), DescendantsOf(kids[1..]));
    }
  }

  /** Every offset needs at most `k` bytes. */
  ghost predicate Narrow(t: Trie, k: nat)
    decreases t, 1
  {
    |UlebBytes(t.off)| <= k && NarrowKids(t.kids, k)
  }

  ghost predicate NarrowKids(kids: seq<Trie>, k: nat)
    decreases kids, 0
  {
    kids == [] || (Narrow(kids[0], k) && NarrowKids(kids[1..], k))
  }

  /** Sum of the worst cases strictly below a sibling list's own edges. */
  function WorstBelow(kids: seq<Trie>, k: nat): nat {
    if kids == [] then 0 else Worst(kids[0], k) + WorstBelow(kids[1..], k)
  }

  lemma {:induction false} EdgesNarrow(kids: seq<Trie>, k: nat)
    requires NarrowKids(kids, k)
    ensures EdgesSize(kids) + WorstBelow(kids, k) <= WorstKids(kids, k)
    decreases |kids|
  {
    if kids != [] {
      EdgesNarrow(kids[1..], k);
    }
  }

  lemma {:induction false} PassBounded(t: Trie, base: nat, k: nat)
    requires Narrow(t, k)
    ensures SizePass(t, base).1 <= base + Worst(t, k)
    decreases t, 1
  {
    EdgesNarrow(t.kids, k);
    KidsBounded(t.kids, base + NodeSize(t), k);
  }

  lemma {:induction false} KidsBounded(kids: seq<Trie>, base: nat, k: nat)
    requires NarrowKids(kids, k)
    ensures SizeKids(kids, base).1 <= base + WorstBelow(kids, k)
    decreases kids, 0
  {
    if kids != [] {
      PassBounded(kids[0], base, k);
      KidsBounded(kids[1..], SizePass(kids[0], base).1, k);
    }
  }

  /** A pass ending below 128^k leaves only offsets of at most `k` bytes. */
  lemma {:induction false} PassNarrow(t: Trie, base: nat, k: nat)
    requires k >= 1 && SizePass(t, base).1 <= Pow128(k)
    ensures Narrow(SizePass(t, base).0, k)
    decreases t, 1
  {
    UlebFits(base, k);
    KidsNarrow(t.kids, base + NodeSize(t), k);
  }

  lemma {:induction false} KidsNarrow(kids: seq<Trie>, base: nat, k: nat)
    requires k >= 1 && SizeKids(kids, base).1 <= Pow128(k)
    ensures NarrowKids(SizeKids(kids, base).0, k)
    decreases kids, 0
  {
    if kids != [] {
      PassNarrow(kids[0], base, k);
      KidsNarrow(kids[1..], SizePass(kids[0], base).1, k);
    }
  }

  /** Passes change neither names nor shape, hence not the worst case. */
  lemma {:induction false} PassKeepsWorst(t: Trie, base: nat, k: nat)
    ensures Worst(SizePass(t, base).0, k) == Worst(t, k)
    decreases t, 1
  {
    KidsKeepWorst(t.kids, base + NodeSize(t), k);
  }

  lemma {:induction false} KidsKeepWorst(kids: seq<Trie>, base: nat, k: nat)
    ensures WorstKids(SizeKids(kids, base).0, k) == WorstKids(kids, k)
    decreases kids, 0
  {
    if kids != [] {
      PassKeepsWorst(kids[0], base, k);
      KidsKeepWorst(kids[1..], SizePass(kids[0], base).1, k);
      assert SizePass(kids[0], base).0.edge == kids[0].edge;
    }
  }

  /** A width at which the whole trie fits below what that width can address. */
  function SafeWidth(t: Trie): nat {
    Worst(t, 0) + Descendants(t) + 1
  }

  lemma {:induction false} SquareBelowPow(k: nat)
    ensures k * k <= Pow128(k)
    decreases k
  {
    if k >= 1 {
      SquareBelowPow(k - 1);
      assert k * k == (k - 1) * (k - 1) + 2 * k - 1;
      PowAtLeast(k - 1);
    }
  }

  lemma {:induction false} PowAtLeast(k: nat)
    ensures Pow128(k) >= k + 1
    decreases k
  {
    if k >= 1 {
      PowAtLeast(k - 1);
    }
  }

  lemma WidthArithmetic(w: nat, d: nat, k: nat)
    requires k == w + d + 1
    ensures w + k * d <= k * k
  {
    assert k * k == k * (w + 1) + k * d;
    assert k * (w + 1) >= w + 1;
  }

  lemma SafeWidthIsSafe(t: Trie)
    ensures Worst(t, SafeWidth(t)) <= Pow128(SafeWidth(t))
  {
    var k := SafeWidth(t);
    WorstLinear(t, k);
    SquareBelowPow(k);
    WidthArithmetic(Worst(t, 0), Descendants(t), k);
  }

  lemma {:induction false} UnsizedNarrow(t: Trie, k: nat)
    requires Unsized(t) && k >= 1
    ensures Narrow(t, k)
    decreases t, 1
  {
    UnsizedNarrowKids(t.kids, k);
  }

  lemma {:induction false} UnsizedNarrowKids(kids: seq<Trie>, k: nat)
    requires k >= 1 && forall i :: 0 <= i < |kids| ==> Unsized(kids[i])
    ensures NarrowKids(kids, k)
    decreases kids, 0
  {
    if kids != [] {
      UnsizedNarrow(kids[0], k);
      UnsizedNarrowKids(kids[1..], k);
    }
  }

  /** No pass ever exceeds the bound, however many are run. */
  lemma {:induction false} TotalsBounded(t: Trie, k: nat)
    requires Unsized(t)
    ensures Narrow(Passes(t, k), SafeWidth(t))
    ensures Worst(Passes(t, k), SafeWidth(t)) == Worst(t, SafeWidth(t))
    ensures Total(t, k + 1) <= Worst(t, SafeWidth(t))
    decreases k
  {
    if k == 0 {
      UnsizedNarrow(t, SafeWidth(t));
    } else {
      TotalsBounded(t, k - 1);
      SafeWidthIsSafe(t);
      PassNarrow(Passes(t, k - 1), 0, SafeWidth(t));
      PassKeepsWorst(Passes(t, k - 1), 0, SafeWidth(t));
    }
    PassBounded(Passes(t, k), 0, SafeWidth(t));
  }

  /** Without the pass limit the sizing loop always reaches its stopping test. */
  method SettlingPass(t: Trie) returns (k: nat)
    requires Unsized(t)
    ensures k >= 1 && Total(t, k + 1) == Total(t, k)
  {
    k := 1;
    var cur := SizePass(t, 0);
    var next := SizePass(cur.0, 0);
    TotalsBounded(t, 0);
    while next.1 != cur.1
      invariant k >= 1
      invariant cur == (Passes(t, k), Total(t, k)) && next == (Passes(t, k + 1), Total(t, k + 1))
      invariant Total(t, k) <= Worst(t, SafeWidth(t))
      decreases Worst(t, SafeWidth(t)) - Total(t, k)
    {
      PassesAscend(t, k);
      TotalsBounded(t, k);
      cur := next;
      next := SizePass(cur.0, 0);
      k := k + 1;
    }
  }

  // ----- what sizing leaves alone -----

  lemma {:induction false} BelowAt(ks: seq<Trie>, us: seq<Trie>, i: nat)
    requires BelowKids(ks, us) && i < |ks|
    ensures Below(ks[i], us[i])
    decreases i
  {
    if i > 0 {
      BelowAt(ks[1..], us[1..], i - 1);
    }
  }

  /** Tries that differ only in offsets and sizes mean the same. */
  lemma {:induction false} SameMeaning(t: Trie, u: Trie, q: Str)
    requires Below(t, u) && WellFormed(t)
    ensures WellFormed(u) && Lookup(u, q) == Lookup(t, q)
    decreases t
  {
    forall k | 0 <= k < |t.kids| ensures Below(t.kids[k], u.kids[k]) && WellFormed(u.kids[k]) {
      BelowAt(t.kids, u.kids, k);
      SameMeaning(t.kids[k], u.kids[k], []);
    }
    if q != [] {
      FindKidHeads(t.kids, u.kids, q[0]);
      var i := FindKid(t.kids, q[0]);
      if i < |t.kids| && t.kids[i].edge <= q {
        SameMeaning(t.kids[i], u.kids[i], q[|t.kids[i].edge|..]);
      }
    }
  }

  lemma {:induction false} PassesKeepMeaning(t: Trie, k: nat, q: Str)
    requires Unsized(t) && WellFormed(t)
    ensures WellFormed(Passes(t, k)) && Lookup(Passes(t, k), q) == Lookup(t, q)
    decreases k
  {
    if k > 0 {
      PassesKeepMeaning(t, k - 1, q);
      PassesAscend(t, k - 1);
      SameMeaning(Passes(t, k - 1), Passes(t, k), q);
    }
  }

  lemma {:induction false} InsertUnsized(t: Trie, p: Str, v: nat)
    requires Unsized(t)
    ensures Unsized(Insert(t, p, v))
    decreases |p|
  {
    if p != [] && FindKid(t.kids, p[0]) < |t.kids| {
      var c := t.kids[FindKid(t.kids, p[0])];
      var n := CommonPrefix(c.edge, p);
      InsertUnsized(if n == |c.edge| then c else SplitKid(c, n), p[n..], v);
    }
  }

  lemma {:induction false} InsertAllUnsized(syms: seq<Symbol>)
    ensures Unsized(InsertAll(syms))
    decreases |syms|
  {
    if syms != [] {
      InsertAllUnsized(syms[..|syms| - 1]);
      InsertUnsized(InsertAll(syms[..|syms| - 1]), syms[|syms| - 1].name, syms[|syms| - 1].offset);
    }
  }

  lemma {:induction false} SortUnsized(t: Trie)
    requires Unsized(t) && WellFormed(t)
    ensures Unsized(SortTrie(t))
    decreases t
  {
    var mid := seq(|t.kids|, k requires 0 <= k < |t.kids| => SortTrie(t.kids[k]));
    forall k | 0 <= k < |mid| ensures Unsized(mid[k]) && mid[k].edge == t.kids[k].edge {
      SortUnsized(t.kids[k]);
    }
    SortKidsSorts(mid);
    var sorted := SortTrie(t).kids;
    forall k | 0 <= k < |sorted| ensures Unsized(sorted[k]) {
      assert sorted[k] in mid;
    }
  }
}
