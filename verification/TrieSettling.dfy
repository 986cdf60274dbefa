/**
 How many sizing passes a small trie needs.  Below sixteen kilobytes an offset takes one
 byte or two, so only nodes moving past offset 128 make the trie grow.  Nodes are at
 least two bytes apart: each pass that moves them by some distance lets at most half as
 many more past, and the ten extra passes suffice.
 */
module TrieSettling {
  import opened Common
  import opened Uleb
  import opened ExportTrie
  import opened TrieSizing

  /** The largest offset that takes one byte, and the largest that takes two. */
  const ONE_BYTE: nat := 0x80
  const TWO_BYTES: nat := 0x4000

  // ----- counting nodes by offset -----

  /** Nodes at offsets from `lo` up to but not including `hi`. */
  function Count(t: Trie, lo: int, hi: int): nat
    decreases t, 1
  {
    (if lo <= t.off < hi then 1 else 0) + CountKids(t.kids, lo, hi)
  }

  function CountKids(kids: seq<Trie>, lo: int, hi: int): nat
    decreases kids, 0
  {
    if kids == [] then 0 else Count(kids[0], lo, hi) + CountKids(kids[1..], lo, hi)
  }

  /** The length that two ranges share. */
  function Meet(lo: int, hi: int, b: int, e: int): nat {
    var from, to := if lo < b then b else lo, if hi < e then hi else e;
    if from < to then to - from else 0
  }

  /** A pass leaves nodes at least two bytes apart. */
  lemma {:induction false} PassSparse(t: Trie, base: nat, lo: int, hi: int)
    ensures 2 * Count(SizePass(t, base).0, lo, hi) <= Meet(lo, hi + 1, base, SizePass(t, base).1)
    decreases t, 1
  {
    KidsSparse(t.kids, base + NodeSize(t), lo, hi);
  }

  lemma {:induction false} KidsSparse(kids: seq<Trie>, base: nat, lo: int, hi: int)
    ensures 2 * CountKids(SizeKids(kids, base).0, lo, hi) <= Meet(lo, hi + 1, base, SizeKids(kids, base).1)
    decreases kids, 0
  {
    if kids != [] {
      PassSparse(kids[0], base, lo, hi);
      KidsSparse(kids[1..], SizePass(kids[0], base).1, lo, hi);
    }
  }

  // ----- how far a pass moves nodes -----

  /** Every node of `u` lies at most `d` behind where it lies in `t`. */
  ghost predicate Within(t: Trie, u: Trie, d: nat)
    decreases t, 1
  {
    u.off <= t.off + d && WithinKids(t.kids, u.kids, d)
  }

  ghost predicate WithinKids(ks: seq<Trie>, us: seq<Trie>, d: nat)
    decreases ks, 0
  {
    |ks| == |us| && (ks == [] || (Within(ks[0], us[0], d) && WithinKids(ks[1..], us[1..], d)))
  }

  /** No node moves farther than the end does. */
  lemma {:induction false} PassShift(t: Trie, u: Trie, b: nat, c: nat, d: nat)
    requires Below(t, u) && b <= c && SizePass(u, c).1 - SizePass(t, b).1 <= d
    ensures Within(SizePass(t, b).0, SizePass(u, c).0, d)
    decreases t, 1
  {
    PassMonotone(t, u, b, c);
    EdgesMonotone(t.kids, u.kids);
    KidsShift(t.kids, u.kids, b + NodeSize(t), c + NodeSize(u), d);
  }

  lemma {:induction false} KidsShift(ks: seq<Trie>, us: seq<Trie>, b: nat, c: nat, d: nat)
    requires BelowKids(ks, us) && b <= c && SizeKids(us, c).1 - SizeKids(ks, b).1 <= d
    ensures WithinKids(SizeKids(ks, b).0, SizeKids(us, c).0, d)
    decreases ks, 0
  {
    if ks != [] {
      PassMonotone(ks[0], us[0], b, c);
      KidsMonotone(ks[1..], us[1..], SizePass(ks[0], b).1, SizePass(us[0], c).1);
      PassShift(ks[0], us[0], b, c, d);
      KidsShift(ks[1..], us[1..], SizePass(ks[0], b).1, SizePass(us[0], c).1, d);
    }
  }

  /** Only nodes within `d` of `x` can have moved past it. */
  lemma {:induction false} FewLeave(t: Trie, u: Trie, d: nat, x: int)
    requires Within(t, u, d)
    ensures Count(t, 0, x) <= Count(u, 0, x) + Count(t, x - d, x)
    decreases t, 1
  {
    FewLeaveKids(t.kids, u.kids, d, x);
  }

  lemma {:induction false} FewLeaveKids(ks: seq<Trie>, us: seq<Trie>, d: nat, x: int)
    requires WithinKids(ks, us, d)
    ensures CountKids(ks, 0, x) <= CountKids(us, 0, x) + CountKids(ks, x - d, x)
    decreases ks, 0
  {
    if ks != [] {
      FewLeave(ks[0], us[0], d, x);
      FewLeaveKids(ks[1..], us[1..], d, x);
    }
  }

  // ----- how much the trie grows -----

  /** The siblings themselves at offsets of one byte, and all nodes below them. */
  function Heads(kids: seq<Trie>): nat {
    if kids == [] then 0 else (if kids[0].off < ONE_BYTE then 1 else 0) + Heads(kids[1..])
  }

  function Under(kids: seq<Trie>): nat {
    if kids == [] then 0 else CountKids(kids[0].kids, 0, ONE_BYTE) + Under(kids[1..])
  }

  lemma {:induction false} HeadsAndUnder(kids: seq<Trie>)
    ensures CountKids(kids, 0, ONE_BYTE) == Heads(kids) + Under(kids)
    decreases |kids|
  {
    if kids != [] {
      HeadsAndUnder(kids[1..]);
    }
  }

  lemma OffsetWidth(v: nat)
    requires |UlebBytes(v)| <= 2
    ensures |UlebBytes(v)| == if v < ONE_BYTE then 1 else 2
  {
  }

  lemma {:induction false} EdgesGrow(ks: seq<Trie>, us: seq<Trie>)
    requires BelowKids(ks, us) && NarrowKids(us, 2)
    ensures EdgesSize(us) - EdgesSize(ks) == Heads(ks) - Heads(us)
    decreases |ks|
  {
    if ks != [] {
      UlebMonotone(ks[0].off, us[0].off);
      OffsetWidth(ks[0].off);
      OffsetWidth(us[0].off);
      EdgesGrow(ks[1..], us[1..]);
    }
  }

  /** While offsets take at most two bytes, a pass grows by the nodes that have left the one-byte offsets. */
  lemma {:induction false} PassGrows(t: Trie, u: Trie, b: nat, c: nat)
    requires Below(t, u) && NarrowKids(u.kids, 2)
    ensures (SizePass(u, c).1 - c) - (SizePass(t, b).1 - b) ==
      CountKids(t.kids, 0, ONE_BYTE) - CountKids(u.kids, 0, ONE_BYTE)
    decreases t, 1
  {
    EdgesGrow(t.kids, u.kids);
    KidsGrow(t.kids, u.kids, b + NodeSize(t), c + NodeSize(u));
    HeadsAndUnder(t.kids);
    HeadsAndUnder(u.kids);
  }

  lemma {:induction false} KidsGrow(ks: seq<Trie>, us: seq<Trie>, b: nat, c: nat)
    requires BelowKids(ks, us) && NarrowKids(us, 2)
    ensures (SizeKids(us, c).1 - c) - (SizeKids(ks, b).1 - b) == Under(ks) - Under(us)
    decreases ks, 0
  {
    if ks != [] {
      PassGrows(ks[0], us[0], b, c);
      KidsGrow(ks[1..], us[1..], SizePass(ks[0], b).1, SizePass(us[0], c).1);
    }
  }

  // ----- the passes -----

  lemma {:induction false} BelowTransitive(t: Trie, u: Trie, w: Trie)
    requires Below(t, u) && Below(u, w)
    ensures Below(t, w)
    decreases t, 1
  {
    BelowKidsTransitive(t.kids, u.kids, w.kids);
  }

  lemma {:induction false} BelowKidsTransitive(ks: seq<Trie>, us: seq<Trie>, ws: seq<Trie>)
    requires BelowKids(ks, us) && BelowKids(us, ws)
    ensures BelowKids(ks, ws)
    decreases ks, 0
  {
    if ks != [] {
      BelowTransitive(ks[0], us[0], ws[0]);
      BelowKidsTransitive(ks[1..], us[1..], ws[1..]);
    }
  }

  lemma {:induction false} PassesBelow(t: Trie, j: nat, k: nat)
    requires Unsized(t) && j < k
    ensures Below(Passes(t, j), Passes(t, k)) && (j >= 1 ==> Total(t, j) <= Total(t, k))
    decreases k
  {
    PassesAscend(t, k - 1);
    if j < k - 1 {
      PassesBelow(t, j, k - 1);
      BelowTransitive(Passes(t, j), Passes(t, k - 1), Passes(t, k));
    }
  }

  /** The growth between two passes is the number of nodes that left the one-byte offsets. */
  lemma Growth(t: Trie, j: nat, k: nat)
    requires Unsized(t) && j < k && Total(t, k) <= TWO_BYTES
    ensures Total(t, k + 1) - Total(t, j + 1) ==
      CountKids(Passes(t, j).kids, 0, ONE_BYTE) - CountKids(Passes(t, k).kids, 0, ONE_BYTE)
  {
    PassesBelow(t, j, k);
    assert Pow128(2) == TWO_BYTES by {
      assert Pow128(1) == 128 * Pow128(0);
    }
    PassNarrow(Passes(t, k - 1), 0, 2);
    PassGrows(Passes(t, j), Passes(t, k), 0, 0);
  }

  /** Each pass grows by at most half, rounded up, of what the pass before it grew by. */
  lemma GrowthHalves(t: Trie, j: nat, k: nat)
    requires Unsized(t) && 1 <= j < k && Total(t, k) <= TWO_BYTES
    ensures Total(t, j) <= Total(t, k) && 2 * (Total(t, k + 1) - Total(t, j + 1)) <= Total(t, k) - Total(t, j) + 1
  {
    PassesBelow(t, j, k);
    PassesBelow(t, j - 1, k - 1);
    var d := Total(t, k) - Total(t, j);
    Growth(t, j, k);
    PassShift(Passes(t, j - 1), Passes(t, k - 1), 0, 0, d);
    FewLeave(Passes(t, j), Passes(t, k), d, ONE_BYTE);
    PassSparse(Passes(t, j - 1), 0, ONE_BYTE - d, ONE_BYTE);
  }

  /** After the second pass the growth is below sixty-four. */
  lemma GrowthStarts(t: Trie)
    requires Unsized(t) && Total(t, 2) <= TWO_BYTES
    ensures Total(t, 3) - Total(t, 2) < 64
  {
    Growth(t, 1, 2);
    PassSparse(Passes(t, 0), 0, 0, ONE_BYTE);
    assert Passes(t, 1).off == 0;
  }

  lemma HalvesTwice(t: Trie, k: nat)
    requires Unsized(t) && 1 <= k && Total(t, k + 2) <= TWO_BYTES
    ensures 2 * (Total(t, k + 2) - Total(t, k + 1)) <= Total(t, k + 1) - Total(t, k) + 1
    ensures 2 * (Total(t, k + 3) - Total(t, k + 2)) <= Total(t, k + 2) - Total(t, k + 1) + 1
  {
    PassesBelow(t, k + 1, k + 2);
    GrowthHalves(t, k, k + 1);
    GrowthHalves(t, k + 1, k + 2);
  }

  /** A trie that stays within sixteen kilobytes settles within the converter's ten extra passes. */
  lemma SettlesWithinTen(t: Trie)
    requires Unsized(t) && Total(t, 10) <= TWO_BYTES
    ensures Total(t, 10) == Total(t, 9) || Total(t, 11) == Total(t, 10)
  {
    PassesBelow(t, 2, 10);
    PassesBelow(t, 4, 10);
    PassesBelow(t, 6, 10);
    PassesBelow(t, 8, 10);
    GrowthStarts(t);
    HalvesTwice(t, 2);
    HalvesTwice(t, 4);
    HalvesTwice(t, 6);
    PassesAscend(t, 9);
    PassesAscend(t, 10);
    PassesBelow(t, 9, 10);
    GrowthHalves(t, 8, 9);
    GrowthHalves(t, 8, 10);
  }

  // ----- from the first pass alone -----

  /** No pass is longer than one and a half times the first. */
  lemma {:induction false} TotalsNearFirst(t: Trie, k: nat)
    requires Unsized(t) && k >= 1 && 3 * Total(t, 1) <= 2 * TWO_BYTES
    ensures 2 * Total(t, k) <= 3 * Total(t, 1)
    decreases k
  {
    if k >= 2 {
      TotalsNearFirst(t, k - 1);
      Growth(t, 0, k - 1);
      PassSparse(t, 0, 0, TWO_BYTES);
      CountsAgree(t, 0);
    }
  }

  /** Before and after the first pass there are as many nodes. */
  lemma {:induction false} CountsAgree(t: Trie, base: nat)
    requires Unsized(t) && SizePass(t, base).1 <= TWO_BYTES
    ensures Count(t, 0, ONE_BYTE) == Count(SizePass(t, base).0, 0, TWO_BYTES)
    decreases t, 1
  {
    KidsAgree(t.kids, base + NodeSize(t));
  }

  lemma {:induction false} KidsAgree(kids: seq<Trie>, base: nat)
    requires SizeKids(kids, base).1 <= TWO_BYTES && forall k :: 0 <= k < |kids| ==> Unsized(kids[k])
    ensures CountKids(kids, 0, ONE_BYTE) == CountKids(SizeKids(kids, base).0, 0, TWO_BYTES)
    decreases kids, 0
  {
    if kids != [] {
      CountsAgree(kids[0], base);
      KidsAgree(kids[1..], SizePass(kids[0], base).1);
    }
  }

  /** Ten extra passes suffice whenever the first pass ends within 10922 bytes. */
  lemma SmallSettles(t: Trie)
    requires Unsized(t) && Total(t, 1) <= 10922
    ensures exists k :: 1 <= k <= 10 && Total(t, k + 1) == Total(t, k)
  {
    TotalsNearFirst(t, 10);
    SettlesWithinTen(t);
    assert Total(t, 9 + 1) == Total(t, 9) || Total(t, 10 + 1) == Total(t, 10);
  }

  // ----- from the symbols alone -----

  lemma {:induction false} AppendedWorst(kids: seq<Trie>, x: Trie, k: nat)
    ensures WorstKids(kids + [x], k) == WorstKids(kids, k) + |x.edge| + 1 + k + Worst(x, k)
    decreases |kids|
  {
    if kids == [] {
      assert kids + [x] == [x];
    } else {
      assert (kids + [x])[1..] == kids[1..] + [x];
      AppendedWorst(kids[1..], x, k);
    }
  }

  lemma {:induction false} ReplacedWorst(kids: seq<Trie>, i: nat, d: Trie, k: nat)
    requires i < |kids|
    ensures WorstKids(kids[i := d], k) + |kids[i].edge| + Worst(kids[i], k) == WorstKids(kids, k) + |d.edge| + Worst(d, k)
    decreases i
  {
    if i == 0 {
      assert kids[i := d][1..] == kids[1..];
    } else {
      assert kids[i := d][1..] == kids[1..][i - 1 := d];
      ReplacedWorst(kids[1..], i - 1, d, k);
    }
  }

  lemma TermIsShort(v: u64)
    ensures |TermBytes(Some(v))| <= 12
  {
    UlebAtMostTen(v);
  }

  /** A name put into a node that has no branch for it. */
  lemma FreshWorst(t: Trie, p: Str, v: u64)
    requires p == [] || FindKid(t.kids, p[0]) == |t.kids|
    ensures Worst(Insert(t, p, v), 1) <= Worst(t, 1) + |p| + 15
  {
    TermIsShort(v);
    if p != [] {
      AppendedWorst(t.kids, NewNode(p).(term := Some(v)), 1);
    }
  }

  lemma SplitWorst(c: Trie, n: nat)
    requires n < |c.edge|
    ensures n + Worst(SplitKid(c, n), 1) == |c.edge| + Worst(c, 1) + 4
  {
    var lower := c.(edge := c.edge[n..]);
    assert SplitKid(c, n).kids == [] + [lower];
    AppendedWorst([], lower, 1);
  }

  /** A name adds its length and at most nineteen bytes more. */
  lemma {:induction false} InsertWorst(t: Trie, p: Str, v: u64)
    ensures Worst(Insert(t, p, v), 1) <= Worst(t, 1) + |p| + 19
    decreases |p|
  {
    if p == [] || FindKid(t.kids, p[0]) == |t.kids| {
      FreshWorst(t, p, v);
    } else {
      var i := FindKid(t.kids, p[0]);
      var c := t.kids[i];
      var n := CommonPrefix(c.edge, p);
      if n == |c.edge| {
        InsertWorst(c, p[n..], v);
        ReplacedWorst(t.kids, i, Insert(c, p[n..], v), 1);
      } else {
        FreshWorst(SplitKid(c, n), p[n..], v);
        SplitWorst(c, n);
        ReplacedWorst(t.kids, i, Insert(SplitKid(c, n), p[n..], v), 1);
      }
    }
  }

  /** The names of a symbol list, with nineteen bytes for each. */
  function Weight(syms: seq<Symbol>): nat {
    if syms == [] then 0 else Weight(syms[..|syms| - 1]) + |syms[|syms| - 1].name| + 19
  }

  lemma {:induction false} InsertAllWorst(syms: seq<Symbol>)
    requires forall k :: 0 <= k < |syms| ==> syms[k].offset < TWO64
    ensures Worst(InsertAll(syms), 1) <= 2 + Weight(syms)
    decreases |syms|
  {
    if syms != [] {
      var last := syms[|syms| - 1];
      InsertAllWorst(syms[..|syms| - 1]);
      InsertWorst(InsertAll(syms[..|syms| - 1]), last.name, last.offset);
    }
  }

  lemma {:induction false} PlaceWorst(c: Trie, kids: seq<Trie>, k: nat)
    ensures WorstKids(Place(c, kids), k) == |c.edge| + 1 + k + Worst(c, k) + WorstKids(kids, k)
    decreases |kids|
  {
    if kids == [] || StrLess(c.edge, kids[0].edge) {
      assert ([c] + kids)[1..] == kids;
    } else {
      assert ([kids[0]] + Place(c, kids[1..]))[1..] == Place(c, kids[1..]);
      PlaceWorst(c, kids[1..], k);
    }
  }

  lemma {:induction false} SortKidsWorst(kids: seq<Trie>, k: nat)
    ensures WorstKids(SortKids(kids), k) == WorstKids(kids, k)
    decreases |kids|
  {
    if kids != [] {
      SortKidsWorst(kids[1..], k);
      PlaceWorst(kids[0], SortKids(kids[1..]), k);
    }
  }

  lemma {:induction false} SameWorst(ks: seq<Trie>, us: seq<Trie>, k: nat)
    requires |ks| == |us|
    requires forall i :: 0 <= i < |ks| ==> ks[i].edge == us[i].edge && Worst(ks[i], k) == Worst(us[i], k)
    ensures WorstKids(ks, k) == WorstKids(us, k)
    decreases |ks|
  {
    if ks != [] {
      SameWorst(ks[1..], us[1..], k);
    }
  }

  lemma {:induction false} SortWorst(t: Trie, k: nat)
    ensures Worst(SortTrie(t), k) == Worst(t, k)
    decreases t
  {
    var mid := seq(|t.kids|, i requires 0 <= i < |t.kids| => SortTrie(t.kids[i]));
    forall i | 0 <= i < |mid|
      ensures mid[i].edge == t.kids[i].edge && Worst(mid[i], k) == Worst(t.kids[i], k)
    {
      SortWorst(t.kids[i], k);
    }
    SameWorst(mid, t.kids, k);
    SortKidsWorst(mid, k);
  }

  /** Ten extra passes suffice for every symbol list that weighs at most 10920. */
  lemma LightSettles(syms: seq<Symbol>)
    requires Weight(syms) <= 10920 && forall k :: 0 <= k < |syms| ==> syms[k].offset < TWO64
    ensures exists k :: 1 <= k <= 10 && Total(SortTrie(InsertAll(syms)), k + 1) == Total(SortTrie(InsertAll(syms)), k)
  {
    var t := InsertAll(syms);
    InsertAllMeaning(syms, []);
    InsertAllUnsized(syms);
    SortUnsized(t);
    InsertAllWorst(syms);
    SortWorst(t, 1);
    UnsizedNarrow(SortTrie(t), 1);
    PassBounded(SortTrie(t), 0, 1);
    SmallSettles(SortTrie(t));
  }
}
