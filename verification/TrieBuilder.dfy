/**
 The converter's trie nodes as they are: linked objects whose edges, children,
 offsets and sizes are overwritten in place.  Each operation is proved against
 its meaning on values.
 */
module TrieBuilder {
  import opened Common
  import opened Uleb
  import opened ExportTrie
  import opened TrieSizing
  import opened TrieSettling
  import opened TrieEncoding

  /** The sizing loop leaves through its equal-totals test, not through its limit of ten. */
  ghost predicate SettlesInTime(t: Trie) {
    exists k :: 1 <= k <= 10 && Total(t, k + 1) == Total(t, k)
  }

  /** The encoding stays within its buffer, which has sixteen bytes to spare after the last pass. */
  ghost predicate Encodable(t: Trie) {
    SettlesInTime(t) || Total(t, 12) <= Total(t, 11) + 16
  }

  lemma BufferSuffices(t: Trie, iter: nat)
    requires Unsized(t) && Encodable(t) && 1 <= iter <= 10 && (Total(t, iter + 1) == Total(t, iter) || iter == 10)
    requires SettlesInTime(t) <==> Total(t, iter + 1) == Total(t, iter)
    ensures |Encode(Passes(t, iter + 1))| <= Total(t, iter + 1) + 16
  {
    EncodeLength(Passes(t, iter + 1), 0);
    if SettlesInTime(t) {
      EqualTotalsSettle(t, iter);
    }
  }

  class TrieNode {
    var edge: Str
    var children: seq<TrieNode>
    var term: Option<nat>
    var fileOffset: nat
    var nodeSize: nat

    ghost var model: Trie
    ghost var Repr: set<TrieNode>

    ghost predicate Valid()
      reads this, Repr
      decreases Repr
    {
      && this in Repr
      && model == Trie(edge, term, model.kids, fileOffset, nodeSize)
      && |model.kids| == |children|
      && (forall i :: 0 <= i < |children| ==>
            && children[i] in Repr
            && children[i].Repr <= Repr
            && this !in children[i].Repr
            && children[i].Valid()
            && children[i].model == model.kids[i])
      && (forall i, j :: 0 <= i < j < |children| ==> children[i].Repr !! children[j].Repr)
    }

    /** `trie_new`. */
    constructor (edge: Str)
      ensures Valid() && Repr == {this} && model == NewNode(edge)
    {
      this.edge := edge;
      children := [];
      term := None;
      fileOffset := 0;
      nodeSize := 0;
      model := NewNode(edge);
      Repr := {this};
    }

    /** Linear search for the child whose edge starts with `c`. */
    method FindChild(c: ch) returns (i: nat)
      requires Valid()
      ensures i == FindKid(model.kids, c)
      ensures i <= |children|
    {
      i := 0;
      while i < |children|
        invariant i <= |children|
        invariant forall j :: 0 <= j < i ==> model.kids[j].edge == [] || model.kids[j].edge[0] != c
      {
        if children[i].edge != [] && children[i].edge[0] == c {
          return;
        }
        i := i + 1;
      }
    }

    /** Everything `Valid` asks except of child `i`, which may be mid-update. */
    ghost predicate ValidExcept(i: nat)
      reads this, Repr
    {
      && this in Repr
      && model == Trie(edge, term, model.kids, fileOffset, nodeSize)
      && i < |model.kids| == |children|
      && (forall k :: 0 <= k < |children| && k != i ==>
            && children[k] in Repr
            && children[k].Repr <= Repr
            && this !in children[k].Repr
            && children[k].Valid()
            && children[k].model == model.kids[k])
      && (forall j, k :: 0 <= j < k < |children| && j != i && k != i ==> children[j].Repr !! children[k].Repr)
    }

    /** `trie_add_child`. */
    method AddChild(c: TrieNode)
      requires Valid() && c.Valid() && c.Repr !! Repr
      modifies this
      ensures Valid() && Repr == old(Repr) + c.Repr
      ensures model == old(model).(kids := old(model).kids + [c.model])
    {
      children := children + [c];
      Repr := Repr + c.Repr;
      model := model.(kids := model.kids + [c.model]);
      assert c.Valid();
    }

    /** A new terminal child for the rest of a name. */
    method AddLeaf(p: Str, v: nat)
      requires Valid()
      modifies this
      ensures Valid() && fresh(Repr - old(Repr))
      ensures model == old(model).(kids := old(model).kids + [NewNode(p).(term := Some(v))])
    {
      var leaf := new TrieNode(p);
      leaf.term := Some(v);
      leaf.model := leaf.model.(term := Some(v));
      AddChild(leaf);
    }

    /** Puts a finished subtree in position `i`. */
    method SetChild(i: nat, d: TrieNode)
      requires ValidExcept(i) && d.Valid() && this !in d.Repr
      requires forall k :: 0 <= k < |children| && k != i ==> children[k].Repr !! d.Repr
      modifies this
      ensures Valid() && Repr == old(Repr) + d.Repr
      ensures model == old(model).(kids := old(model).kids[i := d.model])
    {
      children := children[i := d];
      Repr := Repr + d.Repr;
      model := model.(kids := model.kids[i := d.model]);
    }

    /** The edge-splitting step: this node keeps its tail below a new one. */
    method SplitEdge(n: nat) returns (split: TrieNode)
      requires Valid() && n <= |edge|
      modifies this
      ensures split.Valid() && fresh(split) && split.Repr == old(Repr) + {split}
      ensures split.model == SplitKid(old(model), n)
      ensures Repr == old(Repr)
    {
      split := new TrieNode(edge[..n]);
      edge := edge[n..];
      model := model.(edge := edge);
      assert Valid();
      split.AddChild(this);
    }

    /** `trie_insert`, with one call per iteration of its descent. */
    method Insert(p: Str, v: nat)
      requires Valid()
      modifies Repr
      ensures Valid() && fresh(Repr - old(Repr))
      ensures model == ExportTrie.Insert(old(model), p, v)
      decreases |p|, 0
    {
      if p == [] {
        term := Some(v);
        model := model.(term := Some(v));
        return;
      }
      var i := FindChild(p[0]);
      if i == |children| {
        AddLeaf(p, v);
      } else {
        var n := PrefixLength(children[i].edge, p);
        InsertBelow(i, n, p[n..], v);
      }
    }

    /** Cuts the edge of child `i` after `n` characters if it is longer, and goes on there. */
    method InsertBelow(i: nat, n: nat, rest: Str, v: nat)
      requires Valid() && i < |children| && n <= |children[i].edge|
      modifies Repr
      ensures Valid() && fresh(Repr - old(Repr))
      ensures old(model).kids[i].edge == old(children[i].edge)
      ensures
        var c := old(model).kids[i];
        var d := if n == |c.edge| then c else SplitKid(c, n);
        model == old(model).(kids := old(model).kids[i := ExportTrie.Insert(d, rest, v)])
      decreases |rest|, 1
    {
      var c := CutChild(i, n);
      c.Insert(rest, v);
      SetChild(i, c);
    }

    method CutChild(i: nat, n: nat) returns (c: TrieNode)
      requires Valid() && i < |children| && n <= |children[i].edge|
      modifies children[i]
      ensures ValidExcept(i) && c.Valid() && this !in c.Repr && fresh(c.Repr - old(children[i].Repr))
      ensures forall k :: 0 <= k < |children| && k != i ==> children[k].Repr !! c.Repr
      ensures old(model).kids[i].edge == old(children[i].edge)
      ensures c.model == if n == |old(model).kids[i].edge| then old(model).kids[i] else SplitKid(old(model).kids[i], n)
    {
      c := children[i];
      if n < |c.edge| {
        c := c.SplitEdge(n);
      }
    }

    method Swap(i: nat, j: nat)
      requires Valid() && i < j < |children|
      modifies this
      ensures Valid() && Repr == old(Repr) && |children| == old(|children|)
      ensures model == old(model).(kids := Swapped(old(model).kids, i, j))
    {
      children := children[i := children[j]][j := children[i]];
      model := model.(kids := Swapped(model.kids, i, j));
    }

    /** The exchange sort of one sibling list. */
    method SortSiblings()
      requires Valid() && Branching(model.kids)
      modifies this
      ensures Valid() && Repr == old(Repr) && |children| == old(|children|)
      ensures model == old(model).(kids := model.kids)
      ensures Branching(model.kids) && Ascending(model.kids) && SameElements(model.kids, old(model).kids)
    {
      ghost var was := model;
      var i := 0;
      while i + 1 < |children|
        invariant Valid() && Repr == old(Repr) && |children| == old(|children|)
        invariant model == was.(kids := model.kids)
        invariant Branching(model.kids) && SameElements(model.kids, was.kids)
        invariant 0 <= i && SortedUpTo(model.kids, i)
      {
        var j := i + 1;
        while j < |children|
          invariant Valid() && Repr == old(Repr) && |children| == old(|children|)
          invariant model == was.(kids := model.kids)
          invariant Branching(model.kids) && SameElements(model.kids, was.kids)
          invariant i < j <= |children| && SortedUpTo(model.kids, i)
          invariant forall k :: i < k < j ==> StrLess(model.kids[i].edge, model.kids[k].edge)
        {
          ExchangeStep(model.kids, i, j);
          if StrLess(children[j].edge, children[i].edge) {
            Swap(i, j);
          }
          j := j + 1;
        }
        i := i + 1;
      }
    }

    /** `trie_sort_children`: this sibling list, then each subtree. */
    method SortChildren()
      requires Valid() && WellFormed(model)
      modifies Repr
      ensures Valid() && Repr == old(Repr)
      ensures model == SortTrie(old(model))
      decreases Repr
    {
      ghost var was := model;
      SortSiblings();
      ghost var sorted := model.kids;
      ElementsWellFormed(was.kids, sorted);
      var i := 0;
      while i < |children|
        invariant Valid() && Repr == old(Repr) && |children| == |sorted|
        invariant 0 <= i <= |children| && model == was.(kids := model.kids)
        invariant forall k :: 0 <= k < i ==> model.kids[k] == SortTrie(sorted[k])
        invariant forall k :: i <= k < |sorted| ==> model.kids[k] == sorted[k]
      {
        var c := children[i];
        c.SortChildren();
        SetChild(i, c);
        i := i + 1;
      }
      SortEitherWay(was, sorted, model.kids);
    }

    /** `trie_compute_sizes`: one pass over this subtree. */
    method ComputeSizes(base: nat) returns (end: nat)
      requires Valid()
      modifies Repr
      ensures Valid() && Repr == old(Repr)
      ensures (model, end) == SizePass(old(model), base)
      decreases Repr, 3
    {
      nodeSize := SelfSize();
      fileOffset := base;
      model := model.(size := nodeSize, off := base);
      assert Valid();
      end := SizeChildren(base + nodeSize);
    }

    /** Sizes the subtrees one after another. */
    method SizeChildren(base: nat) returns (end: nat)
      requires Valid()
      modifies Repr
      ensures Valid() && Repr == old(Repr)
      ensures model == old(model).(kids := model.kids)
      ensures (model.kids, end) == SizeKids(old(model).kids, base)
      decreases Repr, 2
    {
      ghost var was := model;
      end := base;
      var i := 0;
      ghost var done, rest := [], was.kids;
      SizingStarts(was.kids, end);
      while i < |children|
        invariant Valid() && Repr == old(Repr) && |children| == |was.kids|
        invariant 0 <= i == |done| <= |children|
        invariant model == was.(kids := done + rest)
        invariant SizedSoFar(was.kids, base, done, rest, end)
      {
        end, done, rest := SizeNext(i, end, was, base, done, rest);
        i := i + 1;
      }
      assert rest == [] && done + [] == done;
    }

    /** One turn of that loop. */
    method SizeNext(i: nat, at: nat, ghost was: Trie, ghost base: nat, ghost done: seq<Trie>, ghost rest: seq<Trie>)
      returns (end: nat, ghost sized: seq<Trie>, ghost left: seq<Trie>)
      requires Valid() && i < |children| && i == |done| && model == was.(kids := done + rest)
      requires SizedSoFar(was.kids, base, done, rest, at)
      modifies Repr
      ensures Valid() && Repr == old(Repr) && |children| == old(|children|)
      ensures |sized| == i + 1 && model == was.(kids := sized + left) && SizedSoFar(was.kids, base, sized, left, end)
      decreases Repr, 1
    {
      SizingAdvances(was.kids, base, done, rest, at);
      end := SizeChild(i, at);
      SizedOne(done, rest, model.kids[i]);
      sized, left := done + [model.kids[i]], rest[1..];
    }

    method SizeChild(i: nat, base: nat) returns (end: nat)
      requires Valid() && i < |children|
      modifies Repr
      ensures Valid() && Repr == old(Repr) && |children| == old(|children|)
      ensures var (k, e) := SizePass(old(model).kids[i], base);
        model == old(model).(kids := old(model).kids[i := k]) && end == e
      decreases Repr, 0
    {
      var c := children[i];
      end := c.ComputeSizes(base);
      SetChild(i, c);
    }

    method SelfSize() returns (n: nat)
      requires Valid()
      ensures n == NodeSize(model)
    {
      n := 1;
      if term.Some? {
        var info := UlebSize(term.value);
        n := UlebSize(1 + info);
        n := n + 1 + info;
      }
      n := n + 1;
      var i := 0;
      assert model.kids == model.kids[0..];
      while i < |children|
        invariant 0 <= i <= |children|
        invariant n + EdgesSize(model.kids[i..]) == NodeSize(model)
      {
        assert model.kids[i..][1..] == model.kids[i + 1..];
        var u := UlebSize(children[i].fileOffset);
        n := n + |children[i].edge| + 1 + u;
        i := i + 1;
      }
    }

    /** `trie_encode_node`: writes this subtree at `pos` and nothing anywhere else. */
    method EncodeNode(buf: array<byte>, pos: nat) returns (next: nat)
      requires Valid() && pos + |Encode(model)| <= buf.Length
      modifies buf
      ensures next == pos + |Encode(model)|
      ensures buf[..] == Patch(old(buf[..]), pos, Encode(model))
      decreases Repr, 2
    {
      ghost var s := buf[..];
      next := EncodeHeader(buf, pos);
      next := EncodeChildren(buf, next, s, pos, NodeBytes(model));
    }

    method EncodeChildren(buf: array<byte>, at: nat, ghost s: seq<byte>, ghost pos: nat, ghost head: seq<byte>)
      returns (next: nat)
      requires Valid() && Written(s, pos, head + EncodeKids(model.kids), head, EncodeKids(model.kids), at, buf[..])
      modifies buf
      ensures next == at + |EncodeKids(model.kids)| && buf[..] == Patch(s, pos, head + EncodeKids(model.kids))
      decreases Repr, 1
    {
      next := at;
      var i := 0;
      ghost var all, done := head + EncodeKids(model.kids), head;
      assert model.kids == model.kids[0..];
      while i < |children|
        invariant 0 <= i <= |children|
        invariant Written(s, pos, all, done, EncodeKids(model.kids[i..]), next, buf[..])
      {
        NextKid(s, pos, all, done, model.kids, i, next, buf[..]);
        next := EncodeChild(i, buf, next, s, pos, done);
        done := done + Encode(model.kids[i]);
        i := i + 1;
      }
      assert done + [] == done;
    }

    method EncodeChild(i: nat, buf: array<byte>, at: nat, ghost s: seq<byte>, ghost pos: nat, ghost done: seq<byte>)
      returns (next: nat)
      requires Valid() && i < |children| && |s| == buf.Length
      requires at == pos + |done| && at + |Encode(model.kids[i])| <= buf.Length && buf[..] == Patch(s, pos, done)
      modifies buf
      ensures next == at + |Encode(model.kids[i])| && buf[..] == Patch(s, pos, done + Encode(model.kids[i]))
      decreases Repr, 0
    {
      next := children[i].EncodeNode(buf, at);
      PatchTwice(s, pos, done, Encode(model.kids[i]));
    }

    /** The node's own bytes: terminal information, child count, edges and child offsets. */
    method EncodeHeader(buf: array<byte>, pos: nat) returns (next: nat)
      requires Valid() && pos + |NodeBytes(model)| <= buf.Length
      modifies buf
      ensures next == pos + |NodeBytes(model)|
      ensures buf[..] == Patch(old(buf[..]), pos, NodeBytes(model))
    {
      ghost var s := buf[..];
      next := EncodeTerm(term, buf, pos);
      next := EncodeBranches(buf, next);
      PatchTwice(s, pos, TermBytes(term), [|children| % 256] + EdgeBytes(model.kids));
    }

    method EncodeBranches(buf: array<byte>, pos: nat) returns (next: nat)
      requires Valid() && pos + 1 + |EdgeBytes(model.kids)| <= buf.Length
      modifies buf
      ensures next == pos + 1 + |EdgeBytes(model.kids)|
      ensures buf[..] == Patch(old(buf[..]), pos, [|children| % 256] + EdgeBytes(model.kids))
    {
      ghost var s := buf[..];
      next := WriteByte(buf, pos, |children| % 256);
      next := EncodeEdges(buf, next);
      PatchTwice(s, pos, [|children| % 256], EdgeBytes(model.kids));
    }

    method EncodeEdges(buf: array<byte>, pos: nat) returns (next: nat)
      requires Valid() && pos + |EdgeBytes(model.kids)| <= buf.Length
      modifies buf
      ensures next == pos + |EdgeBytes(model.kids)|
      ensures buf[..] == Patch(old(buf[..]), pos, EdgeBytes(model.kids))
    {
      ghost var s := buf[..];
      next := pos;
      ghost var done: seq<byte> := [];
      var i := 0;
      assert model.kids == model.kids[0..];
      while i < |children|
        invariant 0 <= i <= |children|
        invariant EdgeBytes(model.kids) == done + EdgeBytes(model.kids[i..])
        invariant next == pos + |done| && buf[..] == Patch(s, pos, done)
      {
        ghost var part := CStr(model.kids[i].edge) + UlebBytes(model.kids[i].off);
        ghost var rest := EdgeBytes(model.kids[i + 1..]);
        assert model.kids[i..][1..] == model.kids[i + 1..];
        assert done + EdgeBytes(model.kids[i..]) == done + part + rest;
        next := EncodeEdge(children[i].edge, children[i].fileOffset, buf, next);
        PatchTwice(s, pos, done, part);
        done := done + part;
        i := i + 1;
      }
      assert done + [] == done;
    }

    /** The sizing loop: a first pass, then up to ten more until the total repeats. */
    method SizeUntilSettled() returns (total: nat, iter: nat)
      requires Valid() && Unsized(model)
      modifies Repr
      ensures Valid() && Repr == old(Repr)
      ensures 1 <= iter <= 10 && model == Passes(old(model), iter + 1) && total == Total(old(model), iter + 1)
      ensures Total(old(model), iter + 1) == Total(old(model), iter) || iter == 10
      ensures SettlesInTime(old(model)) <==> Total(old(model), iter + 1) == Total(old(model), iter)
    {
      ghost var t := model;
      total := ComputeSizes(0);
      iter := 0;
      var settled := false;
      while iter < 10 && !settled
        invariant 0 <= iter <= 10 && Valid() && Repr == old(Repr)
        invariant model == Passes(t, iter + 1) && total == Total(t, iter + 1)
        invariant SettledAt(t, iter, settled)
      {
        var prev := total;
        total := ComputeSizes(0);
        SettledNext(t, iter);
        iter := iter + 1;
        settled := total == prev;
      }
      SettledInTime(t, iter, settled);
    }
  }

  /** No two totals up to `iter` agreed, except perhaps the last two. */
  ghost predicate SettledAt(t: Trie, iter: nat, settled: bool) {
    && (forall k {:trigger Total(t, k)} :: 1 <= k < iter ==> Total(t, k + 1) != Total(t, k))
    && (settled <==> iter >= 1 && Total(t, iter + 1) == Total(t, iter))
  }

  lemma SettledNext(t: Trie, iter: nat)
    requires SettledAt(t, iter, false)
    ensures SettledAt(t, iter + 1, Total(t, iter + 2) == Total(t, iter + 1))
  {
  }

  lemma SettledInTime(t: Trie, iter: nat, settled: bool)
    requires SettledAt(t, iter, settled) && 1 <= iter <= 10 && (settled || iter == 10)
    ensures SettlesInTime(t) <==> Total(t, iter + 1) == Total(t, iter)
  {
  }

  method WriteByte(buf: array<byte>, pos: nat, b: byte) returns (next: nat)
    requires pos < buf.Length
    modifies buf
    ensures next == pos + 1 && buf[..] == Patch(old(buf[..]), pos, [b])
  {
    buf[pos] := b;
    next := pos + 1;
  }

  /** Copies a string with its terminator. */
  method WriteStr(buf: array<byte>, pos: nat, str: Str) returns (next: nat)
    requires pos + |str| + 1 <= buf.Length
    modifies buf
    ensures next == pos + |CStr(str)| && buf[..] == Patch(old(buf[..]), pos, CStr(str))
  {
    ghost var s := buf[..];
    next := pos;
    var i := 0;
    while i < |str|
      invariant 0 <= i <= |str| && next == pos + i
      invariant buf[..] == Patch(s, pos, str[..i])
    {
      PatchTwice(s, pos, str[..i], [str[i]]);
      next := WriteByte(buf, next, str[i]);
      i := i + 1;
      assert str[..i] == str[..i - 1] + [str[i - 1]];
    }
    next := WriteByte(buf, next, 0);
    assert str[..i] == str;
    PatchTwice(s, pos, str, [0]);
  }

  /** `done` of `all` is written from `pos` on, and `tail` is still to come. */
  ghost predicate Written(s: seq<byte>, pos: nat, all: seq<byte>, done: seq<byte>, tail: seq<byte>, next: nat, b: seq<byte>) {
    all == done + tail && pos + |all| <= |s| && next == pos + |done| && b == Patch(s, pos, done)
  }

  lemma NextKid(s: seq<byte>, pos: nat, all: seq<byte>, done: seq<byte>, kids: seq<Trie>, i: nat, next: nat, b: seq<byte>)
    requires i < |kids| && Written(s, pos, all, done, EncodeKids(kids[i..]), next, b)
    ensures all == done + Encode(kids[i]) + EncodeKids(kids[i + 1..])
    ensures next + |Encode(kids[i])| <= |s| == |b|
  {
    assert kids[i..][1..] == kids[i + 1..];
  }

  /** The flags byte and the value. */
  method EncodePayload(v: nat, buf: array<byte>, pos: nat) returns (next: nat)
    requires pos + 1 + |UlebBytes(v)| <= buf.Length
    modifies buf
    ensures next == pos + 1 + |UlebBytes(v)| && buf[..] == Patch(old(buf[..]), pos, [0] + UlebBytes(v))
  {
    ghost var s := buf[..];
    next := WriteByte(buf, pos, 0);
    var m := WriteUleb(buf, next, v);
    PatchTwice(s, pos, [0], UlebBytes(v));
    next := next + m;
  }

  lemma TermParts(v: nat)
    ensures TermBytes(Some(v)) == UlebBytes(1 + |UlebBytes(v)|) + ([0] + UlebBytes(v))
  {
  }

  method EncodeTerm(term: Option<nat>, buf: array<byte>, pos: nat) returns (next: nat)
    requires pos + |TermBytes(term)| <= buf.Length
    modifies buf
    ensures next == pos + |TermBytes(term)| && buf[..] == Patch(old(buf[..]), pos, TermBytes(term))
  {
    ghost var s := buf[..];
    match term
    case None =>
      next := WriteByte(buf, pos, 0);
    case Some(v) =>
      TermParts(v);
      var info := UlebSize(v);
      var n := WriteUleb(buf, pos, 1 + info);
      next := EncodePayload(v, buf, pos + n);
      PatchTwice(s, pos, UlebBytes(1 + info), [0] + UlebBytes(v));
  }

  method EncodeEdge(edge: Str, off: nat, buf: array<byte>, pos: nat) returns (next: nat)
    requires pos + |CStr(edge)| + |UlebBytes(off)| <= buf.Length
    modifies buf
    ensures next == pos + |CStr(edge)| + |UlebBytes(off)|
    ensures buf[..] == Patch(old(buf[..]), pos, CStr(edge) + UlebBytes(off))
  {
    ghost var s := buf[..];
    var q := WriteStr(buf, pos, edge);
    var n := WriteUleb(buf, q, off);
    PatchTwice(s, pos, CStr(edge), UlebBytes(off));
    next := q + n;
  }

  /** `done` are the sized siblings and `end` the running offset before sizing `rest`. */
  ghost predicate SizedSoFar(all: seq<Trie>, base: nat, done: seq<Trie>, rest: seq<Trie>, end: nat) {
    SizeKids(all, base) == (done + SizeKids(rest, end).0, SizeKids(rest, end).1)
  }

  lemma SizingStarts(all: seq<Trie>, base: nat)
    ensures SizedSoFar(all, base, [], all, base)
  {
    assert [] + SizeKids(all, base).0 == SizeKids(all, base).0;
  }

  lemma SizedOne(done: seq<Trie>, rest: seq<Trie>, k: Trie)
    requires rest != []
    ensures (done + rest)[|done| := k] == done + [k] + rest[1..]
  {
  }

  lemma SizingAdvances(all: seq<Trie>, base: nat, done: seq<Trie>, rest: seq<Trie>, end: nat)
    requires SizedSoFar(all, base, done, rest, end) && rest != []
    ensures var (first, next) := SizePass(rest[0], end);
      SizedSoFar(all, base, done + [first], rest[1..], next)
  {
    var (first, next) := SizePass(rest[0], end);
    var tail := SizeKids(rest[1..], next).0;
    assert done + ([first] + tail) == done + [first] + tail;
  }

  lemma ElementsWellFormed(a: seq<Trie>, b: seq<Trie>)
    requires SameElements(b, a) && forall k :: 0 <= k < |a| ==> WellFormed(a[k])
    ensures forall k :: 0 <= k < |b| ==> WellFormed(b[k])
  {
    forall k | 0 <= k < |b| ensures WellFormed(b[k]) {
      assert b[k] in a;
    }
  }

  /** Sorting siblings before their subtrees, or after, gives the same trie. */
  lemma SortEitherWay(t: Trie, sorted: seq<Trie>, done: seq<Trie>)
    requires WellFormed(t) && Branching(sorted) && Ascending(sorted) && SameElements(sorted, t.kids)
    requires |done| == |sorted| && forall k :: 0 <= k < |done| ==> done[k] == SortTrie(sorted[k])
    ensures t.(kids := done) == SortTrie(t)
  {
    var mid := seq(|t.kids|, k requires 0 <= k < |t.kids| => SortTrie(t.kids[k]));
    forall x | x in done ensures x in mid {
      var k :| 0 <= k < |done| && done[k] == x;
      assert sorted[k] in t.kids;
      var m :| 0 <= m < |t.kids| && t.kids[m] == sorted[k];
      assert mid[m] == x;
    }
    forall x | x in mid ensures x in done {
      var m :| 0 <= m < |mid| && mid[m] == x;
      assert t.kids[m] in sorted;
      var k :| 0 <= k < |sorted| && sorted[k] == t.kids[m];
      assert done[k] == x;
    }
    SortKidsSorts(mid);
    AscendingUnique(done, SortKids(mid));
  }

  function Swapped(kids: seq<Trie>, i: nat, j: nat): seq<Trie>
    requires i < |kids| && j < |kids|
  {
    kids[i := kids[j]][j := kids[i]]
  }

  /** Each of the first `n` siblings precedes all that follow it. */
  ghost predicate SortedUpTo(kids: seq<Trie>, n: nat) {
    forall a, b :: 0 <= a < n && a < b < |kids| ==> StrLess(kids[a].edge, kids[b].edge)
  }

  /** What one comparison of the exchange sort establishes, swapping or not. */
  lemma ExchangeStep(kids: seq<Trie>, i: nat, j: nat)
    requires Branching(kids) && i < j < |kids| && SortedUpTo(kids, i)
    requires forall k :: i < k < j ==> StrLess(kids[i].edge, kids[k].edge)
    ensures var after := if StrLess(kids[j].edge, kids[i].edge) then Swapped(kids, i, j) else kids;
      && Branching(after) && SameElements(after, kids) && SortedUpTo(after, i)
      && forall k :: i < k <= j ==> StrLess(after[i].edge, after[k].edge)
  {
    HeadsDecide(kids[j].edge, kids[i].edge);
    HeadsDecide(kids[i].edge, kids[j].edge);
    var sw := Swapped(kids, i, j);
    assert sw[i] == kids[j] && sw[j] == kids[i];
    if StrLess(kids[j].edge, kids[i].edge) {
      forall k | i < k < j ensures StrLess(kids[j].edge, kids[k].edge) {
        HeadsDecide(kids[i].edge, kids[k].edge);
        HeadsDecide(kids[j].edge, kids[k].edge);
      }
      forall x ensures x in sw <==> x in kids {
        SwapMembers(kids, i, j, x);
      }
    }
  }

  lemma SwapMembers(kids: seq<Trie>, i: nat, j: nat, x: Trie)
    requires i < j < |kids|
    ensures x in Swapped(kids, i, j) <==> x in kids
  {
    var sw := Swapped(kids, i, j);
    if x in kids {
      var k :| 0 <= k < |kids| && kids[k] == x;
      assert sw[if k == i then j else if k == j then i else k] == x;
    }
    if x in sw {
      var k :| 0 <= k < |sw| && sw[k] == x;
      assert kids[if k == i then j else if k == j then i else k] == x;
    }
  }

  method PrefixLength(a: Str, b: Str) returns (n: nat)
    ensures n == CommonPrefix(a, b)
  {
    n := 0;
    while n < |a| && n < |b| && a[n] == b[n]
      invariant n <= |a| && n <= |b|
      invariant CommonPrefix(a, b) == n + CommonPrefix(a[n..], b[n..])
    {
      n := n + 1;
    }
  }

  // ----- the whole export trie -----

  datatype ExternalSymbol = ExternalSymbol(name: Str, vaddr: u64)

  /** Leading underscore; the 256-byte buffer keeps at most 254 characters of the name. */
  function ExportName(name: Str): Str {
    [95] + (if |name| > 254 then name[..254] else name)
  }

  function Exports(ext: seq<ExternalSymbol>, shift: u64): seq<Symbol> {
    seq(|ext|, i requires 0 <= i < |ext| => Symbol(ExportName(ext[i].name), Add64(ext[i].vaddr, shift)))
  }

  /** A name as the reader asks for it: with an underscore, and cut at 254 characters. */
  ghost function Underscored(name: Str): Str {
    [95] + name[..if |name| < 254 then |name| else 254]
  }

  /** Symbol `k` is the last one of its name. */
  ghost predicate LastOfName(ext: seq<ExternalSymbol>, k: nat) {
    k < |ext| && forall j :: k < j < |ext| ==> Underscored(ext[j].name) != Underscored(ext[k].name)
  }

  /** A reader finds every name at the shifted address of its last symbol, and no other name. */
  ghost predicate ExportsAll(ext: seq<ExternalSymbol>, shift: u64, trie: seq<byte>) {
    && (forall k: nat :: LastOfName(ext, k) ==>
          FindExport(trie, Underscored(ext[k].name)) == Some((ext[k].vaddr + shift) % TWO64))
    && (forall q :: (forall k :: 0 <= k < |ext| ==> q != Underscored(ext[k].name)) ==> FindExport(trie, q) == None)
  }

  lemma {:induction false} LastOffsetIs(syms: seq<Symbol>, q: Str, k: nat)
    requires k < |syms| && syms[k].name == q && forall j :: k < j < |syms| ==> syms[j].name != q
    ensures LastOffset(syms, q) == Some(syms[k].offset)
    decreases |syms|
  {
    if k < |syms| - 1 {
      LastOffsetIs(syms[..|syms| - 1], q, k);
    }
  }

  lemma {:induction false} NoOffset(syms: seq<Symbol>, q: Str)
    requires forall j :: 0 <= j < |syms| ==> syms[j].name != q
    ensures LastOffset(syms, q) == None
    decreases |syms|
  {
    if syms != [] {
      NoOffset(syms[..|syms| - 1], q);
    }
  }

  /** The list of exports says so. */
  lemma ListExportsAll(ext: seq<ExternalSymbol>, shift: u64, trie: seq<byte>)
    requires forall q :: FindExport(trie, q) == LastOffset(Exports(ext, shift), q)
    ensures ExportsAll(ext, shift, trie)
  {
    var syms := Exports(ext, shift);
    forall k: nat | LastOfName(ext, k)
      ensures FindExport(trie, Underscored(ext[k].name)) == Some((ext[k].vaddr + shift) % TWO64)
    {
      LastOffsetIs(syms, Underscored(ext[k].name), k);
    }
    forall q | forall k :: 0 <= k < |ext| ==> q != Underscored(ext[k].name)
      ensures FindExport(trie, q) == None
    {
      NoOffset(syms, q);
    }
  }

  /**
   `build_export_trie`: if the sizes have settled, a reader that walks the result
   finds each exported name at its shifted address, and no other name.
   */
  method BuildExportTrie(ext: seq<ExternalSymbol>, shift: u64) returns (out: seq<byte>)
    requires Encodable(SortedTrie(Exports(ext, shift)))
    ensures SettlesInTime(SortedTrie(Exports(ext, shift))) ==> ExportsAll(ext, shift, out)
  {
    ghost var syms := Exports(ext, shift);
    var root := InsertExports(ext, shift);
    SortedTrieMeaning(syms, []);
    assert WellFormed(root.model) by { InsertAllMeaning(syms, []); }
    root.SortChildren();
    var total, iter := root.SizeUntilSettled();
    BufferSuffices(SortedTrie(syms), iter);
    var buf := new byte[total + 16];
    var pos := root.EncodeNode(buf, 0);
    out := buf[..pos];
    assert out == Encode(root.model);
    if SettlesInTime(SortedTrie(syms)) {
      EqualTotalsSettle(SortedTrie(syms), iter);
      forall q
        ensures FindExport(out, q) == LastOffset(syms, q)
      {
        ExportsRoundTrip(syms, iter, q);
      }
      ListExportsAll(ext, shift, out);
    }
  }

  /** Every library whose exported names weigh at most 10920 bytes, at twenty a name, settles. */
  lemma LightExports(ext: seq<ExternalSymbol>, shift: u64)
    requires Weight(Exports(ext, shift)) <= 10920
    ensures SettlesInTime(SortedTrie(Exports(ext, shift)))
  {
    LightSettles(Exports(ext, shift));
  }

  lemma InsertedOne(syms: seq<Symbol>, i: nat)
    requires i < |syms|
    ensures InsertAll(syms[..i + 1]) == ExportTrie.Insert(InsertAll(syms[..i]), syms[i].name, syms[i].offset)
  {
    assert syms[..i + 1][..i] == syms[..i] && syms[..i + 1][i] == syms[i];
  }

  method InsertExports(ext: seq<ExternalSymbol>, shift: u64) returns (root: TrieNode)
    ensures root.Valid() && fresh(root.Repr)
    ensures root.model == InsertAll(Exports(ext, shift))
  {
    ghost var syms := Exports(ext, shift);
    root := new TrieNode([]);
    var i := 0;
    while i < |ext|
      invariant 0 <= i <= |ext| && root.Valid() && fresh(root.Repr)
      invariant root.model == InsertAll(syms[..i])
    {
      InsertedOne(syms, i);
      root.Insert(ExportName(ext[i].name), Add64(ext[i].vaddr, shift));
      i := i + 1;
    }
    assert syms[..i] == syms;
  }
}
