/**
 Serialising the trie and reading it back.  The reader follows dyld's trie walk:
 from a node it either stops at a terminal or takes the first edge that is a
 prefix of what is left of the name, giving up on a node it has seen before.
 */
module TrieEncoding {
  import opened Common
  import opened Uleb
  import opened ExportTrie
  import opened TrieSizing

  // ----- encoder -----

  /** A C string in memory: its characters and the terminator. */
  function CStr(s: Str): seq<byte> {
    var b: seq<byte> := s;
    b + [0]
  }

  function EdgeBytes(kids: seq<Trie>): seq<byte> {
    if kids == [] then []
    else CStr(kids[0].edge) + (UlebBytes(kids[0].off) + EdgeBytes(kids[1..]))
  }

  function NodeBytes(t: Trie): seq<byte> {
    TermBytes(t.term) + ([|t.kids| % 256] + EdgeBytes(t.kids))
  }

  /** `trie_encode_node`: the node, then its subtrees in order. */
  function Encode(t: Trie): seq<byte>
    decreases t, 1
  {
    NodeBytes(t) + EncodeKids(t.kids)
  }

  function EncodeKids(kids: seq<Trie>): seq<byte>
    decreases kids, 0
  {
    if kids == [] then [] else Encode(kids[0]) + EncodeKids(kids[1..])
  }

  lemma {:induction false} EdgeBytesLength(kids: seq<Trie>)
    ensures |EdgeBytes(kids)| == EdgesSize(kids)
    decreases |kids|
  {
    if kids != [] {
      EdgeBytesLength(kids[1..]);
    }
  }

  /** The encoder emits exactly the number of bytes the sizing pass predicts. */
  lemma {:induction false} EncodeLength(t: Trie, base: nat)
    ensures |NodeBytes(t)| == NodeSize(t)
    ensures |Encode(t)| == SizePass(t, base).1 - base
    decreases t, 1
  {
    EdgeBytesLength(t.kids);
    EncodeKidsLength(t.kids, base + NodeSize(t));
  }

  lemma {:induction false} EncodeKidsLength(kids: seq<Trie>, base: nat)
    ensures |EncodeKids(kids)| == SizeKids(kids, base).1 - base
    decreases kids, 0
  {
    if kids != [] {
      EncodeLength(kids[0], base);
      EncodeKidsLength(kids[1..], SizePass(kids[0], base).1);
    }
  }

  /** Every recorded offset is the place where the encoder starts that node. */
  ghost predicate Placed(t: Trie, base: nat)
    decreases t, 1
  {
    t.off == base && PlacedKids(t.kids, base + |NodeBytes(t)|)
  }

  ghost predicate PlacedKids(kids: seq<Trie>, base: nat)
    decreases kids, 0
  {
    kids == [] || (Placed(kids[0], base) && PlacedKids(kids[1..], base + |Encode(kids[0])|))
  }

  // ----- reader -----

  /** The NUL-terminated string at `p` and the position after its terminator. */
  function ReadStr(b: seq<byte>, p: nat): (r: Option<(Str, nat)>)
    ensures r.Some? ==> p < r.value.1 <= |b|
    decreases |b| - p
  {
    if p >= |b| then None
    else if b[p] == 0 then Some(([], p + 1))
    else
      match ReadStr(b, p + 1)
      case None => None
      case Some((s, next)) => Some(([b[p]] + s, next))
  }

  /** The edge string and child offset at `p`, and the position after them. */
  function ReadEdge(b: seq<byte>, p: nat): Option<(Str, nat, nat)> {
    match ReadStr(b, p)
    case None => None
    case Some((edge, q)) =>
      match ReadUleb(b, q)
      case None => None
      case Some((child, next)) => Some((edge, child, next))
  }

  /** Among `n` edges from `p`, the first that is a prefix: its child and length. */
  function FindEdge(b: seq<byte>, p: nat, n: nat, sym: Str): (r: Option<(nat, nat)>)
    ensures r.Some? ==> r.value.1 <= |sym|
    decreases n
  {
    if n == 0 then None
    else
      match ReadEdge(b, p)
      case None => None
      case Some((edge, child, next)) =>
        if edge <= sym then Some((child, |edge|)) else FindEdge(b, next, n - 1, sym)
  }

  /** The node positions 0 to n - 1. */
  ghost function Positions(n: nat): (r: set<nat>)
    ensures forall i: nat :: i in r <==> i < n
  {
    if n == 0 then {} else Positions(n - 1) + {n - 1}
  }

  /** What the reader does at one node: take its payload, follow an edge, or give up. */
  datatype Move = Stop(payload: nat) | Down(child: nat, len: nat) | Lost

  function MoveAt(b: seq<byte>, pos: nat, sym: Str): (m: Move)
    ensures m.Down? ==> m.len <= |sym|
  {
    match ReadUleb(b, pos)
    case None => Lost
    case Some((termSize, p)) =>
      if sym == [] && termSize != 0 then Stop(p)
      else if p + termSize >= |b| then Lost
      else
        match FindEdge(b, p + termSize + 1, b[p + termSize], sym)
        case None => Lost
        case Some((child, len)) => if child == 0 then Lost else Down(child, len)
  }

  /** Position of the terminal payload of `sym`, walking from the node at `pos`. */
  function Walk(b: seq<byte>, pos: nat, sym: Str, visited: set<nat>): Option<nat>
    decreases Positions(|b|) - visited
  {
    if pos >= |b| || pos in visited then None
    else
      match MoveAt(b, pos, sym)
      case Lost => None
      case Stop(p) => Some(p)
      case Down(child, len) =>
        assert pos in Positions(|b|) - visited;
        Walk(b, child, sym[len..], visited + {pos})
  }

  /** The export's offset: skip the flags, read the number after them. */
  function FindExport(b: seq<byte>, sym: Str): Option<nat> {
    match Walk(b, 0, sym, {})
    case None => None
    case Some(p) =>
      match ReadUleb(b, p)
      case None => None
      case Some((flags, q)) =>
        match ReadUleb(b, q)
        case None => None
        case Some((value, end)) => Some(value)
  }

  // ----- reading back what was written -----

  lemma {:induction false} ReadStrWritten(b: seq<byte>, p: nat, s: Str)
    requires HasAt(b, p, CStr(s))
    ensures ReadStr(b, p) == Some((s, p + |s| + 1))
    decreases |s|
  {
    var w := CStr(s);
    assert b[p] == b[p..p + |w|][0] == w[0];
    if s != [] {
      assert w == [s[0]] + CStr(s[1..]);
      HasAtSplit(b, p, [s[0]], CStr(s[1..]));
      ReadStrWritten(b, p + 1, s[1..]);
      assert [s[0]] + s[1..] == s;
    }
  }

  /** First sibling whose whole edge is a prefix of `sym`, or |kids|. */
  function EdgeHit(kids: seq<Trie>, sym: Str): (i: nat)
    ensures i <= |kids|
    ensures i < |kids| ==> kids[i].edge <= sym
  {
    if kids == [] || kids[0].edge <= sym then 0 else 1 + EdgeHit(kids[1..], sym)
  }

  lemma {:induction false} EdgeHitIsFirst(kids: seq<Trie>, sym: Str)
    ensures forall j :: 0 <= j < EdgeHit(kids, sym) ==> !(kids[j].edge <= sym)
    decreases |kids|
  {
    if kids != [] {
      EdgeHitIsFirst(kids[1..], sym);
    }
  }

  lemma EdgeHitIsFindKid(kids: seq<Trie>, sym: Str)
    requires Branching(kids) && sym != []
    ensures var i := FindKid(kids, sym[0]);
      EdgeHit(kids, sym) == if i < |kids| && kids[i].edge <= sym then i else |kids|
  {
    EdgeHitIsFirst(kids, sym);
    var i, h := FindKid(kids, sym[0]), EdgeHit(kids, sym);
    assert h < |kids| ==> kids[h].edge[0] == sym[0];
  }

  lemma ReadEdgeWritten(b: seq<byte>, p: nat, t: Trie, rest: seq<byte>)
    requires HasAt(b, p, CStr(t.edge) + (UlebBytes(t.off) + rest))
    ensures var next := p + |t.edge| + 1 + |UlebBytes(t.off)|;
      ReadEdge(b, p) == Some((t.edge, t.off, next)) && HasAt(b, next, rest)
  {
    HasAtSplit(b, p, CStr(t.edge), UlebBytes(t.off) + rest);
    HasAtSplit(b, p + |t.edge| + 1, UlebBytes(t.off), rest);
    ReadStrWritten(b, p, t.edge);
    ReadWritten(b, p + |t.edge| + 1, t.off);
    ReadEdgeIs(b, p, t.edge, p + |t.edge| + 1, t.off, p + |t.edge| + 1 + |UlebBytes(t.off)|);
  }

  lemma ReadEdgeIs(b: seq<byte>, p: nat, edge: Str, q: nat, child: nat, next: nat)
    requires ReadStr(b, p) == Some((edge, q)) && ReadUleb(b, q) == Some((child, next))
    ensures ReadEdge(b, p) == Some((edge, child, next))
  {
  }

  lemma FindEdgeStep(b: seq<byte>, p: nat, n: nat, sym: Str, edge: Str, child: nat, next: nat)
    requires n > 0 && ReadEdge(b, p) == Some((edge, child, next))
    ensures FindEdge(b, p, n, sym) == if edge <= sym then Some((child, |edge|)) else FindEdge(b, next, n - 1, sym)
  {
  }

  lemma {:induction false} FindEdgeWritten(b: seq<byte>, p: nat, kids: seq<Trie>, sym: Str)
    requires HasAt(b, p, EdgeBytes(kids))
    ensures var i := EdgeHit(kids, sym);
      FindEdge(b, p, |kids|, sym) ==
      if i < |kids| then Some((kids[i].off, |kids[i].edge|)) else None
    decreases |kids|
  {
    if kids != [] {
      ReadEdgeWritten(b, p, kids[0], EdgeBytes(kids[1..]));
      var next := p + |kids[0].edge| + 1 + |UlebBytes(kids[0].off)|;
      FindEdgeStep(b, p, |kids|, sym, kids[0].edge, kids[0].off, next);
      if !(kids[0].edge <= sym) {
        FindEdgeWritten(b, next, kids[1..], sym);
      }
    }
  }

  /** The child count and edge search, as the reader finds them after the terminal. */
  lemma BranchesWritten(b: seq<byte>, k: nat, t: Trie, sym: Str)
    requires WellFormed(t) && HasAt(b, k, [|t.kids| % 256] + EdgeBytes(t.kids))
    ensures k < |b|
    ensures var i := EdgeHit(t.kids, sym);
      FindEdge(b, k + 1, b[k], sym) ==
      if i < |t.kids| then Some((t.kids[i].off, |t.kids[i].edge|)) else None
  {
    HasAtSplit(b, k, [|t.kids| % 256], EdgeBytes(t.kids));
    ChildCountFits(t);
    assert b[k] == b[k..k + 1][0] == |t.kids|;
    FindEdgeWritten(b, k + 1, t.kids, sym);
  }

  /** A child's own encoding stands at the offset recorded in it. */
  lemma {:induction false} KidInPlace(b: seq<byte>, base: nat, kids: seq<Trie>, i: nat)
    requires i < |kids| && PlacedKids(kids, base) && HasAt(b, base, EncodeKids(kids))
    ensures Placed(kids[i], kids[i].off) && HasAt(b, kids[i].off, Encode(kids[i]))
    ensures kids[i].off >= base
    decreases |kids|
  {
    HasAtSplit(b, base, Encode(kids[0]), EncodeKids(kids[1..]));
    if i > 0 {
      KidInPlace(b, base + |Encode(kids[0])|, kids[1..], i - 1);
    }
  }

  /** A walk result agrees with a lookup: both absent, or the payload is in place. */
  ghost predicate Agrees(b: seq<byte>, walked: Option<nat>, looked: Option<nat>) {
    match looked
    case None => walked.None?
    case Some(v) => walked.Some? && HasAt(b, walked.value, [0] + UlebBytes(v))
  }

  /** Terminal size and payload, as the reader finds them at a node. */
  lemma ReadTerm(b: seq<byte>, pos: nat, t: Trie)
    requires HasAt(b, pos, NodeBytes(t))
    ensures ReadUleb(b, pos).Some?
    ensures var (size, p) := ReadUleb(b, pos).value;
      && HasAt(b, p + size, [|t.kids| % 256] + EdgeBytes(t.kids))
      && (size == 0 <==> t.term.None?)
      && (t.term.Some? ==> HasAt(b, p, [0] + UlebBytes(t.term.value)))
  {
    HasAtSplit(b, pos, TermBytes(t.term), [|t.kids| % 256] + EdgeBytes(t.kids));
    if t.term.None? {
      assert UlebBytes(0) == [0];
      ReadWritten(b, pos, 0);
    } else {
      ReadValue(b, pos, t.term.value);
    }
  }

  lemma ReadValue(b: seq<byte>, pos: nat, v: nat)
    requires HasAt(b, pos, TermBytes(Some(v)))
    ensures var size := 1 + |UlebBytes(v)|;
      var p := pos + |UlebBytes(size)|;
      && ReadUleb(b, pos) == Some((size, p)) && HasAt(b, p, [0] + UlebBytes(v))
      && p + size == pos + |TermBytes(Some(v))|
  {
    var n := 1 + |UlebBytes(v)|;
    assert TermBytes(Some(v)) == UlebBytes(n) + ([0] + UlebBytes(v));
    HasAtSplit(b, pos, UlebBytes(n), [0] + UlebBytes(v));
    ReadWritten(b, pos, n);
  }

  /** At the end of the symbol a node with a value gives its payload. */
  lemma MoveStops(b: seq<byte>, pos: nat, t: Trie)
    requires HasAt(b, pos, NodeBytes(t)) && t.term.Some?
    ensures MoveAt(b, pos, []).Stop? && HasAt(b, MoveAt(b, pos, []).payload, [0] + UlebBytes(t.term.value))
  {
    ReadTerm(b, pos, t);
  }

  /** Otherwise the matching edge is followed. */
  lemma MoveFollows(b: seq<byte>, pos: nat, t: Trie, sym: Str)
    requires WellFormed(t) && HasAt(b, pos, NodeBytes(t)) && (sym != [] || t.term.None?)
    ensures var i := EdgeHit(t.kids, sym);
      MoveAt(b, pos, sym) ==
      if i < |t.kids| && t.kids[i].off != 0 then Down(t.kids[i].off, |t.kids[i].edge|) else Lost
  {
    ReadTerm(b, pos, t);
    MoveFollowsAt(b, pos, t, sym, ReadUleb(b, pos).value.0, ReadUleb(b, pos).value.1);
  }

  lemma MoveFollowsAt(b: seq<byte>, pos: nat, t: Trie, sym: Str, size: nat, p: nat)
    requires ReadUleb(b, pos) == Some((size, p)) && (sym != [] || size == 0)
    requires WellFormed(t) && HasAt(b, p + size, [|t.kids| % 256] + EdgeBytes(t.kids))
    ensures var i := EdgeHit(t.kids, sym);
      MoveAt(b, pos, sym) ==
      if i < |t.kids| && t.kids[i].off != 0 then Down(t.kids[i].off, |t.kids[i].edge|) else Lost
  {
    BranchesWritten(b, p + size, t, sym);
    MoveIs(b, pos, sym, size, p);
  }

  lemma MoveIs(b: seq<byte>, pos: nat, sym: Str, size: nat, p: nat)
    requires ReadUleb(b, pos) == Some((size, p)) && (sym != [] || size == 0) && p + size < |b|
    ensures var found := FindEdge(b, p + size + 1, b[p + size], sym);
      MoveAt(b, pos, sym) ==
      if found.Some? && found.value.0 != 0 then Down(found.value.0, found.value.1) else Lost
  {
  }

  /** One node of the walk: stop here, follow the matching edge, or give up. */
  lemma WalkStep(b: seq<byte>, pos: nat, t: Trie, sym: Str, visited: set<nat>)
    requires WellFormed(t) && HasAt(b, pos, NodeBytes(t)) && pos !in visited
    ensures sym == [] && t.term.Some? ==> Agrees(b, Walk(b, pos, sym, visited), t.term)
    ensures sym != [] || t.term.None? ==>
      var i := EdgeHit(t.kids, sym);
      Walk(b, pos, sym, visited) ==
      if i < |t.kids| && t.kids[i].off != 0
      then Walk(b, t.kids[i].off, sym[|t.kids[i].edge|..], visited + {pos}) else None
  {
    ReadTerm(b, pos, t);
    if sym == [] && t.term.Some? {
      MoveStops(b, pos, t);
    } else {
      MoveFollows(b, pos, t, sym);
    }
  }

  lemma LookupStep(t: Trie, sym: Str)
    requires WellFormed(t) && sym != []
    ensures var i := EdgeHit(t.kids, sym);
      Lookup(t, sym) == if i < |t.kids| then Lookup(t.kids[i], sym[|t.kids[i].edge|..]) else None
  {
    EdgeHitIsFindKid(t.kids, sym);
  }

  /** Going down to the child whose edge matches keeps everything the walk relies on. */
  lemma WalkDown(b: seq<byte>, pos: nat, t: Trie, sym: Str, visited: set<nat>, i: nat)
    requires WellFormed(t) && Placed(t, pos) && HasAt(b, pos, Encode(t)) && pos !in visited
    requires sym != [] && i == EdgeHit(t.kids, sym) < |t.kids|
    ensures var kid := t.kids[i];
      && Walk(b, pos, sym, visited) == Walk(b, kid.off, sym[|kid.edge|..], visited + {pos})
      && pos < kid.off && Placed(kid, kid.off) && HasAt(b, kid.off, Encode(kid))
  {
    HasAtSplit(b, pos, NodeBytes(t), EncodeKids(t.kids));
    WalkStep(b, pos, t, sym, visited);
    KidInPlace(b, pos + |NodeBytes(t)|, t.kids, i);
  }

  lemma {:induction false} WalkFollowsLookup(b: seq<byte>, pos: nat, t: Trie, sym: Str, visited: set<nat>)
    requires WellFormed(t) && Placed(t, pos) && HasAt(b, pos, Encode(t))
    requires forall v :: v in visited ==> v < pos
    ensures Agrees(b, Walk(b, pos, sym, visited), Lookup(t, sym))
    decreases t
  {
    var i := EdgeHit(t.kids, sym);
    if sym != [] && i < |t.kids| {
      WalkDown(b, pos, t, sym, visited, i);
      LookupStep(t, sym);
      WalkFollowsLookup(b, t.kids[i].off, t.kids[i], sym[|t.kids[i].edge|..], visited + {pos});
    } else {
      WalkEnds(b, pos, t, sym, visited);
    }
  }

  lemma WalkEnds(b: seq<byte>, pos: nat, t: Trie, sym: Str, visited: set<nat>)
    requires WellFormed(t) && Placed(t, pos) && HasAt(b, pos, Encode(t)) && pos !in visited
    requires sym == [] || EdgeHit(t.kids, sym) == |t.kids|
    ensures Agrees(b, Walk(b, pos, sym, visited), Lookup(t, sym))
  {
    HasAtSplit(b, pos, NodeBytes(t), EncodeKids(t.kids));
    WalkStep(b, pos, t, sym, visited);
    if sym != [] {
      LookupStep(t, sym);
    }
  }

  lemma PayloadRead(b: seq<byte>, p: nat, v: nat)
    requires HasAt(b, p, [0] + UlebBytes(v))
    ensures ReadUleb(b, p) == Some((0, p + 1))
    ensures ReadUleb(b, p + 1) == Some((v, p + 1 + |UlebBytes(v)|))
  {
    HasAtSplit(b, p, [0], UlebBytes(v));
    assert UlebBytes(0) == [0];
    ReadWritten(b, p, 0);
    ReadWritten(b, p + 1, v);
  }

  /** A well-placed trie, read back from its bytes, is the map it stands for. */
  lemma EncodedTrieIsTheMap(t: Trie, sym: Str)
    requires WellFormed(t) && Placed(t, 0)
    ensures FindExport(Encode(t), sym) == Lookup(t, sym)
  {
    var b := Encode(t);
    assert HasAt(b, 0, b);
    WalkFollowsLookup(b, 0, t, sym, {});
    if Lookup(t, sym).Some? {
      PayloadRead(b, Walk(b, 0, sym, {}).value, Lookup(t, sym).value);
    }
  }

  // ----- placement and the whole pipeline -----

  lemma {:induction false} FixedIsPlaced(t: Trie, base: nat)
    requires SizePass(t, base).0 == t
    ensures Placed(t, base)
    decreases t, 1
  {
    EncodeLength(t, base);
    FixedKidsPlaced(t.kids, base + NodeSize(t));
  }

  lemma {:induction false} FixedKidsPlaced(kids: seq<Trie>, base: nat)
    requires SizeKids(kids, base).0 == kids
    ensures PlacedKids(kids, base)
    decreases kids, 0
  {
    if kids != [] {
      var (first, mid) := SizePass(kids[0], base);
      var rest := SizeKids(kids[1..], mid).0;
      assert kids[0] == first && kids[1..] == rest by { assert kids == [first] + rest; }
      FixedIsPlaced(kids[0], base);
      EncodeLength(kids[0], base);
      FixedKidsPlaced(kids[1..], mid);
    }
  }

  lemma FirstKidOffset(kids: seq<Trie>, base: nat)
    requires kids != []
    ensures SizeKids(kids, base).0[0].off == base
  {
  }

  /** If one pass put every node where it will be written, the next total is the same. */
  lemma {:induction false} PlacedKeepsTotal(t: Trie, base: nat)
    requires Placed(SizePass(t, base).0, base)
    ensures SizePass(SizePass(t, base).0, base).1 == SizePass(t, base).1
    decreases t, 1
  {
    var u := SizePass(t, base).0;
    EncodeLength(u, base);
    if t.kids != [] {
      assert u.kids == SizeKids(t.kids, base + NodeSize(t)).0;
      FirstKidOffset(t.kids, base + NodeSize(t));
      assert PlacedKids(u.kids, base + NodeSize(u));
      assert Placed(u.kids[0], base + NodeSize(u));
      PlacedKidsKeepTotal(t.kids, base + NodeSize(t));
    }
  }

  lemma {:induction false} PlacedKidsKeepTotal(kids: seq<Trie>, base: nat)
    requires PlacedKids(SizeKids(kids, base).0, base)
    ensures SizeKids(SizeKids(kids, base).0, base).1 == SizeKids(kids, base).1
    decreases kids, 0
  {
    if kids != [] {
      var us := SizeKids(kids, base).0;
      var (first, mid) := SizePass(kids[0], base);
      assert us[0] == first && us[1..] == SizeKids(kids[1..], mid).0;
      PlacedKeepsTotal(kids[0], base);
      EncodeLength(first, base);
      PlacedKidsKeepTotal(kids[1..], mid);
    }
  }

  /**
   After `k` passes the recorded offsets are the true ones exactly when one more
   pass would not change the total, which is the converter's stopping test.
   */
  lemma PlacedExactlyWhenSettled(t: Trie, k: nat)
    requires Unsized(t) && k >= 1
    ensures Placed(Passes(t, k), 0) <==> Total(t, k + 1) == Total(t, k)
    ensures Total(t, k + 1) == Total(t, k) ==> |Encode(Passes(t, k))| == Total(t, k)
  {
    if Total(t, k + 1) == Total(t, k) {
      EqualTotalsSettle(t, k);
      FixedIsPlaced(Passes(t, k), 0);
      EncodeLength(Passes(t, k), 0);
    }
    if Placed(Passes(t, k), 0) {
      PlacedKeepsTotal(Passes(t, k - 1), 0);
    }
  }

  /** The sorted but not yet sized trie of a symbol list. */
  function SortedTrie(syms: seq<Symbol>): Trie {
    SortTrie(InsertAll(syms))
  }

  /**
   For every symbol list and every query: the bytes written after settled sizing,
   walked from offset 0, give the offset last inserted under that name, or nothing.
   */
  lemma ExportsRoundTrip(syms: seq<Symbol>, k: nat, q: Str)
    requires k >= 1 && Total(SortedTrie(syms), k + 1) == Total(SortedTrie(syms), k)
    ensures FindExport(Encode(Passes(SortedTrie(syms), k)), q) == LastOffset(syms, q)
  {
    SortedTrieMeaning(syms, q);
    PassesKeepMeaning(SortedTrie(syms), k, q);
    PlacedExactlyWhenSettled(SortedTrie(syms), k);
    EncodedTrieIsTheMap(Passes(SortedTrie(syms), k), q);
  }

  lemma SortedTrieMeaning(syms: seq<Symbol>, q: Str)
    ensures Unsized(SortedTrie(syms)) && WellFormed(SortedTrie(syms))
    ensures Lookup(SortedTrie(syms), q) == LastOffset(syms, q)
  {
    InsertAllMeaning(syms, q);
    InsertAllUnsized(syms);
    SortUnsized(InsertAll(syms));
    SortKeepsMeaning(InsertAll(syms), q);
  }
}
