/**
 The futex waiter table: 256 chains indexed by a hash of the address.  A wake or
 requeue looks at one chain only, so every waiter must sit in the chain of its
 current address.
 */
module Futex {
  import opened Common

  const BUCKETS: nat := 256

  datatype Waiter = Waiter(id: nat, addr: u64, bitset: bv32, woken: bool)

  type Chain = seq<Waiter>

  /** `futex_hash_fn`: the 32-bit truncation before the remainder changes nothing. */
  function Hash(addr: u64): (h: nat)
    ensures h < BUCKETS && h == addr / 4 % BUCKETS
  {
    addr / 4 % TWO32 % BUCKETS
  }

  predicate Asleep(w: Waiter, addr: u64) {
    w.addr == addr && !w.woken
  }

  predicate Wakeable(w: Waiter, addr: u64, bits: bv32) {
    Asleep(w, addr) && w.bitset & bits != 0
  }

  function Min(a: int, b: int): int {
    if a < b then a else b
  }

  /** How many of at most `limit` can be served; a negative limit serves none. */
  function Served(limit: int, available: nat): (n: nat) {
    if limit < 0 then 0 else Min(limit, available)
  }

  // ----- the table -----

  type Table = t: seq<Chain> | |t| == BUCKETS witness seq(BUCKETS, _ => [])

  /** Every waiter is in the chain of its current address. */
  ghost predicate Filed(t: Table) {
    forall h, k :: 0 <= h < BUCKETS && 0 <= k < |t[h]| ==> Hash(t[h][k].addr) == h
  }

  /** How often a waiter is linked into a chain. */
  function Links(c: Chain, id: nat): nat {
    if c == [] then 0 else (if c[0].id == id then 1 else 0) + Links(c[1..], id)
  }

  /** How often a waiter is linked into any of the given chains. */
  function AllLinks(t: seq<Chain>, id: nat): nat {
    if t == [] then 0 else Links(t[0], id) + AllLinks(t[1..], id)
  }

  function CountWakeable(c: Chain, addr: u64, bits: bv32): nat {
    if c == [] then 0 else (if Wakeable(c[0], addr, bits) then 1 else 0) + CountWakeable(c[1..], addr, bits)
  }

  function CountAsleep(c: Chain, addr: u64): nat {
    if c == [] then 0 else (if c[0].addr == addr && !c[0].woken then 1 else 0) + CountAsleep(c[1..], addr)
  }

  function AllWakeable(t: seq<Chain>, addr: u64, bits: bv32): nat {
    if t == [] then 0 else CountWakeable(t[0], addr, bits) + AllWakeable(t[1..], addr, bits)
  }

  lemma {:induction false} NoneWakeable(c: Chain, addr: u64, bits: bv32)
    requires forall k :: 0 <= k < |c| ==> c[k].addr != addr
    ensures CountWakeable(c, addr, bits) == 0
    decreases |c|
  {
    if c != [] {
      NoneWakeable(c[1..], addr, bits);
    }
  }

  /** The chain of an address holds every waiter of that address in the whole table. */
  lemma {:induction false} OneChainIsEnough(t: seq<Chain>, first: nat, addr: u64, bits: bv32)
    requires first + |t| == BUCKETS
    requires forall h, k :: 0 <= h < |t| && 0 <= k < |t[h]| ==> Hash(t[h][k].addr) == first + h
    ensures AllWakeable(t, addr, bits) ==
      if first <= Hash(addr) then CountWakeable(t[Hash(addr) - first], addr, bits) else 0
    decreases |t|
  {
    if t != [] {
      forall h, k | 0 <= h < |t[1..]| && 0 <= k < |t[1..][h]| ensures Hash(t[1..][h][k].addr) == first + 1 + h {
        assert t[1..][h] == t[h + 1];
      }
      OneChainIsEnough(t[1..], first + 1, addr, bits);
      if Hash(addr) != first {
        NoneWakeable(t[0], addr, bits);
      }
    }
  }

  lemma {:induction false} LinksConcat(a: Chain, b: Chain, id: nat)
    ensures Links(a + b, id) == Links(a, id) + Links(b, id)
    decreases |a|
  {
    if a == [] {
      assert a + b == b;
    } else {
      assert (a + b)[1..] == a[1..] + b;
      LinksConcat(a[1..], b, id);
    }
  }

  lemma {:induction false} AllLinksUpdate(t: seq<Chain>, h: nat, c: Chain, id: nat)
    requires h < |t|
    ensures AllLinks(t[h := c], id) == AllLinks(t, id) - Links(t[h], id) + Links(c, id)
    decreases h
  {
    if h == 0 {
      assert t[h := c][1..] == t[1..];
    } else {
      assert t[h := c][1..] == t[1..][h - 1 := c];
      AllLinksUpdate(t[1..], h - 1, c, id);
    }
  }

  // ----- waking -----

  /** The chain after waking up to `n` of its waiters, from the front. */
  function WakeChain(c: Chain, addr: u64, bits: bv32, n: int): Chain
    decreases |c|
  {
    if c == [] || n <= 0 then c
    else if Wakeable(c[0], addr, bits) then [c[0].(woken := true)] + WakeChain(c[1..], addr, bits, n - 1)
    else [c[0]] + WakeChain(c[1..], addr, bits, n)
  }

  /** Waking serves min(n, available), and changes nothing but flags of wakeable waiters. */
  lemma {:induction false} WakeChainMeaning(c: Chain, addr: u64, bits: bv32, n: int)
    ensures |WakeChain(c, addr, bits, n)| == |c|
    ensures forall k :: 0 <= k < |c| ==>
      WakeChain(c, addr, bits, n)[k] == c[k] ||
      (Wakeable(c[k], addr, bits) && WakeChain(c, addr, bits, n)[k] == c[k].(woken := true))
    ensures CountWakeable(WakeChain(c, addr, bits, n), addr, bits) + Served(n, CountWakeable(c, addr, bits)) ==
      CountWakeable(c, addr, bits)
    ensures forall id: nat :: Links(WakeChain(c, addr, bits, n), id) == Links(c, id)
    decreases |c|
  {
    if c != [] && n > 0 {
      var m := if Wakeable(c[0], addr, bits) then n - 1 else n;
      WakeChainMeaning(c[1..], addr, bits, m);
      var r := WakeChain(c, addr, bits, n);
      assert r[1..] == WakeChain(c[1..], addr, bits, m);
      forall k | 0 < k < |c| ensures
        r[k] == c[k] || (Wakeable(c[k], addr, bits) && r[k] == c[k].(woken := true))
      {
        assert r[k] == r[1..][k - 1] && c[k] == c[1..][k - 1];
      }
    }
  }

  lemma WakeHead(c: Chain, addr: u64, bits: bv32, n: int, hit: bool)
    requires c != [] && n > 0 && hit == Wakeable(c[0], addr, bits)
    ensures WakeChain(c, addr, bits, n) ==
      [if hit then c[0].(woken := true) else c[0]] + WakeChain(c[1..], addr, bits, if hit then n - 1 else n)
  {
  }

  /** Those in front are woken first. */
  lemma {:induction false} WakesFromFront(c: Chain, addr: u64, bits: bv32, n: int, j: nat, k: nat)
    requires j < k < |c| && |WakeChain(c, addr, bits, n)| == |c| && WakeChain(c, addr, bits, n)[k] != c[k]
    requires Wakeable(c[j], addr, bits)
    ensures WakeChain(c, addr, bits, n)[j] == c[j].(woken := true)
    decreases |c|
  {
    assert n > 0;
    var hit := Wakeable(c[0], addr, bits);
    WakeHead(c, addr, bits, n, hit);
    if j > 0 {
      WakesFromFront(c[1..], addr, bits, if hit then n - 1 else n, j - 1, k - 1);
    }
  }

  // ----- requeueing -----

  /** What a requeue leaves in the chain, woken or untouched, and what it moves. */
  datatype Split = Split(kept: Chain, moved: Chain)

  function RequeueChain(c: Chain, from: u64, to: u64, wakes: int, moves: int): Split
    decreases |c|
  {
    if c == [] then Split([], [])
    else if !Asleep(c[0], from) then
      var s := RequeueChain(c[1..], from, to, wakes, moves);
      s.(kept := [c[0]] + s.kept)
    else if wakes > 0 then
      var s := RequeueChain(c[1..], from, to, wakes - 1, moves);
      s.(kept := [c[0].(woken := true)] + s.kept)
    else if moves > 0 then
      var s := RequeueChain(c[1..], from, to, wakes, moves - 1);
      s.(moved := [c[0].(addr := to)] + s.moved)
    else
      var s := RequeueChain(c[1..], from, to, wakes, moves);
      s.(kept := [c[0]] + s.kept)
  }

  /** One step of the split, as the recursion takes it. */
  lemma RequeueStep(c: Chain, from: u64, to: u64, wakes: int, moves: int)
    requires c != []
    ensures
      var first, rest := c[0], c[1..];
      var s := RequeueChain(c, from, to, wakes, moves);
      if !Asleep(first, from) || (wakes <= 0 && moves <= 0) then
        var s' := RequeueChain(rest, from, to, wakes, moves);
        s.kept == [first] + s'.kept && s.moved == s'.moved
      else if wakes > 0 then
        var s' := RequeueChain(rest, from, to, wakes - 1, moves);
        s.kept == [first.(woken := true)] + s'.kept && s.moved == s'.moved
      else
        var s' := RequeueChain(rest, from, to, wakes, moves - 1);
        s.kept == s'.kept && s.moved == [first.(addr := to)] + s'.moved
  {
  }

  /** A requeue loses nobody and duplicates nobody. */
  lemma {:induction false} RequeueConserves(c: Chain, from: u64, to: u64, wakes: int, moves: int, id: nat)
    ensures var s := RequeueChain(c, from, to, wakes, moves);
      && Links(s.kept, id) + Links(s.moved, id) == Links(c, id)
      && (forall k :: 0 <= k < |s.moved| ==> Asleep(s.moved[k], to))
    decreases |c|
  {
    if c != [] {
      RequeueStep(c, from, to, wakes, moves);
      var hit := Asleep(c[0], from);
      var w := if hit && wakes > 0 then wakes - 1 else wakes;
      var v := if hit && wakes <= 0 && moves > 0 then moves - 1 else moves;
      RequeueConserves(c[1..], from, to, w, v, id);
      var s, s' := RequeueChain(c, from, to, wakes, moves), RequeueChain(c[1..], from, to, w, v);
      if s.kept != s'.kept {
        assert s.kept[1..] == s'.kept;
      } else {
        assert s.moved[1..] == s'.moved;
      }
    }
  }

  lemma AsleepFirst(w: Waiter, rest: Chain, from: u64)
    ensures CountAsleep([w] + rest, from) == (if Asleep(w, from) then 1 else 0) + CountAsleep(rest, from)
  {
    assert ([w] + rest)[1..] == rest;
  }

  /** A split of `n` waiters, `m` of them asleep: as many woken and then moved as asked for, as far as there are any. */
  ghost predicate SplitCounts(s: Split, from: u64, wakes: int, moves: int, m: nat, n: nat) {
    && |s.kept| + |s.moved| == n && Served(wakes, m) <= m
    && |s.moved| == Served(moves, m - Served(wakes, m))
    && CountAsleep(s.kept, from) + Served(wakes, m) + |s.moved| == m
  }

  lemma KeptCounts(s: Split, w: Waiter, from: u64, wakes: int, moves: int, m: nat, n: nat)
    requires SplitCounts(s, from, wakes, moves, m, n) && (Asleep(w, from) ==> wakes <= 0 && moves <= 0)
    ensures SplitCounts(s.(kept := [w] + s.kept), from, wakes, moves, m + (if Asleep(w, from) then 1 else 0), n + 1)
  {
    AsleepFirst(w, s.kept, from);
  }

  lemma WokenCounts(s: Split, w: Waiter, from: u64, wakes: int, moves: int, m: nat, n: nat)
    requires SplitCounts(s, from, wakes - 1, moves, m, n) && wakes > 0
    ensures SplitCounts(s.(kept := [w.(woken := true)] + s.kept), from, wakes, moves, m + 1, n + 1)
  {
    AsleepFirst(w.(woken := true), s.kept, from);
  }

  lemma MovedCounts(s: Split, w: Waiter, from: u64, wakes: int, moves: int, m: nat, n: nat)
    requires SplitCounts(s, from, wakes, moves - 1, m, n) && wakes <= 0 < moves
    ensures SplitCounts(s.(moved := [w] + s.moved), from, wakes, moves, m + 1, n + 1)
  {
  }

  lemma CountsKept(c: Chain, from: u64, to: u64, wakes: int, moves: int)
    requires c != [] && (Asleep(c[0], from) ==> wakes <= 0 && moves <= 0)
    requires SplitCounts(RequeueChain(c[1..], from, to, wakes, moves), from, wakes, moves, CountAsleep(c[1..], from), |c| - 1)
    ensures SplitCounts(RequeueChain(c, from, to, wakes, moves), from, wakes, moves, CountAsleep(c, from), |c|)
  {
    KeptCounts(RequeueChain(c[1..], from, to, wakes, moves), c[0], from, wakes, moves, CountAsleep(c[1..], from), |c| - 1);
  }

  lemma CountsWoken(c: Chain, from: u64, to: u64, wakes: int, moves: int)
    requires c != [] && Asleep(c[0], from) && wakes > 0
    requires SplitCounts(RequeueChain(c[1..], from, to, wakes - 1, moves), from, wakes - 1, moves,
      CountAsleep(c[1..], from), |c| - 1)
    ensures SplitCounts(RequeueChain(c, from, to, wakes, moves), from, wakes, moves, CountAsleep(c, from), |c|)
  {
    WokenCounts(RequeueChain(c[1..], from, to, wakes - 1, moves), c[0], from, wakes, moves, CountAsleep(c[1..], from), |c| - 1);
  }

  lemma CountsMoved(c: Chain, from: u64, to: u64, wakes: int, moves: int)
    requires c != [] && Asleep(c[0], from) && wakes <= 0 < moves
    requires SplitCounts(RequeueChain(c[1..], from, to, wakes, moves - 1), from, wakes, moves - 1,
      CountAsleep(c[1..], from), |c| - 1)
    ensures SplitCounts(RequeueChain(c, from, to, wakes, moves), from, wakes, moves, CountAsleep(c, from), |c|)
  {
    MovedCounts(RequeueChain(c[1..], from, to, wakes, moves - 1), c[0].(addr := to), from, wakes, moves,
      CountAsleep(c[1..], from), |c| - 1);
  }

  /** It wakes and then moves as many as asked for, as far as there are any. */
  lemma {:induction false} RequeueCounts(c: Chain, from: u64, to: u64, wakes: int, moves: int)
    ensures SplitCounts(RequeueChain(c, from, to, wakes, moves), from, wakes, moves, CountAsleep(c, from), |c|)
    decreases |c|
  {
    if c != [] {
      if !Asleep(c[0], from) || (wakes <= 0 && moves <= 0) {
        RequeueCounts(c[1..], from, to, wakes, moves);
        CountsKept(c, from, to, wakes, moves);
      } else if wakes > 0 {
        RequeueCounts(c[1..], from, to, wakes - 1, moves);
        CountsWoken(c, from, to, wakes, moves);
      } else {
        RequeueCounts(c[1..], from, to, wakes, moves - 1);
        CountsMoved(c, from, to, wakes, moves);
      }
    }
  }

  function Reverse(c: Chain): Chain {
    if c == [] then [] else Reverse(c[1..]) + [c[0]]
  }

  lemma {:induction false} ReverseLinks(c: Chain, id: nat)
    ensures Links(Reverse(c), id) == Links(c, id) && |Reverse(c)| == |c|
    decreases |c|
  {
    if c != [] {
      ReverseLinks(c[1..], id);
      LinksConcat(Reverse(c[1..]), [c[0]], id);
    }
  }

  lemma {:induction false} ReverseSnoc(c: Chain, w: Waiter)
    ensures Reverse(c + [w]) == [w] + Reverse(c)
    decreases |c|
  {
    if c != [] {
      assert (c + [w])[1..] == c[1..] + [w];
      ReverseSnoc(c[1..], w);
    } else {
      assert (c + [w])[1..] == [];
    }
  }

  /** The table after a requeue between different addresses. */
  function RequeueTable(t: Table, from: u64, to: u64, wakes: int, moves: int): Table {
    var s := RequeueChain(t[Hash(from)], from, to, wakes, moves);
    var kept := t[Hash(from) := s.kept];
    kept[Hash(to) := Reverse(s.moved) + kept[Hash(to)]]
  }

  // ----- the requeue walk -----

  /** The walk's state: the table, the link it looks at, and its two counters. */
  datatype Walk = Walk(t: Table, i: nat, woken: nat, requeued: nat)

  /**
   One iteration.  Unlinking and pushing on the same chain moves the nodes before the
   link one place on; at the head of the chain the link then shows the pushed node.
   */
  function Step(s: Walk, from: u64, to: u64, wakes: int, moves: int): Walk
    requires s.i < |s.t[Hash(from)]|
  {
    var h, c := Hash(from), s.t[Hash(from)];
    var w := c[s.i];
    if !Asleep(w, from) then s.(i := s.i + 1)
    else if s.woken < wakes then
      s.(t := s.t[h := c[s.i := w.(woken := true)]], woken := s.woken + 1, i := s.i + 1)
    else if s.requeued < moves then
      s.(t := Moved(s.t, h, s.i, Hash(to), w.(addr := to)),
         requeued := s.requeued + 1,
         i := if Hash(to) == h && s.i > 0 then s.i + 1 else s.i)
    else s.(i := s.i + 1)
  }

  lemma LinksAt(c: Chain, i: nat, w: Waiter, id: nat)
    requires i < |c|
    ensures w.id == c[i].id ==> Links(c[i := w], id) == Links(c, id)
    ensures Links(c[..i] + c[i + 1..], id) + (if c[i].id == id then 1 else 0) == Links(c, id)
  {
    assert c == c[..i] + ([c[i]] + c[i + 1..]);
    assert c[i := w] == c[..i] + ([w] + c[i + 1..]);
    LinksConcat(c[..i], [c[i]] + c[i + 1..], id);
    LinksConcat(c[..i], [w] + c[i + 1..], id);
    LinksConcat(c[..i], c[i + 1..], id);
    assert ([c[i]] + c[i + 1..])[1..] == c[i + 1..] && ([w] + c[i + 1..])[1..] == c[i + 1..];
  }

  lemma LinksPush(w: Waiter, c: Chain, id: nat)
    ensures Links([w] + c, id) == (if w.id == id then 1 else 0) + Links(c, id)
  {
    assert ([w] + c)[1..] == c;
  }

  /** Unlinking a waiter from one chain and pushing it on another. */
  function Moved(t: Table, h: nat, i: nat, g: nat, w: Waiter): Table
    requires h < BUCKETS && g < BUCKETS && i < |t[h]|
  {
    var cut := t[h := t[h][..i] + t[h][i + 1..]];
    cut[g := [w] + cut[g]]
  }

  lemma MovedLinks(t: Table, h: nat, i: nat, g: nat, w: Waiter, id: nat)
    requires h < BUCKETS && g < BUCKETS && i < |t[h]| && w.id == t[h][i].id
    ensures AllLinks(Moved(t, h, i, g, w), id) == AllLinks(t, id)
  {
    var c := t[h][..i] + t[h][i + 1..];
    var cut := t[h := c];
    AllLinksUpdate(t, h, c, id);
    AllLinksUpdate(cut, g, [w] + cut[g], id);
    LinksAt(t[h], i, w, id);
    LinksPush(w, cut[g], id);
  }

  lemma MovedFiled(t: Table, h: nat, i: nat, g: nat, w: Waiter)
    requires h < BUCKETS && g < BUCKETS && i < |t[h]| && Filed(t) && Hash(w.addr) == g
    ensures Filed(Moved(t, h, i, g, w))
  {
    var c := t[h][..i] + t[h][i + 1..];
    assert forall k :: 0 <= k < |c| ==> c[k] == t[h][if k < i then k else k + 1];
    assert Filed(t[h := c]);
  }

  /** Whatever the two addresses, a step keeps waiters filed and linked as often as before. */
  lemma StepKeeps(s: Walk, from: u64, to: u64, wakes: int, moves: int, id: nat)
    requires s.i < |s.t[Hash(from)]| && Filed(s.t)
    ensures Filed(Step(s, from, to, wakes, moves).t)
    ensures AllLinks(Step(s, from, to, wakes, moves).t, id) == AllLinks(s.t, id)
  {
    var h, c := Hash(from), s.t[Hash(from)];
    var w := c[s.i];
    if Asleep(w, from) {
      if s.woken < wakes {
        LinksAt(c, s.i, w.(woken := true), id);
        AllLinksUpdate(s.t, h, c[s.i := w.(woken := true)], id);
      } else if s.requeued < moves {
        MovedLinks(s.t, h, s.i, Hash(to), w.(addr := to), id);
        MovedFiled(s.t, h, s.i, Hash(to), w.(addr := to));
      }
    }
  }

  // ----- the walk between different addresses -----

  /** What has been decided so far: kept in order, moved in order, still to look at. */
  datatype Trace = Trace(kept: Chain, moved: Chain, rest: Chain)

  /** The table that a trace stands for. */
  function TraceTable(was: Table, h: nat, g: nat, r: Trace): Table
    requires h < BUCKETS && g < BUCKETS
  {
    var t := was[h := r.kept + r.rest];
    t[g := Reverse(r.moved) + t[g]]
  }

  /** Position of the link in the chain, unless it still shows a node pushed at the head. */
  function TracePos(h: nat, g: nat, r: Trace): nat {
    |r.kept| + (if g == h then |r.moved| else 0)
  }

  ghost predicate Follows(s: Walk, was: Table, from: u64, to: u64, wakes: int, moves: int, r: Trace) {
    && s.t == TraceTable(was, Hash(from), Hash(to), r)
    && |r.moved| == s.requeued
    && (|| s.i == TracePos(Hash(from), Hash(to), r)
        || (s.i == 0 && Hash(to) == Hash(from) && r.kept == [] && |r.moved| == 1 && r.moved[0].addr == to))
    && var whole := RequeueChain(was[Hash(from)], from, to, wakes, moves);
       var later := RequeueChain(r.rest, from, to, wakes - s.woken, moves - s.requeued);
       whole == Split(r.kept + later.kept, r.moved + later.moved)
  }

  /** The chain that the walk is on, read off a trace. */
  lemma TraceChain(was: Table, h: nat, g: nat, r: Trace)
    requires h < BUCKETS && g < BUCKETS
    ensures TraceTable(was, h, g, r)[h] ==
      (if g == h then Reverse(r.moved) else []) + (r.kept + r.rest)
    ensures |Reverse(r.moved)| == |r.moved|
  {
    ReverseLinks(r.moved, 0);
    assert [] + (r.kept + r.rest) == r.kept + r.rest;
  }

  /** Deciding to keep the next waiter, possibly changed to `w`. */
  lemma KeepNext(was: Table, h: nat, g: nat, r: Trace, w: Waiter)
    requires h < BUCKETS && g < BUCKETS && r.rest != []
    ensures var r' := Trace(r.kept + [w], r.moved, r.rest[1..]);
      var t, p := TraceTable(was, h, g, r), TracePos(h, g, r);
      && p < |t[h]| && t[h][p] == r.rest[0]
      && t[h := t[h][p := w]] == TraceTable(was, h, g, r')
      && TracePos(h, g, r') == p + 1
  {
    TraceChain(was, h, g, r);
    var r' := Trace(r.kept + [w], r.moved, r.rest[1..]);
    TraceChain(was, h, g, r');
    var t, p := TraceTable(was, h, g, r), TracePos(h, g, r);
    var pushed := if g == h then Reverse(r.moved) else [];
    assert (pushed + (r.kept + r.rest))[p := w] == pushed + (r.kept + [w] + r.rest[1..]);
  }

  /** Deciding to move it. */
  lemma MoveNext(was: Table, h: nat, g: nat, r: Trace, w: Waiter)
    requires h < BUCKETS && g < BUCKETS && r.rest != []
    ensures var r' := Trace(r.kept, r.moved + [w], r.rest[1..]);
      var t, p := TraceTable(was, h, g, r), TracePos(h, g, r);
      && p < |t[h]| && t[h][p] == r.rest[0]
      && Moved(t, h, p, g, w) == TraceTable(was, h, g, r')
      && TracePos(h, g, r') == (if g == h then p + 1 else p)
  {
    TraceChain(was, h, g, r);
    ReverseSnoc(r.moved, w);
    var t, p := TraceTable(was, h, g, r), TracePos(h, g, r);
    var pushed := if g == h then Reverse(r.moved) else [];
    var c := pushed + (r.kept + r.rest);
    assert c[..p] + c[p + 1..] == pushed + (r.kept + r.rest[1..]);
    if g == h {
      assert [w] + (Reverse(r.moved) + (r.kept + r.rest[1..])) == Reverse(r.moved + [w]) + (r.kept + r.rest[1..]);
    } else {
      assert t[g] == Reverse(r.moved) + was[g];
      assert [w] + (Reverse(r.moved) + was[g]) == Reverse(r.moved + [w]) + was[g];
      assert pushed + (r.kept + r.rest[1..]) == r.kept + r.rest[1..];
    }
  }

  /** The trace after one step. */
  function NextTrace(s: Walk, from: u64, to: u64, wakes: int, moves: int, r: Trace): Trace
    requires r.rest != []
  {
    var w := r.rest[0];
    if !Asleep(w, from) then Trace(r.kept + [w], r.moved, r.rest[1..])
    else if s.woken < wakes then Trace(r.kept + [w.(woken := true)], r.moved, r.rest[1..])
    else if s.requeued < moves then Trace(r.kept, r.moved + [w.(addr := to)], r.rest[1..])
    else Trace(r.kept + [w], r.moved, r.rest[1..])
  }

  /** The decisions of the walk are those of the split. */
  lemma StepDecides(s: Walk, from: u64, to: u64, wakes: int, moves: int, r: Trace)
    requires r.rest != [] && s.i < |s.t[Hash(from)]| && s.t[Hash(from)][s.i] == r.rest[0]
    ensures
      var s', r' := Step(s, from, to, wakes, moves), NextTrace(s, from, to, wakes, moves, r);
      var later := RequeueChain(r.rest, from, to, wakes - s.woken, moves - s.requeued);
      var later' := RequeueChain(r'.rest, from, to, wakes - s'.woken, moves - s'.requeued);
      r'.kept + later'.kept == r.kept + later.kept && r'.moved + later'.moved == r.moved + later.moved
  {
    RequeueStep(r.rest, from, to, wakes - s.woken, moves - s.requeued);
  }

  /** The table and the link follow the decisions. */
  lemma StepPlaces(s: Walk, was: Table, from: u64, to: u64, wakes: int, moves: int, r: Trace)
    requires r.rest != [] && s.t == TraceTable(was, Hash(from), Hash(to), r) && s.i == TracePos(Hash(from), Hash(to), r)
    ensures s.i < |s.t[Hash(from)]| && s.t[Hash(from)][s.i] == r.rest[0]
    ensures
      var s', r' := Step(s, from, to, wakes, moves), NextTrace(s, from, to, wakes, moves, r);
      && s'.t == TraceTable(was, Hash(from), Hash(to), r')
      && (|| s'.i == TracePos(Hash(from), Hash(to), r')
          || (s'.i == 0 && s.i == 0 && Hash(to) == Hash(from)
              && r' == Trace([], [r.rest[0].(addr := to)], r.rest[1..])))
  {
    var h, g, w := Hash(from), Hash(to), r.rest[0];
    KeepNext(was, h, g, r, w);
    if Asleep(w, from) && s.woken < wakes {
      KeepNext(was, h, g, r, w.(woken := true));
    } else if Asleep(w, from) && s.requeued < moves {
      MoveNext(was, h, g, r, w.(addr := to));
    } else {
      var c := s.t[h];
      assert c[s.i := w] == c && s.t[h := c] == s.t;
    }
  }

  lemma StepTraces(s: Walk, was: Table, from: u64, to: u64, wakes: int, moves: int, r: Trace)
    requires from != to && s.i < |s.t[Hash(from)]| && Follows(s, was, from, to, wakes, moves, r)
    requires s.i == TracePos(Hash(from), Hash(to), r)
    ensures r.rest != []
    ensures Follows(Step(s, from, to, wakes, moves), was, from, to, wakes, moves, NextTrace(s, from, to, wakes, moves, r))
  {
    TraceChain(was, Hash(from), Hash(to), r);
    StepPlaces(s, was, from, to, wakes, moves, r);
    StepDecides(s, from, to, wakes, moves, r);
  }

  lemma StepFollows(s: Walk, was: Table, from: u64, to: u64, wakes: int, moves: int, r: Trace)
    requires from != to && s.i < |s.t[Hash(from)]| && Follows(s, was, from, to, wakes, moves, r)
    ensures
      var s' := Step(s, from, to, wakes, moves);
      if s.i == TracePos(Hash(from), Hash(to), r)
      then r.rest != [] && Follows(s', was, from, to, wakes, moves, NextTrace(s, from, to, wakes, moves, r))
      else Follows(s', was, from, to, wakes, moves, r)
  {
    if s.i == TracePos(Hash(from), Hash(to), r) {
      StepTraces(s, was, from, to, wakes, moves, r);
    } else {
      TraceChain(was, Hash(from), Hash(to), r);
      assert Reverse(r.moved) == r.moved;
      assert s.t[Hash(from)][0] == r.moved[0];
    }
  }

  /** When the walk is over, the table is the specified one and the counts are too. */
  lemma FollowedToTheEnd(s: Walk, was: Table, from: u64, to: u64, wakes: int, moves: int, r: Trace)
    requires from != to && s.i >= |s.t[Hash(from)]| && Follows(s, was, from, to, wakes, moves, r)
    ensures s.t == RequeueTable(was, from, to, wakes, moves)
  {
    TraceChain(was, Hash(from), Hash(to), r);
    assert r.rest == [];
    assert r.kept + [] == r.kept && r.moved + [] == r.moved;
  }

  // ----- how many are woken -----

  /** Until enough are woken nothing moves, and woken plus still asleep ahead is constant. */
  ghost predicate Counting(s: Walk, from: u64, wakes: int, m: nat) {
    && (s.woken < wakes ==>
          s.requeued == 0 && s.i <= |s.t[Hash(from)]| && s.woken + CountAsleep(s.t[Hash(from)][s.i..], from) == m)
    && (s.woken >= wakes ==> s.woken == Served(wakes, m))
  }

  lemma StepCounts(s: Walk, from: u64, to: u64, wakes: int, moves: int, m: nat)
    requires s.i < |s.t[Hash(from)]| && Counting(s, from, wakes, m)
    ensures Counting(Step(s, from, to, wakes, moves), from, wakes, m)
  {
    var h, c := Hash(from), s.t[Hash(from)];
    if s.woken < wakes {
      assert c[s.i..][1..] == c[s.i + 1..];
      var s' := Step(s, from, to, wakes, moves);
      assert s'.t[h][s'.i..] == c[s.i + 1..];
    }
  }

  // ----- leaving the table -----

  /** The chain without the first node of a waiter. */
  function Unlinked(c: Chain, id: nat): Chain {
    if c == [] then [] else if c[0].id == id then c[1..] else [c[0]] + Unlinked(c[1..], id)
  }

  lemma {:induction false} UnlinkedLinks(c: Chain, id: nat)
    ensures Links(Unlinked(c, id), id) == if Links(c, id) > 0 then Links(c, id) - 1 else 0
    decreases |c|
  {
    if c != [] && c[0].id != id {
      UnlinkedLinks(c[1..], id);
      assert Unlinked(c, id)[1..] == Unlinked(c[1..], id);
    }
  }

  lemma {:induction false} LinkedSomewhere(t: seq<Chain>, h: nat, k: nat)
    requires h < |t| && k < |t[h]|
    ensures AllLinks(t, t[h][k].id) >= Links(t[h], t[h][k].id) >= 1
    decreases h
  {
    if h == 0 {
      LinksAt(t[0], k, t[0][k], t[0][k].id);
    } else {
      LinkedSomewhere(t[1..], h - 1, k);
    }
  }

  lemma {:induction false} LinkedTwice(t: seq<Chain>, h: nat, g: nat, id: nat)
    requires h < g < |t|
    ensures AllLinks(t, id) >= Links(t[h], id) + Links(t[g], id)
    decreases h
  {
    if h == 0 {
      OneOf(t[1..], g - 1, id);
    } else {
      LinkedTwice(t[1..], h - 1, g - 1, id);
    }
  }

  lemma {:induction false} OneOf(t: seq<Chain>, h: nat, id: nat)
    requires h < |t|
    ensures AllLinks(t, id) >= Links(t[h], id)
    decreases h
  {
    if h > 0 {
      OneOf(t[1..], h - 1, id);
    }
  }

  /**
   A returning waiter unlinks itself from the chain `h` it was enqueued on.  That takes it
   off the table exactly when `h` is still the chain of its address, that is, unless it was
   requeued to an address in another chain.
   */
  lemma UnlinkExact(t: Table, g: nat, k: nat, h: nat)
    requires Filed(t) && g < BUCKETS && k < |t[g]| && h < BUCKETS && AllLinks(t, t[g][k].id) == 1
    ensures AllLinks(t[h := Unlinked(t[h], t[g][k].id)], t[g][k].id) == 0 <==> h == Hash(t[g][k].addr)
  {
    var id := t[g][k].id;
    LinkedSomewhere(t, g, k);
    AllLinksUpdate(t, h, Unlinked(t[h], id), id);
    UnlinkedLinks(t[h], id);
    if h < g {
      LinkedTwice(t, h, g, id);
    } else if g < h {
      LinkedTwice(t, g, h, id);
    }
  }

  // ----- the table object -----

  class FutexTable {
    var chains: Table

    constructor ()
      ensures Filed(chains) && forall h :: 0 <= h < BUCKETS ==> chains[h] == []
    {
      chains := seq(BUCKETS, _ => []);
    }

    /** The first half of `futex_wait`: the new waiter goes to the head of its chain. */
    method Enqueue(id: nat, addr: u64, bitset: bv32)
      requires Filed(chains)
      modifies this
      ensures Filed(chains)
      ensures chains == old(chains)[Hash(addr) := [Waiter(id, addr, bitset, false)] + old(chains)[Hash(addr)]]
      ensures forall x: nat :: AllLinks(chains, x) == AllLinks(old(chains), x) + (if x == id then 1 else 0)
    {
      var h, w := Hash(addr), Waiter(id, addr, bitset, false);
      forall x: nat ensures
        AllLinks(chains[h := [w] + chains[h]], x) == AllLinks(chains, x) + (if x == id then 1 else 0)
      {
        AllLinksUpdate(chains, h, [w] + chains[h], x);
        LinksPush(w, chains[h], x);
      }
      chains := chains[h := [w] + chains[h]];
    }

    /** The second half of `futex_wait`: unlink from the chain chosen when it was enqueued. */
    method Unlink(h: nat, id: nat)
      requires h < BUCKETS && Filed(chains)
      modifies this
      ensures Filed(chains) && chains == old(chains)[h := Unlinked(old(chains)[h], id)]
    {
      UnlinkedFiled(chains, h, id);
      var c := UnlinkChain(chains[h], id);
      chains := chains[h := c];
    }

    /** `futex_wake`: wakes min(count, all waiters that match anywhere in the table). */
    method Wake(addr: u64, count: int, bits: bv32) returns (woken: nat)
      requires Filed(chains)
      modifies this
      ensures woken == Served(count, AllWakeable(old(chains), addr, bits))
      ensures chains == old(chains)[Hash(addr) := WakeChain(old(chains)[Hash(addr)], addr, bits, count)]
      ensures Filed(chains)
    {
      OneChainIsEnough(chains, 0, addr, bits);
      WakeChainMeaning(chains[Hash(addr)], addr, bits, count);
      var c;
      c, woken := WakeWalk(chains[Hash(addr)], addr, count, bits);
      chains := chains[Hash(addr) := c];
    }

    /** One iteration of the requeue walk. */
    method RequeueOne(from: u64, to: u64, wakes: int, moves: int, i: nat, woken: nat, requeued: nat)
      returns (i': nat, woken': nat, requeued': nat)
      requires i < |chains[Hash(from)]|
      modifies this
      ensures Walk(chains, i', woken', requeued') ==
        Step(Walk(old(chains), i, woken, requeued), from, to, wakes, moves)
    {
      var h, g := Hash(from), Hash(to);
      var w := chains[h][i];
      i', woken', requeued' := i + 1, woken, requeued;
      if w.addr == from && !w.woken {
        if woken < wakes {
          chains := chains[h := chains[h][i := w.(woken := true)]];
          woken' := woken + 1;
        } else if requeued < moves {
          chains := chains[h := chains[h][..i] + chains[h][i + 1..]];
          chains := chains[g := [w.(addr := to)] + chains[g]];
          requeued' := requeued + 1;
          i' := if g == h && i > 0 then i + 1 else i;
        }
      }
    }

    /**
     `futex_requeue`: for any two addresses it ends, wakes min(wakes, sleepers) and neither
     loses nor duplicates a waiter; between different addresses it is the specified split.
     */
    method Requeue(from: u64, to: u64, wakes: int, moves: int) returns (woken: nat)
      requires Filed(chains)
      modifies this
      ensures Filed(chains)
      ensures woken == Served(wakes, CountAsleep(old(chains)[Hash(from)], from))
      ensures SameLinks(chains, old(chains))
      ensures from != to ==> chains == RequeueTable(old(chains), from, to, wakes, moves)
    {
      ghost var was := chains;
      woken := 0;
      var requeued, i: nat := 0, 0;
      ghost var m := CountAsleep(was[Hash(from)], from);
      ghost var r := Trace([], [], was[Hash(from)]);
      StartFollows(was, from, to, wakes, moves);
      while i < |chains[Hash(from)]|
        invariant Filed(chains) && SameLinks(chains, was)
        invariant Counting(Walk(chains, i, woken, requeued), from, wakes, m)
        invariant from != to ==> Follows(Walk(chains, i, woken, requeued), was, from, to, wakes, moves, r)
        decreases if moves > requeued then moves - requeued else 0, |chains[Hash(from)]| - i
      {
        ghost var s := Walk(chains, i, woken, requeued);
        StepSafe(s, was, from, to, wakes, moves);
        StepCounts(s, from, to, wakes, moves, m);
        if from != to {
          StepFollows(s, was, from, to, wakes, moves, r);
          r := if i == TracePos(Hash(from), Hash(to), r) then NextTrace(s, from, to, wakes, moves, r) else r;
        }
        i, woken, requeued := RequeueOne(from, to, wakes, moves, i, woken, requeued);
      }
      if from != to {
        FollowedToTheEnd(Walk(chains, i, woken, requeued), was, from, to, wakes, moves, r);
      }
    }
  }

  ghost predicate SameLinks(t: Table, u: Table) {
    forall id: nat :: AllLinks(t, id) == AllLinks(u, id)
  }

  /** A step is safe for both addresses, and shortens the walk. */
  lemma StepSafe(s: Walk, was: Table, from: u64, to: u64, wakes: int, moves: int)
    requires s.i < |s.t[Hash(from)]| && Filed(s.t) && SameLinks(s.t, was)
    ensures var s' := Step(s, from, to, wakes, moves);
      && Filed(s'.t) && SameLinks(s'.t, was)
      && (|| s.requeued < s'.requeued <= moves
          || (s'.requeued == s.requeued && |s'.t[Hash(from)]| == |s.t[Hash(from)]| && s'.i == s.i + 1))
  {
    var s' := Step(s, from, to, wakes, moves);
    forall id: nat ensures AllLinks(s'.t, id) == AllLinks(was, id) {
      StepKeeps(s, from, to, wakes, moves, id);
    }
    StepKeeps(s, from, to, wakes, moves, 0);
  }

  lemma {:induction false} UnlinkedMembers(c: Chain, id: nat)
    ensures forall k :: 0 <= k < |Unlinked(c, id)| ==> Unlinked(c, id)[k] in c
    decreases |c|
  {
    if c != [] && c[0].id != id {
      UnlinkedMembers(c[1..], id);
    }
  }

  lemma UnlinkedFiled(t: Table, h: nat, id: nat)
    requires h < BUCKETS && Filed(t)
    ensures Filed(t[h := Unlinked(t[h], id)])
  {
    UnlinkedMembers(t[h], id);
    var c := Unlinked(t[h], id);
    forall k | 0 <= k < |c| ensures Hash(c[k].addr) == h {
      assert c[k] in t[h];
    }
  }

  /** Walks a chain to the first node of a waiter and takes it out. */
  method UnlinkChain(c: Chain, id: nat) returns (r: Chain)
    ensures r == Unlinked(c, id)
  {
    ghost var done, rest := [], c;
    var i := 0;
    assert [] + Unlinked(c, id) == Unlinked(c, id);
    while i < |c| && c[i].id != id
      invariant 0 <= i == |done| && c == done + rest && Unlinked(c, id) == done + Unlinked(rest, id)
    {
      assert done + ([rest[0]] + Unlinked(rest[1..], id)) == done + [rest[0]] + Unlinked(rest[1..], id);
      done, rest := done + [rest[0]], rest[1..];
      i := i + 1;
    }
    r := if i < |c| then c[..i] + c[i + 1..] else c;
    assert c[..i] == done && (i < |c| ==> c[i + 1..] == rest[1..]);
  }

  ghost predicate WakingSoFar(chain: Chain, addr: u64, bits: bv32, count: int, done: Chain, rest: Chain, woken: nat) {
    && WakeChain(chain, addr, bits, count) == done + WakeChain(rest, addr, bits, count - woken)
    && woken + Served(count - woken, CountWakeable(rest, addr, bits)) == Served(count, CountWakeable(chain, addr, bits))
  }

  lemma WakingStep(chain: Chain, addr: u64, bits: bv32, count: int, done: Chain, rest: Chain, woken: nat)
    requires rest != [] && woken < count && WakingSoFar(chain, addr, bits, count, done, rest, woken)
    ensures if Wakeable(rest[0], addr, bits)
      then WakingSoFar(chain, addr, bits, count, done + [rest[0].(woken := true)], rest[1..], woken + 1)
      else WakingSoFar(chain, addr, bits, count, done + [rest[0]], rest[1..], woken)
  {
    var hit := Wakeable(rest[0], addr, bits);
    var w := if hit then rest[0].(woken := true) else rest[0];
    var tail := WakeChain(rest[1..], addr, bits, count - woken - (if hit then 1 else 0));
    assert WakeChain(rest, addr, bits, count - woken) == [w] + tail;
    assert done + ([w] + tail) == done + [w] + tail;
  }

  lemma WakingDone(chain: Chain, addr: u64, bits: bv32, count: int, done: Chain, rest: Chain, woken: nat)
    requires WakingSoFar(chain, addr, bits, count, done, rest, woken) && woken <= count && (rest == [] || woken == count)
    ensures done + rest == WakeChain(chain, addr, bits, count)
    ensures woken == Served(count, CountWakeable(chain, addr, bits))
  {
  }

  lemma ReplaceNext(done: Chain, rest: Chain, w: Waiter)
    requires rest != []
    ensures (done + rest)[|done|] == rest[0] && (done + rest)[|done| := w] == done + [w] + rest[1..]
    ensures done + rest == done + [rest[0]] + rest[1..]
  {
  }

  method WakeTest(w: Waiter, addr: u64, bits: bv32) returns (hit: bool)
    ensures hit == Wakeable(w, addr, bits)
  {
    hit := w.addr == addr && !w.woken && w.bitset & bits != 0;
  }

  /** The loop of `futex_wake` over one chain. */
  method WakeWalk(chain: Chain, addr: u64, count: int, bits: bv32) returns (c: Chain, woken: nat)
    ensures c == WakeChain(chain, addr, bits, count)
    ensures woken == Served(count, CountWakeable(chain, addr, bits))
  {
    c, woken := chain, 0;
    if count <= 0 {
      return;
    }
    var i := 0;
    ghost var done, rest := [], chain;
    assert [] + WakeChain(chain, addr, bits, count) == WakeChain(chain, addr, bits, count);
    while i < |c| && woken < count
      invariant c == done + rest && 0 <= i == |done| && woken <= count
      invariant WakingSoFar(chain, addr, bits, count, done, rest, woken)
      decreases |rest|
    {
      WakingStep(chain, addr, bits, count, done, rest, woken);
      var w := c[i];
      ReplaceNext(done, rest, w.(woken := true));
      var hit := WakeTest(w, addr, bits);
      if hit {
        w := w.(woken := true);
        c := c[i := w];
        woken := woken + 1;
      }
      done, rest := done + [w], rest[1..];
      i := i + 1;
    }
    WakingDone(chain, addr, bits, count, done, rest, woken);
  }

  lemma StartFollows(was: Table, from: u64, to: u64, wakes: int, moves: int)
    ensures Follows(Walk(was, 0, 0, 0), was, from, to, wakes, moves, Trace([], [], was[Hash(from)]))
    ensures Counting(Walk(was, 0, 0, 0), from, wakes, CountAsleep(was[Hash(from)], from))
  {
    var h, g := Hash(from), Hash(to);
    assert was[h][0..] == was[h] && [] + was[h] == was[h] && was[h := was[h]] == was;
    assert [] + was[g] == was[g] && was[g := was[g]] == was;
    var whole := RequeueChain(was[h], from, to, wakes, moves);
    assert [] + whole.kept == whole.kept && [] + whole.moved == whole.moved;
  }

  // ----- who is woken and who moves -----

  lemma RankNext(c: Chain, from: u64, k: nat)
    requires 0 < k <= |c|
    ensures CountAsleep(c[..k], from) ==
      (if c[0].addr == from && !c[0].woken then 1 else 0) + CountAsleep(c[1..][..k - 1], from)
  {
    assert c[..k][1..] == c[1..][..k - 1];
  }

  /** A sleeper with fewer than `wakes` before it is woken where it stands. */
  lemma {:induction false} RequeueWakes(c: Chain, from: u64, to: u64, wakes: int, moves: int, k: nat)
    requires k < |c| && c[k].addr == from && !c[k].woken && CountAsleep(c[..k], from) < wakes
    ensures k < |RequeueChain(c, from, to, wakes, moves).kept|
    ensures RequeueChain(c, from, to, wakes, moves).kept[k] == c[k].(woken := true)
    decreases |c|
  {
    if k > 0 {
      RankNext(c, from, k);
      RequeueWakes(c[1..], from, to, if Asleep(c[0], from) then wakes - 1 else wakes, moves, k - 1);
    }
  }

  /** The next `moves` of them move, in order, to the other address. */
  lemma {:induction false} RequeueMovesThem(c: Chain, from: u64, to: u64, wakes: nat, moves: int, k: nat)
    requires k < |c| && c[k].addr == from && !c[k].woken && wakes <= CountAsleep(c[..k], from) < wakes + moves
    ensures
      var j, moved := CountAsleep(c[..k], from) - wakes, RequeueChain(c, from, to, wakes, moves).moved;
      j < |moved| && moved[j] == c[k].(addr := to)
    decreases |c|
  {
    if k > 0 {
      RankNext(c, from, k);
      if !Asleep(c[0], from) {
        RequeueMovesThem(c[1..], from, to, wakes, moves, k - 1);
      } else if wakes > 0 {
        RequeueMovesThem(c[1..], from, to, wakes - 1, moves, k - 1);
      } else if CountAsleep(c[1..][..k - 1], from) < moves - 1 {
        RequeueMovesThem(c[1..], from, to, 0, moves - 1, k - 1);
      }
    }
  }

  // ----- a waiter that unlinking misses -----

  lemma {:induction false} EmptyLinks(t: seq<Chain>, id: nat)
    requires forall h :: 0 <= h < |t| ==> t[h] == []
    ensures AllLinks(t, id) == 0
    decreases |t|
  {
    if t != [] {
      EmptyLinks(t[1..], id);
    }
  }

  lemma LoneWaiterMoves(w: Waiter, to: u64)
    requires !w.woken
    ensures RequeueChain([w], w.addr, to, 0, 1) == Split([], [w.(addr := to)])
  {
    assert [w][1..] == [];
    assert RequeueChain([], w.addr, to, 0, 0) == Split([], []);
  }

  /** A waiter requeued to another chain is still linked after it has unlinked itself from its old one. */
  method RequeuedWaiterStays(id: nat, from: u64, to: u64, bitset: bv32) returns (t: FutexTable)
    requires Hash(from) != Hash(to)
    ensures Filed(t.chains) && AllLinks(t.chains, id) == 1
  {
    t := new FutexTable();
    EmptyLinks(t.chains, id);
    t.Enqueue(id, from, bitset);
    ghost var w := Waiter(id, from, bitset, false);
    assert t.chains[Hash(from)] == [w];
    var woken := t.Requeue(from, to, 0, 1);
    LoneWaiterMoves(w, to);
    assert t.chains[Hash(from)] == [];
    ghost var before := t.chains;
    t.Unlink(Hash(from), id);
    assert t.chains == before;
  }
}
