/**
 The guest address space in interpreter mode as a list of regions, and what it
 means: a map from address to byte and protection.  Cutting a range out of the
 list and changing the protection of a range are given here on values, with the
 proof that each does to the map exactly what it says, through every way a
 region can overlap the range.
 */
module AddressSpace {
  import opened Common

  const PAGE: nat := 4096

  type Prot = bv32

  /** A host allocation: which one, and what it holds. */
  datatype Host = Host(id: nat, bytes: seq<byte>)

  datatype Region = Region(base: nat, size: nat, prot: Prot, host: Host) {
    function End(): nat { base + size }
  }

  datatype Cell = Cell(data: byte, prot: Prot)

  predicate ValidRegion(r: Region) {
    r.base % PAGE == 0 && r.size % PAGE == 0 && r.size <= |r.host.bytes|
  }

  /** Page-aligned, sorted and disjoint; a region of size zero may sit at a boundary. */
  ghost predicate ValidList(rs: seq<Region>) {
    && (forall i :: 0 <= i < |rs| ==> ValidRegion(rs[i]))
    && (forall i, j :: 0 <= i < j < |rs| ==> rs[i].End() <= rs[j].base)
  }

  /** The meaning of the list at address `a`. */
  function View(rs: seq<Region>, a: nat): Option<Cell> {
    if rs == [] then None
    else if rs[0].base <= a < rs[0].End() && a - rs[0].base < |rs[0].host.bytes|
    then Some(Cell(rs[0].host.bytes[a - rs[0].base], rs[0].prot))
    else View(rs[1..], a)
  }

  lemma ViewOne(r: Region, a: nat)
    requires ValidRegion(r) || r.size <= |r.host.bytes|
    ensures View([r], a) ==
      if r.base <= a < r.End() then Some(Cell(r.host.bytes[a - r.base], r.prot)) else None
  {
    assert View([], a) == None;
    assert [r][1..] == [];
  }

  lemma AlignedDifference(a: nat, b: nat)
    requires a <= b && a % PAGE == 0 && b % PAGE == 0
    ensures (b - a) % PAGE == 0
  {
  }

  lemma {:induction false} ViewConcat(xs: seq<Region>, ys: seq<Region>, a: nat)
    ensures View(xs + ys, a) == if View(xs, a).Some? then View(xs, a) else View(ys, a)
    decreases |xs|
  {
    if xs == [] {
      assert xs + ys == ys;
    } else {
      assert (xs + ys)[1..] == xs[1..] + ys;
      ViewConcat(xs[1..], ys, a);
    }
  }

  lemma {:induction false} ViewOutside(rs: seq<Region>, a: nat)
    requires forall i :: 0 <= i < |rs| ==> a < rs[i].base || rs[i].End() <= a
    ensures View(rs, a).None?
    decreases |rs|
  {
    if rs != [] {
      ViewOutside(rs[1..], a);
    }
  }

  // ----- cutting a range out -----

  /** What is left of one region; `id` names the buffer of a tail that needs its own. */
  function Cut(r: Region, lo: nat, hi: nat, id: nat): seq<Region>
    requires ValidRegion(r) && lo <= hi
  {
    if r.End() <= lo || r.base >= hi then [r]
    else if r.base >= lo && r.End() <= hi then []
    else
      (if r.base < lo then [r.(size := lo - r.base)] else []) +
      (if r.End() > hi then [Tail(r, hi, id)] else [])
  }

  /** The part of a region from `at` on, copied to a buffer of its own. */
  function Tail(r: Region, at: nat, id: nat): Region
    requires ValidRegion(r) && r.base <= at <= r.End()
  {
    Region(at, r.End() - at, r.prot, Host(id, r.host.bytes[at - r.base..r.size]))
  }

  /** `unmap_range` on the whole list. */
  function CutAll(rs: seq<Region>, lo: nat, hi: nat, id: nat): seq<Region>
    requires lo <= hi && forall i :: 0 <= i < |rs| ==> ValidRegion(rs[i])
  {
    if rs == [] then []
    else CutAll(rs[..|rs| - 1], lo, hi, id) + Cut(rs[|rs| - 1], lo, hi, id)
  }

  lemma CutView(r: Region, lo: nat, hi: nat, id: nat, a: nat)
    requires ValidRegion(r) && lo <= hi
    ensures View(Cut(r, lo, hi, id), a) == if lo <= a < hi then None else View([r], a)
  {
    ViewOne(r, a);
    if !(r.End() <= lo || r.base >= hi) && !(r.base >= lo && r.End() <= hi) {
      var front := if r.base < lo then [r.(size := lo - r.base)] else [];
      var back := if r.End() > hi then [Tail(r, hi, id)] else [];
      ViewConcat(front, back, a);
      if r.base < lo {
        ViewOne(r.(size := lo - r.base), a);
      }
      if r.End() > hi {
        ViewOne(Tail(r, hi, id), a);
      }
    }
  }

  lemma {:induction false} CutAllView(rs: seq<Region>, lo: nat, hi: nat, id: nat, a: nat)
    requires lo <= hi && forall i :: 0 <= i < |rs| ==> ValidRegion(rs[i])
    ensures View(CutAll(rs, lo, hi, id), a) == if lo <= a < hi then None else View(rs, a)
    decreases |rs|
  {
    if rs != [] {
      var front, last := rs[..|rs| - 1], rs[|rs| - 1];
      assert rs == front + [last];
      CutAllView(front, lo, hi, id, a);
      CutView(last, lo, hi, id, a);
      ViewConcat(front, [last], a);
      ViewConcat(CutAll(front, lo, hi, id), Cut(last, lo, hi, id), a);
    }
  }

  /** Pieces of disjoint sorted regions, taken in order, are disjoint and sorted. */
  ghost predicate Within(ps: seq<Region>, lo: nat, hi: nat) {
    forall i :: 0 <= i < |ps| ==> lo <= ps[i].base && ps[i].End() <= hi
  }

  lemma Joined(xs: seq<Region>, ys: seq<Region>, mid: nat)
    requires ValidList(xs) && ValidList(ys)
    requires forall i :: 0 <= i < |xs| ==> xs[i].End() <= mid
    requires forall i :: 0 <= i < |ys| ==> mid <= ys[i].base
    ensures ValidList(xs + ys)
  {
  }

  lemma CutValid(r: Region, lo: nat, hi: nat, id: nat)
    requires ValidRegion(r) && lo <= hi && lo % PAGE == 0 && hi % PAGE == 0
    ensures ValidList(Cut(r, lo, hi, id)) && Within(Cut(r, lo, hi, id), r.base, r.End())
  {
    assert r.End() % PAGE == 0;
    if r.base < lo {
      AlignedDifference(r.base, lo);
    }
    if r.End() > hi {
      AlignedDifference(hi, r.End());
    }
  }

  lemma {:induction false} CutAllValid(rs: seq<Region>, lo: nat, hi: nat, id: nat)
    requires ValidList(rs) && lo <= hi && lo % PAGE == 0 && hi % PAGE == 0
    ensures ValidList(CutAll(rs, lo, hi, id))
    ensures rs != [] ==> Within(CutAll(rs, lo, hi, id), 0, rs[|rs| - 1].End())
    decreases |rs|
  {
    if rs != [] {
      var front, last := rs[..|rs| - 1], rs[|rs| - 1];
      CutAllValid(front, lo, hi, id);
      CutValid(last, lo, hi, id);
      assert front != [] ==> front[|front| - 1].End() <= last.base;
      Joined(CutAll(front, lo, hi, id), Cut(last, lo, hi, id), last.base);
    }
  }

  // ----- changing protection -----

  /** One region of `mem_mprotect`: whole, split at the front, split at the back, or in three. */
  function Reprotect(r: Region, lo: nat, hi: nat, prot: Prot, id: nat): seq<Region>
    requires ValidRegion(r) && lo <= hi
  {
    if r.End() <= lo || r.base >= hi then [r]
    else
      var start := if lo > r.base then lo else r.base;
      var end := if hi < r.End() then hi else r.End();
      if start == r.base && end == r.End() then [r.(prot := prot)]
      else if start > r.base then
        [Piece(r, r.base, start, r.prot, id), Piece(r, start, end, prot, id + 1)] +
        (if end < r.End() then [Piece(r, end, r.End(), r.prot, id + 2)] else [])
      else
        [Piece(r, r.base, end, prot, id + 3), Piece(r, end, r.End(), r.prot, id + 4)]
  }

  /** The part of a region from `from` to `to`, copied to a buffer of its own. */
  function Piece(r: Region, from: nat, to: nat, prot: Prot, id: nat): Region
    requires ValidRegion(r) && r.base <= from <= to <= r.End()
  {
    Region(from, to - from, prot, Host(id, r.host.bytes[from - r.base..to - r.base]))
  }

  function ReprotectAll(rs: seq<Region>, lo: nat, hi: nat, prot: Prot, id: nat): seq<Region>
    requires lo <= hi && forall i :: 0 <= i < |rs| ==> ValidRegion(rs[i])
  {
    if rs == [] then []
    else ReprotectAll(rs[..|rs| - 1], lo, hi, prot, id) + Reprotect(rs[|rs| - 1], lo, hi, prot, id)
  }

  lemma PieceView(r: Region, from: nat, to: nat, prot: Prot, id: nat, a: nat)
    requires ValidRegion(r) && r.base <= from <= to <= r.End()
    ensures View([Piece(r, from, to, prot, id)], a) ==
      if from <= a < to then Some(Cell(r.host.bytes[a - r.base], prot)) else None
  {
    ViewOne(Piece(r, from, to, prot, id), a);
  }

  /** Two neighbouring pieces of a region. */
  lemma TwoPiecesView(r: Region, x: nat, y: nat, z: nat, p: Prot, q: Prot, i: nat, j: nat, a: nat)
    requires ValidRegion(r) && r.base <= x <= y <= z <= r.End()
    ensures View([Piece(r, x, y, p, i), Piece(r, y, z, q, j)], a) ==
      if x <= a < z then Some(Cell(r.host.bytes[a - r.base], if a < y then p else q)) else None
  {
    var u, v := Piece(r, x, y, p, i), Piece(r, y, z, q, j);
    assert [u, v] == [u] + [v];
    ViewConcat([u], [v], a);
    PieceView(r, x, y, p, i, a);
    PieceView(r, y, z, q, j, a);
  }

  /** The three-way split, whose last part may be missing. */
  lemma ThreePiecesView(r: Region, y: nat, z: nat, prot: Prot, id: nat, a: nat)
    requires ValidRegion(r) && r.base <= y <= z <= r.End()
    ensures var pieces := [Piece(r, r.base, y, r.prot, id), Piece(r, y, z, prot, id + 1)] +
        (if z < r.End() then [Piece(r, z, r.End(), r.prot, id + 2)] else []);
      View(pieces, a) ==
      if r.base <= a < r.End() then Some(Cell(r.host.bytes[a - r.base], if y <= a < z then prot else r.prot)) else None
  {
    var two := [Piece(r, r.base, y, r.prot, id), Piece(r, y, z, prot, id + 1)];
    TwoPiecesView(r, r.base, y, z, r.prot, prot, id, id + 1, a);
    if z < r.End() {
      ViewConcat(two, [Piece(r, z, r.End(), r.prot, id + 2)], a);
      PieceView(r, z, r.End(), r.prot, id + 2, a);
    } else {
      assert two + [] == two;
    }
  }

  lemma ReprotectView(r: Region, lo: nat, hi: nat, prot: Prot, id: nat, a: nat)
    requires ValidRegion(r) && lo <= hi
    ensures View(Reprotect(r, lo, hi, prot, id), a) ==
      if lo <= a < hi && View([r], a).Some? then Some(View([r], a).value.(prot := prot)) else View([r], a)
  {
    ViewOne(r, a);
    if r.base < hi && lo < r.End() {
      var end := if hi < r.End() then hi else r.End();
      if lo > r.base {
        ThreePiecesView(r, lo, end, prot, id, a);
      } else if end == r.End() {
        ViewOne(r.(prot := prot), a);
      } else {
        TwoPiecesView(r, r.base, end, r.End(), prot, r.prot, id + 3, id + 4, a);
      }
    }
  }

  /** Protection changes on exactly the mapped part of the range; no byte changes anywhere. */
  lemma {:induction false} ReprotectAllView(rs: seq<Region>, lo: nat, hi: nat, prot: Prot, id: nat, a: nat)
    requires lo <= hi && forall i :: 0 <= i < |rs| ==> ValidRegion(rs[i])
    ensures View(ReprotectAll(rs, lo, hi, prot, id), a) ==
      if lo <= a < hi && View(rs, a).Some? then Some(View(rs, a).value.(prot := prot)) else View(rs, a)
    decreases |rs|
  {
    if rs != [] {
      var front, last := rs[..|rs| - 1], rs[|rs| - 1];
      assert rs == front + [last];
      ReprotectAllView(front, lo, hi, prot, id, a);
      ReprotectView(last, lo, hi, prot, id, a);
      ViewConcat(front, [last], a);
      ViewConcat(ReprotectAll(front, lo, hi, prot, id), Reprotect(last, lo, hi, prot, id), a);
    }
  }

  lemma PieceValid(r: Region, from: nat, to: nat, prot: Prot, id: nat)
    requires ValidRegion(r) && r.base <= from <= to <= r.End() && from % PAGE == 0 && to % PAGE == 0
    ensures ValidRegion(Piece(r, from, to, prot, id))
  {
    AlignedDifference(from, to);
  }

  lemma PairValid(x: Region, y: Region)
    requires ValidRegion(x) && ValidRegion(y) && x.End() <= y.base
    ensures ValidList([x, y]) && Within([x, y], x.base, y.End())
  {
  }

  lemma TripleValid(x: Region, y: Region, z: Region)
    requires ValidRegion(x) && ValidRegion(y) && ValidRegion(z) && x.End() <= y.base && y.End() <= z.base
    ensures ValidList([x, y, z]) && Within([x, y, z], x.base, z.End())
  {
  }

  lemma ReprotectValid(r: Region, lo: nat, hi: nat, prot: Prot, id: nat)
    requires ValidRegion(r) && lo <= hi && lo % PAGE == 0 && hi % PAGE == 0
    ensures ValidList(Reprotect(r, lo, hi, prot, id)) && Within(Reprotect(r, lo, hi, prot, id), r.base, r.End())
  {
    assert r.End() % PAGE == 0;
    var start := if lo > r.base then lo else r.base;
    var end := if hi < r.End() then hi else r.End();
    if r.base < start <= end <= r.End() {
      var x, y := Piece(r, r.base, start, r.prot, id), Piece(r, start, end, prot, id + 1);
      PieceValid(r, r.base, start, r.prot, id);
      PieceValid(r, start, end, prot, id + 1);
      PairValid(x, y);
      if end < r.End() {
        PieceValid(r, end, r.End(), r.prot, id + 2);
        TripleValid(x, y, Piece(r, end, r.End(), r.prot, id + 2));
        assert [x, y] + [Piece(r, end, r.End(), r.prot, id + 2)] == [x, y, Piece(r, end, r.End(), r.prot, id + 2)];
      } else {
        assert [x, y] + [] == [x, y];
      }
    } else if r.base == start <= end < r.End() {
      PieceValid(r, r.base, end, prot, id + 3);
      PieceValid(r, end, r.End(), r.prot, id + 4);
      PairValid(Piece(r, r.base, end, prot, id + 3), Piece(r, end, r.End(), r.prot, id + 4));
    }
  }

  lemma {:induction false} ReprotectAllValid(rs: seq<Region>, lo: nat, hi: nat, prot: Prot, id: nat)
    requires ValidList(rs) && lo <= hi && lo % PAGE == 0 && hi % PAGE == 0
    ensures ValidList(ReprotectAll(rs, lo, hi, prot, id))
    ensures rs != [] ==> Within(ReprotectAll(rs, lo, hi, prot, id), 0, rs[|rs| - 1].End())
    decreases |rs|
  {
    if rs != [] {
      var front, last := rs[..|rs| - 1], rs[|rs| - 1];
      ReprotectAllValid(front, lo, hi, prot, id);
      ReprotectValid(last, lo, hi, prot, id);
      assert front != [] ==> front[|front| - 1].End() <= last.base;
      Joined(ReprotectAll(front, lo, hi, prot, id), Reprotect(last, lo, hi, prot, id), last.base);
    }
  }

  // ----- buffers -----

  ghost predicate HasId(rs: seq<Region>, id: nat) {
    exists i :: 0 <= i < |rs| && rs[i].host.id == id
  }

  /** Regions own pairwise different buffers, all allocated before number `next`. */
  ghost predicate OwnBuffers(rs: seq<Region>, next: nat) {
    && (forall i :: 0 <= i < |rs| ==> rs[i].host.id < next)
    && (forall i, j :: 0 <= i < j < |rs| ==> rs[i].host.id != rs[j].host.id)
  }

  lemma OwnJoined(xs: seq<Region>, ys: seq<Region>, next: nat)
    requires OwnBuffers(xs, next) && OwnBuffers(ys, next)
    requires forall i :: 0 <= i < |ys| ==> !HasId(xs, ys[i].host.id)
    ensures OwnBuffers(xs + ys, next)
  {
    var all := xs + ys;
    forall i, j | 0 <= i < j < |all| ensures all[i].host.id != all[j].host.id {
      if i < |xs| <= j {
        assert all[j] == ys[j - |xs|];
        assert !HasId(xs, ys[j - |xs|].host.id);
      }
    }
  }

  lemma HasIdJoined(xs: seq<Region>, ys: seq<Region>, id: nat)
    ensures HasId(xs + ys, id) <==> HasId(xs, id) || HasId(ys, id)
  {
    var all := xs + ys;
    if i :| 0 <= i < |xs| && xs[i].host.id == id {
      assert all[i].host.id == id;
    }
    if i :| 0 <= i < |ys| && ys[i].host.id == id {
      assert all[|xs| + i].host.id == id;
    }
    if i :| 0 <= i < |all| && all[i].host.id == id {
      assert i < |xs| ==> xs[i].host.id == id;
      assert i >= |xs| ==> ys[i - |xs|].host.id == id;
    }
  }

  lemma CutBuffers(r: Region, lo: nat, hi: nat, id: nat)
    requires ValidRegion(r) && lo <= hi && r.host.id < id
    ensures OwnBuffers(Cut(r, lo, hi, id), id + 1)
    ensures forall k: nat :: HasId(Cut(r, lo, hi, id), k) ==>
      k == r.host.id || (k == id && r.base < hi < r.End())
  {
  }

  lemma OwnFront(front: seq<Region>, last: Region, next: nat)
    requires OwnBuffers(front + [last], next)
    ensures OwnBuffers(front, next) && last.host.id < next && !HasId(front, last.host.id)
    ensures forall k: nat :: HasId(front, k) ==> k < next
  {
    var all := front + [last];
    assert all[|front|] == last;
    forall i | 0 <= i < |front|
      ensures front[i].host.id < next && front[i].host.id != last.host.id
    {
      assert all[i] == front[i];
    }
    forall i, j | 0 <= i < j < |front|
      ensures front[i].host.id != front[j].host.id
    {
      assert all[i] == front[i] && all[j] == front[j];
    }
  }

  /** Only buffers of `front`, and new ones among `more`. */
  ghost predicate TakenFrom(xs: seq<Region>, front: seq<Region>, more: set<nat>) {
    forall k: nat :: HasId(xs, k) ==> HasId(front, k) || k in more
  }

  lemma TakenMore(xs: seq<Region>, rs: seq<Region>, a: set<nat>, b: set<nat>)
    requires TakenFrom(xs, rs, a) && a <= b
    ensures TakenFrom(xs, rs, b)
  {
  }

  lemma JoinedBuffers(front: seq<Region>, last: Region, xs: seq<Region>, ys: seq<Region>, before: set<nat>, now: set<nat>,
                      id: nat, next: nat)
    requires OwnBuffers(front + [last], id) && OwnBuffers(xs, next) && OwnBuffers(ys, next)
    requires before !! now && forall k :: k in before || k in now ==> id <= k
    requires TakenFrom(xs, front, before) && TakenFrom(ys, [last], now)
    ensures OwnBuffers(xs + ys, next) && TakenFrom(xs + ys, front + [last], before + now)
  {
    OwnFront(front, last, id);
    forall k: nat | HasId([last], k)
      ensures k == last.host.id
    {
    }
    forall i | 0 <= i < |ys|
      ensures !HasId(xs, ys[i].host.id)
    {
      assert HasId(ys, ys[i].host.id);
    }
    OwnJoined(xs, ys, next);
    forall k: nat | HasId(xs + ys, k)
      ensures HasId(front + [last], k) || k in before + now
    {
      HasIdJoined(xs, ys, k);
      HasIdJoined(front, [last], k);
    }
  }

  /** The last region ends behind `at`. */
  predicate Reaches(rs: seq<Region>, at: nat) {
    rs != [] && rs[|rs| - 1].End() > at
  }

  /** Only one region can hold `at` inside. */
  lemma ReachesOnce(front: seq<Region>, last: Region, at: nat)
    requires ValidList(front + [last])
    ensures ValidList(front) && ValidRegion(last) && !(Reaches(front, at) && last.base < at)
    ensures Reaches(front, at) ==> last.End() > at
  {
    var all := front + [last];
    assert all[|front|] == last && forall i :: 0 <= i < |front| ==> all[i] == front[i];
    if front != [] {
      assert all[|front| - 1].End() <= all[|front|].base;
    }
  }

  function CutIds(taken: bool, id: nat): set<nat> {
    if taken then {id} else {}
  }

  lemma CutTakes(r: Region, lo: nat, hi: nat, id: nat)
    requires ValidRegion(r) && lo <= hi && r.host.id < id
    ensures OwnBuffers(Cut(r, lo, hi, id), id + 1) && TakenFrom(Cut(r, lo, hi, id), [r], CutIds(r.base < hi < r.End(), id))
  {
    CutBuffers(r, lo, hi, id);
    assert [r][0].host.id == r.host.id;
  }

  lemma CutNextBuffers(front: seq<Region>, last: Region, lo: nat, hi: nat, id: nat)
    requires ValidList(front + [last]) && ValidList(front) && OwnBuffers(front + [last], id) && lo <= hi
    requires OwnBuffers(CutAll(front, lo, hi, id), id + 1)
    requires TakenFrom(CutAll(front, lo, hi, id), front, CutIds(Reaches(front, hi), id)) && ValidRegion(last)
    ensures
      var all := CutAll(front, lo, hi, id) + Cut(last, lo, hi, id);
      OwnBuffers(all, id + 1) && TakenFrom(all, front + [last], CutIds(last.End() > hi, id))
  {
    var xs, ys := CutAll(front, lo, hi, id), Cut(last, lo, hi, id);
    var before, now := CutIds(Reaches(front, hi), id), CutIds(last.base < hi < last.End(), id);
    OwnFront(front, last, id);
    ReachesOnce(front, last, hi);
    CutTakes(last, lo, hi, id);
    JoinedBuffers(front, last, xs, ys, before, now, id, id + 1);
    TakenMore(xs + ys, front + [last], before + now, CutIds(last.End() > hi, id));
  }

  /** Only the region that the end of the range falls inside needs a new buffer. */
  lemma {:induction false} CutAllBuffers(rs: seq<Region>, lo: nat, hi: nat, id: nat)
    requires ValidList(rs) && OwnBuffers(rs, id) && lo <= hi
    ensures OwnBuffers(CutAll(rs, lo, hi, id), id + 1)
    ensures TakenFrom(CutAll(rs, lo, hi, id), rs, CutIds(Reaches(rs, hi), id))
    decreases |rs|
  {
    if rs != [] {
      var front, last := rs[..|rs| - 1], rs[|rs| - 1];
      assert rs == front + [last];
      OwnFront(front, last, id);
      ReachesOnce(front, last, hi);
      CutAllBuffers(front, lo, hi, id);
      CutNextBuffers(front, last, lo, hi, id);
    }
  }

  lemma ReprotectBuffers(r: Region, lo: nat, hi: nat, prot: Prot, id: nat)
    requires ValidRegion(r) && lo <= hi && r.host.id < id
    ensures OwnBuffers(Reprotect(r, lo, hi, prot, id), id + 5)
    ensures forall k: nat :: HasId(Reprotect(r, lo, hi, prot, id), k) ==>
      || k == r.host.id
      || (id <= k < id + 3 && r.base < lo < r.End())
      || (id + 3 <= k < id + 5 && lo <= r.base && r.End() > hi > r.base)
  {
    if !(r.End() <= lo || r.base >= hi) {
      var start := if lo > r.base then lo else r.base;
      var end := if hi < r.End() then hi else r.End();
      if start > r.base {
        var x, y := Piece(r, r.base, start, r.prot, id), Piece(r, start, end, prot, id + 1);
        if end < r.End() {
          var z := Piece(r, end, r.End(), r.prot, id + 2);
          assert [x, y] + [z] == [x, y, z];
          TripleBuffers(x, y, z, id + 5);
        } else {
          assert [x, y] + [] == [x, y];
          PairBuffers(x, y, id + 5);
        }
      } else if end < r.End() {
        PairBuffers(Piece(r, r.base, end, prot, id + 3), Piece(r, end, r.End(), r.prot, id + 4), id + 5);
      }
    }
  }

  lemma PairBuffers(x: Region, y: Region, next: nat)
    requires x.host.id < next && y.host.id < next && x.host.id != y.host.id
    ensures OwnBuffers([x, y], next) && forall k: nat :: HasId([x, y], k) ==> k == x.host.id || k == y.host.id
  {
  }

  lemma TripleBuffers(x: Region, y: Region, z: Region, next: nat)
    requires x.host.id < next && y.host.id < next && z.host.id < next
    requires x.host.id != y.host.id && x.host.id != z.host.id && y.host.id != z.host.id
    ensures OwnBuffers([x, y, z], next)
    ensures forall k: nat :: HasId([x, y, z], k) ==> k == x.host.id || k == y.host.id || k == z.host.id
  {
  }

  /** Three buffers for a region that holds the start of the range inside, two for one that holds the end. */
  function ProtectIds(start: bool, end: bool, id: nat): set<nat> {
    (if start then {id, id + 1, id + 2} else {}) + (if end then {id + 3, id + 4} else {})
  }

  lemma ReprotectTakes(r: Region, lo: nat, hi: nat, prot: Prot, id: nat)
    requires ValidRegion(r) && lo <= hi && r.host.id < id
    ensures OwnBuffers(Reprotect(r, lo, hi, prot, id), id + 5)
    ensures TakenFrom(Reprotect(r, lo, hi, prot, id), [r],
              ProtectIds(r.base < lo < r.End(), lo <= r.base && r.End() > hi > r.base, id))
  {
    ReprotectBuffers(r, lo, hi, prot, id);
    assert [r][0].host.id == r.host.id;
  }

  lemma ReprotectNextBuffers(front: seq<Region>, last: Region, lo: nat, hi: nat, prot: Prot, id: nat)
    requires ValidList(front + [last]) && ValidList(front) && OwnBuffers(front + [last], id) && lo <= hi && ValidRegion(last)
    requires OwnBuffers(ReprotectAll(front, lo, hi, prot, id), id + 5)
    requires TakenFrom(ReprotectAll(front, lo, hi, prot, id), front, ProtectIds(Reaches(front, lo), Reaches(front, hi), id))
    ensures
      var all := ReprotectAll(front, lo, hi, prot, id) + Reprotect(last, lo, hi, prot, id);
      OwnBuffers(all, id + 5) && TakenFrom(all, front + [last], ProtectIds(last.End() > lo, last.End() > hi, id))
  {
    var xs, ys := ReprotectAll(front, lo, hi, prot, id), Reprotect(last, lo, hi, prot, id);
    var before := ProtectIds(Reaches(front, lo), Reaches(front, hi), id);
    var now := ProtectIds(last.base < lo < last.End(), lo <= last.base && last.End() > hi > last.base, id);
    OwnFront(front, last, id);
    ReachesOnce(front, last, lo);
    ReachesOnce(front, last, hi);
    ReprotectTakes(last, lo, hi, prot, id);
    JoinedBuffers(front, last, xs, ys, before, now, id, id + 5);
    TakenMore(xs + ys, front + [last], before + now, ProtectIds(last.End() > lo, last.End() > hi, id));
  }

  /** New buffers go to the two regions that the ends of the range may fall inside. */
  lemma {:induction false} ReprotectAllBuffers(rs: seq<Region>, lo: nat, hi: nat, prot: Prot, id: nat)
    requires ValidList(rs) && OwnBuffers(rs, id) && lo <= hi
    ensures OwnBuffers(ReprotectAll(rs, lo, hi, prot, id), id + 5)
    ensures TakenFrom(ReprotectAll(rs, lo, hi, prot, id), rs, ProtectIds(Reaches(rs, lo), Reaches(rs, hi), id))
    decreases |rs|
  {
    if rs != [] {
      var front, last := rs[..|rs| - 1], rs[|rs| - 1];
      assert rs == front + [last];
      OwnFront(front, last, id);
      ReachesOnce(front, last, hi);
      ReprotectAllBuffers(front, lo, hi, prot, id);
      ReprotectNextBuffers(front, last, lo, hi, prot, id);
    }
  }
}
