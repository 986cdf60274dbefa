/**
 The address space object: a region list that map, unmap and protect splice,
 split and trim in place.  Addresses are unbounded naturals; wrap-around at the
 top of the 64-bit range is not modelled for mapping calls.
 */
module MemSpace {
  import opened Common
  import opened AddressSpace

  const MMAP_START: nat := 0x7F00_0000_0000

  function AlignDown(a: nat): (r: nat)
    ensures r % PAGE == 0 && r <= a < r + PAGE
  {
    a - a % PAGE
  }

  function AlignUp(a: nat): (r: nat)
    ensures r % PAGE == 0 && a <= r < a + PAGE
  {
    (a + PAGE - 1) / PAGE * PAGE
  }

  // ----- the plain map -----

  type Contents = imap<nat, Cell>

  /** What a region list means, as one map. */
  ghost function Abs(rs: seq<Region>): Contents {
    imap x: nat | View(rs, x).Some? :: View(rs, x).value
  }

  ghost function Without(m: Contents, lo: nat, hi: nat): Contents {
    imap x | x in m && !(lo <= x < hi) :: m[x]
  }

  ghost function Mapped(m: Contents, a: nat, n: nat, prot: Prot, file: seq<byte>): Contents {
    imap x: nat | x in m || a <= x < a + n ::
      if a <= x < a + n then Cell(if x - a < |file| then file[x - a] else 0, prot) else m[x]
  }

  ghost function Reprotected(m: Contents, lo: nat, hi: nat, prot: Prot): Contents {
    imap x | x in m :: if lo <= x < hi then m[x].(prot := prot) else m[x]
  }

  /** Byte `k` of a mapping whose first bytes were read from a file. */
  function FileByte(file: seq<byte>, k: int): byte {
    if 0 <= k < |file| then file[k] else 0
  }

  // ----- sorted insertion -----

  /** Index of the first region that starts above `base`. */
  function InsertAt(rs: seq<Region>, base: nat): (p: nat)
    ensures p <= |rs|
  {
    if rs == [] || rs[0].base > base then 0 else 1 + InsertAt(rs[1..], base)
  }

  lemma {:induction false} InsertAtIs(rs: seq<Region>, base: nat, p: nat)
    requires p <= |rs| && (forall i :: 0 <= i < p ==> rs[i].base <= base) && (p < |rs| ==> rs[p].base > base)
    ensures InsertAt(rs, base) == p
    decreases p
  {
    if p > 0 {
      assert rs[0].base <= base;
      assert forall i :: 0 <= i < p - 1 ==> rs[1..][i] == rs[i + 1];
      InsertAtIs(rs[1..], base, p - 1);
    }
  }

  function Inserted(rs: seq<Region>, r: Region): seq<Region> {
    var p := InsertAt(rs, r.base);
    rs[..p] + [r] + rs[p..]
  }

  /** Some region, possibly an empty one, stands in the way of [a, a + n). */
  ghost predicate Conflict(rs: seq<Region>, a: nat, n: nat) {
    exists i :: 0 <= i < |rs| && a < rs[i].End() && a + n > rs[i].base
  }

  lemma {:induction false} InsertAtSplits(rs: seq<Region>, base: nat)
    requires ValidList(rs)
    ensures var p := InsertAt(rs, base);
      && (forall i :: 0 <= i < p ==> rs[i].base <= base)
      && (forall i :: p <= i < |rs| ==> rs[i].base > base)
    decreases |rs|
  {
    if rs != [] && rs[0].base <= base {
      InsertAtSplits(rs[1..], base);
      var p := InsertAt(rs[1..], base);
      forall i | 1 <= i < |rs| ensures i < p + 1 ==> rs[i].base <= base {
        assert rs[i] == rs[1..][i - 1];
      }
      forall i | p + 1 <= i < |rs| ensures rs[i].base > base {
        assert rs[i] == rs[1..][i - 1];
      }
    }
  }

  /** A region put into a free range keeps the list in order and adds exactly its bytes. */
  lemma InsertedValid(rs: seq<Region>, r: Region)
    requires ValidList(rs) && ValidRegion(r) && !Conflict(rs, r.base, r.size) && r.size > 0
    ensures ValidList(Inserted(rs, r))
  {
    InsertAtSplits(rs, r.base);
    var p := InsertAt(rs, r.base);
    forall i | 0 <= i < p ensures rs[i].End() <= r.base {
      assert rs[i].base <= r.base;
    }
    forall i | p <= i < |rs| ensures r.End() <= rs[i].base {
      assert rs[i].base > r.base;
    }
    Joined(rs[..p], [r], r.base);
    Joined(rs[..p] + [r], rs[p..], r.End());
  }

  lemma InsertedView(rs: seq<Region>, r: Region, a: nat)
    requires ValidList(rs) && ValidRegion(r) && !Conflict(rs, r.base, r.size) && r.size > 0
    ensures View(Inserted(rs, r), a) == if r.base <= a < r.End() then View([r], a) else View(rs, a)
  {
    var p := InsertAt(rs, r.base);
    assert rs == rs[..p] + rs[p..];
    ViewConcat(rs[..p], rs[p..], a);
    ViewConcat(rs[..p] + [r], rs[p..], a);
    ViewConcat(rs[..p], [r], a);
    ViewOne(r, a);
    if r.base <= a < r.End() {
      forall i | 0 <= i < |rs| ensures a < rs[i].base || rs[i].End() <= a {
        assert !(r.base < rs[i].End() && r.End() > rs[i].base);
      }
      ViewOutside(rs[..p], a);
    }
  }

  lemma InsertedBuffers(rs: seq<Region>, r: Region, next: nat)
    requires OwnBuffers(rs, next) && r.host.id == next
    ensures OwnBuffers(Inserted(rs, r), next + 1)
  {
  }

  /** One region is exactly this range, with this protection. */
  ghost predicate HasRegion(rs: seq<Region>, base: nat, size: nat, prot: Prot) {
    exists i :: 0 <= i < |rs| && rs[i].base == base && rs[i].size == size && rs[i].prot == prot
  }

  /** Every region lies between `lo` and `hi`. */
  ghost predicate Inside(rs: seq<Region>, lo: int, hi: int) {
    forall i :: 0 <= i < |rs| ==> lo <= rs[i].base && rs[i].End() <= hi
  }

  /** Bounds on the old regions that also hold of [a, b) hold of the new ones. */
  ghost predicate KeepsBounds(was: seq<Region>, now: seq<Region>, a: int, b: int) {
    forall lo, hi :: Inside(was, lo, hi) && lo <= a && b <= hi ==> Inside(now, lo, hi)
  }

  /** No region is empty. */
  ghost predicate Tidy(rs: seq<Region>) {
    forall i :: 0 <= i < |rs| ==> rs[i].size > 0
  }

  lemma {:induction false} CutAllTidy(rs: seq<Region>, lo: nat, hi: nat, id: nat)
    requires lo <= hi && (forall i :: 0 <= i < |rs| ==> ValidRegion(rs[i])) && Tidy(rs)
    ensures Tidy(CutAll(rs, lo, hi, id))
    decreases |rs|
  {
    if rs != [] {
      CutAllTidy(rs[..|rs| - 1], lo, hi, id);
    }
  }

  lemma {:induction false} ReprotectAllTidy(rs: seq<Region>, lo: nat, hi: nat, prot: Prot, id: nat)
    requires lo < hi && (forall i :: 0 <= i < |rs| ==> ValidRegion(rs[i])) && Tidy(rs)
    ensures Tidy(ReprotectAll(rs, lo, hi, prot, id))
    decreases |rs|
  {
    if rs != [] {
      ReprotectAllTidy(rs[..|rs| - 1], lo, hi, prot, id);
      ReprotectTidy(rs[|rs| - 1], lo, hi, prot, id);
    }
  }

  lemma ReprotectTidy(r: Region, lo: nat, hi: nat, prot: Prot, id: nat)
    requires lo < hi && ValidRegion(r) && r.size > 0
    ensures Tidy(Reprotect(r, lo, hi, prot, id))
  {
  }

  /** In a tidy list only mapped bytes stand in the way. */
  lemma TidyConflict(rs: seq<Region>, a: nat, n: nat)
    requires ValidList(rs) && Tidy(rs) && Conflict(rs, a, n) && n > 0
    ensures exists x: nat :: a <= x < a + n && x in Abs(rs)
  {
    var i :| 0 <= i < |rs| && a < rs[i].End() && a + n > rs[i].base;
    var x := if a < rs[i].base then rs[i].base else a;
    ViewInside(rs, i, x);
    assert x in Abs(rs);
  }

  lemma InsertedHas(rs: seq<Region>, r: Region)
    ensures HasRegion(Inserted(rs, r), r.base, r.size, r.prot)
    ensures KeepsBounds(rs, Inserted(rs, r), r.base, r.End())
    ensures Tidy(rs) && r.size > 0 ==> Tidy(Inserted(rs, r))
  {
    assert Inserted(rs, r)[InsertAt(rs, r.base)] == r;
  }

  lemma {:induction false} CutAllInside(rs: seq<Region>, a: nat, b: nat, id: nat, lo: int, hi: int)
    requires a <= b && (forall i :: 0 <= i < |rs| ==> ValidRegion(rs[i])) && Inside(rs, lo, hi)
    ensures Inside(CutAll(rs, a, b, id), lo, hi)
    decreases |rs|
  {
    if rs != [] {
      CutAllInside(rs[..|rs| - 1], a, b, id, lo, hi);
    }
  }

  class MemSpace {
    var regions: seq<Region>
    var mmapNext: nat
    var nextHost: nat

    ghost predicate Valid()
      reads this
    {
      ValidList(regions) && OwnBuffers(regions, nextHost)
    }

    /** `mem_space_create`. */
    constructor ()
      ensures Valid() && regions == [] && mmapNext == 0x7F00_0000_0000
    {
      regions := [];
      mmapNext := MMAP_START;
      nextHost := 0;
    }

    /** `region_insert`. */
    method RegionInsert(r: Region)
      modifies this`regions
      ensures regions == Inserted(old(regions), r)
    {
      var p := 0;
      while p < |regions| && regions[p].base <= r.base
        invariant 0 <= p <= |regions| && regions == old(regions)
        invariant forall i :: 0 <= i < p ==> regions[i].base <= r.base
      {
        p := p + 1;
      }
      InsertAtIs(regions, r.base, p);
      regions := regions[..p] + [r] + regions[p..];
    }

    /** The four overlap cases of `unmap_range` for the region at index `i`. */
    method UnmapOne(i: nat, addr: nat, end: nat, id: nat) returns (next: nat)
      requires ValidList(regions) && i < |regions| && addr <= end
      modifies this`regions
      ensures regions == Spliced(old(regions), i, Cut(old(regions)[i], addr, end, id))
      ensures next == i + |Cut(old(regions)[i], addr, end, id)|
    {
      var r := regions[i];
      ghost var was := regions;
      next := i + 1;
      if r.End() <= addr || r.base >= end {
        SpliceSame(was, i);
      } else if r.base >= addr && r.End() <= end {
        assert was[..i] + [] + was[i + 1..] == was[..i] + was[i + 1..];
        regions := regions[..i] + regions[i + 1..];
        next := i;
      } else if r.base < addr && r.End() > end {
        TailGoesNext(regions, i, end, id);
        RegionInsert(Tail(r, end, id));
        SpliceBehind(was, i, r.(size := addr - r.base), [Tail(r, end, id)]);
        regions := regions[i := r.(size := addr - r.base)];
        next := i + 2;
      } else if r.base < addr {
        SpliceOne(was, i, r.(size := addr - r.base));
        assert [r.(size := addr - r.base)] + [] == [r.(size := addr - r.base)];
        regions := regions[i := r.(size := addr - r.base)];
      } else {
        SpliceOne(was, i, Tail(r, end, id));
        assert [] + [Tail(r, end, id)] == [Tail(r, end, id)];
        regions := regions[i := Tail(r, end, id)];
      }
    }

    /** The pass of `unmap_range` over the list, splicing as it goes. */
    method UnmapPass(addr: nat, end: nat, id: nat)
      requires ValidList(regions) && addr <= end && addr % PAGE == 0 && end % PAGE == 0
      modifies this`regions
      ensures regions == CutAll(old(regions), addr, end, id)
    {
      ghost var was := regions;
      var i: nat := 0;
      ghost var k: nat := 0;
      assert was[..0] == [];
      while i < |regions|
        invariant CutSoFar(regions, i, was, k, addr, end, id)
        decreases |was| - k
      {
        CutStep(regions, i, was, k, addr, end, id);
        i := UnmapOne(i, addr, end, id);
        k := k + 1;
      }
      CutDone(regions, i, was, k, addr, end, id);
    }

    /** `unmap_range`: the range disappears from the map and nothing else changes. */
    method UnmapRange(addr: nat, size: nat)
      requires Valid() && addr % PAGE == 0 && size % PAGE == 0
      modifies this`regions, this`nextHost
      ensures Valid()
      ensures regions == CutAll(old(regions), addr, addr + size, old(nextHost))
      ensures Abs(regions) == Without(Abs(old(regions)), addr, addr + size)
    {
      CutAllKeeps(regions, addr, addr + size, nextHost);
      UnmapPass(addr, addr + size, nextHost);
      nextHost := nextHost + 1;
    }

    /** Index of the first region in the way of [a, a + n), or the length of the list. */
    method FirstConflict(a: nat, n: nat) returns (j: nat)
      ensures j <= |regions|
      ensures j < |regions| ==> a < regions[j].End() && a + n > regions[j].base
      ensures j == |regions| ==> !Conflict(regions, a, n)
    {
      j := 0;
      while j < |regions|
        invariant 0 <= j <= |regions|
        invariant forall i :: 0 <= i < j ==> !(a < regions[i].End() && a + n > regions[i].base)
      {
        if a < regions[j].End() && a + n > regions[j].base {
          return;
        }
        j := j + 1;
      }
    }

    /**
     The search of a non-fixed mapping: it ends, and at the least page at or above the
     hint where nothing stands in the way.
     */
    method FindGap(hint: nat, n: nat) returns (a: nat)
      requires Valid() && n > 0
      ensures a % PAGE == 0 && AlignUp(hint) <= a && !Conflict(regions, a, n)
      ensures forall x: nat :: AlignUp(hint) <= x < a ==> Conflict(regions, x, n)
    {
      a := AlignUp(hint);
      var j: nat := FirstConflict(a, n);
      while j < |regions|
        invariant a % PAGE == 0 && AlignUp(hint) <= a && j <= |regions|
        invariant j < |regions| ==> a < regions[j].End() && a + n > regions[j].base
        invariant j == |regions| ==> !Conflict(regions, a, n)
        invariant Taken(regions, AlignUp(hint), a, n)
        decreases MaxEnd(regions) - a
      {
        EndBounded(regions, j);
        TakenOn(regions, AlignUp(hint), a, n, j);
        a := AlignUp(regions[j].End());
        j := FirstConflict(a, n);
      }
    }

    /** Maps fresh zeroed pages, with `file` read over their start, at a free range. */
    method AddRegion(a: nat, n: nat, prot: Prot, file: seq<byte>)
      requires Valid() && a % PAGE == 0 && n % PAGE == 0 && n > 0 && |file| <= n && !Conflict(regions, a, n)
      modifies this`regions, this`nextHost
      ensures Valid() && HasRegion(regions, a, n, prot)
      ensures KeepsBounds(old(regions), regions, a, a + n) && (Tidy(old(regions)) ==> Tidy(regions))
      ensures Abs(regions) == Mapped(Abs(old(regions)), a, n, prot, file)
    {
      ghost var was := regions;
      var r := Region(a, n, prot, Host(nextHost, FileBytes(file, n)));
      InsertedHas(was, r);
      InsertedValid(was, r);
      InsertedBuffers(was, r, nextHost);
      RegionInsert(r);
      nextHost := nextHost + 1;
      InsertedAbs(was, r, file);
    }

    /** Makes room for a fixed mapping. */
    method ClearRange(a: nat, n: nat)
      requires Valid() && a % PAGE == 0 && n % PAGE == 0 && n > 0
      modifies this`regions, this`nextHost
      ensures Valid() && !Conflict(regions, a, n) && KeepsBounds(old(regions), regions, a, a + n)
      ensures Tidy(old(regions)) ==> Tidy(regions)
      ensures Abs(regions) == Without(Abs(old(regions)), a, a + n)
    {
      CutAllClear(regions, a, a + n, nextHost);
      forall lo, hi | Inside(regions, lo, hi)
        ensures Inside(CutAll(regions, a, a + n, nextHost), lo, hi)
      {
        CutAllInside(regions, a, a + n, nextHost, lo, hi);
      }
      if Tidy(regions) {
        CutAllTidy(regions, a, a + n, nextHost);
      }
      UnmapRange(a, n);
    }

    /** `mem_mmap`: nothing for size 0, else exactly the page range is replaced. */
    method Mmap(addr: nat, size: nat, prot: Prot, fixed: bool, file: seq<byte>) returns (res: Option<nat>)
      requires Valid() && |file| <= size
      modifies this
      ensures Valid()
      ensures size == 0 ==> res == None && regions == old(regions)
      ensures size > 0 ==> res.Some? && res.value % PAGE == 0
      ensures size > 0 && fixed ==> res == Some(AlignDown(addr))
      ensures size > 0 && !fixed ==>
        && !Conflict(old(regions), res.value, AlignUp(size))
        && AlignUp(if addr == 0 then old(mmapNext) else addr) <= res.value
        && (forall x: nat :: AlignUp(if addr == 0 then old(mmapNext) else addr) <= x < res.value ==>
              Conflict(old(regions), x, AlignUp(size)))
      ensures size > 0 ==> Abs(regions) == Mapped(Abs(old(regions)), res.value, AlignUp(size), prot, file)
      ensures size > 0 ==> HasRegion(regions, res.value, AlignUp(size), prot)
      ensures size > 0 ==> KeepsBounds(old(regions), regions, res.value, res.value + AlignUp(size))
      ensures mmapNext == if size > 0 && !fixed then res.value + AlignUp(size) else old(mmapNext)
      ensures Tidy(old(regions)) ==> Tidy(regions)
    {
      if size == 0 {
        return None;
      }
      var n := AlignUp(size);
      var a;
      if fixed {
        a := AlignDown(addr);
        ClearRange(a, n);
      } else {
        a := FindGap(if addr == 0 then mmapNext else addr, n);
        mmapNext := a + n;
      }
      AddRegion(a, n, prot, file);
      res := Some(a);
    }

    /** `mem_munmap`: exactly the page range disappears. */
    method Munmap(addr: nat, size: nat)
      requires Valid()
      modifies this`regions, this`nextHost
      ensures Valid()
      ensures Abs(regions) == Without(Abs(old(regions)), AlignDown(addr), AlignDown(addr) + AlignUp(size))
      ensures Tidy(old(regions)) ==> Tidy(regions)
    {
      if Tidy(regions) {
        CutAllTidy(regions, AlignDown(addr), AlignDown(addr) + AlignUp(size), nextHost);
      }
      UnmapRange(AlignDown(addr), AlignUp(size));
    }

    /** Replaces region `i` by `front` and links new regions in behind it. */
    method LinkBehind(i: nat, front: Region, behind: seq<Region>)
      requires i < |regions|
      modifies this`regions
      ensures regions == Spliced(old(regions), i, [front] + behind)
    {
      SpliceBehind(regions, i, front, behind);
      regions := regions[..i + 1] + behind + regions[i + 1..];
      regions := regions[i := front];
    }

    /** One region of `mem_mprotect`: left alone, changed whole, or split in two or three. */
    method ProtectOne(i: nat, addr: nat, end: nat, prot: Prot, id: nat) returns (next: nat)
      requires ValidList(regions) && i < |regions| && addr <= end
      modifies this`regions
      ensures regions == Spliced(old(regions), i, Reprotect(old(regions)[i], addr, end, prot, id))
      ensures next == i + |Reprotect(old(regions)[i], addr, end, prot, id)|
    {
      var r := regions[i];
      next := i + 1;
      if r.End() <= addr || r.base >= end {
        SpliceSame(regions, i);
        return;
      }
      var start := if addr > r.base then addr else r.base;
      var stop := if end < r.End() then end else r.End();
      if start == r.base && stop == r.End() {
        SpliceOne(regions, i, r.(prot := prot));
        regions := regions[i := r.(prot := prot)];
      } else if start > r.base {
        var front, nr := Piece(r, r.base, start, r.prot, id), Piece(r, start, stop, prot, id + 1);
        if stop < r.End() {
          var tail := Piece(r, stop, r.End(), r.prot, id + 2);
          assert [front] + [nr, tail] == [front, nr] + [tail];
          LinkBehind(i, front, [nr, tail]);
          next := i + 3;
        } else {
          assert [front] + [nr] == [front, nr] + [];
          LinkBehind(i, front, [nr]);
          next := i + 2;
        }
      } else {
        var front, tail := Piece(r, r.base, stop, prot, id + 3), Piece(r, stop, r.End(), r.prot, id + 4);
        assert [front] + [tail] == [front, tail];
        LinkBehind(i, front, [tail]);
        next := i + 2;
      }
    }

    method ProtectPass(lo: nat, hi: nat, prot: Prot, id: nat)
      requires ValidList(regions) && lo <= hi && lo % PAGE == 0 && hi % PAGE == 0
      modifies this`regions
      ensures regions == ReprotectAll(old(regions), lo, hi, prot, id)
    {
      ghost var was := regions;
      var i: nat := 0;
      ghost var k: nat := 0;
      assert was[..0] == [];
      while i < |regions|
        invariant ReprotectedSoFar(regions, i, was, k, lo, hi, prot, id)
        decreases |was| - k
      {
        ReprotectStep(regions, i, was, k, lo, hi, prot, id);
        i := ProtectOne(i, lo, hi, prot, id);
        k := k + 1;
      }
      ReprotectDone(regions, i, was, k, lo, hi, prot, id);
    }

    /** `mem_mprotect`: the mapped part of the page range gets `prot`, all else stays. */
    method Mprotect(addr: nat, size: nat, prot: Prot)
      requires Valid()
      modifies this`regions, this`nextHost
      ensures Valid()
      ensures Abs(regions) ==
        Reprotected(Abs(old(regions)), AlignDown(addr), AlignDown(addr) + AlignUp(size), prot)
      ensures size > 0 && Tidy(old(regions)) ==> Tidy(regions)
    {
      ProtectRange(AlignDown(addr), AlignDown(addr) + AlignUp(size), prot);
    }

    method ProtectRange(lo: nat, hi: nat, prot: Prot)
      requires Valid() && PageRange(lo, hi)
      modifies this`regions, this`nextHost
      ensures Valid() && Abs(regions) == Reprotected(Abs(old(regions)), lo, hi, prot)
      ensures lo < hi && Tidy(old(regions)) ==> Tidy(regions)
    {
      ReprotectAllKeeps(regions, lo, hi, prot, nextHost);
      ProtectPass(lo, hi, prot, nextHost);
      nextHost := nextHost + 5;
    }
  }

  lemma ReprotectAllKeeps(rs: seq<Region>, lo: nat, hi: nat, prot: Prot, id: nat)
    requires ValidList(rs) && OwnBuffers(rs, id) && PageRange(lo, hi)
    ensures ValidList(ReprotectAll(rs, lo, hi, prot, id)) && OwnBuffers(ReprotectAll(rs, lo, hi, prot, id), id + 5)
    ensures Abs(ReprotectAll(rs, lo, hi, prot, id)) == Reprotected(Abs(rs), lo, hi, prot)
    ensures lo < hi && Tidy(rs) ==> Tidy(ReprotectAll(rs, lo, hi, prot, id))
  {
    ReprotectAllValid(rs, lo, hi, prot, id);
    ReprotectAllBuffers(rs, lo, hi, prot, id);
    ReprotectAllAbs(rs, lo, hi, prot, id);
    if lo < hi && Tidy(rs) {
      ReprotectAllTidy(rs, lo, hi, prot, id);
    }
  }

  lemma CutAllKeeps(rs: seq<Region>, lo: nat, hi: nat, id: nat)
    requires ValidList(rs) && OwnBuffers(rs, id) && PageRange(lo, hi)
    ensures ValidList(CutAll(rs, lo, hi, id)) && OwnBuffers(CutAll(rs, lo, hi, id), id + 1)
    ensures Abs(CutAll(rs, lo, hi, id)) == Without(Abs(rs), lo, hi)
  {
    CutAllValid(rs, lo, hi, id);
    CutAllBuffers(rs, lo, hi, id);
    CutAllAbs(rs, lo, hi, id);
  }

  /** Inserting pieces behind a region and then replacing it is one splice. */
  lemma SpliceBehind(rs: seq<Region>, i: nat, front: Region, behind: seq<Region>)
    requires i < |rs|
    ensures (rs[..i + 1] + behind + rs[i + 1..])[i := front] == Spliced(rs, i, [front] + behind)
  {
  }

  lemma SpliceOne(rs: seq<Region>, i: nat, r: Region)
    requires i < |rs|
    ensures rs[i := r] == Spliced(rs, i, [r])
  {
  }

  lemma SpliceSame(rs: seq<Region>, i: nat)
    requires i < |rs|
    ensures rs == Spliced(rs, i, [rs[i]])
  {
    SpliceOne(rs, i, rs[i]);
  }

  lemma CutAllAbs(rs: seq<Region>, lo: nat, hi: nat, id: nat)
    requires ValidList(rs) && lo <= hi
    ensures Abs(CutAll(rs, lo, hi, id)) == Without(Abs(rs), lo, hi)
  {
    forall x: nat ensures View(CutAll(rs, lo, hi, id), x) == if lo <= x < hi then None else View(rs, x) {
      CutAllView(rs, lo, hi, id, x);
    }
  }

  lemma ReprotectAllAbs(rs: seq<Region>, lo: nat, hi: nat, prot: Prot, id: nat)
    requires ValidList(rs) && lo <= hi
    ensures Abs(ReprotectAll(rs, lo, hi, prot, id)) == Reprotected(Abs(rs), lo, hi, prot)
  {
    forall x: nat
      ensures View(ReprotectAll(rs, lo, hi, prot, id), x) ==
              if lo <= x < hi && View(rs, x).Some? then Some(View(rs, x).value.(prot := prot)) else View(rs, x)
    {
      ReprotectAllView(rs, lo, hi, prot, id, x);
    }
  }

  lemma InsertedAbs(rs: seq<Region>, r: Region, file: seq<byte>)
    requires ValidList(rs) && ValidRegion(r) && !Conflict(rs, r.base, r.size) && r.size > 0
    requires r.host.bytes == FileBytes(file, r.size)
    ensures Abs(Inserted(rs, r)) == Mapped(Abs(rs), r.base, r.size, r.prot, file)
  {
    forall x: nat
      ensures View(Inserted(rs, r), x) ==
              if r.base <= x < r.End() then Some(Cell(FileByte(file, x - r.base), r.prot)) else View(rs, x)
    {
      InsertedView(rs, r, x);
      ViewOne(r, x);
    }
  }

  function FileBytes(file: seq<byte>, n: nat): seq<byte> {
    seq(n, k requires 0 <= k < n => FileByte(file, k))
  }

  /** Nothing of size `n` fits anywhere from `from` up to `to`. */
  ghost predicate Taken(rs: seq<Region>, from: nat, to: nat, n: nat) {
    forall x: nat :: from <= x < to ==> Conflict(rs, x, n)
  }

  lemma TakenOn(rs: seq<Region>, from: nat, a: nat, n: nat, j: nat)
    requires ValidList(rs) && j < |rs| && Taken(rs, from, a, n) && a < rs[j].End() && a + n > rs[j].base
    ensures AlignUp(rs[j].End()) == rs[j].End() && Taken(rs, from, rs[j].End(), n)
  {
    forall x: nat | from <= x < rs[j].End()
      ensures Conflict(rs, x, n)
    {
      if a <= x {
        assert x < rs[j].End() && x + n > rs[j].base;
      }
    }
  }

  ghost function MaxEnd(rs: seq<Region>): nat {
    if rs == [] then 0
    else
      var m, e := MaxEnd(rs[1..]), rs[0].End();
      if e > m then e else m
  }

  lemma {:induction false} EndBounded(rs: seq<Region>, i: nat)
    requires i < |rs|
    ensures rs[i].End() <= MaxEnd(rs)
    decreases i
  {
    if i > 0 {
      EndBounded(rs[1..], i - 1);
    }
  }

  /** Once a range has been cut out, nothing stands in its way. */
  lemma {:induction false} CutAllClear(rs: seq<Region>, lo: nat, hi: nat, id: nat)
    requires lo <= hi && forall i :: 0 <= i < |rs| ==> ValidRegion(rs[i])
    ensures !Conflict(CutAll(rs, lo, hi, id), lo, hi - lo)
    decreases |rs|
  {
    if rs != [] {
      var front, last := rs[..|rs| - 1], rs[|rs| - 1];
      CutAllClear(front, lo, hi, id);
      var xs := CutAll(front, lo, hi, id);
      var all := CutAll(rs, lo, hi, id);
      forall i | 0 <= i < |all| ensures !(lo < all[i].End() && hi > all[i].base) {
        if i < |xs| {
          assert all[i] == xs[i];
        }
      }
    }
  }

  /**
   What stands in the way of a nonempty range is a mapped byte in it, or an empty
   region strictly inside it, such as a zero-length mem_mprotect leaves behind.
   */
  lemma ConflictExact(rs: seq<Region>, a: nat, n: nat)
    requires ValidList(rs) && n > 0
    ensures Conflict(rs, a, n) <==>
      || (exists x: nat :: a <= x < a + n && View(rs, x).Some?)
      || (exists i :: 0 <= i < |rs| && rs[i].size == 0 && a < rs[i].base < a + n)
  {
    if Conflict(rs, a, n) {
      var i :| 0 <= i < |rs| && a < rs[i].End() && a + n > rs[i].base;
      if rs[i].size > 0 {
        var x := if a > rs[i].base then a else rs[i].base;
        ViewInside(rs, i, x);
      }
    }
    forall x: nat | a <= x < a + n && View(rs, x).Some? ensures Conflict(rs, a, n) {
      if forall i :: 0 <= i < |rs| ==> x < rs[i].base || rs[i].End() <= x {
        ViewOutside(rs, x);
      }
    }
  }

  lemma {:induction false} ViewInside(rs: seq<Region>, i: nat, a: nat)
    requires ValidList(rs) && i < |rs| && rs[i].base <= a < rs[i].End()
    ensures View(rs, a) == Some(Cell(rs[i].host.bytes[a - rs[i].base], rs[i].prot))
    decreases i
  {
    if i > 0 {
      assert rs[0].End() <= rs[i].base;
      ViewInside(rs[1..], i - 1, a);
    }
  }

  /** The list with the region at index `i` replaced by `ps`. */
  function Spliced(rs: seq<Region>, i: nat, ps: seq<Region>): seq<Region>
    requires i < |rs|
  {
    rs[..i] + ps + rs[i + 1..]
  }

  lemma SplicedValid(rs: seq<Region>, i: nat, ps: seq<Region>)
    requires ValidList(rs) && i < |rs| && ValidList(ps) && Within(ps, rs[i].base, rs[i].End())
    ensures ValidList(Spliced(rs, i, ps))
  {
    Joined(rs[..i], ps, rs[i].base);
    Joined(rs[..i] + ps, rs[i + 1..], rs[i].End());
  }

  lemma SplicedParts(rs: seq<Region>, i: nat, ps: seq<Region>)
    requires i < |rs|
    ensures Spliced(rs, i, ps)[..i + |ps|] == rs[..i] + ps
    ensures Spliced(rs, i, ps)[i + |ps|..] == rs[i + 1..]
  {
  }

  ghost predicate PageRange(lo: nat, hi: nat) {
    lo <= hi && lo % PAGE == 0 && hi % PAGE == 0
  }

  /** The first `i` regions are what the pass has made of the first `k` old ones. */
  ghost predicate CutSoFar(rs: seq<Region>, i: nat, was: seq<Region>, k: nat, lo: nat, hi: nat, id: nat) {
    && i <= |rs| && k <= |was| && PageRange(lo, hi) && ValidList(was) && ValidList(rs)
    && rs[..i] == CutAll(was[..k], lo, hi, id) && rs[i..] == was[k..]
  }

  lemma CutStep(rs: seq<Region>, i: nat, was: seq<Region>, k: nat, lo: nat, hi: nat, id: nat)
    requires CutSoFar(rs, i, was, k, lo, hi, id) && i < |rs|
    ensures k < |was|
    ensures var part := Cut(rs[i], lo, hi, id);
      CutSoFar(Spliced(rs, i, part), i + |part|, was, k + 1, lo, hi, id)
  {
    assert |rs[i..]| == |was[k..]| && rs[i..][0] == was[k..][0];
    var part := Cut(rs[i], lo, hi, id);
    CutValid(rs[i], lo, hi, id);
    SplicedValid(rs, i, part);
    SplicedParts(rs, i, part);
    assert rs[i + 1..] == rs[i..][1..] == was[k..][1..] == was[k + 1..];
    assert was[..k + 1][..k] == was[..k];
  }

  lemma CutDone(rs: seq<Region>, i: nat, was: seq<Region>, k: nat, lo: nat, hi: nat, id: nat)
    requires CutSoFar(rs, i, was, k, lo, hi, id) && i == |rs|
    ensures rs == CutAll(was, lo, hi, id)
  {
    assert |rs[i..]| == |was[k..]|;
    assert was[..k] == was && rs[..i] == rs;
  }

  ghost predicate ReprotectedSoFar(rs: seq<Region>, i: nat, was: seq<Region>, k: nat, lo: nat, hi: nat, prot: Prot, id: nat) {
    && i <= |rs| && k <= |was| && PageRange(lo, hi) && ValidList(was) && ValidList(rs)
    && rs[..i] == ReprotectAll(was[..k], lo, hi, prot, id) && rs[i..] == was[k..]
  }

  lemma ReprotectStep(rs: seq<Region>, i: nat, was: seq<Region>, k: nat, lo: nat, hi: nat, prot: Prot, id: nat)
    requires ReprotectedSoFar(rs, i, was, k, lo, hi, prot, id) && i < |rs|
    ensures k < |was|
    ensures var part := Reprotect(rs[i], lo, hi, prot, id);
      ReprotectedSoFar(Spliced(rs, i, part), i + |part|, was, k + 1, lo, hi, prot, id)
  {
    assert |rs[i..]| == |was[k..]| && rs[i..][0] == was[k..][0];
    var part := Reprotect(rs[i], lo, hi, prot, id);
    ReprotectValid(rs[i], lo, hi, prot, id);
    SplicedValid(rs, i, part);
    SplicedParts(rs, i, part);
    assert rs[i + 1..] == rs[i..][1..] == was[k..][1..] == was[k + 1..];
    assert was[..k + 1][..k] == was[..k];
  }

  lemma ReprotectDone(rs: seq<Region>, i: nat, was: seq<Region>, k: nat, lo: nat, hi: nat, prot: Prot, id: nat)
    requires ReprotectedSoFar(rs, i, was, k, lo, hi, prot, id) && i == |rs|
    ensures rs == ReprotectAll(was, lo, hi, prot, id)
  {
    assert |rs[i..]| == |was[k..]|;
    assert was[..k] == was && rs[..i] == rs;
  }

  /** The tail of a region that spans the end of the range is inserted right behind it. */
  lemma TailGoesNext(rs: seq<Region>, i: nat, hi: nat, id: nat)
    requires ValidList(rs) && i < |rs| && rs[i].base <= hi < rs[i].End()
    ensures Inserted(rs, Tail(rs[i], hi, id)) == rs[..i + 1] + [Tail(rs[i], hi, id)] + rs[i + 1..]
  {
    forall j | 0 <= j < i + 1 ensures rs[j].base <= hi {
      assert j < i ==> rs[j].End() <= rs[i].base;
    }
    InsertAtIs(rs, hi, i + 1);
  }

  // ----- whole runs -----

  datatype Call =
    | MapCall(addr: nat, size: nat, prot: Prot, fixed: bool, file: seq<byte>)
    | UnmapCall(addr: nat, size: nat)
    | ProtectCall(addr: nat, size: nat, prot: Prot)

  predicate WellFormedCall(c: Call) {
    c.MapCall? ==> |c.file| <= c.size
  }

  /** The effect of one call on the map, given the address it returned. */
  ghost function Effect(m: Contents, c: Call, res: Option<nat>): Contents {
    match c
    case MapCall(_, size, prot, _, file) => if res.None? then m else Mapped(m, res.value, AlignUp(size), prot, file)
    case UnmapCall(addr, size) => Without(m, AlignDown(addr), AlignDown(addr) + AlignUp(size))
    case ProtectCall(addr, size, prot) => Reprotected(m, AlignDown(addr), AlignDown(addr) + AlignUp(size), prot)
  }

  ghost function Replay(m: Contents, calls: seq<Call>, res: seq<Option<nat>>): Contents
    requires |calls| == |res|
  {
    if calls == [] then m
    else
      var n := |calls| - 1;
      Effect(Replay(m, calls[..n], res[..n]), calls[n], res[n])
  }

  /** Where the next map without an address is looked for: behind the last one that was not fixed. */
  ghost function Hint(start: nat, calls: seq<Call>, res: seq<Option<nat>>): nat
    requires |calls| == |res|
  {
    if calls == [] then start
    else
      var n := |calls| - 1;
      if calls[n].MapCall? && !calls[n].fixed && res[n].Some? then res[n].value + AlignUp(calls[n].size)
      else Hint(start, calls[..n], res[..n])
  }

  /** No protection call of size zero, the only one that can leave an empty region behind. */
  predicate NoEmptyProtect(calls: seq<Call>) {
    forall i :: 0 <= i < |calls| && calls[i].ProtectCall? ==> calls[i].size > 0
  }

  /**
   Where a call lands: a fixed mapping on the page it asks for, any other on free pages at
   or above its address, or above `hint` if it has none.  In a `tidy` space these are the
   first such pages.
   */
  ghost predicate Lands(m: Contents, hint: nat, tidy: bool, c: Call, res: Option<nat>) {
    match c
    case MapCall(addr, size, _, fixed, _) =>
      && (res.None? <==> size == 0)
      && (res.Some? ==> res.value % PAGE == 0)
      && (res.Some? && fixed ==> res.value <= addr < res.value + PAGE)
      && (res.Some? && !fixed ==>
            && (if addr == 0 then hint else addr) <= res.value && Free(m, res.value, AlignUp(size))
            && (tidy ==> forall x: nat :: (if addr == 0 then hint else addr) <= x < res.value && x % PAGE == 0 ==>
                  !Free(m, x, AlignUp(size))))
    case _ => res.None?
  }

  ghost predicate Free(m: Contents, a: nat, n: nat) {
    forall x: nat :: a <= x < a + n ==> x !in m
  }

  ghost predicate AllLand(m: Contents, start: nat, tidy: bool, calls: seq<Call>, res: seq<Option<nat>>)
    requires |calls| == |res|
  {
    calls == [] ||
    (var n := |calls| - 1;
     && AllLand(m, start, tidy, calls[..n], res[..n])
     && Lands(Replay(m, calls[..n], res[..n]), Hint(start, calls[..n], res[..n]),
          tidy && NoEmptyProtect(calls[..n]), calls[n], res[n]))
  }

  lemma NoConflictFree(rs: seq<Region>, a: nat, n: nat)
    requires ValidList(rs) && n > 0 && !Conflict(rs, a, n)
    ensures Free(Abs(rs), a, n)
  {
    ConflictExact(rs, a, n);
    forall x: nat | a <= x < a + n
      ensures View(rs, x).None?
    {
      assert !(a <= x < a + n && View(rs, x).Some?);
    }
  }

  lemma FirstFree(rs: seq<Region>, from: nat, a: nat, n: nat)
    requires ValidList(rs) && Tidy(rs) && n > 0 && forall x: nat :: AlignUp(from) <= x < a ==> Conflict(rs, x, n)
    ensures forall x: nat :: from <= x < a && x % PAGE == 0 ==> !Free(Abs(rs), x, n)
  {
    forall x: nat | from <= x < a && x % PAGE == 0
      ensures !Free(Abs(rs), x, n)
    {
      assert AlignUp(from) <= x;
      TidyConflict(rs, x, n);
    }
  }

  method Perform(ms: MemSpace, c: Call) returns (res: Option<nat>)
    requires ms.Valid() && WellFormedCall(c)
    modifies ms
    ensures ms.Valid() && Abs(ms.regions) == Effect(Abs(old(ms.regions)), c, res)
    ensures Lands(Abs(old(ms.regions)), old(ms.mmapNext), Tidy(old(ms.regions)), c, res)
    ensures ms.mmapNext == Hint(old(ms.mmapNext), [c], [res])
    ensures Tidy(old(ms.regions)) && NoEmptyProtect([c]) ==> Tidy(ms.regions)
  {
    res := None;
    assert [c][..0] == [] && [res][..0] == [];
    match c {
      case MapCall(addr, size, prot, fixed, file) =>
        res := ms.Mmap(addr, size, prot, fixed, file);
        if size > 0 && !fixed {
          NoConflictFree(old(ms.regions), res.value, AlignUp(size));
          if Tidy(old(ms.regions)) {
            FirstFree(old(ms.regions), if addr == 0 then old(ms.mmapNext) else addr, res.value, AlignUp(size));
          }
        }
      case UnmapCall(addr, size) =>
        ms.Munmap(addr, size);
      case ProtectCall(addr, size, prot) =>
        assert NoEmptyProtect([c]) ==> size > 0 by { assert [c][0] == c; }
        ms.Mprotect(addr, size, prot);
    }
    assert [res][..0] == [];
  }

  lemma HintNext(start: nat, calls: seq<Call>, res: seq<Option<nat>>, c: Call, r: Option<nat>)
    requires |calls| == |res|
    ensures Hint(start, calls + [c], res + [r]) == Hint(Hint(start, calls, res), [c], [r])
  {
    assert (calls + [c])[..|calls|] == calls && (res + [r])[..|res|] == res;
    assert [c][..0] == [] && [r][..0] == [];
  }

  lemma NoEmptyNext(calls: seq<Call>, c: Call)
    ensures NoEmptyProtect(calls + [c]) <==> NoEmptyProtect(calls) && NoEmptyProtect([c])
  {
    assert forall i :: 0 <= i < |calls| ==> (calls + [c])[i] == calls[i];
    assert (calls + [c])[|calls|] == c == [c][0];
  }

  lemma LandNext(m: Contents, start: nat, tidy: bool, calls: seq<Call>, res: seq<Option<nat>>, c: Call, r: Option<nat>)
    requires |calls| == |res| && AllLand(m, start, tidy, calls, res)
    requires Lands(Replay(m, calls, res), Hint(start, calls, res), tidy && NoEmptyProtect(calls), c, r)
    ensures AllLand(m, start, tidy, calls + [c], res + [r])
    ensures Replay(m, calls + [c], res + [r]) == Effect(Replay(m, calls, res), c, r)
  {
    assert (calls + [c])[..|calls|] == calls && (res + [r])[..|res|] == res;
  }

  lemma LandLess(m: Contents, hint: nat, tidy: bool, c: Call, res: Option<nat>, less: bool)
    requires Lands(m, hint, tidy, c, res) && (less ==> tidy)
    ensures Lands(m, hint, less, c, res)
  {
  }

  /** What a sequence of calls has come to. */
  ghost predicate RunSoFar(was: seq<Region>, start: nat, calls: seq<Call>, res: seq<Option<nat>>, rs: seq<Region>, hint: nat)
    requires |calls| == |res|
  {
    && Abs(rs) == Replay(Abs(was), calls, res) && AllLand(Abs(was), start, Tidy(was), calls, res)
    && hint == Hint(start, calls, res) && (Tidy(was) && NoEmptyProtect(calls) ==> Tidy(rs))
  }

  lemma RunNext(was: seq<Region>, start: nat, calls: seq<Call>, res: seq<Option<nat>>, rs: seq<Region>, hint: nat, c: Call,
                r: Option<nat>, now: seq<Region>, next: nat)
    requires |calls| == |res| && RunSoFar(was, start, calls, res, rs, hint)
    requires Abs(now) == Effect(Abs(rs), c, r) && Lands(Abs(rs), hint, Tidy(rs), c, r) && next == Hint(hint, [c], [r])
    requires Tidy(rs) && NoEmptyProtect([c]) ==> Tidy(now)
    ensures RunSoFar(was, start, calls + [c], res + [r], now, next)
  {
    LandLess(Abs(rs), hint, Tidy(rs), c, r, Tidy(was) && NoEmptyProtect(calls));
    LandNext(Abs(was), start, Tidy(was), calls, res, c, r);
    HintNext(start, calls, res, c, r);
    NoEmptyNext(calls, c);
  }

  method PerformNext(ms: MemSpace, ghost was: seq<Region>, ghost start: nat, ghost calls: seq<Call>,
                     res: seq<Option<nat>>, c: Call)
    returns (more: seq<Option<nat>>)
    requires ms.Valid() && WellFormedCall(c)
    requires |calls| == |res| && RunSoFar(was, start, calls, res, ms.regions, ms.mmapNext)
    modifies ms
    ensures ms.Valid() && |more| == |res| + 1
    ensures RunSoFar(was, start, calls + [c], more, ms.regions, ms.mmapNext)
  {
    ghost var rs, hint := ms.regions, ms.mmapNext;
    var r := Perform(ms, c);
    RunNext(was, start, calls, res, rs, hint, c, r, ms.regions, ms.mmapNext);
    more := res + [r];
  }

  /**
   Over any sequence of calls the list stays valid, the map is the calls' replay, every
   mapping lands where it should, and the hint is the end of the last map not fixed.
   */
  method Run(ms: MemSpace, calls: seq<Call>) returns (res: seq<Option<nat>>)
    requires ms.Valid() && forall i :: 0 <= i < |calls| ==> WellFormedCall(calls[i])
    modifies ms
    ensures ms.Valid() && |res| == |calls|
    ensures Abs(ms.regions) == Replay(Abs(old(ms.regions)), calls, res)
    ensures AllLand(Abs(old(ms.regions)), old(ms.mmapNext), Tidy(old(ms.regions)), calls, res)
    ensures ms.mmapNext == Hint(old(ms.mmapNext), calls, res)
  {
    res := [];
    var i := 0;
    ghost var was, start := ms.regions, ms.mmapNext;
    while i < |calls|
      invariant 0 <= i == |res| <= |calls| && ms.Valid()
      invariant RunSoFar(was, start, calls[..i], res, ms.regions, ms.mmapNext)
    {
      assert calls[..i + 1] == calls[..i] + [calls[i]];
      res := PerformNext(ms, was, start, calls[..i], res, calls[i]);
      i := i + 1;
    }
    assert calls[..i] == calls;
  }

  lemma CutEnd(rs: seq<Region>, r: Region, lo: nat, hi: nat, id: nat)
    requires (forall i :: 0 <= i < |rs| ==> ValidRegion(rs[i])) && ValidRegion(r) && lo <= hi
    ensures CutAll(rs + [r], lo, hi, id) == CutAll(rs, lo, hi, id) + Cut(r, lo, hi, id)
  {
    assert (rs + [r])[..|rs|] == rs;
  }

  lemma SplitInThree(r: Region, at: nat, id: nat)
    requires ValidRegion(r) && r.base < at < r.End() && at % PAGE == 0
    ensures ReprotectAll([r], at, at, r.prot, id) ==
      [Piece(r, r.base, at, r.prot, id), Piece(r, at, at, r.prot, id + 1), Piece(r, at, r.End(), r.prot, id + 2)]
  {
    assert [r][..0] == [];
  }

  lemma PartsValid(r: Region, at: nat, id: nat)
    requires ValidRegion(r) && r.base < at < r.End() && at % PAGE == 0
    ensures var x, y := Piece(r, r.base, at, r.prot, id), Piece(r, at, at, r.prot, id + 1);
      var z := Piece(r, at, r.End(), r.prot, id + 2);
      && ValidList([r]) && ValidList([x, y, z]) && ValidList([y, z])
      && ValidRegion(x) && ValidRegion(y) && ValidRegion(z)
  {
    var x, y := Piece(r, r.base, at, r.prot, id), Piece(r, at, at, r.prot, id + 1);
    var z := Piece(r, at, r.End(), r.prot, id + 2);
    PieceValid(r, r.base, at, r.prot, id);
    PieceValid(r, at, at, r.prot, id + 1);
    PieceValid(r, at, r.End(), r.prot, id + 2);
    TripleValid(x, y, z);
    PairValid(y, z);
  }

  lemma CutFirst(x: Region, y: Region, z: Region, id: nat)
    requires ValidRegion(x) && ValidRegion(y) && ValidRegion(z) && x.size > 0 && x.End() == y.base == z.base
    ensures CutAll([x, y, z], x.base, y.base, id) == [y, z]
  {
    CutEnd([], x, x.base, y.base, id);
    CutEnd([x], y, x.base, y.base, id);
    CutEnd([x, y], z, x.base, y.base, id);
    assert [] + [x] == [x] && [x] + [y] == [x, y] && [x, y] + [z] == [x, y, z];
  }

  lemma CutLast(y: Region, z: Region, id: nat)
    requires ValidRegion(y) && ValidRegion(z) && y.size == 0 < z.size && y.base == z.base
    ensures CutAll([y, z], z.base, z.End(), id) == [y]
  {
    CutEnd([], y, z.base, z.End(), id);
    CutEnd([y], z, z.base, z.End(), id);
    assert [] + [y] == [y] && [y] + [z] == [y, z];
  }

  lemma OnlyEmpty(y: Region, a: nat, n: nat)
    requires ValidRegion(y) && y.size == 0 && a < y.base < a + n
    ensures Free(Abs([y]), 0, a + n) && Conflict([y], a, n)
  {
    forall k: nat
      ensures View([y], k).None?
    {
      ViewOne(y, k);
    }
    assert [y][0] == y;
  }

  lemma EmptyLeft(x: Region, y: Region, z: Region, id: nat)
    requires ValidRegion(x) && ValidRegion(y) && ValidRegion(z) && ValidList([x, y, z]) && ValidList([y, z])
    requires x.size > 0 && y.size == 0 && z.size > 0 && x.End() == y.base == z.base
    ensures CutAll([x, y, z], x.base, z.base, id) == [y, z] && CutAll([y, z], z.base, z.End(), id + 1) == [y]
    ensures Free(Abs([y]), 0, z.End()) && Conflict([y], x.base, x.size + z.size)
  {
    CutFirst(x, y, z, id);
    CutLast(y, z, id + 1);
    OnlyEmpty(y, x.base, x.size + z.size);
  }

  /**
   A protection call of size zero inside a region, and unmapping on either side of it, leave
   an empty region: the whole range is free again, but something stands in the way of it.
   */
  lemma EmptyRegionStays(r: Region, at: nat, id: nat) returns (split: seq<Region>, front: seq<Region>, rest: seq<Region>)
    requires ValidRegion(r) && r.base < at < r.End() && at % PAGE == 0
    ensures ValidList([r]) && split == ReprotectAll([r], at, at, r.prot, id)
    ensures ValidList(split) && front == CutAll(split, r.base, at, id + 5)
    ensures ValidList(front) && rest == CutAll(front, at, r.End(), id + 6)
    ensures Free(Abs(rest), 0, r.End()) && Conflict(rest, r.base, r.size)
  {
    PartsValid(r, at, id);
    SplitInThree(r, at, id);
    split := ReprotectAll([r], at, at, r.prot, id);
    front := split[1..];
    rest := split[1..2];
    var x, y, z := split[0], split[1], split[2];
    PieceEnds(r, at, id, x, y, z);
    assert split == [x, y, z] && front == [y, z] && rest == [y];
    EmptyLeft(x, y, z, id + 5);
  }

  lemma PieceEnds(r: Region, at: nat, id: nat, x: Region, y: Region, z: Region)
    requires ValidRegion(r) && r.base < at < r.End()
    requires x == Piece(r, r.base, at, r.prot, id) && y == Piece(r, at, at, r.prot, id + 1)
    requires z == Piece(r, at, r.End(), r.prot, id + 2)
    ensures x.base == r.base && x.End() == at == y.base == z.base && y.size == 0 && z.End() == r.End()
    ensures x.size > 0 && z.size > 0 && x.size + z.size == r.size
  {
  }
}
