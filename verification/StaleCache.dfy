/**
 The cache across mapping changes.  The code flushes it only when a CPU is set up, so a
 change leaves old entries behind; this says exactly which of them stay right.
 */
module StaleCache {
  import opened Common
  import opened AddressSpace
  import opened Tlb

  /** The entry describes a page of region `i`. */
  ghost predicate EntryAt(e: Entry, rs: seq<Region>, i: nat) {
    && i < |rs| && e.tag % PAGE == 0 && rs[i].base <= e.tag && e.tag + PAGE <= rs[i].End()
    && Allows(rs[i].prot, e.prot) && e.host == rs[i].host.id && e.off == e.tag - rs[i].base
  }

  lemma HoldsAt(e: Entry, rs: seq<Region>)
    requires e.tag % PAGE == 0
    ensures EntryHolds(e, rs) <==> exists i: nat :: EntryAt(e, rs, i)
  {
    if EntryHolds(e, rs) {
      var i :| 0 <= i < |rs| && rs[i].base <= e.tag && e.tag + PAGE <= rs[i].End() &&
        Allows(rs[i].prot, e.prot) && e.host == rs[i].host.id && e.off == e.tag - rs[i].base;
      assert EntryAt(e, rs, i);
    }
  }

  /** The same by way of a region in the list. */
  lemma HoldsBy(e: Entry, rs: seq<Region>, r: Region)
    requires e.tag % PAGE == 0 && r in rs && r.base <= e.tag && e.tag + PAGE <= r.End()
    requires Allows(r.prot, e.prot) && e.host == r.host.id && e.off == e.tag - r.base
    ensures EntryHolds(e, rs)
  {
    var i :| 0 <= i < |rs| && rs[i] == r;
    assert EntryAt(e, rs, i);
    HoldsAt(e, rs);
  }

  // ----- unmapping -----

  lemma {:induction false} CutMemberIn(rs: seq<Region>, lo: nat, hi: nat, id: nat, i: nat, x: Region)
    requires lo <= hi && (forall k :: 0 <= k < |rs| ==> ValidRegion(rs[k])) && i < |rs|
    requires x in Cut(rs[i], lo, hi, id)
    ensures x in CutAll(rs, lo, hi, id)
    decreases |rs|
  {
    if i < |rs| - 1 {
      CutMemberIn(rs[..|rs| - 1], lo, hi, id, i, x);
    }
  }

  lemma {:induction false} CutMemberFrom(rs: seq<Region>, lo: nat, hi: nat, id: nat, x: Region) returns (i: nat)
    requires lo <= hi && forall k :: 0 <= k < |rs| ==> ValidRegion(rs[k])
    requires x in CutAll(rs, lo, hi, id)
    ensures i < |rs| && x in Cut(rs[i], lo, hi, id)
    decreases |rs|
  {
    var n := |rs| - 1;
    if x in CutAll(rs[..n], lo, hi, id) {
      i := CutMemberFrom(rs[..n], lo, hi, id, x);
    } else {
      i := n;
    }
  }

  /** A page keeps its entry if it lies before the cut, or its whole region lies behind it. */
  ghost predicate OutOfCut(r: Region, page: nat, lo: nat, hi: nat) {
    page + PAGE <= lo || hi <= r.base
  }

  lemma CutKeeps(e: Entry, rs: seq<Region>, i: nat, lo: nat, hi: nat, id: nat)
    requires ValidList(rs) && lo <= hi && EntryAt(e, rs, i) && OutOfCut(rs[i], e.tag, lo, hi)
    ensures EntryHolds(e, CutAll(rs, lo, hi, id))
  {
    var r := rs[i];
    var x := if r.End() <= lo || r.base >= hi then r else r.(size := lo - r.base);
    assert x in Cut(r, lo, hi, id);
    CutMemberIn(rs, lo, hi, id, i, x);
    HoldsBy(e, CutAll(rs, lo, hi, id), x);
  }

  lemma CutLoses(e: Entry, rs: seq<Region>, i: nat, lo: nat, hi: nat, id: nat)
    requires ValidList(rs) && OwnBuffers(rs, id) && lo <= hi && EntryAt(e, rs, i)
    requires EntryHolds(e, CutAll(rs, lo, hi, id))
    ensures OutOfCut(rs[i], e.tag, lo, hi)
  {
    var cut := CutAll(rs, lo, hi, id);
    HoldsAt(e, cut);
    var k: nat :| EntryAt(e, cut, k);
    var x := cut[k];
    assert x in cut;
    var j := CutMemberFrom(rs, lo, hi, id, x);
    CutHosts(rs[j], lo, hi, id, x);
    assert j == i;
  }

  /** A part with the old buffer is the region itself or its front. */
  lemma CutHosts(r: Region, lo: nat, hi: nat, id: nat, x: Region)
    requires ValidRegion(r) && lo <= hi && x in Cut(r, lo, hi, id)
    ensures x.host.id == id || x.host.id == r.host.id
    ensures x.host.id != id ==> x.End() <= lo || hi <= r.base
  {
  }

  /** After an unmapping an entry still holds exactly when its page is out of the cut. */
  lemma EntryAfterCut(e: Entry, rs: seq<Region>, i: nat, lo: nat, hi: nat, id: nat)
    requires ValidList(rs) && OwnBuffers(rs, id) && lo <= hi && EntryAt(e, rs, i)
    ensures EntryHolds(e, CutAll(rs, lo, hi, id)) <==> OutOfCut(rs[i], e.tag, lo, hi)
  {
    if OutOfCut(rs[i], e.tag, lo, hi) {
      CutKeeps(e, rs, i, lo, hi, id);
    } else if EntryHolds(e, CutAll(rs, lo, hi, id)) {
      CutLoses(e, rs, i, lo, hi, id);
    }
  }

  /** No cached page lies in the cut, or behind it in a region that the cut touches. */
  ghost predicate CacheOutOfCut(t: Cache, rs: seq<Region>, lo: nat, hi: nat) {
    forall k, i :: 0 <= k < TLB_SIZE && 0 <= i < |rs| && EntryAt(t[k], rs, i) ==> OutOfCut(rs[i], t[k].tag, lo, hi)
  }

  /** An unflushed cache stays coherent across an unmapping exactly when no cached page is touched so. */
  lemma CoherentAfterCut(t: Cache, rs: seq<Region>, lo: nat, hi: nat, id: nat)
    requires ValidList(rs) && OwnBuffers(rs, id) && lo <= hi && Coherent(t, rs)
    ensures Coherent(t, CutAll(rs, lo, hi, id)) <==> CacheOutOfCut(t, rs, lo, hi)
  {
    forall k: nat | k < TLB_SIZE && t[k].tag % PAGE == 0
      ensures exists i: nat :: EntryAt(t[k], rs, i)
    {
      assert EntryHolds(t[k], rs);
      HoldsAt(t[k], rs);
    }
    forall k: nat, i: nat | k < TLB_SIZE && EntryAt(t[k], rs, i)
      ensures EntryHolds(t[k], CutAll(rs, lo, hi, id)) <==> OutOfCut(rs[i], t[k].tag, lo, hi)
    {
      EntryAfterCut(t[k], rs, i, lo, hi, id);
    }
  }

  // ----- changing protection -----

  lemma {:induction false} ReprotectMemberIn(rs: seq<Region>, lo: nat, hi: nat, prot: Prot, id: nat, i: nat, x: Region)
    requires lo <= hi && (forall k :: 0 <= k < |rs| ==> ValidRegion(rs[k])) && i < |rs|
    requires x in Reprotect(rs[i], lo, hi, prot, id)
    ensures x in ReprotectAll(rs, lo, hi, prot, id)
    decreases |rs|
  {
    if i < |rs| - 1 {
      ReprotectMemberIn(rs[..|rs| - 1], lo, hi, prot, id, i, x);
    }
  }

  lemma {:induction false} ReprotectMemberFrom(rs: seq<Region>, lo: nat, hi: nat, prot: Prot, id: nat, x: Region) returns (i: nat)
    requires lo <= hi && forall k :: 0 <= k < |rs| ==> ValidRegion(rs[k])
    requires x in ReprotectAll(rs, lo, hi, prot, id)
    ensures i < |rs| && x in Reprotect(rs[i], lo, hi, prot, id)
    decreases |rs|
  {
    var n := |rs| - 1;
    if x in ReprotectAll(rs[..n], lo, hi, prot, id) {
      i := ReprotectMemberFrom(rs[..n], lo, hi, prot, id, x);
    } else {
      i := n;
    }
  }

  /** The region is untouched, or changed as a whole to something that still allows the entry. */
  ghost predicate KeptWhole(r: Region, lo: nat, hi: nat, prot: Prot, want: Prot) {
    r.End() <= lo || hi <= r.base || (lo <= r.base && r.End() <= hi && Allows(prot, want))
  }

  lemma ReprotectHosts(r: Region, lo: nat, hi: nat, prot: Prot, id: nat, x: Region, want: Prot)
    requires ValidRegion(r) && lo <= hi && x in Reprotect(r, lo, hi, prot, id)
    ensures x.host.id == r.host.id || id <= x.host.id
    ensures x.host.id < id && Allows(x.prot, want) ==> KeptWhole(r, lo, hi, prot, want)
  {
  }

  lemma ReprotectKeeps(e: Entry, rs: seq<Region>, i: nat, lo: nat, hi: nat, prot: Prot, id: nat)
    requires ValidList(rs) && lo <= hi && EntryAt(e, rs, i) && KeptWhole(rs[i], lo, hi, prot, e.prot)
    ensures EntryHolds(e, ReprotectAll(rs, lo, hi, prot, id))
  {
    var r := rs[i];
    var x := if r.End() <= lo || r.base >= hi then r else r.(prot := prot);
    assert x in Reprotect(r, lo, hi, prot, id);
    ReprotectMemberIn(rs, lo, hi, prot, id, i, x);
    HoldsBy(e, ReprotectAll(rs, lo, hi, prot, id), x);
  }

  lemma ReprotectLoses(e: Entry, rs: seq<Region>, i: nat, lo: nat, hi: nat, prot: Prot, id: nat)
    requires ValidList(rs) && OwnBuffers(rs, id) && lo <= hi && EntryAt(e, rs, i)
    requires EntryHolds(e, ReprotectAll(rs, lo, hi, prot, id))
    ensures KeptWhole(rs[i], lo, hi, prot, e.prot)
  {
    var now := ReprotectAll(rs, lo, hi, prot, id);
    HoldsAt(e, now);
    var k: nat :| EntryAt(e, now, k);
    var x := now[k];
    assert x in now;
    var j := ReprotectMemberFrom(rs, lo, hi, prot, id, x);
    ReprotectHosts(rs[j], lo, hi, prot, id, x, e.prot);
    assert j == i;
  }

  /** After a protection change an entry still holds exactly when its region was kept whole and still allows it. */
  lemma EntryAfterReprotect(e: Entry, rs: seq<Region>, i: nat, lo: nat, hi: nat, prot: Prot, id: nat)
    requires ValidList(rs) && OwnBuffers(rs, id) && lo <= hi && EntryAt(e, rs, i)
    ensures EntryHolds(e, ReprotectAll(rs, lo, hi, prot, id)) <==> KeptWhole(rs[i], lo, hi, prot, e.prot)
  {
    if KeptWhole(rs[i], lo, hi, prot, e.prot) {
      ReprotectKeeps(e, rs, i, lo, hi, prot, id);
    } else if EntryHolds(e, ReprotectAll(rs, lo, hi, prot, id)) {
      ReprotectLoses(e, rs, i, lo, hi, prot, id);
    }
  }

  ghost predicate CacheKeptWhole(t: Cache, rs: seq<Region>, lo: nat, hi: nat, prot: Prot) {
    forall k, i :: 0 <= k < TLB_SIZE && 0 <= i < |rs| && EntryAt(t[k], rs, i) ==>
      KeptWhole(rs[i], lo, hi, prot, t[k].prot)
  }

  lemma CoherentAfterReprotect(t: Cache, rs: seq<Region>, lo: nat, hi: nat, prot: Prot, id: nat)
    requires ValidList(rs) && OwnBuffers(rs, id) && lo <= hi && Coherent(t, rs)
    ensures Coherent(t, ReprotectAll(rs, lo, hi, prot, id)) <==> CacheKeptWhole(t, rs, lo, hi, prot)
  {
    forall k: nat | k < TLB_SIZE && t[k].tag % PAGE == 0
      ensures exists i: nat :: EntryAt(t[k], rs, i)
    {
      assert EntryHolds(t[k], rs);
      HoldsAt(t[k], rs);
    }
    forall k: nat, i: nat | k < TLB_SIZE && EntryAt(t[k], rs, i)
      ensures EntryHolds(t[k], ReprotectAll(rs, lo, hi, prot, id)) <==> KeptWhole(rs[i], lo, hi, prot, t[k].prot)
    {
      EntryAfterReprotect(t[k], rs, i, lo, hi, prot, id);
    }
  }

  // ----- a page that stays mapped and goes stale -----

  /**
   Behind a cut inside its region a page stays mapped with the same bytes, but in a new
   buffer: the cache still hands out the old one.
   */
  lemma TailGoesStale(t: Cache, rs: seq<Region>, i: nat, lo: nat, hi: nat, id: nat, e: Entry)
    requires Mapping(rs) && lo <= hi && lo % PAGE == 0 && hi % PAGE == 0
    requires EntryAt(e, rs, i) && e == t[Index(e.tag)] && rs[i].base < hi <= e.tag && rs[i].host.id < id
    ensures Stale(t, CutAll(rs, lo, hi, id), e.tag, e.prot, Ptr(rs[i].host.id, e.tag - rs[i].base), Ptr(id, e.tag - hi))
    ensures View(CutAll(rs, lo, hi, id), e.tag) == View(rs, e.tag)
  {
    TailMoves(rs, i, lo, hi, id, e.tag, e.prot);
    OwnBufferStays(t, rs, CutAll(rs, lo, hi, id), i, e, Ptr(id, e.tag - hi));
  }

  /** At a page the cache answers with one buffer and the walk with another. */
  ghost predicate Stale(t: Cache, rs: seq<Region>, page: u64, want: Prot, old0: Ptr, now: Ptr) {
    && CpuPtr(t, rs, Access(page, 1, want)).0 == Some(old0) && Translate(rs, page, 1, want) == Some(now)
    && old0.host != now.host
  }

  lemma StaysStale(t: Cache, rs: seq<Region>, e: Entry, now: Ptr)
    requires e == t[Index(e.tag)] && e.tag % PAGE == 0 && Translate(rs, e.tag, 1, e.prot) == Some(now) && e.host != now.host
    ensures Stale(t, rs, e.tag, e.prot, Ptr(e.host, e.off), now)
  {
    OldAnswers(t, rs, e.tag, e.prot);
  }

  /** The entry of a region answers with the region's buffer, whatever the walk finds now. */
  lemma OwnBufferStays(t: Cache, rs: seq<Region>, after: seq<Region>, i: nat, e: Entry, now: Ptr)
    requires EntryAt(e, rs, i) && e == t[Index(e.tag)] && rs[i].host.id < now.host
    requires Translate(after, e.tag, 1, e.prot) == Some(now)
    ensures Stale(t, after, e.tag, e.prot, Ptr(rs[i].host.id, e.tag - rs[i].base), now)
  {
    StaysStale(t, after, e, now);
  }

  /** The walk finds the new buffer, with the same byte in it. */
  lemma TailMoves(rs: seq<Region>, i: nat, lo: nat, hi: nat, id: nat, page: u64, want: Prot)
    requires Mapping(rs) && lo <= hi && lo % PAGE == 0 && hi % PAGE == 0 && i < |rs| && Allows(rs[i].prot, want)
    requires rs[i].base < hi <= page && page + PAGE <= rs[i].End()
    ensures Translate(CutAll(rs, lo, hi, id), page, 1, want) == Some(Ptr(id, page - hi))
    ensures View(CutAll(rs, lo, hi, id), page) == View(rs, page)
  {
    CutAllView(rs, lo, hi, id, page);
    TailTranslates(rs, i, lo, hi, id, page, want);
  }

  lemma OldAnswers(t: Cache, rs: seq<Region>, page: u64, want: Prot)
    requires page % PAGE == 0 && t[Index(page)].tag == page && t[Index(page)].prot == want
    ensures CpuPtr(t, rs, Access(page, 1, want)).0 == Some(Ptr(t[Index(page)].host, t[Index(page)].off))
  {
    FirstByteHits(t, page, want);
    HitAnswers(t, rs, Access(page, 1, want), Ptr(t[Index(page)].host, t[Index(page)].off));
  }

  lemma HitAnswers(t: Cache, rs: seq<Region>, q: Access, p: Ptr)
    requires Lookup(t, q.addr, q.size, q.want) == Some(p)
    ensures CpuPtr(t, rs, q).0 == Some(p)
  {
  }

  lemma TailTranslates(rs: seq<Region>, i: nat, lo: nat, hi: nat, id: nat, page: u64, want: Prot)
    requires ValidList(rs) && lo <= hi && lo % PAGE == 0 && hi % PAGE == 0 && i < |rs| && Allows(rs[i].prot, want)
    requires rs[i].base < hi <= page && page + 1 < rs[i].End() < TWO64
    ensures Translate(CutAll(rs, lo, hi, id), page, 1, want) == Some(Ptr(id, page - hi))
  {
    var cut, x := CutAll(rs, lo, hi, id), Tail(rs[i], hi, id);
    assert x in Cut(rs[i], lo, hi, id);
    CutMemberIn(rs, lo, hi, id, i, x);
    CutAllValid(rs, lo, hi, id);
    var k :| 0 <= k < |cut| && cut[k] == x;
    CoveringAnswers(cut, k, page, want);
  }

  lemma CoveringAnswers(rs: seq<Region>, k: nat, a: u64, want: Prot)
    requires ValidList(rs) && k < |rs| && rs[k].base <= a < rs[k].End() && Allows(rs[k].prot, want) && a + 1 < TWO64
    ensures Translate(rs, a, 1, want) == Some(Ptr(rs[k].host.id, a - rs[k].base))
  {
    assert Covers(rs[k], a, 1);
    CoveredOnce(rs, k, a, 1);
    WalkFinds(rs, k, a, 1, want);
  }
}
