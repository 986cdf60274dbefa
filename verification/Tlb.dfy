/**
 Address translation and the 16-entry direct-mapped cache in front of it.  The
 cache keeps no lock and sees no mapping change: between two flushes, what it
 answers must be what the region walk would answer.
 */
module Tlb {
  import opened Common
  import opened AddressSpace

  // ----- the region walk -----

  /** A host pointer: a buffer and a position in it. */
  datatype Ptr = Ptr(host: nat, off: int)

  predicate Covers(r: Region, addr: u64, size: u64) {
    addr >= r.base && size <= r.size && addr - r.base <= r.size - size
  }

  predicate Allows(have: Prot, want: Prot) {
    have & want == want
  }

  function Walk(rs: seq<Region>, addr: u64, size: u64, want: Prot): Option<Ptr> {
    if rs == [] then None
    else if Covers(rs[0], addr, size) then
      if Allows(rs[0].prot, want) then Some(Ptr(rs[0].host.id, addr - rs[0].base)) else None
    else Walk(rs[1..], addr, size, want)
  }

  /** `mem_translate`. */
  function Translate(rs: seq<Region>, addr: u64, size: u64, want: Prot): Option<Ptr> {
    if size != 0 && Add64(addr, size) < addr then None else Walk(rs, addr, size, want)
  }

  method TranslateLoop(rs: seq<Region>, addr: u64, size: u64, want: Prot) returns (p: Option<Ptr>)
    ensures p == Translate(rs, addr, size, want)
  {
    if size != 0 && Add64(addr, size) < addr {
      return None;
    }
    var i := 0;
    assert rs[0..] == rs;
    while i < |rs|
      invariant 0 <= i <= |rs| && Walk(rs, addr, size, want) == Walk(rs[i..], addr, size, want)
    {
      assert rs[i..][1..] == rs[i + 1..];
      if Covers(rs[i], addr, size) {
        return if Allows(rs[i].prot, want) then Some(Ptr(rs[i].host.id, addr - rs[i].base)) else None;
      }
      i := i + 1;
    }
    p := None;
  }

  /** Mapped addresses stay below the last page, so region ends do not wrap. */
  ghost predicate Mapping(rs: seq<Region>) {
    ValidList(rs) && forall i :: 0 <= i < |rs| ==> rs[i].End() < TWO64
  }

  /** A nonempty access is covered by at most one region, and that one answers. */
  lemma {:induction false} WalkFinds(rs: seq<Region>, i: nat, addr: u64, size: u64, want: Prot)
    requires ValidList(rs) && i < |rs| && Covers(rs[i], addr, size)
    requires forall j :: 0 <= j < i ==> !Covers(rs[j], addr, size)
    ensures Walk(rs, addr, size, want) ==
      if Allows(rs[i].prot, want) then Some(Ptr(rs[i].host.id, addr - rs[i].base)) else None
    decreases i
  {
    if i > 0 {
      assert !Covers(rs[0], addr, size);
      forall j | 0 <= j < i - 1 ensures !Covers(rs[1..][j], addr, size) {
        assert rs[1..][j] == rs[j + 1];
      }
      WalkFinds(rs[1..], i - 1, addr, size, want);
    }
  }

  lemma {:induction false} WalkFound(rs: seq<Region>, addr: u64, size: u64, want: Prot) returns (i: nat)
    requires Walk(rs, addr, size, want).Some?
    ensures i < |rs| && Covers(rs[i], addr, size) && Allows(rs[i].prot, want)
    ensures Walk(rs, addr, size, want) == Some(Ptr(rs[i].host.id, addr - rs[i].base))
    decreases |rs|
  {
    if Covers(rs[0], addr, size) {
      i := 0;
    } else {
      i := WalkFound(rs[1..], addr, size, want);
      i := i + 1;
    }
  }

  /** An access that lies in pages, or has a first byte, has one possible region. */
  lemma CoveredOnce(rs: seq<Region>, i: nat, addr: u64, size: u64)
    requires ValidList(rs) && i < |rs| && Covers(rs[i], addr, size)
    requires size > 0 || addr % PAGE != 0
    ensures forall j :: 0 <= j < |rs| && j != i ==> !Covers(rs[j], addr, size)
  {
    forall j | 0 <= j < |rs| && j != i ensures !Covers(rs[j], addr, size) {
      assert j < i ==> rs[j].End() <= rs[i].base;
      assert i < j ==> rs[i].End() <= rs[j].base;
    }
  }

  // ----- the cache -----

  const TLB_SIZE: nat := 16

  datatype Entry = Entry(tag: u64, host: nat, off: int, prot: Prot)

  const NO_TAG: u64 := TWO64 - 1

  function PageOf(a: u64): (p: u64)
    ensures p % PAGE == 0 && p <= a < p + PAGE
  {
    a - a % PAGE
  }

  function Index(page: u64): (i: nat)
    ensures i < TLB_SIZE
  {
    page / PAGE % TLB_SIZE
  }

  type Cache = t: seq<Entry> | |t| == TLB_SIZE witness seq(TLB_SIZE, _ => Entry(NO_TAG, 0, 0, 0))

  /** `cpu_tlb_flush`: only the tags are overwritten. */
  function Flushed(t: Cache): Cache {
    seq(TLB_SIZE, k requires 0 <= k < TLB_SIZE => t[k].(tag := NO_TAG))
  }

  /** `cpu_tlb_lookup`. */
  function Lookup(t: Cache, addr: u64, size: u64, want: Prot): Option<Ptr> {
    var page := PageOf(addr);
    if PageOf(Wrap64(addr + size - 1)) != page then None
    else
      var e := t[Index(page)];
      if e.tag == page && Allows(e.prot, want) then Some(Ptr(e.host, e.off + (addr - page))) else None
  }

  /** `cpu_tlb_insert`. */
  function Insert(t: Cache, addr: u64, p: Ptr, prot: Prot): Cache {
    var page := PageOf(addr);
    t[Index(page) := Entry(page, p.host, p.off - (addr - page), prot)]
  }

  datatype Access = Access(addr: u64, size: u64, want: Prot)

  /** `cpu_mem_ptr` and the typed accessors: try the cache, else walk and fill. */
  function CpuPtr(t: Cache, rs: seq<Region>, q: Access): (Option<Ptr>, Cache) {
    match Lookup(t, q.addr, q.size, q.want)
    case Some(p) => (Some(p), t)
    case None =>
      match Translate(rs, q.addr, q.size, q.want)
      case None => (None, t)
      case Some(p) => (Some(p), Insert(t, q.addr, p, q.want))
  }

  /** An entry with a page tag describes a page of a region that allows its protection. */
  ghost predicate EntryHolds(e: Entry, rs: seq<Region>) {
    e.tag % PAGE == 0 ==>
      exists i :: 0 <= i < |rs| && rs[i].base <= e.tag && e.tag + PAGE <= rs[i].End() &&
        Allows(rs[i].prot, e.prot) && e.host == rs[i].host.id && e.off == e.tag - rs[i].base
  }

  ghost predicate Coherent(t: Cache, rs: seq<Region>) {
    forall k :: 0 <= k < TLB_SIZE ==> EntryHolds(t[k], rs)
  }

  lemma FlushedCoherent(t: Cache, rs: seq<Region>)
    ensures Coherent(Flushed(t), rs)
  {
  }

  /**
   The accesses for which the cache can be trusted: not an empty access at a page
   boundary, and not one so long that its last byte wraps into its own first page
   (no mapping reaches the topmost page, so there it does not matter).
   */
  predicate Safe(q: Access) {
    if q.size == 0 then q.addr % PAGE != 0
    else
      || q.addr + q.size <= TWO64
      || PageOf(Wrap64(q.addr + q.size - 1)) != PageOf(q.addr)
      || PageOf(q.addr) + PAGE == TWO64
  }

  lemma AllowsTransitive(a: Prot, b: Prot, c: Prot)
    requires Allows(a, b) && Allows(b, c)
    ensures Allows(a, c)
  {
  }

  lemma HitIsTranslation(t: Cache, rs: seq<Region>, q: Access)
    requires Mapping(rs) && Coherent(t, rs) && Safe(q) && Lookup(t, q.addr, q.size, q.want).Some?
    ensures Lookup(t, q.addr, q.size, q.want) == Translate(rs, q.addr, q.size, q.want)
  {
    var page := PageOf(q.addr);
    var e := t[Index(page)];
    assert EntryHolds(e, rs);
    var i :| 0 <= i < |rs| && rs[i].base <= e.tag && e.tag + PAGE <= rs[i].End() &&
      Allows(rs[i].prot, e.prot) && e.host == rs[i].host.id && e.off == e.tag - rs[i].base;
    AllowsTransitive(rs[i].prot, e.prot, q.want);
    assert q.addr + q.size <= page + PAGE;
    assert Covers(rs[i], q.addr, q.size);
    CoveredOnce(rs, i, q.addr, q.size);
    WalkFinds(rs, i, q.addr, q.size, q.want);
  }

  /** The page of a byte inside a region lies inside it. */
  lemma PageInside(rs: seq<Region>, i: nat, addr: u64)
    requires ValidList(rs) && i < |rs| && rs[i].base <= addr < rs[i].End()
    ensures rs[i].base <= PageOf(addr) && PageOf(addr) + PAGE <= rs[i].End()
  {
  }

  lemma FilledEntryHolds(rs: seq<Region>, q: Access)
    requires Mapping(rs) && Safe(q) && Translate(rs, q.addr, q.size, q.want).Some?
    ensures var p := Translate(rs, q.addr, q.size, q.want).value;
      EntryHolds(Entry(PageOf(q.addr), p.host, p.off - (q.addr - PageOf(q.addr)), q.want), rs)
  {
    var i := WalkFound(rs, q.addr, q.size, q.want);
    assert q.addr < rs[i].End();
    PageInside(rs, i, q.addr);
  }

  lemma FillCoherent(t: Cache, rs: seq<Region>, q: Access)
    requires Mapping(rs) && Coherent(t, rs) && Safe(q) && Translate(rs, q.addr, q.size, q.want).Some?
    ensures Coherent(Insert(t, q.addr, Translate(rs, q.addr, q.size, q.want).value, q.want), rs)
  {
    FilledEntryHolds(rs, q);
  }

  /** One access: the answer is the walk's, and the cache stays coherent. */
  lemma CpuPtrExact(t: Cache, rs: seq<Region>, q: Access)
    requires Mapping(rs) && Coherent(t, rs) && Safe(q)
    ensures CpuPtr(t, rs, q).0 == Translate(rs, q.addr, q.size, q.want)
    ensures Coherent(CpuPtr(t, rs, q).1, rs)
  {
    if Lookup(t, q.addr, q.size, q.want).Some? {
      HitIsTranslation(t, rs, q);
    } else if Translate(rs, q.addr, q.size, q.want).Some? {
      FillCoherent(t, rs, q);
    }
  }

  /** Answers of a run of accesses through the cache. */
  function Answers(t: Cache, rs: seq<Region>, qs: seq<Access>): seq<Option<Ptr>>
    decreases |qs|
  {
    if qs == [] then []
    else
      var (p, t') := CpuPtr(t, rs, qs[0]);
      [p] + Answers(t', rs, qs[1..])
  }

  /**
   Between mapping changes, any run of accesses starting from a flush gets exactly the
   pointers and faults that the region walk gives, one by one.
   */
  lemma RunIsTranslation(t: Cache, rs: seq<Region>, qs: seq<Access>, k: nat)
    requires Mapping(rs) && k < |qs| && forall i :: 0 <= i < |qs| ==> Safe(qs[i])
    ensures |Answers(Flushed(t), rs, qs)| == |qs|
    ensures Answers(Flushed(t), rs, qs)[k] == Translate(rs, qs[k].addr, qs[k].size, qs[k].want)
  {
    FlushedCoherent(t, rs);
    CoherentRun(Flushed(t), rs, qs, k);
  }

  lemma {:induction false} CoherentRun(t: Cache, rs: seq<Region>, qs: seq<Access>, k: nat)
    requires Mapping(rs) && Coherent(t, rs) && k < |qs| && forall i :: 0 <= i < |qs| ==> Safe(qs[i])
    ensures |Answers(t, rs, qs)| == |qs|
    ensures Answers(t, rs, qs)[k] == Translate(rs, qs[k].addr, qs[k].size, qs[k].want)
    decreases |qs|
  {
    CpuPtrExact(t, rs, qs[0]);
    var t' := CpuPtr(t, rs, qs[0]).1;
    if |qs| > 1 {
      CoherentRun(t', rs, qs[1..], if k > 0 then k - 1 else 0);
    } else {
      assert Answers(t', rs, qs[1..]) == [];
    }
  }

  /** An access that is answered right, and leaves the cache right, whatever is mapped or cached. */
  ghost predicate Trusted(q: Access) {
    forall t: Cache, rs: seq<Region> :: Mapping(rs) && Coherent(t, rs) ==>
      && CpuPtr(t, rs, q).0 == Translate(rs, q.addr, q.size, q.want)
      && Coherent(CpuPtr(t, rs, q).1, rs)
  }

  function Zeros(n: nat): seq<byte> {
    seq(n, _ => 0)
  }

  /**
   An empty access at a page boundary can file a neighbour's buffer under the page: the
   next one-byte access there hits, although nothing is mapped and the walk faults.
   */
  lemma EmptyAccessSpoils(q: Access) returns (t: Cache, rs: seq<Region>)
    requires q.size == 0 && q.addr % PAGE == 0
    ensures Mapping(rs) && Coherent(t, rs) && !Coherent(CpuPtr(t, rs, q).1, rs)
    ensures CpuPtr(CpuPtr(t, rs, q).1, rs, q.(size := 1)).0.Some? && Translate(rs, q.addr, 1, q.want).None?
  {
    var below := if q.addr == 0 then 0 else PAGE;
    var r := Region(q.addr - below, below, q.want, Host(0, Zeros(below)));
    rs := [r];
    t := seq(TLB_SIZE, _ => Entry(NO_TAG, 0, 0, 0));
    var spoilt := Insert(t, q.addr, Ptr(0, below), q.want);
    EmptyAccessFills(t, r, q);
    NothingHolds(spoilt, q.addr, rs);
    SpoiltHits(t, rs, q, Ptr(0, below));
    EndNotCovered(r, q.addr, q.want);
  }

  lemma SpoiltHits(t: Cache, rs: seq<Region>, q: Access, p: Ptr)
    requires q.addr % PAGE == 0
    ensures CpuPtr(Insert(t, q.addr, p, q.want), rs, q.(size := 1)).0.Some?
  {
    FirstByteHits(Insert(t, q.addr, p, q.want), q.addr, q.want);
  }

  lemma EmptyAccessFills(t: Cache, r: Region, q: Access)
    requires q.size == 0 && q.addr % PAGE == 0 && r.base + r.size == q.addr && r.prot == q.want
    requires forall k :: 0 <= k < TLB_SIZE ==> t[k].tag == NO_TAG
    ensures CpuPtr(t, [r], q).1 == Insert(t, q.addr, Ptr(r.host.id, r.size), q.want)
  {
    assert PageOf(Wrap64(q.addr + q.size - 1)) != q.addr;
    EndReached(r, q.addr, q.want);
  }

  /** An empty access right behind a region is answered with a pointer past its end. */
  lemma EndReached(r: Region, addr: u64, want: Prot)
    requires r.base + r.size == addr && r.prot == want
    ensures Translate([r], addr, 0, want) == Some(Ptr(r.host.id, r.size))
  {
    assert Allows(want, want);
  }

  lemma NothingHolds(t: Cache, page: u64, rs: seq<Region>)
    requires page % PAGE == 0 && t[Index(page)].tag == page && forall i :: 0 <= i < |rs| ==> rs[i].End() <= page
    ensures !Coherent(t, rs)
  {
    assert !EntryHolds(t[Index(page)], rs);
  }

  lemma FirstByteHits(t: Cache, page: u64, want: Prot)
    requires page % PAGE == 0 && t[Index(page)].tag == page && t[Index(page)].prot == want
    ensures Lookup(t, page, 1, want) == Some(Ptr(t[Index(page)].host, t[Index(page)].off))
  {
    assert Wrap64(page + 1 - 1) == page && Allows(want, want);
  }

  lemma EndNotCovered(r: Region, addr: u64, want: Prot)
    requires r.base + r.size == addr
    ensures Walk([r], addr, 1, want).None?
  {
    assert [r][1..] == [];
  }

  /** An access that wraps into its own page can hit although the walk rejects it. */
  lemma WrappedAccessHits(q: Access) returns (t: Cache, rs: seq<Region>)
    requires q.size > 0 && !Safe(q)
    ensures Mapping(rs) && Coherent(t, rs)
    ensures CpuPtr(t, rs, q).0.Some? && Translate(rs, q.addr, q.size, q.want).None?
  {
    var page := PageOf(q.addr);
    rs := [Region(page, PAGE, q.want, Host(0, Zeros(PAGE)))];
    var empty: Cache := seq(TLB_SIZE, _ => Entry(NO_TAG, 0, 0, 0));
    var e := Entry(page, 0, 0, q.want);
    assert Allows(q.want, q.want);
    assert EntryHolds(e, rs) by { assert rs[0].base <= e.tag; }
    t := empty[Index(page) := e];
  }

  /** The cache is exact for an access precisely when the access is safe. */
  lemma TrustedExactlyWhenSafe(q: Access)
    ensures Trusted(q) <==> Safe(q)
  {
    if Safe(q) {
      forall t: Cache, rs: seq<Region> | Mapping(rs) && Coherent(t, rs)
        ensures CpuPtr(t, rs, q).0 == Translate(rs, q.addr, q.size, q.want)
        ensures Coherent(CpuPtr(t, rs, q).1, rs)
      {
        CpuPtrExact(t, rs, q);
      }
    } else if q.size == 0 {
      var t, rs := EmptyAccessSpoils(q);
    } else {
      var t, rs := WrappedAccessHits(q);
    }
  }

  // ----- the cache as the CPU state holds it -----

  class CpuTlb {
    const entries: array<Entry>

    ghost predicate Valid() {
      entries.Length == TLB_SIZE
    }

    constructor ()
      ensures Valid() && fresh(entries) && forall rs :: Coherent(entries[..], rs)
    {
      entries := new Entry[TLB_SIZE](_ => Entry(NO_TAG, 0, 0, 0));
    }

    /** `cpu_tlb_flush`. */
    method Flush()
      requires Valid()
      modifies entries
      ensures entries[..] == Flushed(old(entries[..]))
    {
      for i := 0 to TLB_SIZE
        invariant forall k :: 0 <= k < i ==> entries[k] == old(entries[k]).(tag := NO_TAG)
        invariant forall k :: i <= k < TLB_SIZE ==> entries[k] == old(entries[k])
      {
        entries[i] := entries[i].(tag := NO_TAG);
      }
    }

    /** `cpu_mem_ptr`: the cached pointer, or the walk's with the entry filled in. */
    method MemPtr(rs: seq<Region>, q: Access) returns (p: Option<Ptr>)
      requires Valid()
      modifies entries
      ensures p == CpuPtr(old(entries[..]), rs, q).0
      ensures entries[..] == CpuPtr(old(entries[..]), rs, q).1
    {
      p := Lookup(entries[..], q.addr, q.size, q.want);
      if p.None? {
        p := TranslateLoop(rs, q.addr, q.size, q.want);
        if p.Some? {
          var page := PageOf(q.addr);
          entries[Index(page)] := Entry(page, p.value.host, p.value.off - (q.addr - page), q.want);
        }
      }
    }
  }
}
