/**
 Guest loads and stores through the cache.  The pointers it hands out alias the
 region buffers; a run of loads and stores through them behaves as one on the
 plain map from address to byte.
 */
module GuestAccess {
  import opened Common
  import opened AddressSpace
  import opened MemSpace
  import opened Tlb

  const MEM_READ: Prot := 1
  const MEM_WRITE: Prot := 2

  // ----- memory behind a pointer -----

  /** Index of the region that owns buffer `id`, or |rs|. */
  function Owner(rs: seq<Region>, id: nat): (i: nat)
    ensures i <= |rs|
  {
    if rs == [] || rs[0].host.id == id then 0 else 1 + Owner(rs[1..], id)
  }

  function LoadAt(rs: seq<Region>, p: Ptr, n: nat): seq<byte> {
    var i := Owner(rs, p.host);
    if i < |rs| && 0 <= p.off && p.off + n <= |rs[i].host.bytes| then rs[i].host.bytes[p.off..p.off + n] else []
  }

  /** A region with `data` written into its buffer at `off`. */
  function Poked(r: Region, off: nat, data: seq<byte>): Region
    requires off + |data| <= |r.host.bytes|
  {
    r.(host := r.host.(bytes := Patch(r.host.bytes, off, data)))
  }

  function StoreAt(rs: seq<Region>, p: Ptr, data: seq<byte>): (r: seq<Region>)
    ensures |r| == |rs|
  {
    var i := Owner(rs, p.host);
    if i < |rs| && 0 <= p.off && p.off + |data| <= |rs[i].host.bytes|
    then rs[i := Poked(rs[i], p.off, data)]
    else rs
  }

  lemma {:induction false} OwnerIs(rs: seq<Region>, i: nat, next: nat)
    requires OwnBuffers(rs, next) && i < |rs|
    ensures Owner(rs, rs[i].host.id) == i
    decreases i
  {
    if i > 0 {
      OwnerIs(rs[1..], i - 1, next);
    }
  }

  /** Same regions, same buffers, possibly different bytes. */
  ghost predicate SameShape(a: seq<Region>, b: seq<Region>) {
    |a| == |b| && forall i :: 0 <= i < |a| ==>
      && a[i].base == b[i].base && a[i].size == b[i].size && a[i].prot == b[i].prot
      && a[i].host.id == b[i].host.id && |a[i].host.bytes| == |b[i].host.bytes|
  }

  lemma ShapeKeeps(a: seq<Region>, b: seq<Region>, t: Cache, next: nat)
    requires SameShape(a, b) && Mapping(a) && OwnBuffers(a, next) && Coherent(t, a)
    ensures Mapping(b) && OwnBuffers(b, next) && Coherent(t, b)
  {
    forall k | 0 <= k < TLB_SIZE ensures EntryHolds(t[k], b) {
      assert EntryHolds(t[k], a);
      if t[k].tag % PAGE == 0 {
        var e := t[k];
        var i :| 0 <= i < |a| && a[i].base <= e.tag && e.tag + PAGE <= a[i].End() &&
          Allows(a[i].prot, e.prot) && e.host == a[i].host.id && e.off == e.tag - a[i].base;
        assert b[i].base <= e.tag;
      }
    }
  }

  /** A translated pointer reads the bytes that the map has at the guest address. */
  lemma LoadIsMap(rs: seq<Region>, next: nat, addr: u64, n: u64, want: Prot, k: nat)
    requires Mapping(rs) && OwnBuffers(rs, next) && Translate(rs, addr, n, want).Some? && k < n
    ensures var data := LoadAt(rs, Translate(rs, addr, n, want).value, n);
      && |data| == n && View(rs, addr + k).Some?
      && View(rs, addr + k).value.data == data[k] && Allows(View(rs, addr + k).value.prot, want)
  {
    var i := LoadLands(rs, next, addr, n, want);
    ViewInside(rs, i, addr + k);
  }

  /** Where a translated load reads. */
  lemma LoadLands(rs: seq<Region>, next: nat, addr: u64, n: u64, want: Prot) returns (i: nat)
    requires ValidList(rs) && OwnBuffers(rs, next) && Translate(rs, addr, n, want).Some?
    ensures i < |rs| && rs[i].base <= addr && addr + n <= rs[i].End() <= rs[i].base + |rs[i].host.bytes|
    ensures Allows(rs[i].prot, want)
    ensures LoadAt(rs, Translate(rs, addr, n, want).value, n) == rs[i].host.bytes[addr - rs[i].base..addr - rs[i].base + n]
  {
    i := WalkFound(rs, addr, n, want);
    OwnerIs(rs, i, next);
  }

  /** Where a translated store lands. */
  lemma StoreLands(rs: seq<Region>, next: nat, addr: u64, data: seq<byte>) returns (i: nat)
    requires OwnBuffers(rs, next) && |data| < TWO64 && Translate(rs, addr, |data|, MEM_WRITE).Some? && ValidList(rs)
    ensures i < |rs| && rs[i].base <= addr && addr + |data| <= rs[i].End() <= rs[i].base + |rs[i].host.bytes|
    ensures StoreAt(rs, Translate(rs, addr, |data|, MEM_WRITE).value, data) ==
      rs[i := Poked(rs[i], addr - rs[i].base, data)]
  {
    i := WalkFound(rs, addr, |data|, MEM_WRITE);
    OwnerIs(rs, i, next);
  }

  /** Overwriting bytes of one region's buffer, seen at an address of region `j`. */
  lemma PokedViewAt(rs: seq<Region>, i: nat, off: nat, data: seq<byte>, j: nat, x: nat)
    requires ValidList(rs) && i < |rs| && j < |rs| && rs[j].base <= x < rs[j].End()
    requires off + |data| <= rs[i].size <= |rs[i].host.bytes|
    ensures View(rs, x).Some?
    ensures View(rs[i := Poked(rs[i], off, data)], x) ==
      if j == i && off <= x - rs[i].base < off + |data|
      then Some(View(rs, x).value.(data := data[x - rs[i].base - off])) else View(rs, x)
  {
    var rs' := rs[i := Poked(rs[i], off, data)];
    assert ValidList(rs');
    ViewInside(rs, j, x);
    ViewInside(rs', j, x);
    if j == i {
      PatchedByte(rs[i].host.bytes, off, data, x - rs[i].base);
    }
  }

  lemma PokedView(rs: seq<Region>, i: nat, addr: nat, data: seq<byte>, x: nat)
    requires ValidList(rs) && i < |rs| && rs[i].base <= addr && 0 < |data| && addr + |data| <= rs[i].End()
    requires rs[i].size <= |rs[i].host.bytes|
    ensures View(rs[i := Poked(rs[i], addr - rs[i].base, data)], x) ==
      if addr <= x < addr + |data| && View(rs, x).Some?
      then Some(View(rs, x).value.(data := data[x - addr])) else View(rs, x)
  {
    if j :| 0 <= j < |rs| && rs[j].base <= x < rs[j].End() {
      PokedViewAt(rs, i, addr - rs[i].base, data, j, x);
      assert i < j ==> rs[i].End() <= rs[j].base;
      assert j < i ==> rs[j].End() <= rs[i].base;
    } else {
      ViewOutside(rs, x);
      ViewOutside(rs[i := Poked(rs[i], addr - rs[i].base, data)], x);
    }
  }

  lemma PatchedByte(s: seq<byte>, pos: nat, data: seq<byte>, k: nat)
    requires pos + |data| <= |s| && k < |s|
    ensures Patch(s, pos, data)[k] == if pos <= k < pos + |data| then data[k - pos] else s[k]
  {
  }

  /** A store through a translated pointer changes the map at those addresses only. */
  lemma StoreIsMap(rs: seq<Region>, next: nat, addr: u64, data: seq<byte>, x: nat)
    requires Mapping(rs) && OwnBuffers(rs, next) && 0 < |data| < TWO64
    requires Translate(rs, addr, |data|, MEM_WRITE).Some?
    ensures var rs' := StoreAt(rs, Translate(rs, addr, |data|, MEM_WRITE).value, data);
      && SameShape(rs, rs')
      && View(rs', x) ==
         if addr <= x < addr + |data| && View(rs, x).Some?
         then Some(View(rs, x).value.(data := data[x - addr])) else View(rs, x)
  {
    var i := StoreLands(rs, next, addr, data);
    PokedView(rs, i, addr, data, x);
  }

  // ----- runs -----

  datatype MemOp = Load(addr: u64, n: u64) | Store(addr: u64, data: seq<byte>)

  /** At least one byte, and not so long as to wrap into its own first page. */
  predicate Plain(op: MemOp) {
    match op
    case Load(addr, n) => 0 < n && Safe(Access(addr, n, MEM_READ))
    case Store(addr, data) => 0 < |data| < TWO64 && Safe(Access(addr, |data|, MEM_WRITE))
  }

  /** Every accessor of the source is plain: none is longer than a page. */
  lemma ShortIsPlain(q: Access)
    requires 0 < q.size <= PAGE
    ensures Safe(q)
  {
    if q.addr + q.size > TWO64 {
      assert Wrap64(q.addr + q.size - 1) == q.addr + q.size - 1 - TWO64;
      assert PageOf(q.addr) + PAGE == TWO64;
    }
  }

  function AccessOf(op: MemOp): Access
    requires Plain(op)
  {
    match op
    case Load(addr, n) => Access(addr, n, MEM_READ)
    case Store(addr, data) => Access(addr, |data|, MEM_WRITE)
  }

  /** Through the cache: None is a fault; a store answers with no bytes. */
  function CachedStep(t: Cache, rs: seq<Region>, op: MemOp): (Option<seq<byte>>, Cache, seq<Region>)
    requires Plain(op)
  {
    var (p, t') := CpuPtr(t, rs, AccessOf(op));
    if p.None? then (None, t', rs)
    else
      match op
      case Load(addr, n) => (Some(LoadAt(rs, p.value, n)), t', rs)
      case Store(addr, data) => (Some([]), t', StoreAt(rs, p.value, data))
  }

  function CachedRun(t: Cache, rs: seq<Region>, ops: seq<MemOp>): seq<Option<seq<byte>>>
    requires forall i :: 0 <= i < |ops| ==> Plain(ops[i])
    decreases |ops|
  {
    if ops == [] then []
    else
      var (out, t', rs') := CachedStep(t, rs, ops[0]);
      [out] + CachedRun(t', rs', ops[1..])
  }

  ghost function MapByte(m: Contents, x: nat): byte {
    if x in m then m[x].data else 0
  }

  ghost function ReadMap(m: Contents, addr: nat, n: nat): seq<byte> {
    seq<byte>(n, k requires 0 <= k < n => MapByte(m, addr + k))
  }

  ghost function WriteMap(m: Contents, addr: nat, data: seq<byte>): Contents {
    imap x | x in m :: if addr <= x < addr + |data| then m[x].(data := data[x - addr]) else m[x]
  }

  // ----- which accesses the plain map allows -----

  /** Every byte of the range is mapped and allows `want`. */
  ghost predicate AllAllowed(m: Contents, addr: nat, n: nat, want: Prot) {
    forall x: nat :: addr <= x < addr + n ==> x in m && m[x].prot & want == want
  }

  ghost predicate StartsAt(rs: seq<Region>, b: nat) {
    exists i :: 0 <= i < |rs| && rs[i].base == b
  }

  /** Where a region starts. */
  ghost function Seams(rs: seq<Region>): iset<nat> {
    iset b: nat | StartsAt(rs, b)
  }

  /** No seam strictly inside the range. */
  ghost predicate Seamless(seams: iset<nat>, addr: nat, n: nat) {
    forall b: nat :: b in seams ==> !(addr < b < addr + n)
  }

  lemma FoundIsAllowed(rs: seq<Region>, addr: u64, n: u64, want: Prot)
    requires Mapping(rs) && n > 0 && Translate(rs, addr, n, want).Some?
    ensures AllAllowed(Abs(rs), addr, n, want) && Seamless(Seams(rs), addr, n)
  {
    var i := WalkFound(rs, addr, n, want);
    forall x: nat | addr <= x < addr + n
      ensures x in Abs(rs) && Allows(Abs(rs)[x].prot, want)
    {
      ViewInside(rs, i, x);
    }
    forall b: nat | b in Seams(rs)
      ensures !(addr < b < addr + n)
    {
      var j :| 0 <= j < |rs| && rs[j].base == b;
      assert j < i ==> rs[j].End() <= rs[i].base;
      assert i < j ==> rs[i].End() <= rs[j].base;
    }
  }

  /** The region that a mapped address lies in. */
  lemma RegionOf(rs: seq<Region>, x: nat) returns (i: nat)
    requires View(rs, x).Some?
    ensures i < |rs| && rs[i].base <= x < rs[i].End()
  {
    if forall k :: 0 <= k < |rs| ==> x < rs[k].base || rs[k].End() <= x {
      ViewOutside(rs, x);
    }
    i :| 0 <= i < |rs| && !(x < rs[i].base || rs[i].End() <= x);
  }

  /** Mapped memory right behind a region starts another. */
  lemma EndIsSeam(rs: seq<Region>, i: nat)
    requires ValidList(rs) && i < |rs| && rs[i].size > 0 && rs[i].End() in Abs(rs)
    ensures rs[i].End() in Seams(rs)
  {
    var j := RegionOf(rs, rs[i].End());
    assert rs[j].base == rs[i].End();
  }

  /** The region of the first byte holds the whole range. */
  lemma OneRegion(rs: seq<Region>, addr: u64, n: u64, want: Prot) returns (i: nat)
    requires Mapping(rs) && n > 0 && AllAllowed(Abs(rs), addr, n, want) && Seamless(Seams(rs), addr, n)
    ensures i < |rs| && rs[i].base <= addr && addr + n <= rs[i].End() && Allows(rs[i].prot, want)
  {
    assert addr in Abs(rs);
    i := RegionOf(rs, addr);
    ViewInside(rs, i, addr);
    if rs[i].End() < addr + n {
      EndIsSeam(rs, i);
    }
  }

  lemma AllowedIsFound(rs: seq<Region>, addr: u64, n: u64, want: Prot)
    requires Mapping(rs) && n > 0 && AllAllowed(Abs(rs), addr, n, want) && Seamless(Seams(rs), addr, n)
    ensures Translate(rs, addr, n, want).Some?
  {
    var i := OneRegion(rs, addr, n, want);
    assert Covers(rs[i], addr, n);
    CoveredOnce(rs, i, addr, n);
    WalkFinds(rs, i, addr, n, want);
  }

  /** An access is allowed exactly when the map allows every byte of it and no region starts inside it. */
  lemma AccessExact(rs: seq<Region>, addr: u64, n: u64, want: Prot)
    requires Mapping(rs) && n > 0
    ensures Translate(rs, addr, n, want).Some? <==>
      AllAllowed(Abs(rs), addr, n, want) && Seamless(Seams(rs), addr, n)
  {
    if Translate(rs, addr, n, want).Some? {
      FoundIsAllowed(rs, addr, n, want);
    } else if AllAllowed(Abs(rs), addr, n, want) && Seamless(Seams(rs), addr, n) {
      AllowedIsFound(rs, addr, n, want);
    }
  }

  lemma PageIsSeamless(rs: seq<Region>, addr: nat, n: nat)
    requires ValidList(rs) && addr % PAGE + n <= PAGE
    ensures Seamless(Seams(rs), addr, n)
  {
    forall b: nat | b in Seams(rs)
      ensures !(addr < b < addr + n)
    {
      var j :| 0 <= j < |rs| && rs[j].base == b;
      assert b % PAGE == 0;
    }
  }

  /** Inside one page the map alone decides. */
  lemma PageAccessExact(rs: seq<Region>, addr: u64, n: u64, want: Prot)
    requires Mapping(rs) && n > 0 && addr % PAGE + n <= PAGE
    ensures Translate(rs, addr, n, want).Some? <==> AllAllowed(Abs(rs), addr, n, want)
  {
    AccessExact(rs, addr, n, want);
    PageIsSeamless(rs, addr, n);
  }

  /**
   Across pages it does not: changing the protection of one page to what it already was
   leaves the map as it is, and makes an eight-byte load over the page's end fault.
   */
  lemma StraddlingFaults(before: seq<Region>, after: seq<Region>)
    requires before == [Region(0, 2 * PAGE, MEM_READ, Host(0, Zeros(2 * PAGE)))]
    requires after == ReprotectAll(before, 0, PAGE, MEM_READ, 1)
    ensures Mapping(before) && Mapping(after) && Abs(after) == Abs(before)
    ensures AllAllowed(Abs(before), PAGE - 4, 8, MEM_READ)
    ensures Translate(before, PAGE - 4, 8, MEM_READ).Some? && Translate(after, PAGE - 4, 8, MEM_READ).None?
  {
    TwoPages(before[0], after);
    ReprotectAllAbs(before, 0, PAGE, MEM_READ, 1);
    SameProtection(before[0]);
    OnePageAllowed(before[0]);
    NeighboursFault(after, 0, PAGE - 4, 8, MEM_READ);
  }

  /** Protecting a page as it was leaves the map as it was. */
  lemma SameProtection(r: Region)
    requires r.base == 0 && r.size == 2 * PAGE && ValidRegion(r)
    ensures Reprotected(Abs([r]), 0, PAGE, r.prot) == Abs([r])
  {
    forall x: nat | x in Abs([r])
      ensures Abs([r])[x].prot == r.prot
    {
      ViewOne(r, x);
    }
  }

  lemma OnePageAllowed(r: Region)
    requires r.base == 0 && r.size == 2 * PAGE && ValidRegion(r) && r.prot == MEM_READ
    ensures AllAllowed(Abs([r]), PAGE - 4, 8, MEM_READ) && Translate([r], PAGE - 4, 8, MEM_READ).Some?
  {
    forall x: nat | PAGE - 4 <= x < PAGE + 4
      ensures x in Abs([r]) && Abs([r])[x].prot & MEM_READ == MEM_READ
    {
      ViewOne(r, x);
    }
    assert Covers(r, PAGE - 4, 8);
  }

  /** An access over the border of two neighbouring regions faults, whatever they allow. */
  lemma NeighboursFault(rs: seq<Region>, i: nat, addr: u64, n: u64, want: Prot)
    requires Mapping(rs) && i + 1 < |rs| && addr < rs[i + 1].base < addr + n
    ensures Translate(rs, addr, n, want).None?
  {
    assert StartsAt(rs, rs[i + 1].base);
    assert !Seamless(Seams(rs), addr, n) by { assert rs[i + 1].base in Seams(rs); }
    AccessExact(rs, addr, n, want);
  }

  lemma TwoPages(r: Region, after: seq<Region>)
    requires r.base == 0 && r.size == 2 * PAGE && ValidRegion(r) && after == ReprotectAll([r], 0, PAGE, r.prot, 1)
    ensures after == [Piece(r, 0, PAGE, r.prot, 4), Piece(r, PAGE, 2 * PAGE, r.prot, 5)] && Mapping(after)
  {
    assert [r][..0] == [] && ReprotectAll([], 0, PAGE, r.prot, 1) == [];
  }

  // ----- the same runs on the plain map -----

  /** On the plain map and its seams: no regions, no buffers, no cache. */
  ghost function PlainStep(m: Contents, seams: iset<nat>, op: MemOp): (Option<seq<byte>>, Contents)
    requires Plain(op)
  {
    match op
    case Load(addr, n) =>
      if AllAllowed(m, addr, n, 1) && Seamless(seams, addr, n) then (Some(ReadMap(m, addr, n)), m) else (None, m)
    case Store(addr, data) =>
      if AllAllowed(m, addr, |data|, 2) && Seamless(seams, addr, |data|) then (Some([]), WriteMap(m, addr, data))
      else (None, m)
  }

  ghost function PlainRun(m: Contents, seams: iset<nat>, ops: seq<MemOp>): seq<Option<seq<byte>>>
    requires forall i :: 0 <= i < |ops| ==> Plain(ops[i])
    decreases |ops|
  {
    if ops == [] then []
    else
      var (out, m') := PlainStep(m, seams, ops[0]);
      [out] + PlainRun(m', seams, ops[1..])
  }

  lemma ShapeSeams(a: seq<Region>, b: seq<Region>)
    requires SameShape(a, b)
    ensures Seams(a) == Seams(b)
  {
    forall x: nat
      ensures x in Seams(a) <==> x in Seams(b)
    {
      if i :| 0 <= i < |a| && a[i].base == x {
        assert b[i].base == x;
      }
      if i :| 0 <= i < |b| && b[i].base == x {
        assert a[i].base == x;
      }
    }
  }

  lemma StepRefines(t: Cache, rs: seq<Region>, next: nat, op: MemOp)
    requires Plain(op) && Mapping(rs) && OwnBuffers(rs, next) && Coherent(t, rs)
    ensures var (out, t', rs') := CachedStep(t, rs, op);
      && (out, Abs(rs')) == PlainStep(Abs(rs), Seams(rs), op)
      && Seams(rs') == Seams(rs) && Mapping(rs') && OwnBuffers(rs', next) && Coherent(t', rs')
  {
    var q := AccessOf(op);
    CpuPtrExact(t, rs, q);
    AccessExact(rs, q.addr, q.size, q.want);
    var (p, t') := CpuPtr(t, rs, q);
    if p.Some? {
      if op.Load? {
        LoadRefines(rs, next, op.addr, op.n);
      } else {
        StoreRefines(rs, next, op.addr, op.data);
        var rs' := StoreAt(rs, p.value, op.data);
        ShapeKeeps(rs, rs', t', next);
        ShapeSeams(rs, rs');
      }
    }
  }

  lemma LoadRefines(rs: seq<Region>, next: nat, addr: u64, n: u64)
    requires Mapping(rs) && OwnBuffers(rs, next) && Translate(rs, addr, n, MEM_READ).Some? && n > 0
    ensures LoadAt(rs, Translate(rs, addr, n, MEM_READ).value, n) == ReadMap(Abs(rs), addr, n)
  {
    var data := LoadAt(rs, Translate(rs, addr, n, MEM_READ).value, n);
    LoadIsMap(rs, next, addr, n, MEM_READ, 0);
    forall k: nat | k < n ensures data[k] == MapByte(Abs(rs), addr + k) {
      LoadedByte(rs, next, addr, n, k);
    }
    SameBytes(data, Abs(rs), addr, n);
  }

  lemma LoadedByte(rs: seq<Region>, next: nat, addr: u64, n: u64, k: nat)
    requires Mapping(rs) && OwnBuffers(rs, next) && Translate(rs, addr, n, MEM_READ).Some? && k < n
    ensures var data := LoadAt(rs, Translate(rs, addr, n, MEM_READ).value, n);
      |data| == n && data[k] == MapByte(Abs(rs), addr + k)
  {
    LoadIsMap(rs, next, addr, n, MEM_READ, k);
  }

  lemma SameBytes(data: seq<byte>, m: Contents, addr: nat, n: nat)
    requires |data| == n && forall k: nat :: k < n ==> data[k] == MapByte(m, addr + k)
    ensures data == ReadMap(m, addr, n)
  {
  }

  lemma StoreRefines(rs: seq<Region>, next: nat, addr: u64, data: seq<byte>)
    requires Mapping(rs) && OwnBuffers(rs, next) && 0 < |data| < TWO64
    requires Translate(rs, addr, |data|, MEM_WRITE).Some?
    ensures var rs' := StoreAt(rs, Translate(rs, addr, |data|, MEM_WRITE).value, data);
      && SameShape(rs, rs')
      && Abs(rs') == WriteMap(Abs(rs), addr, data)
  {
    var rs' := StoreAt(rs, Translate(rs, addr, |data|, MEM_WRITE).value, data);
    StoreIsMap(rs, next, addr, data, 0);
    forall x: nat
      ensures View(rs', x) ==
              if addr <= x < addr + |data| && View(rs, x).Some?
              then Some(View(rs, x).value.(data := data[x - addr])) else View(rs, x)
    {
      StoreIsMap(rs, next, addr, data, x);
    }
  }

  /**
   For any mapping and any run of loads and stores after a flush: the results and faults
   through cache, regions and buffers are those of the plain map and its seams.
   */
  lemma RunRefinesMap(t: Cache, rs: seq<Region>, next: nat, ops: seq<MemOp>)
    requires Mapping(rs) && OwnBuffers(rs, next) && forall i :: 0 <= i < |ops| ==> Plain(ops[i])
    ensures CachedRun(Flushed(t), rs, ops) == PlainRun(Abs(rs), Seams(rs), ops)
  {
    FlushedCoherent(t, rs);
    RunFrom(Flushed(t), rs, next, ops);
  }

  lemma {:induction false} RunFrom(t: Cache, rs: seq<Region>, next: nat, ops: seq<MemOp>)
    requires Mapping(rs) && OwnBuffers(rs, next) && Coherent(t, rs)
    requires forall i :: 0 <= i < |ops| ==> Plain(ops[i])
    ensures CachedRun(t, rs, ops) == PlainRun(Abs(rs), Seams(rs), ops)
    decreases |ops|
  {
    if ops != [] {
      StepRefines(t, rs, next, ops[0]);
      var (_, t', rs') := CachedStep(t, rs, ops[0]);
      RunFrom(t', rs', next, ops[1..]);
    }
  }

  predicate InPage(op: MemOp)
    requires Plain(op)
  {
    AccessOf(op).addr % PAGE + AccessOf(op).size <= PAGE
  }

  lemma {:induction false} PageRunSeams(m: Contents, rs: seq<Region>, ops: seq<MemOp>)
    requires ValidList(rs) && forall i :: 0 <= i < |ops| ==> Plain(ops[i]) && InPage(ops[i])
    ensures PlainRun(m, Seams(rs), ops) == PlainRun(m, iset{}, ops)
    decreases |ops|
  {
    if ops != [] {
      PageIsSeamless(rs, AccessOf(ops[0]).addr, AccessOf(ops[0]).size);
      PageRunSeams(PlainStep(m, iset{}, ops[0]).1, rs, ops[1..]);
    }
  }

  /** A run whose accesses each stay in a page is a run on the plain map alone, faults included. */
  lemma PageRunRefinesMap(t: Cache, rs: seq<Region>, next: nat, ops: seq<MemOp>)
    requires Mapping(rs) && OwnBuffers(rs, next)
    requires forall i :: 0 <= i < |ops| ==> Plain(ops[i]) && InPage(ops[i])
    ensures CachedRun(Flushed(t), rs, ops) == PlainRun(Abs(rs), iset{}, ops)
  {
    RunRefinesMap(t, rs, next, ops);
    PageRunSeams(Abs(rs), rs, ops);
  }
}
