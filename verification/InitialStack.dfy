/**
 The stack a program starts on: strings, random bytes and program headers from the top
 down, and below them the argument count, the pointer vectors and the auxiliary vector.
 */
module InitialStack {
  import opened Common
  import opened LittleEndian
  import opened AddressSpace
  import opened MemSpace
  import opened Tlb
  import opened GuestAccess

  const PHDR_SIZE: int := 56
  const PT_PHDR: int := 6

  type CString = s: seq<byte> | 0 !in s

  // ----- memory -----

  type Bytes = imap<int, byte>

  /** What a reader of guest memory finds. */
  ghost function Held(rs: seq<Region>): Bytes {
    imap a: int | a >= 0 && View(rs, a).Some? :: View(rs, a).value.data
  }

  function At(data: seq<byte>, a: int, k: int): byte
    requires a <= k < a + |data|
  {
    data[k - a]
  }

  ghost function Poke(m: Bytes, a: int, data: seq<byte>): Bytes {
    m + imap k | a <= k < a + |data| :: At(data, a, k)
  }

  ghost predicate HasBytes(m: Bytes, a: int, data: seq<byte>) {
    forall k :: a <= k < a + |data| ==> k in m && m[k] == At(data, a, k)
  }

  /** Nothing at or above `floor` is lost or changed. */
  ghost predicate KeepsAbove(m: Bytes, n: Bytes, floor: int) {
    forall k :: k in m && floor <= k ==> k in n && n[k] == m[k]
  }

  ghost predicate KeepsBelow(m: Bytes, n: Bytes, ceiling: int) {
    forall k :: k in m && k < ceiling ==> k in n && n[k] == m[k]
  }

  lemma PokeReads(m: Bytes, a: int, data: seq<byte>)
    ensures HasBytes(Poke(m, a, data), a, data)
    ensures KeepsAbove(m, Poke(m, a, data), a + |data|)
    ensures KeepsBelow(m, Poke(m, a, data), a)
  {
  }

  lemma StillThere(m: Bytes, n: Bytes, floor: int, a: int, data: seq<byte>)
    requires HasBytes(m, a, data) && KeepsAbove(m, n, floor) && floor <= a
    ensures HasBytes(n, a, data)
  {
  }

  /** One writable region holds the whole range. */
  ghost predicate Room(rs: seq<Region>, lo: int, hi: int) {
    exists k :: 0 <= k < |rs| && Allows(rs[k].prot, MEM_WRITE) && rs[k].base <= lo && hi <= rs[k].End()
  }

  /** Regions of this shape, none in the first page or past the last address. */
  ghost predicate Ready(mem: MemSpace, shape: seq<Region>)
    reads mem
  {
    mem.Valid() && SameShape(shape, mem.regions) && Inside(shape, PAGE, TWO64 - 1)
  }

  lemma RoomIsTranslated(rs: seq<Region>, a: u64, n: u64)
    requires ValidList(rs) && Inside(rs, PAGE, TWO64 - 1) && 0 < n
    ensures Translate(rs, a, n, MEM_WRITE).Some? <==> Room(rs, a, a + n)
  {
    if Translate(rs, a, n, MEM_WRITE).Some? {
      var i := WalkFound(rs, a, n, MEM_WRITE);
    }
    if Room(rs, a, a + n) {
      var k :| 0 <= k < |rs| && Allows(rs[k].prot, MEM_WRITE) && rs[k].base <= a && a + n <= rs[k].End();
      CoveredOnce(rs, k, a, n);
      WalkFinds(rs, k, a, n, MEM_WRITE);
    }
  }

  lemma SameRoom(a: seq<Region>, b: seq<Region>, lo: int, hi: int)
    requires SameShape(a, b)
    ensures Room(a, lo, hi) == Room(b, lo, hi)
  {
  }

  lemma ShapeValid(a: seq<Region>, b: seq<Region>, next: nat)
    requires SameShape(a, b) && ValidList(a) && OwnBuffers(a, next)
    ensures ValidList(b) && OwnBuffers(b, next)
  {
  }

  lemma HeldAt(rs: seq<Region>, x: int)
    ensures x in Held(rs) <==> x >= 0 && View(rs, x).Some?
    ensures x in Held(rs) ==> Held(rs)[x] == View(rs, x).value.data
  {
  }

  lemma PokedAt(m: Bytes, a: int, data: seq<byte>, x: int)
    ensures x in Poke(m, a, data) <==> x in m || a <= x < a + |data|
    ensures a <= x < a + |data| ==> Poke(m, a, data)[x] == data[x - a]
    ensures x in m && !(a <= x < a + |data|) ==> Poke(m, a, data)[x] == m[x]
  {
  }

  lemma StoredIsPoked(rs: seq<Region>, next: nat, a: u64, data: seq<byte>, p: Ptr)
    requires Mapping(rs) && OwnBuffers(rs, next) && 0 < |data| < TWO64 && Translate(rs, a, |data|, MEM_WRITE) == Some(p)
    ensures SameShape(rs, StoreAt(rs, p, data)) && Held(StoreAt(rs, p, data)) == Poke(Held(rs), a, data)
  {
    StoreIsMap(rs, next, a, data, 0);
    forall x
      ensures x in Held(StoreAt(rs, p, data)) <==> x in Poke(Held(rs), a, data)
      ensures x in Held(StoreAt(rs, p, data)) ==> Held(StoreAt(rs, p, data))[x] == Poke(Held(rs), a, data)[x]
    {
      StoredByte(rs, next, a, data, p, x);
    }
    assert Held(StoreAt(rs, p, data)) == Poke(Held(rs), a, data);
  }

  lemma StoredByte(rs: seq<Region>, next: nat, a: u64, data: seq<byte>, p: Ptr, x: int)
    requires Mapping(rs) && OwnBuffers(rs, next) && 0 < |data| < TWO64 && Translate(rs, a, |data|, MEM_WRITE) == Some(p)
    ensures x in Held(StoreAt(rs, p, data)) <==> x in Poke(Held(rs), a, data)
    ensures x in Held(StoreAt(rs, p, data)) ==> Held(StoreAt(rs, p, data))[x] == Poke(Held(rs), a, data)[x]
  {
    if x >= 0 {
      StoreIsMap(rs, next, a, data, x);
      if a <= x < a + |data| {
        LoadIsMap(rs, next, a, |data|, MEM_WRITE, x - a);
      }
    }
    ByteAgrees(rs, StoreAt(rs, p, data), a, data, x);
  }

  lemma ByteAgrees(rs: seq<Region>, rs': seq<Region>, a: u64, data: seq<byte>, x: int)
    requires x >= 0 ==>
      View(rs', x) == (if a <= x < a + |data| && View(rs, x).Some?
                       then Some(View(rs, x).value.(data := data[x - a])) else View(rs, x))
    requires a <= x < a + |data| ==> View(rs, x).Some?
    ensures x in Held(rs') <==> x in Poke(Held(rs), a, data)
    ensures x in Held(rs') ==> Held(rs')[x] == Poke(Held(rs), a, data)[x]
  {
    HeldAt(rs, x);
    HeldAt(rs', x);
    PokedAt(Held(rs), a, data, x);
  }

  lemma ShapeChain(a: seq<Region>, b: seq<Region>, c: seq<Region>)
    requires SameShape(a, b) && SameShape(b, c)
    ensures SameShape(a, c)
  {
  }

  method StoreThrough(mem: MemSpace, ghost shape: seq<Region>, ghost a: u64, data: seq<byte>, p: Ptr)
    requires Ready(mem, shape) && 0 < |data| < TWO64 && Translate(mem.regions, a, |data|, MEM_WRITE) == Some(p)
    modifies mem`regions
    ensures Ready(mem, shape) && Held(mem.regions) == Poke(old(Held(mem.regions)), a, data)
  {
    ghost var was := mem.regions;
    StoredIsPoked(was, mem.nextHost, a, data, p);
    ShapeValid(was, StoreAt(was, p, data), mem.nextHost);
    ShapeChain(shape, was, StoreAt(was, p, data));
    mem.regions := StoreAt(mem.regions, p, data);
  }

  /** `mem_copy_to`: it lands only if one writable region holds all of it. */
  method CopyTo(mem: MemSpace, ghost shape: seq<Region>, a: u64, data: seq<byte>) returns (ok: bool)
    requires Ready(mem, shape)
    modifies mem`regions
    ensures Ready(mem, shape)
    ensures ok == (data == [] || Room(shape, a, a + |data|))
    ensures Held(mem.regions) == if ok then Poke(old(Held(mem.regions)), a, data) else old(Held(mem.regions))
  {
    if data == [] || |data| >= TWO64 {
      ok := data == [];
      assert Poke(Held(mem.regions), a, []) == Held(mem.regions);
      return;
    }
    RoomIsTranslated(mem.regions, a, |data|);
    SameRoom(shape, mem.regions, a, a + |data|);
    var p := TranslateLoop(mem.regions, a, |data|, MEM_WRITE);
    ok := p.Some?;
    if ok {
      StoreThrough(mem, shape, a, data, p.value);
    }
  }

  // ----- the layout a start-up routine reads -----

  /** The eight bytes from `a` hold the word `v`, low byte first. */
  ghost predicate WordAt(m: Bytes, a: int, v: nat) {
    exists b :: |b| == 8 && HasBytes(m, a, b) && FromLe(b) == v
  }

  /** The first `n` of the words stand one after another from `a` upwards. */
  ghost predicate PrefixAt(m: Bytes, a: int, ws: seq<u64>, n: nat)
    requires n <= |ws|
  {
    n == 0 || (PrefixAt(m, a, ws, n - 1) && WordAt(m, a + 8 * (n - 1), ws[n - 1]))
  }

  ghost predicate WordsAt(m: Bytes, a: int, ws: seq<u64>) {
    PrefixAt(m, a, ws, |ws|)
  }

  ghost predicate StringAt(m: Bytes, a: int, s: CString) {
    HasBytes(m, a, s + [0])
  }

  ghost predicate StringsAt(m: Bytes, ps: seq<u64>, strs: seq<CString>) {
    |ps| == |strs| && forall i: nat :: i < |ps| ==> StringAt(m, ps[i], strs[i])
  }

  /** A vector of pointers ended by a null pointer. */
  ghost predicate PointersAt(m: Bytes, a: int, ps: seq<u64>) {
    && (forall i: nat :: i < |ps| ==> ps[i] != 0 && WordAt(m, a + 8 * i, ps[i]))
    && WordAt(m, a + 8 * |ps|, 0)
  }

  datatype Aux = Aux(key: u64, value: u64)

  /** An auxiliary vector ended by a null key. */
  ghost predicate AuxAt(m: Bytes, a: int, aux: seq<Aux>) {
    && (forall i: nat :: i < |aux| ==>
          aux[i].key != 0 && WordAt(m, a + 16 * i, aux[i].key) && WordAt(m, a + 16 * i + 8, aux[i].value))
    && WordAt(m, a + 16 * |aux|, 0)
  }

  /** What a program finds at its stack pointer. */
  ghost predicate Starts(m: Bytes, sp: int, argv: seq<CString>, envp: seq<CString>, aux: seq<Aux>) {
    exists ps, qs :: StartsWith(m, sp, ps, argv, qs, envp, aux)
  }

  ghost predicate StartsWith(m: Bytes, sp: int, ps: seq<u64>, argv: seq<CString>, qs: seq<u64>, envp: seq<CString>,
                             aux: seq<Aux>)
  {
    && WordAt(m, sp, |ps|) && PointersAt(m, sp + 8, ps) && StringsAt(m, ps, argv)
    && PointersAt(m, sp + 16 + 8 * |ps|, qs) && StringsAt(m, qs, envp)
    && AuxAt(m, sp + 24 + 8 * |ps| + 8 * |qs|, aux)
  }

  // ----- reading the layout gives one answer -----

  lemma SameBytes(m: Bytes, a: int, p: seq<byte>, q: seq<byte>)
    requires HasBytes(m, a, p) && HasBytes(m, a, q) && |p| <= |q|
    ensures p == q[..|p|]
  {
    forall i: nat | i < |p|
      ensures p[i] == q[i]
    {
      assert m[a + i] == At(p, a, a + i) == At(q, a, a + i);
    }
  }

  lemma SameWord(m: Bytes, a: int, v: nat, w: nat)
    requires WordAt(m, a, v) && WordAt(m, a, w)
    ensures v == w
  {
    var b :| |b| == 8 && HasBytes(m, a, b) && FromLe(b) == v;
    var c :| |c| == 8 && HasBytes(m, a, c) && FromLe(c) == w;
    SameBytes(m, a, b, c);
    assert c[..8] == c;
  }

  lemma StringNoLonger(m: Bytes, a: int, s: CString, t: CString)
    requires StringAt(m, a, s) && StringAt(m, a, t)
    ensures |s| <= |t|
  {
    if |t| < |s| {
      assert (t + [0])[|t|] == 0 && (s + [0])[|t|] == s[|t|] && s[|t|] in s;
      SameBytes(m, a, t + [0], s + [0]);
    }
  }

  lemma SameString(m: Bytes, a: int, s: CString, t: CString)
    requires StringAt(m, a, s) && StringAt(m, a, t)
    ensures s == t
  {
    StringNoLonger(m, a, s, t);
    StringNoLonger(m, a, t, s);
    SameBytes(m, a, s + [0], t + [0]);
    assert (s + [0])[..|s|] == s && (t + [0])[..|t|] == t;
  }

  lemma SameStrings(m: Bytes, ps: seq<u64>, s: seq<CString>, t: seq<CString>)
    requires StringsAt(m, ps, s) && StringsAt(m, ps, t)
    ensures s == t
  {
    forall i: nat | i < |s|
      ensures s[i] == t[i]
    {
      SameString(m, ps[i], s[i], t[i]);
    }
  }

  lemma PointersNoLonger(m: Bytes, a: int, ps: seq<u64>, qs: seq<u64>)
    requires PointersAt(m, a, ps) && PointersAt(m, a, qs)
    ensures |ps| <= |qs|
  {
    if |qs| < |ps| {
      SameWord(m, a + 8 * |qs|, ps[|qs|], 0);
    }
  }

  lemma SamePointers(m: Bytes, a: int, ps: seq<u64>, qs: seq<u64>)
    requires PointersAt(m, a, ps) && PointersAt(m, a, qs)
    ensures ps == qs
  {
    PointersNoLonger(m, a, ps, qs);
    PointersNoLonger(m, a, qs, ps);
    forall i: nat | i < |ps|
      ensures ps[i] == qs[i]
    {
      SameWord(m, a + 8 * i, ps[i], qs[i]);
    }
  }

  lemma AuxNoLonger(m: Bytes, a: int, x: seq<Aux>, y: seq<Aux>)
    requires AuxAt(m, a, x) && AuxAt(m, a, y)
    ensures |x| <= |y|
  {
    if |y| < |x| {
      SameWord(m, a + 16 * |y|, x[|y|].key, 0);
    }
  }

  lemma SameAux(m: Bytes, a: int, x: seq<Aux>, y: seq<Aux>)
    requires AuxAt(m, a, x) && AuxAt(m, a, y)
    ensures x == y
  {
    AuxNoLonger(m, a, x, y);
    AuxNoLonger(m, a, y, x);
    forall i: nat | i < |x|
      ensures x[i] == y[i]
    {
      SameWord(m, a + 16 * i, x[i].key, y[i].key);
      SameWord(m, a + 16 * i + 8, x[i].value, y[i].value);
    }
  }

  lemma OneArgv(m: Bytes, sp: int, ps: seq<u64>, argv: seq<CString>, qs: seq<u64>, envp: seq<CString>,
              aux: seq<Aux>, ps2: seq<u64>, argv2: seq<CString>, qs2: seq<u64>, envp2: seq<CString>,
              aux2: seq<Aux>)
    requires StartsWith(m, sp, ps, argv, qs, envp, aux) && StartsWith(m, sp, ps2, argv2, qs2, envp2, aux2)
    ensures ps == ps2 && argv == argv2
  {
    SamePointers(m, sp + 8, ps, ps2);
    SameStrings(m, ps, argv, argv2);
  }

  lemma OneEnvp(m: Bytes, sp: int, ps: seq<u64>, argv: seq<CString>, qs: seq<u64>, envp: seq<CString>,
              aux: seq<Aux>, ps2: seq<u64>, argv2: seq<CString>, qs2: seq<u64>, envp2: seq<CString>,
              aux2: seq<Aux>)
    requires StartsWith(m, sp, ps, argv, qs, envp, aux) && StartsWith(m, sp, ps2, argv2, qs2, envp2, aux2)
    requires ps == ps2
    ensures qs == qs2 && envp == envp2
  {
    SamePointers(m, sp + 16 + 8 * |ps|, qs, qs2);
    SameStrings(m, qs, envp, envp2);
  }

  lemma OneAuxv(m: Bytes, sp: int, ps: seq<u64>, argv: seq<CString>, qs: seq<u64>, envp: seq<CString>,
              aux: seq<Aux>, ps2: seq<u64>, argv2: seq<CString>, qs2: seq<u64>, envp2: seq<CString>,
              aux2: seq<Aux>)
    requires StartsWith(m, sp, ps, argv, qs, envp, aux) && StartsWith(m, sp, ps2, argv2, qs2, envp2, aux2)
    requires ps == ps2 && qs == qs2
    ensures aux == aux2
  {
    SameAux(m, sp + 24 + 8 * |ps| + 8 * |qs|, aux, aux2);
  }

  /** A program can find only one argument list, environment and auxiliary vector. */
  lemma StartsOneWay(m: Bytes, sp: int, argv: seq<CString>, envp: seq<CString>, aux: seq<Aux>,
                     argv2: seq<CString>, envp2: seq<CString>, aux2: seq<Aux>)
    requires Starts(m, sp, argv, envp, aux) && Starts(m, sp, argv2, envp2, aux2)
    ensures argv == argv2 && envp == envp2 && aux == aux2
  {
    var ps, qs :| StartsWith(m, sp, ps, argv, qs, envp, aux);
    var ps2, qs2 :| StartsWith(m, sp, ps2, argv2, qs2, envp2, aux2);
    OneArgv(m, sp, ps, argv, qs, envp, aux, ps2, argv2, qs2, envp2, aux2);
    OneEnvp(m, sp, ps, argv, qs, envp, aux, ps2, argv2, qs2, envp2, aux2);
    OneAuxv(m, sp, ps, argv, qs, envp, aux, ps2, argv2, qs2, envp2, aux2);
  }

  // ----- writing it -----

  function Sub64(a: int, b: int): (r: u64)
    ensures 0 <= a - b < TWO64 ==> r == a - b
  {
    (a - b) % TWO64
  }

  /** A pointer just past the last byte of memory reads as zero. */
  function Top(sp: u64): int {
    if sp == 0 then TWO64 else sp
  }

  lemma SubBelow(sp: u64, n: nat)
    requires 0 < n && PAGE <= Sub64(sp, n) && Sub64(sp, n) + n <= TWO64
    ensures Sub64(sp, n) + n == Top(sp)
  {
    var k := (sp - n) / TWO64;
    assert sp - n == k * TWO64 + Sub64(sp, n);
  }

  /** Writes below `sp`: zero for failure, else the address, just below what was there. */
  method PushString(mem: MemSpace, ghost shape: seq<Region>, sp: u64, str: CString) returns (addr: u64, low: u64)
    requires Ready(mem, shape)
    modifies mem`regions
    ensures Ready(mem, shape)
    ensures addr != 0 ==> addr == low && PAGE <= low && low + |str| + 1 == Top(sp) && StringAt(Held(mem.regions), addr, str)
    ensures KeepsAbove(old(Held(mem.regions)), Held(mem.regions), Top(sp))
    ensures Room(shape, Top(sp) - |str| - 1, Top(sp)) ==> addr != 0
  {
    var len := |str| + 1;
    low := Sub64(sp, len);
    var ok := CopyTo(mem, shape, low, str + [0]);
    if !ok {
      addr := 0;
    } else {
      addr := low;
      SubBelow(sp, len);
      PokeReads(old(Held(mem.regions)), low, str + [0]);
    }
  }

  function StringsSize(strs: seq<CString>): nat {
    if strs == [] then 0 else |strs[0]| + 1 + StringsSize(strs[1..])
  }

  lemma StringsStillThere(m: Bytes, n: Bytes, floor: int, ps: seq<u64>, strs: seq<CString>)
    requires StringsAt(m, ps, strs) && KeepsAbove(m, n, floor)
    requires forall i: nat :: i < |ps| ==> floor <= ps[i]
    ensures StringsAt(n, ps, strs)
  {
    forall i: nat | i < |ps|
      ensures StringAt(n, ps[i], strs[i])
    {
      StillThere(m, n, floor, ps[i], strs[i] + [0]);
    }
  }

  lemma StringsExtend(m: Bytes, p: u64, s: CString, ps: seq<u64>, strs: seq<CString>)
    requires StringAt(m, p, s) && StringsAt(m, ps, strs)
    ensures StringsAt(m, [p] + ps, [s] + strs)
  {
  }

  lemma RoomLess(shape: seq<Region>, lo: int, hi: int, a: int, b: int)
    requires Room(shape, lo, hi) && lo <= a && b <= hi
    ensures Room(shape, a, b)
  {
  }

  /** Pushes the last string first; the addresses come back in order. */
  method PushStrings(mem: MemSpace, ghost shape: seq<Region>, sp: u64, strs: seq<CString>)
    returns (ok: bool, addrs: seq<u64>, low: u64)
    requires Ready(mem, shape) && PAGE <= sp
    modifies mem`regions
    ensures Ready(mem, shape)
    ensures ok ==> StringsAt(Held(mem.regions), addrs, strs) && PAGE <= low && low + StringsSize(strs) == sp
    ensures ok ==> forall i: nat :: i < |addrs| ==> low <= addrs[i]
    ensures KeepsAbove(old(Held(mem.regions)), Held(mem.regions), sp)
    ensures Room(shape, sp - StringsSize(strs), sp) ==> ok
  {
    var i := |strs|;
    low, addrs, ok := sp, [], true;
    while i > 0
      invariant 0 <= i <= |strs| && Ready(mem, shape)
      invariant StringsAt(Held(mem.regions), addrs, strs[i..])
      invariant PAGE <= low && low + StringsSize(strs[i..]) == sp
      invariant forall j: nat :: j < |addrs| ==> low <= addrs[j]
      invariant KeepsAbove(old(Held(mem.regions)), Held(mem.regions), sp)
    {
      i := i - 1;
      ghost var before, at := Held(mem.regions), low;
      assert strs[i..] == [strs[i]] + strs[i + 1..];
      SizeTail(strs, i);
      if Room(shape, sp - StringsSize(strs), sp) {
        RoomLess(shape, sp - StringsSize(strs), sp, at - |strs[i]| - 1, at);
      }
      var addr;
      addr, low := PushString(mem, shape, low, strs[i]);
      if addr == 0 {
        return false, addrs, low;
      }
      StringsStillThere(before, Held(mem.regions), at, addrs, strs[i + 1..]);
      StringsExtend(Held(mem.regions), addr, strs[i], addrs, strs[i + 1..]);
      addrs := [addr] + addrs;
    }
    assert strs[0..] == strs;
  }

  lemma {:induction false} SizeTail(strs: seq<CString>, i: nat)
    requires i < |strs|
    ensures StringsSize(strs[i..]) <= StringsSize(strs)
    ensures StringsSize(strs[i..]) == |strs[i]| + 1 + StringsSize(strs[i + 1..])
    decreases i
  {
    assert strs[i..][1..] == strs[i + 1..];
    if i == 0 {
      assert strs[0..] == strs;
    } else {
      SizeTail(strs[1..], i - 1);
      assert strs[1..][i - 1..] == strs[i..];
    }
  }

  // ----- the table of words -----

  lemma WordStillThere(m: Bytes, n: Bytes, a: int, v: nat)
    requires WordAt(m, a, v) && KeepsBelow(m, n, a + 8)
    ensures WordAt(n, a, v)
  {
    var b :| |b| == 8 && HasBytes(m, a, b) && FromLe(b) == v;
    assert HasBytes(n, a, b);
  }

  function Slot(v: u64): (b: seq<byte>)
    ensures |b| == 8 && FromLe(b) == v
  {
    Pow256Widths();
    FromLeLe(v, 8);
    Le(v, 8)
  }

  lemma {:induction false} PrefixStillThere(m: Bytes, n: Bytes, a: int, ws: seq<u64>, i: nat)
    requires i <= |ws| && PrefixAt(m, a, ws, i) && KeepsBelow(m, n, a + 8 * i)
    ensures PrefixAt(n, a, ws, i)
  {
    if i > 0 {
      PrefixStillThere(m, n, a, ws, i - 1);
      WordStillThere(m, n, a + 8 * (i - 1), ws[i - 1]);
    }
  }

  /** The first `i` words are in place and nothing past them has changed. */
  ghost predicate Put(m0: Bytes, m: Bytes, sp: int, ws: seq<u64>, i: nat)
    requires i <= |ws|
  {
    && sp + 8 * i <= TWO64 && (i > 0 ==> PAGE <= sp)
    && PrefixAt(m, sp, ws, i) && KeepsAbove(m0, m, sp + 8 * i)
  }

  lemma PokeWord(m: Bytes, a: int, b: seq<byte>)
    requires |b| == 8
    ensures WordAt(Poke(m, a, b), a, FromLe(b))
    ensures KeepsAbove(m, Poke(m, a, b), a + 8) && KeepsBelow(m, Poke(m, a, b), a)
  {
    PokeReads(m, a, b);
  }

  lemma PutNext(m0: Bytes, m: Bytes, n: Bytes, sp: int, ws: seq<u64>, i: nat)
    requires i < |ws| && Put(m0, m, sp, ws, i) && WordAt(n, sp + 8 * i, ws[i])
    requires KeepsAbove(m, n, sp + 8 * i + 8) && KeepsBelow(m, n, sp + 8 * i)
    requires PAGE <= sp + 8 * i && sp + 8 * i + 8 <= TWO64
    ensures Put(m0, n, sp, ws, i + 1)
  {
    PrefixStillThere(m, n, sp, ws, i);
  }

  /** Where the cursor stands after `i` words; past the last byte of memory it reads zero. */
  ghost predicate CursorAt(sp: u64, i: nat, pos: u64) {
    pos == sp + 8 * i || (pos == 0 && sp + 8 * i == TWO64)
  }

  lemma CursorStep(sp: u64, i: nat, pos: u64)
    requires CursorAt(sp, i, pos) && 0 < pos && pos + 8 <= TWO64
    ensures pos == sp + 8 * i && CursorAt(sp, i + 1, Add64(pos, 8))
  {
  }

  lemma RoomForSlot(shape: seq<Region>, sp: u64, n: nat, i: nat, pos: u64)
    requires Inside(shape, PAGE, TWO64 - 1) && i < n && Room(shape, sp, sp + 8 * n) && CursorAt(sp, i, pos)
    ensures Room(shape, pos, pos + 8)
  {
    assert pos == sp + 8 * i;
  }

  lemma RoomBounds(shape: seq<Region>, lo: int, hi: int)
    requires Room(shape, lo, hi) && Inside(shape, PAGE, TWO64 - 1)
    ensures PAGE <= lo && hi < TWO64
  {
  }

  /** Writes eight bytes and touches no others. */
  method CopyWord(mem: MemSpace, ghost shape: seq<Region>, pos: u64, word: seq<byte>, ghost v: nat) returns (ok: bool)
    requires Ready(mem, shape) && |word| == 8 && FromLe(word) == v
    modifies mem`regions
    ensures Ready(mem, shape) && ok == Room(shape, pos, pos + 8)
    ensures ok ==> PAGE <= pos && pos + 8 < TWO64 && WordAt(Held(mem.regions), pos, v)
    ensures ok ==> KeepsAbove(old(Held(mem.regions)), Held(mem.regions), pos + 8)
    ensures ok ==> KeepsBelow(old(Held(mem.regions)), Held(mem.regions), pos)
  {
    ghost var before := Held(mem.regions);
    ok := CopyTo(mem, shape, pos, word);
    if ok {
      RoomBounds(shape, pos, pos + 8);
      PokeWord(before, pos, word);
    }
  }

  method SlotOf(v: u64) returns (b: seq<byte>)
    ensures |b| == 8 && FromLe(b) == v
  {
    b := Slot(v);
  }

  /** Unless something failed, `i` words are in place and the cursor is behind them. */
  ghost predicate PutSoFar(m0: Bytes, m: Bytes, sp: u64, ws: seq<u64>, i: nat, pos: u64, failed: bool)
    requires i <= |ws|
  {
    !failed ==> CursorAt(sp, i, pos) && Put(m0, m, sp, ws, i)
  }

  /** Writes one word and steps on; a failure is remembered. */
  method PutWord(mem: MemSpace, ghost shape: seq<Region>, ghost m0: Bytes, ghost sp: u64, ghost ws: seq<u64>, ghost i: nat,
                 pos: u64, word: seq<byte>, failed: bool)
    returns (next: u64, bad: bool)
    requires Ready(mem, shape) && i < |ws| && |word| == 8 && FromLe(word) == ws[i]
    requires PutSoFar(m0, Held(mem.regions), sp, ws, i, pos, failed)
    modifies mem`regions
    ensures Ready(mem, shape)
    ensures bad == (failed || !Room(shape, pos, pos + 8))
    ensures PutSoFar(m0, Held(mem.regions), sp, ws, i + 1, next, bad)
  {
    ghost var before := Held(mem.regions);
    var ok := CopyWord(mem, shape, pos, word, ws[i]);
    bad := failed || !ok;
    next := Add64(pos, 8);
    if !bad {
      CursorStep(sp, i, pos);
      PutNext(m0, before, Held(mem.regions), sp, ws, i);
    }
  }

  /** Writes the words upwards from `sp`, going on after a failure but remembering it. */
  method PutWords(mem: MemSpace, ghost shape: seq<Region>, sp: u64, ws: seq<u64>) returns (failed: bool)
    requires Ready(mem, shape)
    modifies mem`regions
    ensures Ready(mem, shape)
    ensures !failed ==> Put(old(Held(mem.regions)), Held(mem.regions), sp, ws, |ws|)
    ensures Room(shape, sp, sp + 8 * |ws|) ==> !failed
  {
    var pos, i := sp, 0;
    failed := false;
    ghost var roomy := Room(shape, sp, sp + 8 * |ws|);
    while i < |ws|
      invariant 0 <= i <= |ws| && Ready(mem, shape)
      invariant PutSoFar(old(Held(mem.regions)), Held(mem.regions), sp, ws, i, pos, failed)
      invariant roomy ==> !failed
    {
      if roomy {
        RoomForSlot(shape, sp, |ws|, i, pos);
      }
      var word := SlotOf(ws[i]);
      pos, failed := PutWord(mem, shape, old(Held(mem.regions)), sp, ws, i, pos, word, failed);
      i := i + 1;
    }
  }

  function Flat(aux: seq<Aux>): (ws: seq<u64>)
    ensures |ws| == 2 * |aux|
    decreases |aux|
  {
    if aux == [] then [] else Flat(aux[..|aux| - 1]) + [aux[|aux| - 1].key, aux[|aux| - 1].value]
  }

  /** Everything written at the stack pointer, in order. */
  function Table(ps: seq<u64>, qs: seq<u64>, aux: seq<Aux>): (ws: seq<u64>)
    ensures |ws| == 1 + |ps| + 1 + |qs| + 1 + 2 * |aux| + 2
  {
    [Wrap64(|ps|)] + (ps + [0]) + (qs + [0]) + (Flat(aux) + [0, 0])
  }

  lemma {:induction false} PrefixOfFirst(m: Bytes, a: int, x: seq<u64>, y: seq<u64>, n: nat)
    requires n <= |x| && PrefixAt(m, a, x + y, n)
    ensures PrefixAt(m, a, x, n)
  {
    if n > 0 {
      PrefixOfFirst(m, a, x, y, n - 1);
    }
  }

  lemma {:induction false} PrefixOfSecond(m: Bytes, a: int, x: seq<u64>, y: seq<u64>, n: nat)
    requires n <= |y| && PrefixAt(m, a, x + y, |x| + n)
    ensures PrefixAt(m, a + 8 * |x|, y, n) && PrefixAt(m, a, x + y, |x|)
  {
    if n > 0 {
      PrefixOfSecond(m, a, x, y, n - 1);
      assert (x + y)[|x| + n - 1] == y[n - 1];
    }
  }

  lemma WordsSplit(m: Bytes, a: int, x: seq<u64>, y: seq<u64>)
    requires WordsAt(m, a, x + y)
    ensures WordsAt(m, a, x) && WordsAt(m, a + 8 * |x|, y)
  {
    PrefixOfSecond(m, a, x, y, |y|);
    PrefixOfFirst(m, a, x, y, |x|);
  }

  lemma {:induction false} PrefixWord(m: Bytes, a: int, ws: seq<u64>, n: nat, i: nat)
    requires n <= |ws| && PrefixAt(m, a, ws, n) && i < n
    ensures WordAt(m, a + 8 * i, ws[i])
    decreases n
  {
    if i < n - 1 {
      PrefixWord(m, a, ws, n - 1, i);
    }
  }

  lemma WordInPlace(m: Bytes, a: int, ws: seq<u64>, i: nat)
    requires WordsAt(m, a, ws) && i < |ws|
    ensures WordAt(m, a + 8 * i, ws[i])
  {
    PrefixWord(m, a, ws, |ws|, i);
  }

  lemma PointersInPlace(m: Bytes, a: int, ps: seq<u64>)
    requires WordsAt(m, a, ps + [0]) && 0 !in ps
    ensures PointersAt(m, a, ps)
  {
    forall i: nat | i < |ps|
      ensures ps[i] != 0 && WordAt(m, a + 8 * i, ps[i])
    {
      WordInPlace(m, a, ps + [0], i);
    }
    WordInPlace(m, a, ps + [0], |ps|);
  }

  ghost predicate Keyed(aux: seq<Aux>) {
    forall i: nat :: i < |aux| ==> aux[i].key != 0
  }

  lemma {:induction false} AuxPairs(m: Bytes, a: int, aux: seq<Aux>, i: nat)
    requires WordsAt(m, a, Flat(aux)) && i < |aux|
    ensures WordAt(m, a + 16 * i, aux[i].key) && WordAt(m, a + 16 * i + 8, aux[i].value)
    decreases |aux|
  {
    var most := aux[..|aux| - 1];
    var last := aux[|aux| - 1];
    WordsSplit(m, a, Flat(most), [last.key, last.value]);
    if i < |aux| - 1 {
      AuxPairs(m, a, most, i);
    } else {
      WordInPlace(m, a + 16 * i, [last.key, last.value], 0);
      WordInPlace(m, a + 16 * i, [last.key, last.value], 1);
    }
  }

  lemma AuxInPlace(m: Bytes, a: int, aux: seq<Aux>)
    requires WordsAt(m, a, Flat(aux) + [0, 0]) && Keyed(aux)
    ensures AuxAt(m, a, aux)
  {
    WordsSplit(m, a, Flat(aux), [0, 0]);
    forall i: nat | i < |aux|
      ensures WordAt(m, a + 16 * i, aux[i].key) && WordAt(m, a + 16 * i + 8, aux[i].value)
    {
      AuxPairs(m, a, aux, i);
    }
    WordInPlace(m, a + 16 * |aux|, [0, 0], 0);
  }

  lemma WordsSplitThree(m: Bytes, sp: int, a: seq<u64>, b: seq<u64>, c: seq<u64>)
    requires WordsAt(m, sp, a + b + c)
    ensures WordsAt(m, sp, a) && WordsAt(m, sp + 8 * |a|, b) && WordsAt(m, sp + 8 * |a| + 8 * |b|, c)
  {
    WordsSplit(m, sp, a + b, c);
    WordsSplit(m, sp, a, b);
  }

  lemma TableParts(m: Bytes, sp: int, ps: seq<u64>, qs: seq<u64>, aux: seq<Aux>)
    requires WordsAt(m, sp, Table(ps, qs, aux))
    ensures WordsAt(m, sp, [Wrap64(|ps|)]) && WordsAt(m, sp + 8, ps + [0])
    ensures WordsAt(m, sp + 16 + 8 * |ps|, qs + [0])
  {
    WordsSplit(m, sp, [Wrap64(|ps|)] + (ps + [0]) + (qs + [0]), Flat(aux) + [0, 0]);
    WordsSplitThree(m, sp, [Wrap64(|ps|)], ps + [0], qs + [0]);
  }

  lemma TablePointers(m: Bytes, sp: int, ps: seq<u64>, qs: seq<u64>, aux: seq<Aux>)
    requires WordsAt(m, sp, Table(ps, qs, aux))
    requires 0 !in ps && 0 !in qs && |ps| < TWO64
    ensures WordAt(m, sp, |ps|) && PointersAt(m, sp + 8, ps) && PointersAt(m, sp + 16 + 8 * |ps|, qs)
  {
    TableParts(m, sp, ps, qs, aux);
    WordInPlace(m, sp, [Wrap64(|ps|)], 0);
    PointersInPlace(m, sp + 8, ps);
    PointersInPlace(m, sp + 16 + 8 * |ps|, qs);
  }

  lemma AuxFrom(m: Bytes, sp: int, x: seq<u64>, aux: seq<Aux>, at: int)
    requires WordsAt(m, sp, x + (Flat(aux) + [0, 0])) && at == sp + 8 * |x| && Keyed(aux)
    ensures AuxAt(m, at, aux)
  {
    WordsSplit(m, sp, x, Flat(aux) + [0, 0]);
    AuxInPlace(m, at, aux);
  }

  lemma TableAux(m: Bytes, sp: int, ps: seq<u64>, qs: seq<u64>, aux: seq<Aux>)
    requires WordsAt(m, sp, Table(ps, qs, aux)) && Keyed(aux)
    ensures AuxAt(m, sp + 24 + 8 * |ps| + 8 * |qs|, aux)
  {
    AuxFrom(m, sp, [Wrap64(|ps|)] + (ps + [0]) + (qs + [0]), aux, sp + 24 + 8 * |ps| + 8 * |qs|);
  }

  /** The table reads as a start-up layout. */
  lemma TableStarts(m: Bytes, sp: int, ps: seq<u64>, argv: seq<CString>, qs: seq<u64>, envp: seq<CString>, aux: seq<Aux>)
    requires WordsAt(m, sp, Table(ps, qs, aux)) && StringsAt(m, ps, argv) && StringsAt(m, qs, envp)
    requires 0 !in ps && 0 !in qs && Keyed(aux) && |ps| < TWO64
    ensures Starts(m, sp, argv, envp, aux)
  {
    TablePointers(m, sp, ps, qs, aux);
    TableAux(m, sp, ps, qs, aux);
    assert StartsWith(m, sp, ps, argv, qs, envp, aux);
  }

  function Align8(x: u64): (r: u64)
    ensures r <= x < r + 8 && r % 8 == 0
  {
    x - x % 8
  }

  function Align16(x: u64): (r: u64)
    ensures r <= x < r + 16 && r % 16 == 0
  {
    x - x % 16
  }

  /** The aligned place for `slots` words below `sp`, rounded up to an even number of them. */
  function TableBase(sp: u64, slots: nat): u64 {
    Align16(Sub64(Align16(sp), (slots + slots % 2) * 8))
  }

  lemma WrapKeepsAlignment(x: int)
    ensures x % TWO64 % 16 == x % 16
  {
  }

  lemma SubExact(a: u64, n: nat)
    requires 8 < a && Sub64(a, n) + n <= TWO64 + 8
    ensures Sub64(a, n) == a - n
  {
    var k := (a - n) / TWO64;
    assert a - n == k * TWO64 + Sub64(a, n);
    assert k < 0 ==> k * TWO64 <= -TWO64;
  }

  lemma TableBaseIs(sp: u64, slots: nat, n: nat)
    requires n == (slots + slots % 2) * 8
    ensures n % 16 == 0 && TableBase(sp, slots) == Sub64(Align16(sp), n)
  {
    assert n == 16 * ((slots + slots % 2) / 2);
    assert (Align16(sp) - n) % 16 == 0;
    WrapKeepsAlignment(Align16(sp) - n);
  }

  lemma TableBelow(sp: u64, slots: nat)
    requires PAGE <= sp && TableBase(sp, slots) + 8 * slots <= TWO64
    ensures TableBase(sp, slots) + 8 * slots <= sp
  {
    var n := (slots + slots % 2) * 8;
    TableBaseIs(sp, slots, n);
    SubExact(Align16(sp), n);
  }

  lemma TableFits(sp: u64, slots: nat)
    requires PAGE <= sp - 15 - 8 * (slots + 1)
    ensures sp - 15 - 8 * (slots + 1) <= TableBase(sp, slots) && TableBase(sp, slots) + 8 * slots <= sp
  {
    TableBaseIs(sp, slots, (slots + slots % 2) * 8);
  }

  /** Writes the table below `sp`; zero for failure. */
  method WriteTable(mem: MemSpace, ghost shape: seq<Region>, sp: u64, ps: seq<u64>, qs: seq<u64>, aux: seq<Aux>)
    returns (base: u64)
    requires Ready(mem, shape) && PAGE <= sp
    modifies mem`regions
    ensures Ready(mem, shape)
    ensures base != 0 ==> base % 16 == 0 && |ps| < TWO64 && WordsAt(Held(mem.regions), base, Table(ps, qs, aux))
    ensures base != 0 ==> KeepsAbove(old(Held(mem.regions)), Held(mem.regions), sp)
    ensures Room(shape, sp - 15 - 8 * (|Table(ps, qs, aux)| + 1), sp) ==> base != 0
  {
    var ws := Table(ps, qs, aux);
    base := TableBase(sp, |ws|);
    if Room(shape, sp - 15 - 8 * (|ws| + 1), sp) {
      TableFits(sp, |ws|);
      RoomLess(shape, sp - 15 - 8 * (|ws| + 1), sp, base, base + 8 * |ws|);
    }
    var failed := PutWords(mem, shape, base, ws);
    if failed {
      return 0;
    }
    TableBelow(sp, |ws|);
  }

  // ----- program headers -----

  function HeaderCount(data: seq<byte>): nat {
    |data| / PHDR_SIZE
  }

  function HeaderType(data: seq<byte>, k: nat): nat
    requires k < HeaderCount(data)
  {
    FromLe(data[PHDR_SIZE * k..PHDR_SIZE * k + 4])
  }

  function HeaderVaddr(data: seq<byte>, k: nat): u64
    requires k < HeaderCount(data)
  {
    Word(data, PHDR_SIZE * k + 16)
  }

  /** The header that describes the header table itself: the first of its type. */
  ghost predicate SelfHeader(data: seq<byte>, k: nat) {
    && k < HeaderCount(data) && HeaderType(data, k) == PT_PHDR
    && forall j: nat :: j < k ==> HeaderType(data, j) != PT_PHDR
  }

  /** Header `k` with both its addresses replaced. */
  function Moved(data: seq<byte>, k: nat, v: u64): (r: seq<byte>)
    requires k < HeaderCount(data)
    ensures |r| == |data|
  {
    Patch(Patch(data, PHDR_SIZE * k + 16, Slot(v)), PHDR_SIZE * k + 24, Slot(v))
  }

  lemma MovedTypes(data: seq<byte>, k: nat, v: u64, j: nat)
    requires k < HeaderCount(data) && j < HeaderCount(data)
    ensures HeaderType(Moved(data, k, v), j) == HeaderType(data, j)
  {
    var one := Patch(data, PHDR_SIZE * k + 16, Slot(v));
    assert j < k ==> PHDR_SIZE * j + PHDR_SIZE <= PHDR_SIZE * k;
    assert k < j ==> PHDR_SIZE * k + PHDR_SIZE <= PHDR_SIZE * j;
    PatchElsewhere(data, PHDR_SIZE * k + 16, Slot(v), PHDR_SIZE * j, 4);
    PatchElsewhere(one, PHDR_SIZE * k + 24, Slot(v), PHDR_SIZE * j, 4);
  }

  lemma MovedVaddr(data: seq<byte>, k: nat, v: u64)
    requires k < HeaderCount(data)
    ensures HeaderVaddr(Moved(data, k, v), k) == v
  {
    var one := Patch(data, PHDR_SIZE * k + 16, Slot(v));
    assert HasAt(one, PHDR_SIZE * k + 16, Slot(v));
    PatchElsewhere(one, PHDR_SIZE * k + 24, Slot(v), PHDR_SIZE * k + 16, 8);
  }

  /** Moving the self header leaves it the self header, at its new address. */
  lemma MovedSelf(data: seq<byte>, k: nat, v: u64)
    requires SelfHeader(data, k)
    ensures SelfHeader(Moved(data, k, v), k) && HeaderVaddr(Moved(data, k, v), k) == v
  {
    MovedVaddr(data, k, v);
    forall j: nat | j <= k
      ensures HeaderType(Moved(data, k, v), j) == HeaderType(data, j)
    {
      MovedTypes(data, k, v, j);
    }
  }

  lemma OneSelfHeader(data: seq<byte>, j: nat, k: nat)
    requires SelfHeader(data, j) && SelfHeader(data, k)
    ensures j == k
  {
  }

  ghost predicate DifferentKeys(aux: seq<Aux>) {
    forall i, j :: 0 <= i < j < |aux| ==> aux[i].key != aux[j].key
  }

  /** Fourteen different keys, each with its value. */
  ghost predicate Tells(aux: seq<Aux>, phdr: u64, phent: u64, phnum: u64, interpBase: u64, entry: u64, random: u64,
                        platform: u64)
  {
    && |aux| == 14 && DifferentKeys(aux)
    && Aux(3, phdr) in aux && Aux(4, phent) in aux && Aux(5, phnum) in aux && Aux(6, 4096) in aux
    && Aux(7, interpBase) in aux && Aux(8, 0) in aux && Aux(9, entry) in aux
    && Aux(11, 0) in aux && Aux(12, 0) in aux && Aux(13, 0) in aux && Aux(14, 0) in aux
    && Aux(15, platform) in aux && Aux(16, 0x3fffff) in aux && Aux(25, random) in aux
  }

  class Info {
    var entry: u64
    var phdr: u64
    var phent: u64
    var phnum: u64
    var base: u64
    var interpBase: u64
    var headers: seq<byte>

    /** Points the self header, if there is one, at `v`; `k` is where it was found. */
    method MoveSelfHeader(v: u64) returns (k: nat, found: bool)
      modifies this`headers
      ensures found ==> SelfHeader(old(headers), k) && headers == Moved(old(headers), k, v)
      ensures !found ==> headers == old(headers) && forall j: nat :: !SelfHeader(headers, j)
    {
      k, found := 0, false;
      while k < HeaderCount(headers)
        invariant k <= HeaderCount(headers) && headers == old(headers)
        invariant forall j: nat :: j < k ==> HeaderType(headers, j) != PT_PHDR
      {
        if HeaderType(headers, k) == PT_PHDR {
          headers := Moved(headers, k, v);
          found := true;
          return;
        }
        k := k + 1;
      }
    }

    /** Entry by entry what the program is told; the end mark is added by the table. */
    function AuxList(random: u64, platform: u64): (aux: seq<Aux>)
      reads this
      ensures Keyed(aux)
    {
      [ Aux(3, phdr), Aux(4, phent), Aux(5, phnum), Aux(6, 4096), Aux(7, interpBase), Aux(8, 0), Aux(9, entry),
        Aux(11, 0), Aux(12, 0), Aux(13, 0), Aux(14, 0), Aux(25, random), Aux(16, 0x3fffff), Aux(15, platform) ]
    }
  }

  lemma AuxDiffer(info: Info, random: u64, platform: u64)
    ensures DifferentKeys(info.AuxList(random, platform))
  {
  }

  /** What the program is told: fourteen different keys, each with its value. */
  lemma AuxTells(info: Info, random: u64, platform: u64)
    ensures Tells(info.AuxList(random, platform),
      info.phdr, info.phent, info.phnum, info.interpBase, info.entry, random, platform)
  {
    var aux := info.AuxList(random, platform);
    AuxDiffer(info, random, platform);
    assert aux[0] == Aux(3, info.phdr) && aux[1] == Aux(4, info.phent) && aux[2] == Aux(5, info.phnum);
    assert aux[3] == Aux(6, 4096) && aux[4] == Aux(7, info.interpBase) && aux[5] == Aux(8, 0);
    assert aux[6] == Aux(9, info.entry) && aux[7] == Aux(11, 0) && aux[8] == Aux(12, 0);
    assert aux[9] == Aux(13, 0) && aux[10] == Aux(14, 0) && aux[11] == Aux(25, random);
    assert aux[12] == Aux(16, 0x3fffff) && aux[13] == Aux(15, platform);
  }

  /** The headers after the table has moved by way of `v`: the self header follows, the rest stays. */
  ghost predicate Followed(old0: seq<byte>, now: seq<byte>, v: u64) {
    && (forall k: nat :: SelfHeader(old0, k) ==> now == Moved(old0, k, v))
    && ((forall k: nat :: !SelfHeader(old0, k)) ==> now == old0)
  }

  /** The headers in guest memory, and the load base a program derives from them. */
  ghost predicate HeadersAt(m: Bytes, info: Info)
    reads info
  {
    && info.phdr % 8 == 0 && HasBytes(m, info.phdr, info.headers)
    && (forall k: nat :: SelfHeader(info.headers, k) ==> Sub64(info.phdr, HeaderVaddr(info.headers, k)) == info.base)
  }

  lemma BaseRecovered(sp: u64, base: u64)
    ensures Sub64(sp, Sub64(sp, base)) == base
  {
    var k := (sp - base) / TWO64;
    assert sp - base == k * TWO64 + Sub64(sp, base);
    assert sp - Sub64(sp, base) == base + k * TWO64;
    assert k == 0 || k == -1;
  }

  lemma HeadersBelow(sp: u64, n: nat)
    requires PAGE <= sp && 0 < n && PAGE <= Align8(Sub64(sp, n)) && Align8(Sub64(sp, n)) + n <= TWO64
    ensures Align8(Sub64(sp, n)) + n <= sp
  {
    var k := (sp - n) / TWO64;
    assert sp - n == k * TWO64 + Sub64(sp, n);
    assert k < 0 ==> k * TWO64 <= -TWO64;
  }

  lemma SelfHeaderFollows(old0: seq<byte>, now: seq<byte>, k: nat, found: bool, low: u64, base: u64)
    requires found ==> SelfHeader(old0, k) && now == Moved(old0, k, Sub64(low, base))
    requires !found ==> now == old0 && forall j: nat :: !SelfHeader(old0, j)
    ensures Followed(old0, now, Sub64(low, base))
    ensures forall j: nat :: SelfHeader(now, j) ==> Sub64(low, HeaderVaddr(now, j)) == base
  {
    if found {
      MovedSelf(old0, k, Sub64(low, base));
      BaseRecovered(low, base);
      forall j: nat | SelfHeader(old0, j)
        ensures j == k
      {
        OneSelfHeader(old0, j, k);
      }
      forall j: nat | SelfHeader(now, j)
        ensures j == k
      {
        OneSelfHeader(now, j, k);
      }
    }
  }

  method CopyBelow(mem: MemSpace, ghost shape: seq<Region>, sp: u64, low: u64, data: seq<byte>) returns (ok: bool)
    requires Ready(mem, shape) && PAGE <= sp && data != [] && low == Align8(Sub64(sp, |data|))
    modifies mem`regions
    ensures Ready(mem, shape)
    ensures ok ==> PAGE <= low && low + |data| <= sp && sp - |data| - 7 <= low
    ensures ok ==> HasBytes(Held(mem.regions), low, data) && KeepsAbove(old(Held(mem.regions)), Held(mem.regions), sp)
    ensures Room(shape, sp - |data| - 7, sp) ==> ok
  {
    if Room(shape, sp - |data| - 7, sp) {
      RoomLess(shape, sp - |data| - 7, sp, low, low + |data|);
    }
    ghost var before := Held(mem.regions);
    ok := CopyTo(mem, shape, low, data);
    if ok {
      HeadersBelow(sp, |data|);
      PokeReads(before, low, data);
    }
  }

  /** Copies the headers below `sp`, the self header moved along. */
  method PushHeaders(mem: MemSpace, ghost shape: seq<Region>, info: Info, sp: u64) returns (ok: bool, low: u64)
    requires Ready(mem, shape) && PAGE <= sp && info.headers != []
    modifies mem`regions, info`headers, info`phdr
    ensures Ready(mem, shape)
    ensures ok ==> PAGE <= low && low + |info.headers| <= sp && low == info.phdr && HeadersAt(Held(mem.regions), info)
    ensures |info.headers| == |old(info.headers)| && (ok ==> sp - |info.headers| - 7 <= low)
    ensures ok ==> KeepsAbove(old(Held(mem.regions)), Held(mem.regions), sp)
    ensures Followed(old(info.headers), info.headers, Sub64(low, info.base))
    ensures Room(shape, sp - |info.headers| - 7, sp) ==> ok
  {
    low := Align8(Sub64(sp, |info.headers|));
    var k, found := info.MoveSelfHeader(Sub64(low, info.base));
    SelfHeaderFollows(old(info.headers), info.headers, k, found, low, info.base);
    ok := CopyBelow(mem, shape, sp, low, info.headers);
    if ok {
      info.phdr := low;
    }
  }

  // ----- the whole stack -----

  const PLATFORM: CString := [97, 97, 114, 99, 104, 54, 52]

  function RandomBytes(): (b: seq<byte>)
    ensures |b| == 16
  {
    seq<byte>(16, i => (i * 17 + 53) % 256)
  }

  method PushFixed(mem: MemSpace, ghost shape: seq<Region>, stackTop: u64) returns (ok: bool, platform: u64, random: u64)
    requires Ready(mem, shape)
    modifies mem`regions
    ensures Ready(mem, shape)
    ensures ok ==> PAGE <= random < platform && random + 24 == Top(stackTop)
    ensures ok ==> StringAt(Held(mem.regions), platform, PLATFORM) && HasBytes(Held(mem.regions), random, RandomBytes())
    ensures Room(shape, Top(stackTop) - 24, Top(stackTop)) ==> ok
  {
    if Room(shape, Top(stackTop) - 24, Top(stackTop)) {
      RoomLess(shape, Top(stackTop) - 24, Top(stackTop), Top(stackTop) - 8, Top(stackTop));
      RoomLess(shape, Top(stackTop) - 24, Top(stackTop), Top(stackTop) - 24, Top(stackTop) - 8);
    }
    var sp;
    platform, sp := PushString(mem, shape, stackTop, PLATFORM);
    random := 0;
    if platform == 0 {
      return false, platform, random;
    }
    random := Sub64(sp, 16);
    ghost var before := Held(mem.regions);
    ok := CopyTo(mem, shape, random, RandomBytes());
    if ok {
      SubBelow(sp, 16);
      PokeReads(before, random, RandomBytes());
      StillThere(before, Held(mem.regions), sp, platform, PLATFORM + [0]);
    }
  }

  /** What the program starts with. */
  ghost predicate Started(m: Bytes, info: Info, sp: int, argv: seq<CString>, envp: seq<CString>, random: u64, platform: u64)
    reads info
  {
    && Starts(m, sp, argv, envp, info.AuxList(random, platform))
    && StringAt(m, platform, PLATFORM) && HasBytes(m, random, RandomBytes())
  }

  function VectorSlots(argc: nat, envc: nat): nat {
    1 + argc + 1 + envc + 1 + 15 * 2
  }

  /** Room that is always enough. */
  function Need(argv: seq<CString>, envp: seq<CString>, headers: nat): nat {
    24 + (if headers == 0 then 0 else headers + 7) + StringsSize(envp) + StringsSize(argv) + 15 +
    8 * (VectorSlots(|argv|, |envp|) + 1)
  }

  /** The environment's strings, and the arguments' below them. */
  method PushBoth(mem: MemSpace, ghost shape: seq<Region>, start: u64, argv: seq<CString>, envp: seq<CString>)
    returns (ok: bool, ps: seq<u64>, qs: seq<u64>, low: u64)
    requires Ready(mem, shape) && PAGE <= start
    modifies mem`regions
    ensures Ready(mem, shape)
    ensures ok ==> PAGE <= low && low + StringsSize(envp) + StringsSize(argv) == start
    ensures ok ==> StringsAt(Held(mem.regions), ps, argv) && StringsAt(Held(mem.regions), qs, envp)
    ensures ok ==> (forall i: nat :: i < |ps| ==> low <= ps[i]) && (forall i: nat :: i < |qs| ==> low <= qs[i])
    ensures KeepsAbove(old(Held(mem.regions)), Held(mem.regions), start)
    ensures Room(shape, start - StringsSize(envp) - StringsSize(argv), start) ==> ok
  {
    ghost var x, y := StringsSize(envp), StringsSize(argv);
    if Room(shape, start - x - y, start) {
      RoomLess(shape, start - x - y, start, start - x, start);
      RoomLess(shape, start - x - y, start, start - x - y, start - x);
    }
    ps := [];
    ok, qs, low := PushStrings(mem, shape, start, envp);
    if ok {
      ghost var m1, low1 := Held(mem.regions), low;
      ok, ps, low := PushStrings(mem, shape, low, argv);
      if ok {
        StringsStillThere(m1, Held(mem.regions), low1, qs, envp);
      }
    }
  }

  /** Both string lists and the table, below what is already on the stack. */
  method PushVectors(mem: MemSpace, ghost shape: seq<Region>, info: Info, start: u64, argv: seq<CString>,
                     envp: seq<CString>, random: u64, platform: u64)
    returns (sp: u64)
    requires Ready(mem, shape) && PAGE <= start
    modifies mem`regions
    ensures Ready(mem, shape)
    ensures sp != 0 ==> sp % 16 == 0 && Starts(Held(mem.regions), sp, argv, envp, info.AuxList(random, platform))
    ensures sp != 0 ==> KeepsAbove(old(Held(mem.regions)), Held(mem.regions), start)
    ensures Room(shape, start - StringsSize(envp) - StringsSize(argv) - 15 - 8 * (VectorSlots(|argv|, |envp|) + 1), start)
      ==> sp != 0
  {
    ghost var strings, table := StringsSize(envp) + StringsSize(argv), 15 + 8 * (VectorSlots(|argv|, |envp|) + 1);
    if Room(shape, start - strings - table, start) {
      RoomLess(shape, start - strings - table, start, start - strings, start);
      RoomLess(shape, start - strings - table, start, start - strings - table, start - strings);
    }
    var ok, ps, qs, low := PushBoth(mem, shape, start, argv, envp);
    if !ok {
      return 0;
    }
    ghost var m := Held(mem.regions);
    sp := WriteTable(mem, shape, low, ps, qs, info.AuxList(random, platform));
    if sp != 0 {
      StringsStillThere(m, Held(mem.regions), low, ps, argv);
      StringsStillThere(m, Held(mem.regions), low, qs, envp);
      TableStarts(Held(mem.regions), sp, ps, argv, qs, envp, info.AuxList(random, platform));
    }
  }

  /** Everything that goes on a stack already mapped. */
  method FillStack(mem: MemSpace, ghost shape: seq<Region>, info: Info, argv: seq<CString>, envp: seq<CString>,
                   stackTop: u64)
    returns (sp: u64)
    requires Ready(mem, shape)
    modifies mem`regions, info`headers, info`phdr
    ensures Ready(mem, shape)
    ensures sp != 0 ==> sp % 16 == 0
    ensures sp != 0 ==> exists random, platform :: Started(Held(mem.regions), info, sp, argv, envp, random, platform)
    ensures sp != 0 && info.headers != [] ==> HeadersAt(Held(mem.regions), info)
    ensures sp != 0 && info.headers != [] ==> Followed(old(info.headers), info.headers, Sub64(info.phdr, info.base))
    ensures |info.headers| == |old(info.headers)| && (info.headers == [] ==> info.phdr == old(info.phdr))
    ensures Room(shape, Top(stackTop) - Need(argv, envp, |info.headers|), Top(stackTop)) ==> sp != 0
  {
    ghost var top, need := Top(stackTop), Need(argv, envp, |info.headers|);
    ghost var enough := Room(shape, top - need, top);
    if enough {
      RoomLess(shape, top - need, top, top - 24, top);
    }
    var ok, platform, random := PushFixed(mem, shape, stackTop);
    if !ok {
      return 0;
    }
    ghost var m1 := Held(mem.regions);
    var low := random;
    if info.headers != [] {
      if enough {
        RoomLess(shape, top - need, top, random - |info.headers| - 7, random);
      }
      ok, low := PushHeaders(mem, shape, info, random);
      if !ok {
        return 0;
      }
      StillThere(m1, Held(mem.regions), random, random, RandomBytes());
      StillThere(m1, Held(mem.regions), random, platform, PLATFORM + [0]);
    }
    ghost var m2 := Held(mem.regions);
    ghost var rest := StringsSize(envp) + StringsSize(argv) + 15 + 8 * (VectorSlots(|argv|, |envp|) + 1);
    if enough {
      RoomLess(shape, top - need, top, low - rest, low);
    }
    sp := PushVectors(mem, shape, info, low, argv, envp, random, platform);
    if sp != 0 {
      StillThere(m2, Held(mem.regions), low, random, RandomBytes());
      StillThere(m2, Held(mem.regions), low, platform, PLATFORM + [0]);
      if info.headers != [] {
        StillThere(m2, Held(mem.regions), low, info.phdr, info.headers);
      }
      assert Started(Held(mem.regions), info, sp, argv, envp, random, platform);
    }
  }

  const STACK_SIZE: nat := 0x80_0000

  /** A fresh writable region up to a page boundary is room for anything that fits it. */
  lemma FreshRoom(rs: seq<Region>, base: nat, top: int, prot: Prot, n: nat)
    requires HasRegion(rs, base, STACK_SIZE, prot) && Allows(prot, MEM_WRITE) && top == base + STACK_SIZE
    requires n <= STACK_SIZE
    ensures Room(rs, top - n, top)
  {
    var i :| 0 <= i < |rs| && rs[i].base == base && rs[i].size == STACK_SIZE && rs[i].prot == prot;
  }

  lemma StackAligned(stackTop: u64)
    requires PAGE + STACK_SIZE <= stackTop
    ensures Sub64(stackTop, STACK_SIZE) == stackTop - STACK_SIZE && AlignUp(STACK_SIZE) == STACK_SIZE
    ensures PAGE <= AlignDown(stackTop - STACK_SIZE) && AlignDown(stackTop - STACK_SIZE) + STACK_SIZE <= stackTop
    ensures stackTop % PAGE == 0 ==> AlignDown(stackTop - STACK_SIZE) == stackTop - STACK_SIZE
  {
  }

  lemma ReadWriteAllows()
    ensures Allows(MEM_READ | MEM_WRITE, MEM_WRITE)
  {
  }

  /** Eight megabytes of fresh pages below the top. */
  method MapStack(mem: MemSpace, stackTop: u64)
    requires mem.Valid() && Inside(mem.regions, PAGE, TWO64 - 1) && PAGE + STACK_SIZE <= stackTop
    modifies mem
    ensures mem.Valid() && Inside(mem.regions, PAGE, TWO64 - 1) && Allows(MEM_READ | MEM_WRITE, MEM_WRITE)
    ensures HasRegion(mem.regions, AlignDown(stackTop - STACK_SIZE), STACK_SIZE, MEM_READ | MEM_WRITE)
    ensures stackTop % PAGE == 0 ==> AlignDown(stackTop - STACK_SIZE) == stackTop - STACK_SIZE
  {
    StackAligned(stackTop);
    ReadWriteAllows();
    var res := mem.Mmap(Sub64(stackTop, STACK_SIZE), STACK_SIZE, MEM_READ | MEM_WRITE, true, []);
    assert Inside(old(mem.regions), PAGE, TWO64 - 1);
  }

  /**
   Builds the whole stack, in fresh pages unless the caller has mapped it.  A nonzero
   result is an aligned stack pointer from which the program recovers exactly its
   arguments, environment and auxiliary vector; with a copied header table it also
   recovers its load base.  Enough room always gives one.
   */
  method SetupStack(mem: MemSpace, aot: bool, info: Info, argv: seq<CString>, envp: seq<CString>, stackTop: u64)
    returns (sp: u64)
    requires mem.Valid() && Inside(mem.regions, PAGE, TWO64 - 1) && (!aot ==> PAGE + STACK_SIZE <= stackTop)
    modifies mem, info`headers, info`phdr
    ensures mem.Valid()
    ensures sp != 0 ==> sp % 16 == 0
    ensures sp != 0 ==> exists random, platform :: Started(Held(mem.regions), info, sp, argv, envp, random, platform)
    ensures sp != 0 && info.headers != [] ==> HeadersAt(Held(mem.regions), info)
    ensures sp != 0 && info.headers != [] ==> Followed(old(info.headers), info.headers, Sub64(info.phdr, info.base))
    ensures |info.headers| == |old(info.headers)| && (info.headers == [] ==> info.phdr == old(info.phdr))
    ensures aot && Room(old(mem.regions), Top(stackTop) - Need(argv, envp, |info.headers|), Top(stackTop)) ==> sp != 0
    ensures !aot && stackTop % PAGE == 0 && Need(argv, envp, |info.headers|) <= STACK_SIZE ==> sp != 0
  {
    if !aot {
      MapStack(mem, stackTop);
      if stackTop % PAGE == 0 && Need(argv, envp, |info.headers|) <= STACK_SIZE {
        FreshRoom(mem.regions, stackTop - STACK_SIZE, stackTop, MEM_READ | MEM_WRITE, Need(argv, envp, |info.headers|));
      }
    }
    sp := FillStack(mem, mem.regions, info, argv, envp, stackTop);
  }
}
