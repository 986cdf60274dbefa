/**
 Signal delivery and return.  Delivery pushes an 800-byte frame of registers and
 the blocked mask below the stack pointer; `rt_sigreturn` reads it back.
 */
module Signals {
  import opened Common
  import opened LittleEndian
  import opened AddressSpace
  import opened Tlb
  import opened GuestAccess

  type u32 = x: int | 0 <= x < TWO32

  const FRAME: nat := 800
  const LOW: nat := 276
  const HIGH: nat := 280

  datatype CpuState = CpuState(x: seq<u64>, sp: u64, pc: u64, nzcv: u32, v: seq<seq<byte>>, fpcr: u32, fpsr: u32)

  type Cpu = c: CpuState | |c.x| == 31 && |c.v| == 32 && (forall i :: 0 <= i < 32 ==> |c.v[i]| == 16)
    witness CpuState(seq(31, _ => 0), 0, 0, 0, seq(32, _ => seq(16, _ => 0)), 0, 0)

  /** What a frame saves. */
  datatype Context = Context(cpu: Cpu, blocked: bv64)

  // ----- the frame as bytes -----

  function Words(xs: seq<u64>): (b: seq<byte>)
    ensures |b| == 8 * |xs|
  {
    if xs == [] then [] else Words(xs[..|xs| - 1]) + Le(xs[|xs| - 1], 8)
  }

  function Vectors(vs: seq<seq<byte>>): (b: seq<byte>)
    ensures (forall i :: 0 <= i < |vs| ==> |vs[i]| == 16) ==> |b| == 16 * |vs|
  {
    if vs == [] then [] else Vectors(vs[..|vs| - 1]) + vs[|vs| - 1]
  }

  /** Offsets 0 to 275: x0-x30, sp, pc, nzcv, blocked mask. */
  function LowBytes(c: Context): (b: seq<byte>)
    ensures |b| == LOW
  {
    Words(c.cpu.x) + Le(c.cpu.sp, 8) + Le(c.cpu.pc, 8) + Le(c.cpu.nzcv, 4) + Le(c.blocked as int, 8)
  }

  /** Offsets 280 to 799: v0-v31, fpcr, fpsr.  Offsets 276 to 279 are never written. */
  function HighBytes(c: Context): (b: seq<byte>)
    ensures |b| == FRAME - HIGH
  {
    Vectors(c.cpu.v) + Le(c.cpu.fpcr, 4) + Le(c.cpu.fpsr, 4)
  }

  lemma {:induction false} WordAt(xs: seq<u64>, i: nat)
    requires i < |xs|
    ensures Words(xs)[8 * i..8 * i + 8] == Le(xs[i], 8)
    decreases |xs|
  {
    var n := |xs| - 1;
    if i < n {
      WordAt(xs[..n], i);
      assert Words(xs)[8 * i..8 * i + 8] == Words(xs[..n])[8 * i..8 * i + 8];
    }
  }

  lemma {:induction false} VectorAt(vs: seq<seq<byte>>, i: nat)
    requires i < |vs| && forall k :: 0 <= k < |vs| ==> |vs[k]| == 16
    ensures Vectors(vs)[16 * i..16 * i + 16] == vs[i]
    decreases |vs|
  {
    var n := |vs| - 1;
    assert |Vectors(vs[..n])| == 16 * n;
    if i < n {
      VectorAt(vs[..n], i);
      assert Vectors(vs)[16 * i..16 * i + 16] == Vectors(vs[..n])[16 * i..16 * i + 16];
    }
  }

  // ----- guest memory, as the typed accessors see it -----

  function Read(rs: seq<Region>, addr: u64, n: u64): (r: Option<seq<byte>>) {
    match Translate(rs, addr, n, MEM_READ)
    case None => None
    case Some(p) => Some(LoadAt(rs, p, n))
  }

  /** A write that faults leaves memory alone. */
  function Write(rs: seq<Region>, addr: u64, data: seq<byte>): seq<Region>
    requires |data| < TWO64
  {
    match Translate(rs, addr, |data|, MEM_WRITE)
    case None => rs
    case Some(p) => StoreAt(rs, p, data)
  }

  /** One region holds all of [addr, addr + n) and allows `want`. */
  ghost predicate Held(rs: seq<Region>, r: nat, addr: nat, n: nat, want: Prot) {
    && r < |rs| && rs[r].base <= addr && addr + n <= rs[r].End() && addr + n < TWO64
    && Allows(rs[r].prot, want)
  }

  lemma HeldTranslates(rs: seq<Region>, next: nat, r: nat, addr: u64, n: u64, want: Prot)
    requires Mapping(rs) && OwnBuffers(rs, next) && Held(rs, r, addr, n, want) && n > 0
    ensures Translate(rs, addr, n, want) == Some(Ptr(rs[r].host.id, addr - rs[r].base))
    ensures Owner(rs, rs[r].host.id) == r
  {
    assert Covers(rs[r], addr, n);
    CoveredOnce(rs, r, addr, n);
    WalkFinds(rs, r, addr, n, want);
    OwnerIs(rs, r, next);
  }

  /** `rs` with `data` put at guest address `addr` of region `r`. */
  function Filled(rs: seq<Region>, r: nat, addr: nat, data: seq<byte>): seq<Region>
    requires r < |rs| && rs[r].base <= addr && addr - rs[r].base + |data| <= |rs[r].host.bytes|
  {
    rs[r := Poked(rs[r], addr - rs[r].base, data)]
  }

  ghost predicate Usable(rs: seq<Region>, next: nat) {
    Mapping(rs) && OwnBuffers(rs, next)
  }

  lemma FilledUsable(rs: seq<Region>, next: nat, r: nat, addr: nat, data: seq<byte>)
    requires Usable(rs, next) && Held(rs, r, addr, |data|, MEM_WRITE)
    ensures rs[r].size <= |rs[r].host.bytes|
    ensures Usable(Filled(rs, r, addr, data), next)
  {
  }

  /** Writing the next field extends what has been filled. */
  lemma FieldWritten(rs: seq<Region>, next: nat, r: nat, addr: nat, done: seq<byte>, data: seq<byte>)
    requires Usable(rs, next) && Held(rs, r, addr, |done| + |data|, MEM_WRITE) && |data| > 0
    ensures rs[r].size <= |rs[r].host.bytes|
    ensures Write(Filled(rs, r, addr, done), addr + |done|, data) == Filled(rs, r, addr, done + data)
  {
    FilledUsable(rs, next, r, addr, done);
    var now := Filled(rs, r, addr, done);
    HeldTranslates(now, next, r, addr + |done|, |data|, MEM_WRITE);
    PatchTwice(rs[r].host.bytes, addr - rs[r].base, done, data);
  }

  // ----- pushing -----

  /** Memory after a frame has been pushed at `f`. */
  function Pushed(rs: seq<Region>, r: nat, f: nat, c: Context): seq<Region>
    requires r < |rs| && rs[r].base <= f && f - rs[r].base + FRAME <= |rs[r].host.bytes|
  {
    Filled(Filled(rs, r, f, LowBytes(c)), r, f + HIGH, HighBytes(c))
  }

  /** One typed write of the frame, next to what is already there. */
  method PushField(rs0: seq<Region>, ghost next: nat, ghost r: nat, f: u64, done: nat,
    ghost before: seq<byte>, data: seq<byte>, now: seq<Region>)
    returns (rs: seq<Region>)
    requires Usable(rs0, next) && Held(rs0, r, f, |before| + |data|, MEM_WRITE) && |data| > 0 && done == |before|
    requires rs0[r].size <= |rs0[r].host.bytes| && now == Filled(rs0, r, f, before)
    ensures rs == Filled(rs0, r, f, before + data)
  {
    FieldWritten(rs0, next, r, f, before, data);
    rs := Write(now, f + done, data);
  }

  method PushRegisters(rs0: seq<Region>, ghost next: nat, ghost r: nat, f: u64, x: seq<u64>) returns (rs: seq<Region>)
    requires Usable(rs0, next) && Held(rs0, r, f, FRAME, MEM_WRITE) && |x| == 31
    ensures rs0[r].size <= |rs0[r].host.bytes|
    ensures rs == Filled(rs0, r, f, Words(x))
  {
    rs := rs0;
    assert Filled(rs0, r, f, []) == rs0 by { PatchNothing(rs0[r].host.bytes, f - rs0[r].base); }
    for i := 0 to 31
      invariant rs == Filled(rs0, r, f, Words(x[..i]))
    {
      assert x[..i + 1][..i] == x[..i];
      rs := PushField(rs0, next, r, f, 8 * i, Words(x[..i]), Le(x[i], 8), rs);
    }
    assert x[..31] == x;
  }

  method PushLow(rs0: seq<Region>, ghost next: nat, ghost r: nat, f: u64, c: Context) returns (rs: seq<Region>)
    requires Usable(rs0, next) && Held(rs0, r, f, FRAME, MEM_WRITE)
    ensures rs0[r].size <= |rs0[r].host.bytes|
    ensures rs == Filled(rs0, r, f, LowBytes(c))
  {
    rs := PushRegisters(rs0, next, r, f, c.cpu.x);
    ghost var done := Words(c.cpu.x);
    rs := PushField(rs0, next, r, f, 248, done, Le(c.cpu.sp, 8), rs);
    done := done + Le(c.cpu.sp, 8);
    rs := PushField(rs0, next, r, f, 256, done, Le(c.cpu.pc, 8), rs);
    done := done + Le(c.cpu.pc, 8);
    rs := PushField(rs0, next, r, f, 264, done, Le(c.cpu.nzcv, 4), rs);
    done := done + Le(c.cpu.nzcv, 4);
    rs := PushField(rs0, next, r, f, 268, done, Le(c.blocked as int, 8), rs);
  }

  lemma PatchNothing(s: seq<byte>, pos: nat)
    requires pos <= |s|
    ensures Patch(s, pos, []) == s
  {
  }

  method PushVectors(rs0: seq<Region>, ghost next: nat, ghost r: nat, g: u64, v: seq<seq<byte>>) returns (rs: seq<Region>)
    requires Usable(rs0, next) && Held(rs0, r, g, 520, MEM_WRITE)
    requires |v| == 32 && forall i :: 0 <= i < 32 ==> |v[i]| == 16
    ensures rs0[r].size <= |rs0[r].host.bytes|
    ensures rs == Filled(rs0, r, g, Vectors(v))
  {
    rs := rs0;
    assert Filled(rs0, r, g, []) == rs0 by { PatchNothing(rs0[r].host.bytes, g - rs0[r].base); }
    for i := 0 to 32
      invariant |Vectors(v[..i])| == 16 * i && rs == Filled(rs0, r, g, Vectors(v[..i]))
    {
      assert v[..i + 1][..i] == v[..i];
      rs := PushField(rs0, next, r, g, 16 * i, Vectors(v[..i]), v[i], rs);
    }
    assert v[..32] == v;
  }

  method PushHigh(rs0: seq<Region>, ghost next: nat, ghost r: nat, f: u64, c: Context) returns (rs: seq<Region>)
    requires Usable(rs0, next) && Held(rs0, r, f, FRAME, MEM_WRITE)
    ensures rs0[r].size <= |rs0[r].host.bytes|
    ensures rs == Filled(rs0, r, f + HIGH, HighBytes(c))
  {
    var g := f + HIGH;
    rs := PushVectors(rs0, next, r, g, c.cpu.v);
    ghost var done := Vectors(c.cpu.v);
    rs := PushField(rs0, next, r, g, 512, done, Le(c.cpu.fpcr, 4), rs);
    done := done + Le(c.cpu.fpcr, 4);
    rs := PushField(rs0, next, r, g, 516, done, Le(c.cpu.fpsr, 4), rs);
  }

  /** The saving half of delivery, field by field through the typed writes. */
  method PushFrame(rs0: seq<Region>, ghost next: nat, ghost r: nat, f: u64, c: Context) returns (rs: seq<Region>)
    requires Usable(rs0, next) && Held(rs0, r, f, FRAME, MEM_WRITE)
    ensures rs0[r].size <= |rs0[r].host.bytes|
    ensures rs == Pushed(rs0, r, f, c)
  {
    FilledUsable(rs0, next, r, f, LowBytes(c));
    rs := PushLow(rs0, next, r, f, c);
    rs := PushHigh(rs, next, r, f, c);
  }

  // ----- a frame in memory -----

  /** The frame at `f` is readable and still holds what was saved. */
  ghost predicate Intact(rs: seq<Region>, r: nat, f: nat, c: Context) {
    && Held(rs, r, f, FRAME, MEM_READ) && rs[r].size <= |rs[r].host.bytes|
    && HasAt(rs[r].host.bytes, f - rs[r].base, LowBytes(c))
    && HasAt(rs[r].host.bytes, f + HIGH - rs[r].base, HighBytes(c))
  }

  lemma PushedIntact(rs: seq<Region>, next: nat, r: nat, f: nat, c: Context)
    requires Usable(rs, next) && Held(rs, r, f, FRAME, MEM_WRITE) && Held(rs, r, f, FRAME, MEM_READ)
    ensures rs[r].size <= |rs[r].host.bytes|
    ensures Intact(Pushed(rs, r, f, c), r, f, c) && Usable(Pushed(rs, r, f, c), next)
  {
    var b, o := rs[r].host.bytes, f - rs[r].base;
    var b1 := Patch(b, o, LowBytes(c));
    var b2 := Patch(b1, o + HIGH, HighBytes(c));
    assert b2[o..o + LOW] == b1[o..o + LOW] == LowBytes(c);
  }

  /** A push changes no byte outside the frame's two parts. */
  lemma PushedOutside(rs: seq<Region>, next: nat, r: nat, f: nat, c: Context, x: nat)
    requires Usable(rs, next) && Held(rs, r, f, FRAME, MEM_WRITE) && !(f <= x < f + 276) && !(f + 280 <= x < f + 800)
    ensures rs[r].size <= |rs[r].host.bytes| && View(Pushed(rs, r, f, c), x) == View(rs, x)
  {
    var low := Filled(rs, r, f, LowBytes(c));
    FilledUsable(rs, next, r, f, LowBytes(c));
    PokedView(rs, r, f, LowBytes(c), x);
    PokedView(low, r, f + HIGH, HighBytes(c), x);
  }

  lemma TwoPatches(b: seq<byte>, o: nat, low: seq<byte>, high: seq<byte>, p: nat, part: seq<byte>)
    requires |low| == LOW && |high| == FRAME - HIGH && o + FRAME <= |b| && HasAt(b, p, part)
    requires o + FRAME <= p || p + |part| <= o
    ensures HasAt(Patch(Patch(b, o, low), o + HIGH, high), p, part)
  {
    PatchElsewhere(b, o, low, p, |part|);
    PatchElsewhere(Patch(b, o, low), o + HIGH, high, p, |part|);
  }

  /** A push leaves every frame that it does not overlap intact. */
  lemma PushedElsewhere(rs: seq<Region>, next: nat, r: nat, f: nat, c: Context, q: nat, g: nat, d: Context)
    requires Usable(rs, next) && Held(rs, r, f, FRAME, MEM_WRITE) && rs[r].size <= |rs[r].host.bytes|
    requires Intact(rs, q, g, d) && (f + FRAME <= g || g + FRAME <= f)
    ensures Intact(Pushed(rs, r, f, c), q, g, d)
  {
    PushedBytes(rs, r, f, c);
    if q == r {
      var b, o, p := rs[r].host.bytes, f - rs[r].base, g - rs[r].base;
      TwoPatches(b, o, LowBytes(c), HighBytes(c), p, LowBytes(d));
      TwoPatches(b, o, LowBytes(c), HighBytes(c), p + HIGH, HighBytes(d));
    }
  }

  /** A push changes one buffer only, by two patches. */
  lemma PushedBytes(rs: seq<Region>, r: nat, f: nat, c: Context)
    requires Held(rs, r, f, FRAME, MEM_WRITE) && rs[r].size <= |rs[r].host.bytes|
    ensures
      var b, o := rs[r].host.bytes, f - rs[r].base;
      Pushed(rs, r, f, c) ==
        rs[r := rs[r].(host := rs[r].host.(bytes := Patch(Patch(b, o, LowBytes(c)), o + HIGH, HighBytes(c))))]
  {
  }

  /** Reading a field of an intact part of memory. */
  lemma FieldRead(rs: seq<Region>, next: nat, r: nat, addr: u64, part: seq<byte>)
    requires Usable(rs, next) && |part| > 0 && Held(rs, r, addr, |part|, MEM_READ) && |part| < TWO64
    requires HasAt(rs[r].host.bytes, addr - rs[r].base, part)
    ensures Read(rs, addr, |part|) == Some(part)
  {
    HeldTranslates(rs, next, r, addr, |part|, MEM_READ);
  }

  // ----- popping -----

  lemma WindowHasAt(whole: seq<byte>, pos: nat, part: seq<byte>, k: nat, n: nat)
    requires HasAt(whole, pos, part) && k + n <= |part|
    ensures HasAt(whole, pos + k, part[k..k + n])
  {
    assert part == part[..k] + (part[k..k + n] + part[k + n..]);
    HasAtSplit(whole, pos, part[..k], part[k..k + n] + part[k + n..]);
    HasAtSplit(whole, pos + k, part[k..k + n], part[k + n..]);
  }

  lemma PrefixWindow(a: seq<byte>, b: seq<byte>, k: nat, n: nat)
    requires k + n <= |a|
    ensures (a + b)[k..k + n] == a[k..k + n]
  {
  }

  lemma RegisterField(c: Context, i: nat)
    requires i < 31
    ensures LowBytes(c)[8 * i..8 * i + 8] == Le(c.cpu.x[i], 8)
  {
    WordAt(c.cpu.x, i);
    FirstOfFive(Words(c.cpu.x), Le(c.cpu.sp, 8), Le(c.cpu.pc, 8), Le(c.cpu.nzcv, 4), Le(c.blocked as int, 8), 8 * i, 8);
  }

  lemma FirstOfFive(w: seq<byte>, a: seq<byte>, b: seq<byte>, c: seq<byte>, d: seq<byte>, k: nat, n: nat)
    requires k + n <= |w|
    ensures (w + a + b + c + d)[k..k + n] == w[k..k + n]
  {
    assert w + a + b + c + d == w + (a + b + c + d);
    PrefixWindow(w, a + b + c + d, k, n);
  }

  lemma RestOfFive(w: seq<byte>, a: seq<byte>, b: seq<byte>, c: seq<byte>, d: seq<byte>)
    requires |w| == 248 && |a| == 8 && |b| == 8 && |c| == 4 && |d| == 8
    ensures var all := w + a + b + c + d;
      all[248..256] == a && all[256..264] == b && all[264..268] == c && all[268..276] == d
  {
  }

  lemma ControlFields(c: Context)
    ensures LowBytes(c)[248..256] == Le(c.cpu.sp, 8) && LowBytes(c)[256..264] == Le(c.cpu.pc, 8)
    ensures LowBytes(c)[264..268] == Le(c.cpu.nzcv, 4) && LowBytes(c)[268..276] == Le(c.blocked as int, 8)
  {
    RestOfFive(Words(c.cpu.x), Le(c.cpu.sp, 8), Le(c.cpu.pc, 8), Le(c.cpu.nzcv, 4), Le(c.blocked as int, 8));
  }

  lemma VectorField(c: Context, i: nat)
    requires i < 32
    ensures HighBytes(c)[16 * i..16 * i + 16] == c.cpu.v[i]
  {
    VectorAt(c.cpu.v, i);
    var w := Vectors(c.cpu.v);
    assert HighBytes(c) == w + (Le(c.cpu.fpcr, 4) + Le(c.cpu.fpsr, 4));
    PrefixWindow(w, Le(c.cpu.fpcr, 4) + Le(c.cpu.fpsr, 4), 16 * i, 16);
  }

  lemma RestOfThree(w: seq<byte>, a: seq<byte>, b: seq<byte>)
    requires |w| == 512 && |a| == 4 && |b| == 4
    ensures (w + a + b)[512..516] == a && (w + a + b)[516..520] == b
  {
  }

  lemma FloatFields(c: Context)
    ensures HighBytes(c)[512..516] == Le(c.cpu.fpcr, 4) && HighBytes(c)[516..520] == Le(c.cpu.fpsr, 4)
  {
    RestOfThree(Vectors(c.cpu.v), Le(c.cpu.fpcr, 4), Le(c.cpu.fpsr, 4));
  }

  /** Any field of the low part of an intact frame reads back. */
  lemma LowReads(rs: seq<Region>, next: nat, r: nat, f: nat, c: Context, k: nat, n: nat)
    requires Usable(rs, next) && Intact(rs, r, f, c) && k + n <= LOW && n > 0
    ensures Read(rs, Add64(f, k), n) == Some(LowBytes(c)[k..k + n])
  {
    WindowHasAt(rs[r].host.bytes, f - rs[r].base, LowBytes(c), k, n);
    FieldRead(rs, next, r, f + k, LowBytes(c)[k..k + n]);
  }

  lemma HighReads(rs: seq<Region>, next: nat, r: nat, f: nat, c: Context, k: nat, n: nat)
    requires Usable(rs, next) && Intact(rs, r, f, c) && k + n <= FRAME - HIGH && n > 0
    ensures Read(rs, Add64(f, HIGH + k), n) == Some(HighBytes(c)[k..k + n])
  {
    WindowHasAt(rs[r].host.bytes, f + HIGH - rs[r].base, HighBytes(c), k, n);
    FieldRead(rs, next, r, f + HIGH + k, HighBytes(c)[k..k + n]);
  }

  /** The value of a field that was read, or nothing if the read faulted. */
  function Number(bytes: Option<seq<byte>>): Option<nat> {
    if bytes.None? then None else Some(FromLe(bytes.value))
  }

  method ReadWord(rs: seq<Region>, addr: u64) returns (v: Option<u64>)
    ensures v == Number(Read(rs, addr, 8))
  {
    var b := Read(rs, addr, 8);
    if b.None? {
      return None;
    }
    FromLeBound(b.value);
    ReadLength(rs, addr, 8);
    Pow256Widths();
    return Some(FromLe(b.value));
  }

  method ReadHalf(rs: seq<Region>, addr: u64) returns (v: Option<u32>)
    ensures v == Number(Read(rs, addr, 4))
  {
    var b := Read(rs, addr, 4);
    if b.None? {
      return None;
    }
    FromLeBound(b.value);
    ReadLength(rs, addr, 4);
    Pow256Widths();
    return Some(FromLe(b.value));
  }

  /** A load returns no more bytes than asked for. */
  lemma ReadLength(rs: seq<Region>, addr: u64, n: u64)
    ensures Read(rs, addr, n).Some? ==> |Read(rs, addr, n).value| == n || Read(rs, addr, n).value == []
  {
  }

  lemma NumberIs(got: Option<seq<byte>>, bytes: seq<byte>, n: nat, v: nat)
    requires got == Some(bytes) && bytes == Le(v, n) && v < Pow256(n)
    ensures Number(got) == Some(v)
  {
    FromLeLe(v, n);
  }

  lemma LowNumber(rs: seq<Region>, next: nat, r: nat, f: nat, c: Context, k: nat, n: nat, v: nat)
    requires Usable(rs, next) && Intact(rs, r, f, c) && k + n <= LOW && n > 0
    requires LowBytes(c)[k..k + n] == Le(v, n) && v < Pow256(n)
    ensures Number(Read(rs, Add64(f, k), n)) == Some(v)
  {
    LowReads(rs, next, r, f, c, k, n);
    NumberIs(Read(rs, Add64(f, k), n), LowBytes(c)[k..k + n], n, v);
  }

  lemma HighNumber(rs: seq<Region>, next: nat, r: nat, f: nat, c: Context, k: nat, n: nat, v: nat)
    requires Usable(rs, next) && Intact(rs, r, f, c) && k + n <= FRAME - HIGH && n > 0
    requires HighBytes(c)[k..k + n] == Le(v, n) && v < Pow256(n)
    ensures Number(Read(rs, Add64(f, HIGH + k), n)) == Some(v)
  {
    HighReads(rs, next, r, f, c, k, n);
    NumberIs(Read(rs, Add64(f, HIGH + k), n), HighBytes(c)[k..k + n], n, v);
  }

  /** Every scalar field of an intact frame reads back as the number that was saved. */
  lemma SavedNumbers(rs: seq<Region>, next: nat, r: nat, f: nat, c: Context)
    requires Usable(rs, next) && Intact(rs, r, f, c)
    ensures Number(Read(rs, Add64(f, 248), 8)) == Some(c.cpu.sp) && Number(Read(rs, Add64(f, 256), 8)) == Some(c.cpu.pc)
    ensures Number(Read(rs, Add64(f, 264), 4)) == Some(c.cpu.nzcv)
    ensures Number(Read(rs, Add64(f, 268), 8)) == Some(c.blocked as int)
  {
    ControlFields(c);
    Pow256Widths();
    LowNumber(rs, next, r, f, c, 248, 8, c.cpu.sp);
    LowNumber(rs, next, r, f, c, 256, 8, c.cpu.pc);
    LowNumber(rs, next, r, f, c, 264, 4, c.cpu.nzcv);
    LowNumber(rs, next, r, f, c, 268, 8, c.blocked as int);
  }

  lemma SavedFloats(rs: seq<Region>, next: nat, r: nat, f: nat, c: Context)
    requires Usable(rs, next) && Intact(rs, r, f, c)
    ensures Number(Read(rs, Add64(f, 792), 4)) == Some(c.cpu.fpcr) && Number(Read(rs, Add64(f, 796), 4)) == Some(c.cpu.fpsr)
  {
    FloatFields(c);
    Pow256Widths();
    HighNumber(rs, next, r, f, c, 512, 4, c.cpu.fpcr);
    HighNumber(rs, next, r, f, c, 516, 4, c.cpu.fpsr);
  }

  lemma SavedRegister(rs: seq<Region>, next: nat, r: nat, f: nat, c: Context, i: nat)
    requires Usable(rs, next) && Intact(rs, r, f, c) && i < 31
    ensures Number(Read(rs, Add64(f, 8 * i), 8)) == Some(c.cpu.x[i])
  {
    RegisterField(c, i);
    Pow256Widths();
    LowNumber(rs, next, r, f, c, 8 * i, 8, c.cpu.x[i]);
  }

  lemma SavedVector(rs: seq<Region>, next: nat, r: nat, f: nat, c: Context, i: nat)
    requires Usable(rs, next) && Intact(rs, r, f, c) && i < 32
    ensures Read(rs, Add64(f, HIGH + 16 * i), 16) == Some(c.cpu.v[i])
  {
    VectorField(c, i);
    HighReads(rs, next, r, f, c, 16 * i, 16);
  }

  /** The general registers, as far as they can be read. */
  method PopRegisters(rs: seq<Region>, f: u64, x0: seq<u64>, ghost next: nat, ghost r: nat, ghost saved: Context)
    returns (ok: bool, x: seq<u64>)
    requires Usable(rs, next) && |x0| == 31
    ensures |x| == 31 && (Intact(rs, r, f, saved) ==> ok && x == saved.cpu.x)
  {
    x := x0;
    ghost var intact := Intact(rs, r, f, saved);
    for i := 0 to 31
      invariant |x| == 31 && (intact ==> forall k :: 0 <= k < i ==> x[k] == saved.cpu.x[k])
    {
      if intact {
        SavedRegister(rs, next, r, f, saved, i);
      }
      var v := ReadWord(rs, Add64(f, 8 * i));
      if v.None? {
        return false, x;
      }
      x := x[i := v.value];
    }
    assert intact ==> x == saved.cpu.x;
    ok := true;
  }

  method PopVectors(rs: seq<Region>, f: u64, v0: seq<seq<byte>>, ghost next: nat, ghost r: nat, ghost saved: Context)
    returns (ok: bool, v: seq<seq<byte>>)
    requires Usable(rs, next) && |v0| == 32 && forall i :: 0 <= i < 32 ==> |v0[i]| == 16
    ensures |v| == 32 && (forall i :: 0 <= i < 32 ==> |v[i]| == 16)
    ensures Intact(rs, r, f, saved) ==> ok && v == saved.cpu.v
  {
    v := v0;
    ghost var intact := Intact(rs, r, f, saved);
    for i := 0 to 32
      invariant |v| == 32 && (forall k :: 0 <= k < 32 ==> |v[k]| == 16)
      invariant intact ==> v[..i] == saved.cpu.v[..i]
    {
      if intact {
        SavedVector(rs, next, r, f, saved, i);
      }
      var b := Read(rs, Add64(f, HIGH + 16 * i), 16);
      if b.None? || |b.value| != 16 {
        return false, v;
      }
      v := v[i := b.value];
    }
    assert v[..32] == v && saved.cpu.v[..32] == saved.cpu.v;
    ok := true;
  }

  /** The vector registers and the floating-point control words. */
  method PopFloats(rs: seq<Region>, f: u64, was: Cpu, ghost next: nat, ghost r: nat, ghost saved: Context)
    returns (ok: bool, now: Cpu)
    requires Usable(rs, next)
    ensures Intact(rs, r, f, saved) ==> ok && now == was.(v := saved.cpu.v, fpcr := saved.cpu.fpcr, fpsr := saved.cpu.fpsr)
  {
    if Intact(rs, r, f, saved) {
      SavedFloats(rs, next, r, f, saved);
    }
    var v;
    ok, v := PopVectors(rs, f, was.v, next, r, saved);
    now := was.(v := v);
    if !ok {
      return;
    }
    var fpcr := ReadHalf(rs, Add64(f, 792));
    if fpcr.None? {
      return false, now;
    }
    now := now.(fpcr := fpcr.value);
    var fpsr := ReadHalf(rs, Add64(f, 796));
    if fpsr.None? {
      return false, now;
    }
    now := now.(fpsr := fpsr.value);
  }

  /** `was` with everything restored but the vectors and floating-point control words. */
  ghost function Integers(was: Context, saved: Context): Context {
    Context(was.cpu.(x := saved.cpu.x, sp := saved.cpu.sp, pc := saved.cpu.pc, nzcv := saved.cpu.nzcv), saved.blocked)
  }

  /** The general registers, sp, pc, nzcv and the mask. */
  method PopIntegers(rs: seq<Region>, f: u64, was: Context, ghost next: nat, ghost r: nat, ghost saved: Context)
    returns (ok: bool, now: Context)
    requires Usable(rs, next)
    ensures Intact(rs, r, f, saved) ==> ok && now == Integers(was, saved)
  {
    if Intact(rs, r, f, saved) {
      SavedNumbers(rs, next, r, f, saved);
    }
    var x;
    ok, x := PopRegisters(rs, f, was.cpu.x, next, r, saved);
    now := was.(cpu := was.cpu.(x := x));
    if !ok {
      return;
    }
    ok, now := PopControl(rs, f, now, next);
  }

  /**
   `do_rt_sigreturn`: an intact frame at the stack pointer gives back every saved register
   and the blocked mask.  A faulting read stops the restoring where it is.
   */
  method PopFrame(rs: seq<Region>, was: Context, ghost next: nat, ghost r: nat, ghost saved: Context)
    returns (ok: bool, now: Context)
    requires Usable(rs, next)
    ensures Intact(rs, r, was.cpu.sp, saved) ==> ok && now == saved
  {
    ok, now := PopIntegers(rs, was.cpu.sp, was, next, r, saved);
    if !ok {
      return;
    }
    var cpu;
    ok, cpu := PopFloats(rs, was.cpu.sp, now.cpu, next, r, saved);
    now := now.(cpu := cpu);
  }

  /** sp, pc, nzcv and the mask, in that order. */
  method PopControl(rs: seq<Region>, f: u64, was: Context, ghost next: nat) returns (ok: bool, now: Context)
    ensures
      var sp, pc := Number(Read(rs, Add64(f, 248), 8)), Number(Read(rs, Add64(f, 256), 8));
      var nz, bl := Number(Read(rs, Add64(f, 264), 4)), Number(Read(rs, Add64(f, 268), 8));
      sp.Some? && pc.Some? && nz.Some? && bl.Some? &&
      sp.value < TWO64 && pc.value < TWO64 && nz.value < TWO32 && bl.value < TWO64 ==>
        ok && now == Context(was.cpu.(sp := sp.value, pc := pc.value, nzcv := nz.value), bl.value as bv64)
  {
    now := was;
    ok := false;
    var v := ReadWord(rs, Add64(f, 248));
    if v.None? {
      return;
    }
    now := now.(cpu := now.cpu.(sp := v.value));
    v := ReadWord(rs, Add64(f, 256));
    if v.None? {
      return;
    }
    now := now.(cpu := now.cpu.(pc := v.value));
    var n := ReadHalf(rs, Add64(f, 264));
    if n.None? {
      return;
    }
    now := now.(cpu := now.cpu.(nzcv := n.value));
    v := ReadWord(rs, Add64(f, 268));
    if v.None? {
      return;
    }
    now := now.(blocked := v.value as bv64);
    ok := true;
  }
}
