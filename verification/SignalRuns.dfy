/**
 The signal machinery of one process, and whole runs of it: deliveries nested to
 any depth, handlers doing what they like, and returns.
 */
module SignalRuns {
  import opened Common
  import opened AddressSpace
  import opened Tlb
  import opened GuestAccess
  import opened Signals

  const NSIG: nat := 64
  const SIGKILL: nat := 9
  const SIGCHLD: nat := 17
  const SIGCONT: nat := 18
  const SIGSTOP: nat := 19

  const SA_RESTORER: bv64 := 0x0400_0000
  const SA_NODEFER: bv64 := 0x4000_0000
  const SA_RESETHAND: bv64 := 0x8000_0000

  const SIG_DFL: u64 := 0
  const SIG_IGN: u64 := 1

  datatype Action = Action(handler: u64, flags: bv64, restorer: u64, mask: bv64)

  /** `SIGMASK`: signal 1 is the lowest bit. */
  function Bit(sig: nat): bv64
    requires 1 <= sig < NSIG
  {
    if sig == 1 then 1 else Bit(sig - 1) << 1
  }

  /** The bits of SIGKILL and SIGSTOP. */
  const UNCATCHABLE: bv64 := 0x4_0100

  lemma UncatchableBits()
    ensures UNCATCHABLE == Bit(SIGKILL) | Bit(SIGSTOP)
  {
    assert Bit(5) == 0x10 by { assert Bit(3) == 4; }
    assert Bit(9) == 0x100 by { assert Bit(7) == 0x40; }
    assert Bit(13) == 0x1000 by { assert Bit(11) == 0x400; }
    assert Bit(17) == 0x1_0000 by { assert Bit(15) == 0x4000; }
    assert Bit(19) == 0x4_0000;
  }

  predicate HasSignal(mask: bv64, sig: nat)
    requires 1 <= sig < NSIG
  {
    mask & Bit(sig) != 0
  }

  lemma MaskLaws(b: bv64, u: bv64)
    ensures (b & !u) & u == 0 && (b & !u) | u == b | u
  {
  }

  lemma ApartBits(b: bv64, u: bv64, v: bv64)
    ensures b & (u | v) == 0 ==> b & u == 0 && b & v == 0
  {
  }

  predicate DefaultIgnored(sig: nat) {
    sig == SIGCHLD || sig == 23 || sig == 28
  }

  predicate DefaultStops(sig: nat) {
    sig == SIGSTOP || sig == 20 || sig == 21 || sig == 22
  }

  /** The lowest signal from `sig` on whose bit is set, or NSIG. */
  function Lowest(mask: bv64, sig: nat): (s: nat)
    requires 1 <= sig <= NSIG
    ensures sig <= s <= NSIG
    ensures s < NSIG ==> HasSignal(mask, s)
    ensures forall k :: sig <= k < s ==> !HasSignal(mask, k)
    decreases NSIG - sig
  {
    if sig == NSIG || HasSignal(mask, sig) then sig else Lowest(mask, sig + 1)
  }

  function NewMask(how: int, before: bv64, mask: bv64): bv64 {
    if how == 0 then before | mask else if how == 1 then before & !mask else mask
  }

  /** Where the frame goes: below the stack pointer, on a 16-byte boundary. */
  function FrameAddr(sp: u64): (f: u64)
    ensures f % 16 == 0
    ensures sp >= FRAME + 15 ==> f + FRAME <= sp
  {
    var a := Wrap64(sp - FRAME);
    a - a % 16
  }

  /** Registers and mask on entry to a handler. */
  function Entered(c: Context, a: Action, sig: nat): Context
    requires 1 <= sig < NSIG
  {
    var x := c.cpu.x[0 := sig][30 := if a.flags & SA_RESTORER != 0 then a.restorer else 0];
    var blocked := c.blocked | a.mask | (if a.flags & SA_NODEFER == 0 then Bit(sig) else 0);
    Context(c.cpu.(sp := FrameAddr(c.cpu.sp), x := x, pc := a.handler), blocked & !UNCATCHABLE)
  }

  /** SIGKILL and SIGSTOP are blocked in no handler. */
  lemma EnteredCatchable(c: Context, a: Action, sig: nat)
    requires 1 <= sig < NSIG
    ensures Entered(c, a, sig).blocked & UNCATCHABLE == 0
    ensures !HasSignal(Entered(c, a, sig).blocked, SIGKILL) && !HasSignal(Entered(c, a, sig).blocked, SIGSTOP)
  {
    UncatchableBits();
    ApartBits(Entered(c, a, sig).blocked, Bit(SIGKILL), Bit(SIGSTOP));
    MaskLaws(c.blocked | a.mask | (if a.flags & SA_NODEFER == 0 then Bit(sig) else 0), UNCATCHABLE);
  }

  /** Memory `now` is `was` with a frame pushed into region `r`. */
  ghost predicate PushedInto(was: seq<Region>, now: seq<Region>, r: nat, f: nat, c: Context) {
    && Held(was, r, f, FRAME, MEM_WRITE) && was[r].size <= |was[r].host.bytes|
    && now == Pushed(was, r, f, c)
  }

  // ----- what delivery should do, in numbers -----

  /** One writable region holds the 800 bytes below the stack pointer, from a multiple of 16 on. */
  ghost predicate Roomy(rs: seq<Region>, sp: u64) {
    var f := (sp - 800) % TWO64 / 16 * 16;
    exists i :: 0 <= i < |rs| && rs[i].prot & 2 == 2 && rs[i].base <= f && f + 800 <= rs[i].End()
  }

  /** Which outcome a signal has, by its handler and its number. */
  ghost predicate Decided(handler: u64, sig: nat, room: bool, out: Outcome) {
    && !out.Nothing? && out.sig == sig
    && (out.Handled? <==> handler > 1 && room)
    && (out.NoRoom? <==> handler > 1 && !room)
    && (out.Ignored? <==> handler == 1 || (handler == 0 && (sig == 17 || sig == 23 || sig == 28)))
    && (out.Continued? <==> handler == 0 && sig == 18)
    && (out.Stopped? <==> handler == 0 && 19 <= sig <= 22)
    && (out.Killed? <==> handler == 0 && !(17 <= sig <= 23) && sig != 28)
  }

  /** `u` is the bit of signal `s`. */
  ghost predicate IsBit(s: nat, u: bv64) {
    1 <= s < NSIG && u == Bit(s)
  }

  /** Every signal of `mask` but 9 and 19 is blocked by `now`. */
  ghost predicate Blocks(mask: bv64, now: bv64) {
    forall s, u :: IsBit(s, u) && s != 9 && s != 19 && mask & u != 0 ==> now & u != 0
  }

  /** No signal is blocked by `now` that is neither in the two masks nor `own`. */
  ghost predicate BlocksOnly(was: bv64, mask: bv64, own: nat, now: bv64) {
    forall s, u :: IsBit(s, u) && was & u == 0 && mask & u == 0 && s != own ==> now & u == 0
  }

  /**
   What is blocked in a handler: what was, what the action asks for, and the signal itself
   if it is `deferred`; but never 9 and 19.
   */
  ghost predicate HandlerMask(was: bv64, mask: bv64, deferred: bool, sig: nat, now: bv64)
    requires 1 <= sig < NSIG
  {
    && Blocks(was, now) && Blocks(mask, now) && (deferred && sig != 9 && sig != 19 ==> now & Bit(sig) != 0)
    && BlocksOnly(was, mask, if deferred then sig else 0, now) && now & 0x4_0100 == 0
  }

  /** The processor and the mask on entry to a handler, register by register and signal by signal. */
  ghost predicate Enters(was: Context, a: Action, sig: nat, now: Context)
    requires 1 <= sig < NSIG
  {
    && now.cpu.pc == a.handler && now.cpu.sp == (was.cpu.sp - 800) % TWO64 / 16 * 16
    && now.cpu.x[0] == sig && now.cpu.x[30] == (if a.flags & 0x0400_0000 != 0 then a.restorer else 0)
    && (forall i :: 1 <= i < 30 ==> now.cpu.x[i] == was.cpu.x[i])
    && now.cpu.v == was.cpu.v && now.cpu.nzcv == was.cpu.nzcv
    && now.cpu.fpcr == was.cpu.fpcr && now.cpu.fpsr == was.cpu.fpsr
    && HandlerMask(was.blocked, a.mask, a.flags & 0x4000_0000 == 0, sig, now.blocked)
  }

  /** The action afterwards: the handler is reset if it asked for that. */
  ghost predicate Afterwards(was: Action, now: Action) {
    && now.handler == (if was.flags & 0x8000_0000 != 0 then 0 else was.handler)
    && now.flags == was.flags && now.restorer == was.restorer && now.mask == was.mask
  }

  lemma ShiftedApart(a: bv64, b: bv64)
    requires a & b == 0
    ensures (a << 1) & (b << 1) == 0
  {
  }

  lemma FirstApart(b: bv64)
    ensures 1 & (b << 1) == 0
  {
  }

  lemma {:induction false} BitsApart(s: nat, t: nat)
    requires 1 <= s < t < NSIG
    ensures Bit(s) & Bit(t) == 0
    decreases s
  {
    if s == 1 {
      FirstApart(Bit(t - 1));
    } else {
      BitsApart(s - 1, t - 1);
      ShiftedApart(Bit(s - 1), Bit(t - 1));
    }
  }

  lemma LastBit()
    ensures Bit(63) == 0x4000_0000_0000_0000
  {
    UncatchableBits();
    assert Bit(17) == 0x1_0000 by { assert Bit(9) == 0x100 by { assert Bit(5) == 0x10; } assert Bit(13) == 0x1000; }
    assert Bit(21) == 0x10_0000 by { assert Bit(19) == 0x4_0000; }
    assert Bit(25) == 0x100_0000 by { assert Bit(23) == 0x40_0000; }
    assert Bit(29) == 0x1000_0000 by { assert Bit(27) == 0x400_0000; }
    assert Bit(33) == 0x1_0000_0000 by { assert Bit(31) == 0x4000_0000; }
    assert Bit(37) == 0x10_0000_0000 by { assert Bit(35) == 0x4_0000_0000; }
    assert Bit(41) == 0x100_0000_0000 by { assert Bit(39) == 0x40_0000_0000; }
    assert Bit(45) == 0x1000_0000_0000 by { assert Bit(43) == 0x400_0000_0000; }
    assert Bit(49) == 0x1_0000_0000_0000 by { assert Bit(47) == 0x4000_0000_0000; }
    assert Bit(53) == 0x10_0000_0000_0000 by { assert Bit(51) == 0x4_0000_0000_0000; }
    assert Bit(57) == 0x100_0000_0000_0000 by { assert Bit(55) == 0x40_0000_0000_0000; }
    assert Bit(61) == 0x1000_0000_0000_0000 by { assert Bit(59) == 0x400_0000_0000_0000; }
  }

  lemma {:induction false} BitNonzero(s: nat)
    requires 1 <= s < NSIG
    ensures Bit(s) != 0
    decreases NSIG - s
  {
    if s == 63 {
      LastBit();
    } else {
      BitNonzero(s + 1);
    }
  }

  lemma SameBits(m: bv64, n: bv64, u: bv64)
    requires m == n
    ensures m & u == n & u
  {
  }

  lemma FirstKept(m: bv64, b: bv64, c: bv64, d: bv64, v: bv64, u: bv64)
    requires m == (b | c | d) & !v && v & u == 0 && b & u != 0
    ensures m & u != 0
  {
    SameBits(m, (b | c | d) & !v, u);
  }

  lemma SecondKept(m: bv64, b: bv64, c: bv64, d: bv64, v: bv64, u: bv64)
    requires m == (b | c | d) & !v && v & u == 0 && c & u != 0
    ensures m & u != 0
  {
    SameBits(m, (b | c | d) & !v, u);
  }

  lemma ThirdKept(m: bv64, b: bv64, c: bv64, d: bv64, v: bv64, u: bv64)
    requires m == (b | c | d) & !v && v & u == 0 && d & u != 0
    ensures m & u != 0
  {
    SameBits(m, (b | c | d) & !v, u);
  }

  lemma NoneKept(m: bv64, b: bv64, c: bv64, d: bv64, v: bv64, u: bv64)
    requires m == (b | c | d) & !v && b & u == 0 && c & u == 0 && d & u == 0
    ensures m & u == 0
  {
    SameBits(m, (b | c | d) & !v, u);
  }

  lemma UnionHas(a: bv64, b: bv64)
    ensures (a | b) & a == a && (a | b) & b == b
  {
  }

  lemma UnionHasNot(a: bv64, b: bv64, u: bv64)
    requires a & u == 0 && b & u == 0
    ensures (a | b) & u == 0
  {
  }

  lemma AndSwap(a: bv64, b: bv64)
    ensures a & b == b & a
  {
  }

  lemma BitsDiffer(s: nat, t: nat)
    requires 1 <= s < NSIG && 1 <= t < NSIG && s != t
    ensures Bit(s) & Bit(t) == 0
  {
    if s < t {
      BitsApart(s, t);
    } else {
      BitsApart(t, s);
      AndSwap(Bit(s), Bit(t));
    }
  }

  lemma UnionOfTwo(v: bv64, k: nat, t: nat, s: nat)
    requires 1 <= k < NSIG && 1 <= t < NSIG && 1 <= s < NSIG && v == Bit(k) | Bit(t)
    ensures s == k || s == t ==> v & Bit(s) == Bit(s)
    ensures s != k && s != t ==> v & Bit(s) == 0
  {
    if s == k || s == t {
      UnionHas(Bit(k), Bit(t));
    } else {
      BitsDiffer(k, s);
      BitsDiffer(t, s);
      UnionHasNot(Bit(k), Bit(t), Bit(s));
    }
  }

  /** `v` has no bit but those of signals 9 and 19. */
  ghost predicate OnlyUncatchable(v: bv64) {
    forall s, u :: IsBit(s, u) && s != 9 && s != 19 ==> v & u == 0
  }

  /** `d` has no bit but that of `own`. */
  ghost predicate OnlyOwn(d: bv64, own: nat) {
    forall s, u :: IsBit(s, u) && s != own ==> d & u == 0
  }

  lemma UncatchableOnly(v: bv64, k: nat, t: nat)
    requires k == 9 && t == 19 && v == Bit(k) | Bit(t)
    ensures OnlyUncatchable(v)
  {
    forall s, u | IsBit(s, u) && s != 9 && s != 19
      ensures v & u == 0
    {
      UnionOfTwo(v, k, t, s);
    }
  }

  lemma NoBit(u: bv64)
    ensures 0 & u == 0
  {
  }

  lemma OwnOnly(sig: nat)
    requires 1 <= sig < NSIG
    ensures OnlyOwn(Bit(sig), sig)
  {
    forall s, u | IsBit(s, u) && s != sig
      ensures Bit(sig) & u == 0
    {
      BitsDiffer(sig, s);
    }
  }

  lemma NothingOwn()
    ensures OnlyOwn(0, 0)
  {
    forall s, u | IsBit(s, u) && s != 0
      ensures 0 & u == 0
    {
      NoBit(u);
    }
  }

  lemma FirstBlocks(m: bv64, b: bv64, c: bv64, d: bv64, v: bv64)
    requires m == (b | c | d) & !v && OnlyUncatchable(v)
    ensures Blocks(b, m)
  {
    forall s, u | IsBit(s, u) && s != 9 && s != 19 && b & u != 0
      ensures m & u != 0
    {
      FirstKept(m, b, c, d, v, u);
    }
  }

  lemma SecondBlocks(m: bv64, b: bv64, c: bv64, d: bv64, v: bv64)
    requires m == (b | c | d) & !v && OnlyUncatchable(v)
    ensures Blocks(c, m)
  {
    forall s, u | IsBit(s, u) && s != 9 && s != 19 && c & u != 0
      ensures m & u != 0
    {
      SecondKept(m, b, c, d, v, u);
    }
  }

  lemma SelfAnd(u: bv64)
    ensures u & u == u
  {
  }

  lemma OwnBlocks(m: bv64, b: bv64, c: bv64, v: bv64, sig: nat, u: bv64)
    requires IsBit(sig, u) && sig != 9 && sig != 19 && OnlyUncatchable(v) && m == (b | c | u) & !v
    ensures m & u != 0
  {
    BitNonzero(sig);
    SelfAnd(u);
    ThirdKept(m, b, c, u, v, u);
  }

  lemma NothingElseBlocks(m: bv64, b: bv64, c: bv64, d: bv64, v: bv64, own: nat)
    requires m == (b | c | d) & !v && OnlyOwn(d, own)
    ensures BlocksOnly(b, c, own, m)
  {
    forall s, u | IsBit(s, u) && b & u == 0 && c & u == 0 && s != own
      ensures m & u == 0
    {
      NoneKept(m, b, c, d, v, u);
    }
  }

  lemma UncatchableTaken(m: bv64, x: bv64, v: bv64)
    requires m == x & !v
    ensures m & v == 0
  {
  }

  lemma MaskWithOwn(m: bv64, b: bv64, c: bv64, v: bv64, sig: nat, u: bv64)
    requires IsBit(sig, u) && OnlyUncatchable(v) && v == 0x4_0100 && m == (b | c | u) & !v
    ensures HandlerMask(b, c, true, sig, m)
  {
    FirstBlocks(m, b, c, u, v);
    SecondBlocks(m, b, c, u, v);
    OwnOnly(sig);
    NothingElseBlocks(m, b, c, u, v, sig);
    UncatchableTaken(m, b | c | u, v);
    if sig != 9 && sig != 19 {
      OwnBlocks(m, b, c, v, sig, u);
    }
  }

  lemma MaskWithout(m: bv64, b: bv64, c: bv64, v: bv64, sig: nat, none: bv64)
    requires 1 <= sig < NSIG && OnlyUncatchable(v) && v == 0x4_0100 && none == 0 && m == (b | c | none) & !v
    ensures HandlerMask(b, c, false, sig, m)
  {
    FirstBlocks(m, b, c, none, v);
    SecondBlocks(m, b, c, none, v);
    NothingOwn();
    NothingElseBlocks(m, b, c, none, v, 0);
    UncatchableTaken(m, b | c | none, v);
  }

  /** Entering a handler leaves exactly this. */
  lemma EntersRight(c: Context, a: Action, sig: nat)
    requires 1 <= sig < NSIG
    ensures Enters(c, a, sig, Entered(c, a, sig))
  {
    UncatchableBits();
    UncatchableOnly(UNCATCHABLE, SIGKILL, SIGSTOP);
    if a.flags & SA_NODEFER == 0 {
      MaskWithOwn(Entered(c, a, sig).blocked, c.blocked, a.mask, UNCATCHABLE, sig, Bit(sig));
    } else {
      MaskWithout(Entered(c, a, sig).blocked, c.blocked, a.mask, UNCATCHABLE, sig, 0);
    }
  }

  lemma FrameIs(sp: u64)
    ensures FrameAddr(sp) == (sp - 800) % TWO64 / 16 * 16
  {
  }

  /** The translation decides about the room. */
  lemma RoomIsTranslated(rs: seq<Region>, next: nat, sp: u64)
    requires Usable(rs, next)
    ensures Translate(rs, FrameAddr(sp), FRAME, MEM_WRITE).Some? <==> Roomy(rs, sp)
  {
    var f := FrameAddr(sp);
    FrameIs(sp);
    if Translate(rs, f, FRAME, MEM_WRITE).Some? {
      var i := WalkFound(rs, f, FRAME, MEM_WRITE);
    }
    if Roomy(rs, sp) {
      var i :| 0 <= i < |rs| && rs[i].prot & 2 == 2 && rs[i].base <= f && f + 800 <= rs[i].End();
      CoveredOnce(rs, i, f, FRAME);
      WalkFinds(rs, i, f, FRAME, MEM_WRITE);
    }
  }

  datatype Outcome =
    | Nothing
    | Ignored(sig: nat)
    | Continued(sig: nat)
    | Stopped(sig: nat)
    | Killed(sig: nat)
    | NoRoom(sig: nat)
    | Handled(sig: nat)

  class Process {
    var ctx: Context
    var pending: bv64
    var actions: seq<Action>
    var rs: seq<Region>
    ghost var next: nat

    ghost predicate Valid()
      reads this
    {
      Usable(rs, next) && |actions| == NSIG
    }

    constructor (c: Context, mem: seq<Region>, ghost n: nat, acts: seq<Action>)
      requires Usable(mem, n) && |acts| == NSIG
      ensures Valid() && ctx == c && pending == 0 && rs == mem && next == n && actions == acts
    {
      ctx, pending, rs, next, actions := c, 0, mem, n, acts;
    }

    /** `sig_send`. */
    method Send(sig: int) returns (ok: bool)
      modifies this`pending
      ensures ok <==> 1 <= sig < NSIG
      ensures pending == if ok then old(pending) | Bit(sig) else old(pending)
    {
      ok := 1 <= sig < NSIG;
      if ok {
        pending := pending | Bit(sig);
      }
    }

    /** `sig_procmask`: an unknown `how` changes nothing, and no mask blocks the uncatchable two. */
    method Procmask(how: int, mask: bv64) returns (ok: bool, before: bv64)
      modifies this`ctx
      ensures before == old(ctx.blocked) && ctx.cpu == old(ctx.cpu) && (ok <==> 0 <= how <= 2)
      ensures !ok ==> ctx == old(ctx)
      ensures ok ==> ctx.blocked & UNCATCHABLE == 0
      ensures ok ==> ctx.blocked | UNCATCHABLE == NewMask(how, before, mask) | UNCATCHABLE
    {
      before := ctx.blocked;
      ok := 0 <= how <= 2;
      if ok {
        MaskLaws(NewMask(how, before, mask), UNCATCHABLE);
        ctx := ctx.(blocked := NewMask(how, before, mask) & !UNCATCHABLE);
      }
    }

    /**
     `sig_deliver`: takes the lowest pending unblocked signal, clears that bit alone, and acts
     by handler, number and room.  Only a handled signal changes registers, mask or memory.
     */
    method Deliver() returns (out: Outcome)
      requires Valid()
      modifies this
      ensures Valid() && next == old(next)
      ensures out.Nothing? <==> Lowest(old(pending) & !old(ctx).blocked, 1) == NSIG
      ensures out.Nothing? ==> pending == old(pending)
      ensures !out.Nothing? ==>
        out.sig == Lowest(old(pending) & !old(ctx).blocked, 1) < NSIG && pending == old(pending) & !Bit(out.sig)
      ensures !out.Nothing? ==> Decided(old(actions)[out.sig].handler, out.sig, Roomy(old(rs), old(ctx).cpu.sp), out)
      ensures !out.Handled? ==> ctx == old(ctx) && rs == old(rs) && actions == old(actions)
      ensures out.Handled? ==>
        && ctx == Entered(old(ctx), old(actions)[out.sig], out.sig)
        && actions == old(actions)[out.sig := actions[out.sig]]
        && Afterwards(old(actions)[out.sig], actions[out.sig])
        && (exists r :: PushedInto(old(rs), rs, r, FrameAddr(old(ctx).cpu.sp), old(ctx)))
    {
      var sig := LowestPending(pending & !ctx.blocked);
      if sig >= NSIG {
        return Nothing;
      }
      pending := pending & !Bit(sig);
      out := Act(sig);
    }

    /** What happens to a signal that has been taken. */
    method Act(sig: nat) returns (out: Outcome)
      requires Valid() && 1 <= sig < NSIG
      modifies this`ctx, this`rs, this`actions
      ensures Valid() && Decided(old(actions)[sig].handler, sig, Roomy(old(rs), old(ctx).cpu.sp), out)
      ensures !out.Handled? ==> ctx == old(ctx) && rs == old(rs) && actions == old(actions)
      ensures out.Handled? ==>
        && ctx == Entered(old(ctx), old(actions)[sig], sig)
        && actions == old(actions)[sig := actions[sig]] && Afterwards(old(actions)[sig], actions[sig])
        && (exists r :: PushedInto(old(rs), rs, r, FrameAddr(old(ctx).cpu.sp), old(ctx)))
    {
      var a := actions[sig];
      if a.handler == SIG_IGN {
        return Ignored(sig);
      }
      if a.handler == SIG_DFL {
        return if DefaultIgnored(sig) then Ignored(sig)
               else if sig == SIGCONT then Continued(sig)
               else if DefaultStops(sig) then Stopped(sig)
               else Killed(sig);
      }
      var ok := PushContext();
      if !ok {
        return NoRoom(sig);
      }
      Enter(a, sig);
      out := Handled(sig);
    }

    /** Saves the context below the stack pointer if there is room. */
    method PushContext() returns (ok: bool)
      requires Valid()
      modifies this`rs
      ensures Valid() && (ok <==> Roomy(old(rs), ctx.cpu.sp)) && (!ok ==> rs == old(rs))
      ensures ok ==> exists r :: PushedInto(old(rs), rs, r, FrameAddr(ctx.cpu.sp), ctx)
    {
      var f := FrameAddr(ctx.cpu.sp);
      var p := Translate(rs, f, FRAME, MEM_WRITE);
      RoomIsTranslated(rs, next, ctx.cpu.sp);
      ok := p.Some?;
      if ok {
        ghost var r := WalkFound(rs, f, FRAME, MEM_WRITE);
        assert Held(rs, r, f, FRAME, MEM_WRITE);
        PushedUsable(rs, next, r, f, ctx);
        rs := PushFrame(rs, next, r, f, ctx);
        assert PushedInto(old(rs), rs, r, f, ctx);
      }
    }

    /** Sets registers and mask for the handler. */
    method Enter(a: Action, sig: nat)
      requires 1 <= sig < NSIG && |actions| == NSIG && a == actions[sig]
      modifies this`ctx, this`actions
      ensures ctx == Entered(old(ctx), a, sig)
      ensures |actions| == NSIG && actions == old(actions)[sig := actions[sig]] && Afterwards(a, actions[sig])
    {
      ctx := Entered(ctx, a, sig);
      actions := actions[sig := AfterDelivery(a)];
    }

    /** `do_rt_sigreturn` on this process. */
    method Sigreturn(ghost r: nat, ghost saved: Context) returns (ok: bool)
      requires Valid()
      modifies this`ctx
      ensures Intact(rs, r, old(ctx).cpu.sp, saved) ==> ok && ctx == saved
    {
      ok, ctx := PopFrame(rs, ctx, next, r, saved);
    }
  }

  /** The search for the first pending unblocked signal. */
  method LowestPending(deliverable: bv64) returns (sig: nat)
    ensures sig == Lowest(deliverable, 1)
  {
    sig := 1;
    while sig < NSIG && !HasSignal(deliverable, sig)
      invariant 1 <= sig <= NSIG && Lowest(deliverable, 1) == Lowest(deliverable, sig)
    {
      sig := sig + 1;
    }
  }

  /** SA_RESETHAND puts the default handler back. */
  function AfterDelivery(a: Action): Action {
    if a.flags & SA_RESETHAND != 0 then a.(handler := SIG_DFL) else a
  }

  lemma PushedUsable(rs: seq<Region>, next: nat, r: nat, f: nat, c: Context)
    requires Usable(rs, next) && Held(rs, r, f, FRAME, MEM_WRITE)
    ensures rs[r].size <= |rs[r].host.bytes| && Usable(Pushed(rs, r, f, c), next)
  {
  }

  // ----- runs -----

  /** A frame that a handler has not yet returned through. */
  datatype Live = Live(f: nat, saved: Context)

  datatype State = State(ctx: Context, rs: seq<Region>, next: nat, live: seq<Live>)

  ghost predicate StillIntact(rs: seq<Region>, l: Live) {
    exists r :: Intact(rs, r, l.f, l.saved)
  }

  /** Frames are intact, and each lies wholly below all older ones. */
  ghost predicate Sound(s: State) {
    && Usable(s.rs, s.next)
    && (forall k :: 0 <= k < |s.live| ==> StillIntact(s.rs, s.live[k]))
    && (forall i, j :: 0 <= i < j < |s.live| ==> s.live[j].f + FRAME <= s.live[i].f)
  }

  /** Delivery to a handler, with the stack pointer below all live frames. */
  ghost predicate DeliverStep(s: State, t: State) {
    var f := FrameAddr(s.ctx.cpu.sp);
    && s.ctx.cpu.sp >= FRAME + 15
    && (forall k :: 0 <= k < |s.live| ==> s.ctx.cpu.sp <= s.live[k].f)
    && t.next == s.next && t.live == s.live + [Live(f, s.ctx)]
    && (exists a, sig :: 1 <= sig < NSIG && t.ctx == Entered(s.ctx, a, sig))
    && (exists r :: PushesAt(s, t, r, f))
  }

  ghost predicate PushesAt(s: State, t: State, r: nat, f: nat) {
    Held(s.rs, r, f, FRAME, MEM_READ) && PushedInto(s.rs, t.rs, r, f, s.ctx)
  }

  /** Anything else: registers and memory change freely, the live frames stay intact. */
  ghost predicate OtherStep(s: State, t: State) {
    t.live == s.live && Usable(t.rs, t.next) && forall k :: 0 <= k < |t.live| ==> StillIntact(t.rs, t.live[k])
  }

  /** A return with the stack pointer at the newest frame, doing what `Sigreturn` promises. */
  ghost predicate ReturnStep(s: State, t: State) {
    && s.live != [] && s.ctx.cpu.sp == s.live[|s.live| - 1].f
    && t.rs == s.rs && t.next == s.next && t.live == s.live[..|s.live| - 1]
    && (forall r: nat, saved: Context :: Intact(s.rs, r, s.ctx.cpu.sp, saved) ==> t.ctx == saved)
  }

  ghost predicate Next(s: State, t: State) {
    DeliverStep(s, t) || OtherStep(s, t) || ReturnStep(s, t)
  }

  ghost predicate Run(ss: seq<State>) {
    |ss| > 0 && Sound(ss[0]) && forall i :: 0 <= i < |ss| - 1 ==> Next(ss[i], ss[i + 1])
  }

  /** An older frame survives the push, and lies above the new one. */
  lemma OlderFrameKept(s: State, t: State, r: nat, f: nat, k: nat)
    requires Sound(s) && PushesAt(s, t, r, f) && k < |s.live| && f + FRAME <= s.live[k].f
    ensures StillIntact(t.rs, s.live[k])
  {
    var l := s.live[k];
    assert StillIntact(s.rs, l);
    var q :| Intact(s.rs, q, l.f, l.saved);
    PushedElsewhere(s.rs, s.next, r, f, s.ctx, q, l.f, l.saved);
  }

  lemma NewFrameIntact(s: State, t: State, r: nat, f: nat)
    requires Sound(s) && PushesAt(s, t, r, f)
    ensures Usable(t.rs, s.next) && StillIntact(t.rs, Live(f, s.ctx))
  {
    PushedIntact(s.rs, s.next, r, f, s.ctx);
  }

  lemma PushSound(s: State, t: State, r: nat, f: nat)
    requires Sound(s) && PushesAt(s, t, r, f) && t.next == s.next && t.live == s.live + [Live(f, s.ctx)]
    requires forall k :: 0 <= k < |s.live| ==> f + FRAME <= s.live[k].f
    ensures Sound(t)
  {
    NewFrameIntact(s, t, r, f);
    forall k: nat | k < |s.live|
      ensures StillIntact(t.rs, s.live[k])
    {
      OlderFrameKept(s, t, r, f, k);
    }
    forall k | 0 <= k < |t.live|
      ensures StillIntact(t.rs, t.live[k])
    {
      assert t.live[k] == if k < |s.live| then s.live[k] else Live(f, s.ctx);
    }
  }

  lemma DeliverSound(s: State, t: State)
    requires Sound(s) && DeliverStep(s, t)
    ensures Sound(t)
  {
    var f := FrameAddr(s.ctx.cpu.sp);
    var r :| PushesAt(s, t, r, f);
    PushSound(s, t, r, f);
  }

  lemma NextSound(s: State, t: State)
    requires Sound(s) && Next(s, t)
    ensures Sound(t)
  {
    if DeliverStep(s, t) {
      DeliverSound(s, t);
    }
  }

  lemma {:induction false} AlwaysSound(ss: seq<State>, i: nat)
    requires Run(ss) && i < |ss|
    ensures Sound(ss[i])
    decreases i
  {
    if i > 0 {
      AlwaysSound(ss, i - 1);
      assert Next(ss[i - 1], ss[i]);
      NextSound(ss[i - 1], ss[i]);
    }
  }

  /** While the depth stays above `d`, the oldest `d + 1` live frames do not change. */
  lemma {:induction false} LiveKept(ss: seq<State>, i: nat, j: nat, d: nat)
    requires Run(ss) && i <= j < |ss| && forall k :: i <= k <= j ==> |ss[k].live| > d
    ensures ss[j].live[..d + 1] == ss[i].live[..d + 1]
    decreases j
  {
    if i < j {
      LiveKept(ss, i, j - 1, d);
      assert Next(ss[j - 1], ss[j]);
    }
  }

  /**
   For any run and any nesting: when the handler entered at step `i` returns at step `j`,
   every saved register, the stack pointer, the program counter and the blocked mask are
   again what they were at `i`.
   */
  lemma ReturnRestores(ss: seq<State>, i: nat, j: nat)
    requires Run(ss) && i + 1 < j < |ss|
    requires DeliverStep(ss[i], ss[i + 1])
    requires |ss[j].live| == |ss[i].live| && forall k :: i < k < j ==> |ss[k].live| > |ss[i].live|
    ensures ss[j].ctx == ss[i].ctx
  {
    var d := |ss[i].live|;
    LiveKept(ss, i + 1, j - 1, d);
    var s, t := ss[j - 1], ss[j];
    assert Next(s, t);
    assert ReturnStep(s, t);
    assert |s.live| == d + 1 && s.live[d] == s.live[..d + 1][d] == ss[i + 1].live[..d + 1][d];
    AlwaysSound(ss, j - 1);
    var l := s.live[d];
    assert StillIntact(s.rs, l);
    var r :| Intact(s.rs, r, l.f, l.saved);
  }

  // ----- the methods take these steps -----

  /** A frame determines the context it holds. */
  lemma OneContext(rs: seq<Region>, next: nat, r: nat, q: nat, f: nat, c: Context, d: Context)
    requires Usable(rs, next) && Intact(rs, r, f, c) && Intact(rs, q, f, d)
    ensures c == d
  {
    SavedNumbers(rs, next, r, f, c);
    SavedNumbers(rs, next, q, f, d);
    SavedFloats(rs, next, r, f, c);
    SavedFloats(rs, next, q, f, d);
    assert c.cpu.x == d.cpu.x by { OneRegisters(rs, next, r, q, f, c, d); }
    assert c.cpu.v == d.cpu.v by { OneVectors(rs, next, r, q, f, c, d); }
    SameMask(c.blocked, d.blocked);
  }

  lemma SameMask(a: bv64, b: bv64)
    requires a as int == b as int
    ensures a == b
  {
    assert (a as int) as bv64 == a && (b as int) as bv64 == b;
  }

  lemma OneRegisters(rs: seq<Region>, next: nat, r: nat, q: nat, f: nat, c: Context, d: Context)
    requires Usable(rs, next) && Intact(rs, r, f, c) && Intact(rs, q, f, d)
    ensures c.cpu.x == d.cpu.x
  {
    forall i: nat | i < 31
      ensures c.cpu.x[i] == d.cpu.x[i]
    {
      SavedRegister(rs, next, r, f, c, i);
      SavedRegister(rs, next, q, f, d, i);
    }
  }

  lemma OneVectors(rs: seq<Region>, next: nat, r: nat, q: nat, f: nat, c: Context, d: Context)
    requires Usable(rs, next) && Intact(rs, r, f, c) && Intact(rs, q, f, d)
    ensures c.cpu.v == d.cpu.v
  {
    forall i: nat | i < 32
      ensures c.cpu.v[i] == d.cpu.v[i]
    {
      SavedVector(rs, next, r, f, c, i);
      SavedVector(rs, next, q, f, d, i);
    }
  }

  /** Where a process stands in a run, given its live frames. */
  ghost function StateOf(p: Process, live: seq<Live>): State
    reads p
  {
    State(p.ctx, p.rs, p.next, live)
  }

  /** Below the live frames, on a stack that can be read wherever it can be written. */
  ghost predicate StackReady(s: State) {
    && s.ctx.cpu.sp >= FRAME + 15
    && (forall k :: 0 <= k < |s.live| ==> s.ctx.cpu.sp <= s.live[k].f)
    && (forall r: nat :: Held(s.rs, r, FrameAddr(s.ctx.cpu.sp), FRAME, MEM_WRITE) ==>
          Held(s.rs, r, FrameAddr(s.ctx.cpu.sp), FRAME, MEM_READ))
  }

  /** `Deliver` takes a delivery step when it enters a handler, and no step of the run otherwise. */
  method TakeDelivery(p: Process, ghost live: seq<Live>) returns (out: Outcome, ghost now: seq<Live>)
    requires p.Valid() && Sound(StateOf(p, live)) && StackReady(StateOf(p, live))
    modifies p
    ensures p.Valid() && Sound(StateOf(p, now))
    ensures out.Handled? ==> DeliverStep(old(StateOf(p, live)), StateOf(p, now))
    ensures !out.Handled? ==> StateOf(p, now) == old(StateOf(p, live))
  {
    ghost var s := StateOf(p, live);
    out := p.Deliver();
    now := live;
    if out.Handled? {
      ghost var f := FrameAddr(s.ctx.cpu.sp);
      now := live + [Live(f, s.ctx)];
      ghost var r :| PushedInto(s.rs, p.rs, r, f, s.ctx);
      assert PushesAt(s, StateOf(p, now), r, f);
      DeliverSound(s, StateOf(p, now));
    }
  }

  /** `Sigreturn` at the newest frame takes a return step. */
  method TakeReturn(p: Process, ghost live: seq<Live>) returns (ok: bool, ghost now: seq<Live>)
    requires p.Valid() && Sound(StateOf(p, live)) && live != [] && p.ctx.cpu.sp == live[|live| - 1].f
    modifies p
    ensures p.Valid() && ok && ReturnStep(old(StateOf(p, live)), StateOf(p, now)) && Sound(StateOf(p, now))
  {
    ghost var last := live[|live| - 1];
    assert StillIntact(p.rs, last);
    ghost var r :| Intact(p.rs, r, last.f, last.saved);
    forall q: nat, c: Context | Intact(p.rs, q, last.f, c)
      ensures c == last.saved
    {
      OneContext(p.rs, p.next, q, r, last.f, c, last.saved);
    }
    ok := p.Sigreturn(r, last.saved);
    now := live[..|live| - 1];
  }
}
