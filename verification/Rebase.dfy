/**
 The rebase opcode stream: collecting the offsets, sorting and deduplicating them
 in place, emitting opcodes, and what dyld's interpreter then visits.
 */
module Rebase {
  import opened Common
  import opened Uleb
  import opened Relocs
  import opened OpcodeBuffer
  import opened OffsetSort

  // ----- dyld's interpreter -----

  /** Rebase instructions; the two counted forms and their variants are all `Do`. */
  datatype Insn =
    | Done
    | SetType(kind: nat)
    | SetPlace(seg: nat, off: nat)
    | Advance(amount: nat)
    | Do(times: nat, skip: nat)

  /** The instruction at `pos` and the position after it. */
  function Fetch(b: seq<byte>, pos: nat): (r: Option<(Insn, nat)>)
    requires pos < |b|
    ensures r.Some? ==> pos < r.value.1
  {
    var op, imm := b[pos] / 16, b[pos] % 16;
    if op == 0 then Some((Done, pos + 1))
    else if op == 1 then Some((SetType(imm), pos + 1))
    else if op == 4 then Some((Advance(8 * imm), pos + 1))
    else if op == 5 then Some((Do(imm, 0), pos + 1))
    else if op > 8 then None
    else
      match ReadUleb(b, pos + 1)
      case None => None
      case Some((v, next)) =>
        if op == 2 then Some((SetPlace(imm, v), next))
        else if op == 3 then Some((Advance(v), next))
        else if op == 6 then Some((Do(v, 0), next))
        else if op == 7 then Some((Do(1, v), next))
        else
          match ReadUleb(b, next)
          case None => None
          case Some((skip, next')) => Some((Do(v, skip), next'))
  }

  datatype Cursor = Cursor(kind: nat, seg: nat, off: u64)

  /** `n` rebases, each moving the cursor by eight bytes and `skip` more. */
  function Repeat(c: Cursor, n: nat, skip: nat): (r: (seq<Cursor>, Cursor))
    decreases n
  {
    if n == 0 then ([], c)
    else
      var (rest, last) := Repeat(c.(off := Add64(c.off, 8 + skip)), n - 1, skip);
      ([c] + rest, last)
  }

  function Step(c: Cursor, insn: Insn): (seq<Cursor>, Cursor) {
    match insn
    case Done => ([], c)
    case SetType(kind) => ([], c.(kind := kind))
    case SetPlace(seg, off) => ([], c.(seg := seg, off := Wrap64(off)))
    case Advance(amount) => ([], c.(off := Add64(c.off, amount)))
    case Do(times, skip) => Repeat(c, times, skip)
  }

  /** The instructions from `pos` up to the end mark or the end of the stream. */
  function Parse(b: seq<byte>, pos: nat): Option<seq<Insn>>
    decreases |b| - pos
  {
    if pos >= |b| then Some([])
    else
      match Fetch(b, pos)
      case None => None
      case Some((insn, next)) =>
        if insn.Done? then Some([])
        else
          match Parse(b, next)
          case None => None
          case Some(rest) => Some([insn] + rest)
  }

  /** The places a program rebases, in order. */
  function Exec(c: Cursor, insns: seq<Insn>): seq<Cursor>
    decreases |insns|
  {
    if insns == [] then []
    else
      var (here, c') := Step(c, insns[0]);
      here + Exec(c', insns[1..])
  }

  // ----- assembling the forms that the emitter uses -----

  predicate Emittable(insn: Insn) {
    match insn
    case Done => false
    case SetType(kind) => kind < 16
    case SetPlace(seg, off) => seg < 16
    case Advance(amount) => true
    case Do(times, skip) => skip == 0
  }

  type Plain = i: Insn | Emittable(i) witness SetType(0)

  function InsnBytes(insn: Plain): (b: seq<byte>)
    ensures |b| >= 1
  {
    match insn
    case SetType(kind) => [0x10 + kind]
    case SetPlace(seg, off) => [0x20 + seg] + UlebBytes(off)
    case Advance(amount) => [0x30] + UlebBytes(amount)
    case Do(times, skip) => [0x60] + UlebBytes(times)
  }

  function Assemble(insns: seq<Plain>): seq<byte> {
    if insns == [] then [0] else InsnBytes(insns[0]) + Assemble(insns[1..])
  }

  lemma FetchAssembled(b: seq<byte>, pos: nat, insn: Plain)
    requires HasAt(b, pos, InsnBytes(insn))
    ensures pos < |b| && Fetch(b, pos) == Some((insn, pos + |InsnBytes(insn)|))
  {
    assert b[pos] == b[pos..pos + |InsnBytes(insn)|][0];
    if !insn.SetType? {
      var v := match insn case SetPlace(_, off) => off case Advance(amount) => amount case Do(n, _) => n case _ => 0;
      HasAtSplit(b, pos, [InsnBytes(insn)[0]], UlebBytes(v));
      ReadWritten(b, pos + 1, v);
    }
  }

  lemma ParseEnd(b: seq<byte>, pos: nat)
    requires HasAt(b, pos, [0])
    ensures Parse(b, pos) == Some([])
  {
    assert b[pos] == b[pos..pos + 1][0];
  }

  lemma ParseNext(b: seq<byte>, pos: nat, insn: Insn, next: nat, rest: seq<Insn>)
    requires pos < |b| && Fetch(b, pos) == Some((insn, next)) && !insn.Done?
    requires Parse(b, next) == Some(rest)
    ensures Parse(b, pos) == Some([insn] + rest)
  {
  }

  lemma ParseStep(b: seq<byte>, pos: nat, first: Plain, rest: seq<Insn>)
    requires HasAt(b, pos, InsnBytes(first)) && Parse(b, pos + |InsnBytes(first)|) == Some(rest)
    ensures Parse(b, pos) == Some([first] + rest)
  {
    FetchAssembled(b, pos, first);
    ParseNext(b, pos, first, pos + |InsnBytes(first)|, rest);
  }

  lemma AssembledSplit(b: seq<byte>, pos: nat, insns: seq<Plain>)
    requires insns != [] && HasAt(b, pos, Assemble(insns))
    ensures HasAt(b, pos, InsnBytes(insns[0])) && HasAt(b, pos + |InsnBytes(insns[0])|, Assemble(insns[1..]))
  {
    assert Assemble(insns) == InsnBytes(insns[0]) + Assemble(insns[1..]);
    HasAtSplit(b, pos, InsnBytes(insns[0]), Assemble(insns[1..]));
  }

  lemma ParsePrepended(b: seq<byte>, pos: nat, insns: seq<Plain>)
    requires insns != [] && HasAt(b, pos, InsnBytes(insns[0]))
    requires Parse(b, pos + |InsnBytes(insns[0])|) == Some(insns[1..])
    ensures Parse(b, pos) == Some(insns)
  {
    ParseStep(b, pos, insns[0], insns[1..]);
    assert [insns[0]] + insns[1..] == insns;
  }

  /** Disassembling what was assembled gives the program back. */
  lemma {:induction false} ParseAssembled(b: seq<byte>, pos: nat, insns: seq<Plain>)
    requires HasAt(b, pos, Assemble(insns))
    ensures Parse(b, pos) == Some(insns)
    decreases |insns|
  {
    if insns == [] {
      ParseEnd(b, pos);
    } else {
      AssembledSplit(b, pos, insns);
      ParseAssembled(b, pos + |InsnBytes(insns[0])|, insns[1..]);
      ParsePrepended(b, pos, insns);
    }
  }

  // ----- the program for a list of targets -----

  /** Where the emitter's cursor stands when it rebases for target `t`. */
  function Reached(cur: Option<u64>, t: u64): u64 {
    if cur.Some? && t <= cur.value then cur.value else t
  }

  /** The first target sets the place, a target ahead is skipped to, one behind is not. */
  function Move(cur: Option<u64>, seg: nat, t: u64): seq<Plain> {
    match cur
    case None => [SetPlace(seg % 16, t)]
    case Some(c) => if t > c then [Advance(t - c)] else []
  }

  function Targets(cur: Option<u64>, seg: nat, ts: seq<u64>): seq<Plain>
    decreases |ts|
  {
    if ts == [] then []
    else Move(cur, seg, ts[0]) + [Do(1, 0)] + Targets(Some(Add64(Reached(cur, ts[0]), 8)), seg, ts[1..])
  }

  function Visited(cur: Option<u64>, ts: seq<u64>): (r: seq<u64>)
    ensures |r| == |ts|
    decreases |ts|
  {
    if ts == [] then []
    else [Reached(cur, ts[0])] + Visited(Some(Add64(Reached(cur, ts[0]), 8)), ts[1..])
  }

  lemma {:induction false} ExecTargets(cur: Option<u64>, seg: nat, ts: seq<u64>, c: Cursor)
    requires seg < 16 && c.kind == 1
    requires cur.Some? ==> c.seg == seg && c.off == cur.value
    ensures Exec(c, Targets(cur, seg, ts)) == At(seg, Visited(cur, ts))
    decreases |ts|
  {
    if ts == [] {
      assert At(seg, []) == [];
    } else {
      var r := Reached(cur, ts[0]);
      var next := Some(Add64(r, 8));
      ExecMove(cur, seg, ts[0], c, Targets(next, seg, ts[1..]));
      ExecTargets(next, seg, ts[1..], Cursor(1, seg, next.value));
      AtCons(seg, r, Visited(next, ts[1..]));
    }
  }

  /** Reaching one target and rebasing it. */
  lemma ExecMove(cur: Option<u64>, seg: nat, t: u64, c: Cursor, rest: seq<Insn>)
    requires seg < 16 && c.kind == 1
    requires cur.Some? ==> c.seg == seg && c.off == cur.value
    ensures var r := Reached(cur, t);
      Exec(c, Move(cur, seg, t) + [Do(1, 0)] + rest) == [Cursor(1, seg, r)] + Exec(Cursor(1, seg, Add64(r, 8)), rest)
  {
    var m, c1 := Move(cur, seg, t), Cursor(1, seg, Reached(cur, t));
    ExecDo(c1, rest);
    if m == [] {
      assert m + [Do(1, 0)] + rest == [Do(1, 0)] + rest;
    } else {
      assert m + [Do(1, 0)] + rest == [m[0]] + ([Do(1, 0)] + rest);
      ExecSilent(c, m[0], [Do(1, 0)] + rest);
    }
  }

  lemma ExecSilent(c: Cursor, first: Insn, rest: seq<Insn>)
    requires first.SetPlace? || first.Advance?
    ensures Exec(c, [first] + rest) == Exec(Step(c, first).1, rest)
  {
    ExecOne(c, first, rest);
    assert [] + Exec(Step(c, first).1, rest) == Exec(Step(c, first).1, rest);
  }

  lemma ExecOne(c: Cursor, first: Insn, rest: seq<Insn>)
    ensures Exec(c, [first] + rest) == Step(c, first).0 + Exec(Step(c, first).1, rest)
  {
    assert ([first] + rest)[1..] == rest;
  }

  lemma ExecDo(c: Cursor, rest: seq<Insn>)
    ensures Exec(c, [Do(1, 0)] + rest) == [c] + Exec(c.(off := Add64(c.off, 8)), rest)
  {
    OneRebase(c);
    ExecOne(c, Do(1, 0), rest);
  }

  lemma OneRebase(c: Cursor)
    ensures Step(c, Do(1, 0)) == ([c], c.(off := Add64(c.off, 8)))
  {
    var c' := c.(off := Add64(c.off, 8));
    assert Repeat(c', 0, 0) == ([], c');
    assert [c] + [] == [c];
  }

  function At(seg: nat, offs: seq<u64>): seq<Cursor> {
    seq(|offs|, i requires 0 <= i < |offs| => Cursor(1, seg, offs[i]))
  }

  lemma AtCons(seg: nat, off: u64, offs: seq<u64>)
    ensures At(seg, [off] + offs) == [Cursor(1, seg, off)] + At(seg, offs)
  {
  }

  /** Each target lies at or beyond the end of the slot before it. */
  ghost predicate Spaced(ts: seq<u64>) {
    forall i :: 0 < i < |ts| ==> ts[i] >= Add64(ts[i - 1], 8)
  }

  /** The emitter hits its targets exactly when none of them is behind its cursor. */
  lemma {:induction false} VisitedExactlyWhenSpaced(cur: Option<u64>, ts: seq<u64>)
    ensures Visited(cur, ts) == ts <==>
      (ts != [] && cur.Some? ==> ts[0] >= cur.value) && Spaced(ts)
    decreases |ts|
  {
    if ts != [] {
      var next := Some(Add64(Reached(cur, ts[0]), 8));
      VisitedExactlyWhenSpaced(next, ts[1..]);
      assert ts == [ts[0]] + ts[1..];
      assert Visited(cur, ts) == ts <==> Reached(cur, ts[0]) == ts[0] && Visited(next, ts[1..]) == ts[1..] by {
        assert Visited(cur, ts)[0] == Reached(cur, ts[0]);
        assert Visited(cur, ts)[1..] == Visited(next, ts[1..]);
      }
      assert Spaced(ts) <==> (|ts| > 1 ==> ts[1] >= Add64(ts[0], 8)) && Spaced(ts[1..]) by {
        SpacedTail(ts);
      }
    }
  }

  lemma SpacedTail(ts: seq<u64>)
    requires ts != []
    ensures Spaced(ts) <==> (|ts| > 1 ==> ts[1] >= Add64(ts[0], 8)) && Spaced(ts[1..])
  {
    var tail := ts[1..];
    if Spaced(tail) && (|ts| > 1 ==> ts[1] >= Add64(ts[0], 8)) {
      forall i | 0 < i < |ts| ensures ts[i] >= Add64(ts[i - 1], 8) {
        if i > 1 {
          assert tail[i - 1] >= Add64(tail[i - 2], 8);
        }
      }
    }
    if Spaced(ts) {
      forall i | 0 < i < |tail| ensures tail[i] >= Add64(tail[i - 1], 8) {
        assert ts[i + 1] >= Add64(ts[i], 8);
      }
    }
  }

  // ----- from relocation tables to the stream -----

  function Relatives(rs: seq<Rela>): seq<u64> {
    if rs == [] then []
    else
      var r := rs[|rs| - 1];
      Relatives(rs[..|rs| - 1]) + (if r.kind == R_RELATIVE then [r.offset] else [])
  }

  function DefinedOffsets(dyn: Dynamic, rs: seq<Rela>): seq<u64> {
    if rs == [] then []
    else
      var r := rs[|rs| - 1];
      DefinedOffsets(dyn, rs[..|rs| - 1]) + (if DefinedReloc(dyn, r) then [r.offset] else [])
  }

  /** Every offset that the converter asks dyld to rebase, in collection order. */
  function RebaseOffsets(dyn: Dynamic): seq<u64> {
    Relatives(dyn.rela) + DefinedOffsets(dyn, dyn.rela) + DefinedOffsets(dyn, dyn.jmprel)
  }

  /** Segment offsets of those targets that do not lie below the segment. */
  function InSegment(offsets: seq<u64>, vmaddr: u64, shift: u64): seq<u64> {
    if offsets == [] then []
    else
      var t := Add64(offsets[0], shift);
      (if t < vmaddr then [] else [t - vmaddr]) + InSegment(offsets[1..], vmaddr, shift)
  }

  /** The rebase targets: distinct offsets in ascending order, as segment offsets. */
  function RebaseTargets(dyn: Dynamic, vmaddr: u64, shift: u64): seq<u64> {
    InSegment(Distinct(RebaseOffsets(dyn)), vmaddr, shift)
  }

  function RebaseStream(dyn: Dynamic, seg: nat, vmaddr: u64, shift: u64): seq<byte> {
    if RebaseOffsets(dyn) == [] then [0]
    else Assemble([SetType(1)] + Targets(None, seg, RebaseTargets(dyn, vmaddr, shift)))
  }

  /** dyld on a whole stream: the places it adds the slide to. */
  function Rebased(b: seq<byte>): Option<seq<Cursor>> {
    match Parse(b, 0)
    case None => None
    case Some(insns) => Some(Exec(Cursor(0, 0, 0), insns))
  }

  /**
   For every relocation table, dyld rebases one place per target, and these are the
   targets themselves exactly when each is clear of the slot before it.
   */
  lemma RebasedPlaces(dyn: Dynamic, seg: nat, vmaddr: u64, shift: u64)
    requires seg < 16
    ensures var ts := RebaseTargets(dyn, vmaddr, shift);
      && Rebased(RebaseStream(dyn, seg, vmaddr, shift)) == Some(At(seg, Visited(None, ts)))
      && (Rebased(RebaseStream(dyn, seg, vmaddr, shift)) == Some(At(seg, ts)) <==> Spaced(ts))
  {
    var ts := RebaseTargets(dyn, vmaddr, shift);
    var b := RebaseStream(dyn, seg, vmaddr, shift);
    assert HasAt(b, 0, b);
    if RebaseOffsets(dyn) == [] {
      assert Distinct([]) == [];
      ParseEnd(b, 0);
      assert At(seg, []) == [];
    } else {
      var prog := [SetType(1)] + Targets(None, seg, ts);
      ParseAssembled(b, 0, prog);
      assert prog[1..] == Targets(None, seg, ts);
      ExecTargets(None, seg, ts, Cursor(1, 0, 0));
      assert [] + Exec(Cursor(1, 0, 0), prog[1..]) == Exec(Cursor(1, 0, 0), prog[1..]);
    }
    VisitedExactlyWhenSpaced(None, ts);
    AtInjective(seg, Visited(None, ts), ts);
  }

  lemma AtInjective(seg: nat, a: seq<u64>, b: seq<u64>)
    ensures At(seg, a) == At(seg, b) <==> a == b
  {
    if At(seg, a) == At(seg, b) {
      assert |a| == |At(seg, a)| == |b|;
      forall i | 0 <= i < |a| ensures a[i] == b[i] {
        assert At(seg, a)[i].off == At(seg, b)[i].off;
      }
    }
  }

  /** Without address wrap-around the targets ascend and are exactly those in the segment. */
  lemma {:induction false} InSegmentAscends(offsets: seq<u64>, vmaddr: u64, shift: u64)
    requires Ascending(offsets) && forall o :: o in offsets ==> o + shift < TWO64
    ensures Ascending(InSegment(offsets, vmaddr, shift))
    ensures forall t: u64 :: t in InSegment(offsets, vmaddr, shift) <==>
      t + vmaddr - shift in offsets
    decreases |offsets|
  {
    if offsets != [] {
      var first, rest := offsets[0], offsets[1..];
      assert offsets == [first] + rest;
      assert forall o :: o in rest ==> o in offsets && first < o;
      assert first in offsets && Add64(first, shift) == first + shift;
      InSegmentAscends(rest, vmaddr, shift);
      var later := InSegment(rest, vmaddr, shift);
      if first + shift >= vmaddr {
        forall t | t in later ensures first + shift - vmaddr < t {
          assert t + vmaddr - shift in rest;
        }
        InFront(first + shift - vmaddr, later);
      }
    }
  }

  lemma RebaseTargetsExact(dyn: Dynamic, vmaddr: u64, shift: u64, t: u64)
    requires forall o :: o in RebaseOffsets(dyn) ==> o + shift < TWO64
    ensures Ascending(RebaseTargets(dyn, vmaddr, shift))
    ensures t in RebaseTargets(dyn, vmaddr, shift) <==> t + vmaddr - shift in RebaseOffsets(dyn)
  {
    DistinctAscends(RebaseOffsets(dyn));
    InSegmentAscends(Distinct(RebaseOffsets(dyn)), vmaddr, shift);
  }

  // ----- the converter's method -----

  method CollectOffsets(dyn: Dynamic) returns (offsets: seq<u64>)
    ensures offsets == RebaseOffsets(dyn)
  {
    offsets := [];
    var i := 0;
    while i < |dyn.rela|
      invariant 0 <= i <= |dyn.rela| && offsets == Relatives(dyn.rela[..i])
    {
      assert dyn.rela[..i + 1][..i] == dyn.rela[..i];
      if dyn.rela[i].kind == R_RELATIVE {
        offsets := offsets + [dyn.rela[i].offset];
      }
      i := i + 1;
    }
    assert dyn.rela[..i] == dyn.rela;
    offsets := CollectDefined(dyn, dyn.rela, offsets);
    offsets := CollectDefined(dyn, dyn.jmprel, offsets);
  }

  method CollectDefined(dyn: Dynamic, rs: seq<Rela>, before: seq<u64>) returns (offsets: seq<u64>)
    ensures offsets == before + DefinedOffsets(dyn, rs)
  {
    offsets := before;
    var i := 0;
    while i < |rs|
      invariant 0 <= i <= |rs| && offsets == before + DefinedOffsets(dyn, rs[..i])
    {
      assert rs[..i + 1][..i] == rs[..i];
      if DefinedReloc(dyn, rs[i]) {
        offsets := offsets + [rs[i].offset];
      }
      i := i + 1;
    }
    assert rs[..i] == rs;
  }

  function MoveBytes(cur: Option<u64>, seg: nat, t: u64): seq<byte> {
    match cur
    case None => [0x20 + seg % 16] + UlebBytes(t)
    case Some(c) => if t > c then [0x30] + UlebBytes(t - c) else []
  }

  function TargetBytes(cur: Option<u64>, seg: nat, t: u64): seq<byte> {
    MoveBytes(cur, seg, t) + [0x60, 1]
  }

  lemma AssembleCons(first: Plain, rest: seq<Plain>)
    ensures Assemble([first] + rest) == InsnBytes(first) + Assemble(rest)
  {
    assert ([first] + rest)[1..] == rest;
  }

  lemma AssembleDo(next: seq<Plain>)
    ensures Assemble([Do(1, 0)] + next) == [0x60, 1] + Assemble(next)
  {
    AssembleCons(Do(1, 0), next);
    assert UlebBytes(1) == [1];
    assert [0x60] + [1] == [0x60, 1];
  }

  lemma AssembleMove(cur: Option<u64>, seg: nat, t: u64, rest: seq<Plain>)
    ensures Assemble(Move(cur, seg, t) + rest) == MoveBytes(cur, seg, t) + Assemble(rest)
  {
    var m := Move(cur, seg, t);
    if m == [] {
      assert m + rest == rest;
      assert [] + Assemble(rest) == Assemble(rest);
    } else {
      assert m == [m[0]];
      AssembleCons(m[0], rest);
    }
  }

  lemma AssembleTarget(cur: Option<u64>, seg: nat, t: u64, later: seq<u64>)
    ensures Assemble(Targets(cur, seg, [t] + later)) ==
      TargetBytes(cur, seg, t) + Assemble(Targets(Some(Add64(Reached(cur, t), 8)), seg, later))
  {
    var next := Targets(Some(Add64(Reached(cur, t), 8)), seg, later);
    assert ([t] + later)[1..] == later;
    assert Targets(cur, seg, [t] + later) == Move(cur, seg, t) + ([Do(1, 0)] + next);
    AssembleMove(cur, seg, t, [Do(1, 0)] + next);
    AssembleDo(next);
    Assoc(MoveBytes(cur, seg, t), [0x60, 1], Assemble(next));
  }

  method EmitMove(rb: Buffer, cur: Option<u64>, seg: nat, t: u64)
    requires rb.Valid()
    modifies rb, rb.buf
    ensures rb.Valid() && (rb.buf == old(rb.buf) || fresh(rb.buf))
    ensures rb.Contents() == old(rb.Contents()) + MoveBytes(cur, seg, t)
  {
    ghost var was := rb.Contents();
    if cur.None? {
      rb.Byte(0x20 + seg % 16);
      rb.Number(t);
      Assoc(was, [0x20 + seg % 16], UlebBytes(t));
    } else if t > cur.value {
      rb.Byte(0x30);
      rb.Number(t - cur.value);
      Assoc(was, [0x30], UlebBytes(t - cur.value));
    } else {
      assert was + [] == was;
    }
  }

  method EmitTarget(rb: Buffer, cur: Option<u64>, seg: nat, t: u64)
    requires rb.Valid()
    modifies rb, rb.buf
    ensures rb.Valid() && (rb.buf == old(rb.buf) || fresh(rb.buf))
    ensures rb.Contents() == old(rb.Contents()) + TargetBytes(cur, seg, t)
  {
    ghost var was := rb.Contents();
    EmitMove(rb, cur, seg, t);
    rb.Byte(0x60);
    rb.Number(1);
    assert UlebBytes(1) == [1];
    assert was + MoveBytes(cur, seg, t) + [0x60] + [1] == was + (MoveBytes(cur, seg, t) + [0x60, 1]);
  }

  /** What is still to be written when the loop reaches `offsets`. */
  function Remaining(cur: Option<u64>, seg: nat, offsets: seq<u64>, vmaddr: u64, shift: u64): seq<byte> {
    Assemble(Targets(cur, seg, InSegment(offsets, vmaddr, shift)))
  }

  lemma RemainingStep(cur: Option<u64>, seg: nat, offsets: seq<u64>, vmaddr: u64, shift: u64)
    requires offsets != []
    ensures var t := Add64(offsets[0], shift);
      Remaining(cur, seg, offsets, vmaddr, shift) ==
      if t < vmaddr then Remaining(cur, seg, offsets[1..], vmaddr, shift)
      else
        TargetBytes(cur, seg, t - vmaddr) +
        Remaining(Some(Add64(Reached(cur, t - vmaddr), 8)), seg, offsets[1..], vmaddr, shift)
  {
    var t := Add64(offsets[0], shift);
    var later := InSegment(offsets[1..], vmaddr, shift);
    if t < vmaddr {
      assert [] + later == later;
    } else {
      AssembleTarget(cur, seg, t - vmaddr, later);
    }
  }

  lemma RemainingAfter(done: seq<byte>, cur: Option<u64>, seg: nat, offsets: seq<u64>, vmaddr: u64, shift: u64, t: u64)
    requires offsets != [] && t == Add64(offsets[0], shift)
    ensures done + Remaining(cur, seg, offsets, vmaddr, shift) ==
      if t < vmaddr then done + Remaining(cur, seg, offsets[1..], vmaddr, shift)
      else
        done + TargetBytes(cur, seg, t - vmaddr) +
        Remaining(Some(Add64(Reached(cur, t - vmaddr), 8)), seg, offsets[1..], vmaddr, shift)
  {
    RemainingStep(cur, seg, offsets, vmaddr, shift);
    if t >= vmaddr {
      Assoc(done, TargetBytes(cur, seg, t - vmaddr),
        Remaining(Some(Add64(Reached(cur, t - vmaddr), 8)), seg, offsets[1..], vmaddr, shift));
    }
  }

  /** One round of the emission loop. */
  method EmitOffset(rb: Buffer, cur: Option<u64>, seg: nat, offsets: seq<u64>, vmaddr: u64, shift: u64)
    returns (next: Option<u64>)
    requires rb.Valid() && offsets != []
    modifies rb, rb.buf
    ensures rb.Valid() && (rb.buf == old(rb.buf) || fresh(rb.buf))
    ensures rb.Contents() + Remaining(next, seg, offsets[1..], vmaddr, shift) ==
      old(rb.Contents()) + Remaining(cur, seg, offsets, vmaddr, shift)
  {
    var t := Add64(offsets[0], shift);
    RemainingAfter(rb.Contents(), cur, seg, offsets, vmaddr, shift, t);
    next := cur;
    if t >= vmaddr {
      next := Some(Add64(Reached(cur, t - vmaddr), 8));
      EmitTarget(rb, cur, seg, t - vmaddr);
    }
  }

  /** The emission loop over the prepared offsets, up to and including the end mark. */
  method EmitAll(rb: Buffer, offsets: seq<u64>, seg: nat, vmaddr: u64, shift: u64)
    requires rb.Valid()
    modifies rb, rb.buf
    ensures rb.Valid() && (rb.buf == old(rb.buf) || fresh(rb.buf))
    ensures rb.Contents() == old(rb.Contents()) + Remaining(None, seg, offsets, vmaddr, shift)
  {
    var cur: Option<u64> := None;
    var rest := offsets;
    ghost var whole := rb.Contents() + Remaining(None, seg, offsets, vmaddr, shift);
    while rest != []
      invariant rb.Valid() && (rb.buf == old(rb.buf) || fresh(rb.buf))
      invariant whole == rb.Contents() + Remaining(cur, seg, rest, vmaddr, shift)
      decreases |rest|
    {
      cur := EmitOffset(rb, cur, seg, rest, vmaddr, shift);
      rest := rest[1..];
    }
    assert Remaining(cur, seg, [], vmaddr, shift) == [0];
    rb.Byte(0);
  }

  lemma StreamIs(dyn: Dynamic, seg: nat, vmaddr: u64, shift: u64)
    requires RebaseOffsets(dyn) != []
    ensures RebaseStream(dyn, seg, vmaddr, shift) ==
      [0x11] + Remaining(None, seg, Distinct(RebaseOffsets(dyn)), vmaddr, shift)
  {
    AssembleCons(SetType(1), Targets(None, seg, RebaseTargets(dyn, vmaddr, shift)));
  }

  /** `build_rebases`: collect, sort, deduplicate, emit. */
  method BuildRebases(dyn: Dynamic, seg: nat, vmaddr: u64, shift: u64) returns (rb: Buffer)
    ensures rb.Valid() && fresh(rb) && fresh(rb.buf)
    ensures rb.Contents() == RebaseStream(dyn, seg, vmaddr, shift)
  {
    rb := new Buffer();
    var offsets := CollectOffsets(dyn);
    if offsets == [] {
      rb.Byte(0);
      return;
    }
    StreamIs(dyn, seg, vmaddr, shift);
    offsets := SortDistinct(offsets);
    rb.Byte(0x11);
    EmitAll(rb, offsets, seg, vmaddr, shift);
  }

  /** Two relative relocations four bytes apart: dyld rebases the second eight bytes behind the first. */
  lemma OverlapMissed(o: u64, dyn: Dynamic)
    requires o + 12 < TWO64
    requires dyn == Dynamic([Rela(o, R_RELATIVE, 0, 0), Rela(o + 4, R_RELATIVE, 0, 0)], [], [])
    ensures RebaseTargets(dyn, 0, 0) == [o, o + 4]
    ensures Rebased(RebaseStream(dyn, 1, 0, 0)) == Some(At(1, [o, o + 8])) != Some(At(1, [o, o + 4]))
  {
    var one := dyn.rela[..1];
    assert one[..0] == [] && Relatives(one) == [o] && DefinedOffsets(dyn, one) == [];
    assert Relatives(dyn.rela) == [o] + [o + 4] && DefinedOffsets(dyn, dyn.rela) == [];
    assert RebaseOffsets(dyn) == [o, o + 4];
    assert [o, o + 4][1..] == [o + 4] && [o + 4][1..] == [];
    assert Distinct([o + 4]) == [o + 4];
    assert Distinct([o, o + 4]) == [o, o + 4];
    assert InSegment([o + 4], 0, 0) == [o + 4];
    RebasedPlaces(dyn, 1, 0, 0);
    assert Visited(Some(o + 8), [o + 4]) == [o + 8] by { assert [o + 4][1..] == []; }
    assert Visited(None, [o, o + 4]) == [o, o + 8];
    assert At(1, [o, o + 8])[1] != At(1, [o, o + 4])[1];
  }
}
