/**
 The bind opcode stream: which relocations become imports, the opcodes emitted
 for them, and what dyld's interpreter then binds.
 */
module Bind {
  import opened Common
  import opened Uleb
  import opened ExportTrie
  import opened TrieEncoding
  import opened TrieBuilder
  import opened Relocs
  import opened OpcodeBuffer

  // ----- dyld's interpreter -----

  datatype Insn =
    | Done
    | SetOrdinal(ordinal: nat)
    | SetSymbol(flags: nat, name: Str)
    | SetType(kind: nat)
    | SetPlace(seg: nat, off: nat)
    | Advance(amount: nat)
    | Bind(skip: nat)

  /** The instruction at `pos`; signed, threaded and repeated forms are not decoded. */
  function Fetch(b: seq<byte>, pos: nat): (r: Option<(Insn, nat)>)
    requires pos < |b|
    ensures r.Some? ==> pos < r.value.1
  {
    var op, imm := b[pos] / 16, b[pos] % 16;
    if op == 0 then Some((Done, pos + 1))
    else if op == 1 then Some((SetOrdinal(imm), pos + 1))
    else if op == 4 then
      match ReadStr(b, pos + 1)
      case None => None
      case Some((name, next)) => Some((SetSymbol(imm, name), next))
    else if op == 5 then Some((SetType(imm), pos + 1))
    else if op == 9 then Some((Bind(0), pos + 1))
    else if op == 11 then Some((Bind(8 * imm), pos + 1))
    else if op == 2 || op == 7 || op == 8 || op == 10 then
      match ReadUleb(b, pos + 1)
      case None => None
      case Some((v, next)) =>
        Some((if op == 2 then SetOrdinal(v)
              else if op == 7 then SetPlace(imm, v)
              else if op == 8 then Advance(v)
              else Bind(v), next))
    else None
  }

  datatype Cursor = Cursor(kind: nat, ordinal: nat, flags: nat, name: Str, seg: nat, off: u64)

  function Step(c: Cursor, insn: Insn): (seq<Cursor>, Cursor) {
    match insn
    case Done => ([], c)
    case SetOrdinal(ordinal) => ([], c.(ordinal := ordinal))
    case SetSymbol(flags, name) => ([], c.(flags := flags, name := name))
    case SetType(kind) => ([], c.(kind := kind))
    case SetPlace(seg, off) => ([], c.(seg := seg, off := Wrap64(off)))
    case Advance(amount) => ([], c.(off := Add64(c.off, amount)))
    case Bind(skip) => ([c], c.(off := Add64(c.off, 8 + skip)))
  }

  function Parse(b: seq<byte>, pos: nat): Option<seq<Insn>>
    decreases |b| - pos
  {
    if pos >= |b| then Some([])
    else
      match Fetch(b, pos)
      case None => None
      case Some((insn, next)) =>
        if insn.Done? then Some([])
        else
          match Parse(b, next)
          case None => None
          case Some(rest) => Some([insn] + rest)
  }

  /** The bindings a program performs, in order. */
  function Exec(c: Cursor, insns: seq<Insn>): seq<Cursor>
    decreases |insns|
  {
    if insns == [] then []
    else
      var (here, c') := Step(c, insns[0]);
      here + Exec(c', insns[1..])
  }

  /** dyld on a whole stream. */
  function Bound(b: seq<byte>): Option<seq<Cursor>> {
    match Parse(b, 0)
    case None => None
    case Some(insns) => Some(Exec(Cursor(0, 0, 0, [], 0, 0), insns))
  }

  // ----- assembling the forms that the emitter uses -----

  predicate Emittable(insn: Insn) {
    match insn
    case Done => false
    case SetOrdinal(ordinal) => ordinal < 16
    case SetSymbol(flags, name) => flags < 16
    case SetType(kind) => kind < 16
    case SetPlace(seg, off) => seg < 16
    case Advance(amount) => false
    case Bind(skip) => skip == 0
  }

  type Plain = i: Insn | Emittable(i) witness SetType(0)

  function InsnBytes(insn: Plain): (b: seq<byte>)
    ensures |b| >= 1
  {
    match insn
    case SetOrdinal(ordinal) => [0x10 + ordinal]
    case SetSymbol(flags, name) => [0x40 + flags] + CStr(name)
    case SetType(kind) => [0x50 + kind]
    case SetPlace(seg, off) => [0x70 + seg] + UlebBytes(off)
    case Bind(skip) => [0x90]
  }

  function Assemble(insns: seq<Plain>): seq<byte> {
    if insns == [] then [0] else InsnBytes(insns[0]) + Assemble(insns[1..])
  }

  lemma FetchSymbol(b: seq<byte>, pos: nat, flags: nat, name: Str)
    requires flags < 16 && HasAt(b, pos, [0x40 + flags] + CStr(name))
    ensures pos < |b| && Fetch(b, pos) == Some((SetSymbol(flags, name), pos + 1 + |CStr(name)|))
  {
    HasAtSplit(b, pos, [0x40 + flags], CStr(name));
    assert b[pos] == b[pos..pos + 1][0];
    ReadStrWritten(b, pos + 1, name);
  }

  lemma FetchPlace(b: seq<byte>, pos: nat, seg: nat, off: nat)
    requires seg < 16 && HasAt(b, pos, [0x70 + seg] + UlebBytes(off))
    ensures pos < |b| && Fetch(b, pos) == Some((SetPlace(seg, off), pos + 1 + |UlebBytes(off)|))
  {
    HasAtSplit(b, pos, [0x70 + seg], UlebBytes(off));
    assert b[pos] == b[pos..pos + 1][0];
    ReadWritten(b, pos + 1, off);
  }

  lemma FetchAssembled(b: seq<byte>, pos: nat, insn: Plain)
    requires HasAt(b, pos, InsnBytes(insn))
    ensures pos < |b| && Fetch(b, pos) == Some((insn, pos + |InsnBytes(insn)|))
  {
    if insn.SetSymbol? {
      FetchSymbol(b, pos, insn.flags, insn.name);
    } else if insn.SetPlace? {
      FetchPlace(b, pos, insn.seg, insn.off);
    } else {
      assert b[pos] == b[pos..pos + 1][0];
    }
  }

  lemma ParseEnd(b: seq<byte>, pos: nat)
    requires HasAt(b, pos, [0])
    ensures Parse(b, pos) == Some([])
  {
    assert b[pos] == b[pos..pos + 1][0];
  }

  lemma ParseNext(b: seq<byte>, pos: nat, insn: Insn, next: nat, rest: seq<Insn>)
    requires pos < |b| && Fetch(b, pos) == Some((insn, next)) && !insn.Done?
    requires Parse(b, next) == Some(rest)
    ensures Parse(b, pos) == Some([insn] + rest)
  {
  }

  lemma ParseStep(b: seq<byte>, pos: nat, first: Plain, rest: seq<Insn>)
    requires HasAt(b, pos, InsnBytes(first)) && Parse(b, pos + |InsnBytes(first)|) == Some(rest)
    ensures Parse(b, pos) == Some([first] + rest)
  {
    FetchAssembled(b, pos, first);
    ParseNext(b, pos, first, pos + |InsnBytes(first)|, rest);
  }

  lemma AssembledSplit(b: seq<byte>, pos: nat, insns: seq<Plain>)
    requires insns != [] && HasAt(b, pos, Assemble(insns))
    ensures HasAt(b, pos, InsnBytes(insns[0])) && HasAt(b, pos + |InsnBytes(insns[0])|, Assemble(insns[1..]))
  {
    HasAtSplit(b, pos, InsnBytes(insns[0]), Assemble(insns[1..]));
  }

  /** Disassembling what was assembled gives the program back. */
  lemma {:induction false} ParseAssembled(b: seq<byte>, pos: nat, insns: seq<Plain>)
    requires HasAt(b, pos, Assemble(insns))
    ensures Parse(b, pos) == Some(insns)
    decreases |insns|
  {
    if insns == [] {
      ParseEnd(b, pos);
    } else {
      AssembledSplit(b, pos, insns);
      ParseAssembled(b, pos + |InsnBytes(insns[0])|, insns[1..]);
      ParseStep(b, pos, insns[0], insns[1..]);
      assert [insns[0]] + insns[1..] == insns;
    }
  }

  // ----- which relocations are imports -----

  const STB_GLOBAL: nat := 1
  const STB_WEAK: nat := 2
  const AT_SIGN: ch := 64

  datatype Undef = Undef(name: Str, weak: bool)

  /** A symbol that the Mach-O symbol table lists as undefined; an unreadable name is empty. */
  predicate Importable(s: ElfSym) {
    (s.bind == STB_GLOBAL || s.bind == STB_WEAK) && s.shndx == 0 && s.name != [] && AT_SIGN !in s.name
  }

  /** The second pass of `build_symtab` over symbols 1 to n - 1. */
  function Undefs(symtab: seq<ElfSym>): seq<Undef> {
    if |symtab| <= 1 then []
    else
      var s := symtab[|symtab| - 1];
      Undefs(symtab[..|symtab| - 1]) +
      (if Importable(s) then [Undef(s.name, s.bind == STB_WEAK)] else [])
  }

  function FirstNamed(undefs: seq<Undef>, name: Str): Option<Undef> {
    if undefs == [] then None
    else if undefs[0].name == name then Some(undefs[0])
    else FirstNamed(undefs[1..], name)
  }

  /** `find_undef_by_elf_sym`. */
  function FindUndef(dyn: Dynamic, sym: nat): Option<Undef> {
    if sym == 0 || sym >= |dyn.symtab| || dyn.symtab[sym].name == [] then None
    else FirstNamed(Undefs(dyn.symtab), dyn.symtab[sym].name)
  }

  datatype Import = Import(name: Str, weak: bool, off: u64)

  /** The import that one relocation becomes, if any. */
  function ImportOf(dyn: Dynamic, r: Rela, vmaddr: u64, shift: u64): Option<Import> {
    if !SymbolReloc(r) then None
    else
      match FindUndef(dyn, r.sym)
      case None => None
      case Some(u) =>
        var t := Add64(r.offset, shift);
        if t < vmaddr then None else Some(Import(ExportName(u.name), u.weak, t - vmaddr))
  }

  function ImportsOf(dyn: Dynamic, rs: seq<Rela>, vmaddr: u64, shift: u64): seq<Import> {
    if rs == [] then []
    else
      (match ImportOf(dyn, rs[0], vmaddr, shift) case None => [] case Some(i) => [i])
      + ImportsOf(dyn, rs[1..], vmaddr, shift)
  }

  /** Every import of the image, DT_RELA before DT_JMPREL, each in table order. */
  function Imports(dyn: Dynamic, vmaddr: u64, shift: u64): seq<Import> {
    ImportsOf(dyn, dyn.rela + dyn.jmprel, vmaddr, shift)
  }

  lemma {:induction false} FirstNamedIsMember(undefs: seq<Undef>, name: Str)
    ensures FirstNamed(undefs, name).Some? <==> exists u :: u in undefs && u.name == name
    ensures FirstNamed(undefs, name).Some? ==>
      FirstNamed(undefs, name).value in undefs && FirstNamed(undefs, name).value.name == name
    decreases |undefs|
  {
    if undefs != [] {
      assert undefs == [undefs[0]] + undefs[1..];
      FirstNamedIsMember(undefs[1..], name);
    }
  }

  lemma {:induction false} UndefsExact(symtab: seq<ElfSym>, u: Undef)
    ensures u in Undefs(symtab) <==>
      exists j :: 1 <= j < |symtab| && Importable(symtab[j]) && u == Undef(symtab[j].name, symtab[j].bind == STB_WEAK)
    decreases |symtab|
  {
    if |symtab| > 1 {
      var front := symtab[..|symtab| - 1];
      UndefsExact(front, u);
      assert forall j :: 1 <= j < |front| ==> front[j] == symtab[j];
    }
  }

  /**
   A symbol is imported exactly when some undefined, unversioned global or weak
   symbol carries its name; the flag comes from such a symbol.
   */
  lemma FindUndefExact(dyn: Dynamic, sym: nat)
    requires 0 < sym < |dyn.symtab| && dyn.symtab[sym].name != []
    ensures FindUndef(dyn, sym).Some? <==>
      exists j :: 1 <= j < |dyn.symtab| && Importable(dyn.symtab[j]) && dyn.symtab[j].name == dyn.symtab[sym].name
    ensures FindUndef(dyn, sym).Some? ==>
      && FindUndef(dyn, sym).value.name == dyn.symtab[sym].name
      && (exists j :: 1 <= j < |dyn.symtab| && Importable(dyn.symtab[j]) &&
            FindUndef(dyn, sym).value == Undef(dyn.symtab[j].name, dyn.symtab[j].bind == STB_WEAK))
  {
    var name := dyn.symtab[sym].name;
    var undefs := Undefs(dyn.symtab);
    FirstNamedIsMember(undefs, name);
    if FindUndef(dyn, sym).Some? {
      UndefsExact(dyn.symtab, FindUndef(dyn, sym).value);
    }
    forall j | 1 <= j < |dyn.symtab| && Importable(dyn.symtab[j]) && dyn.symtab[j].name == name
      ensures FindUndef(dyn, sym).Some?
    {
      var u := Undef(dyn.symtab[j].name, dyn.symtab[j].bind == STB_WEAK);
      UndefsExact(dyn.symtab, u);
      assert u in undefs && u.name == name;
    }
  }

  // ----- the stream -----

  function ImportProgram(seg: nat, imports: seq<Import>): seq<Plain> {
    if imports == [] then []
    else
      var i := imports[0];
      [SetSymbol(if i.weak then 1 else 0, i.name), SetPlace(seg % 16, i.off), Bind(0)]
      + ImportProgram(seg, imports[1..])
  }

  function BindStream(seg: nat, imports: seq<Import>): seq<byte> {
    Assemble([SetType(1), SetOrdinal(1)] + ImportProgram(seg, imports))
  }

  /** Pointer binding from the first dependency, at the import's place, weak or not. */
  function BindingOf(seg: nat, i: Import): Cursor {
    Cursor(1, 1, if i.weak then 1 else 0, i.name, seg, i.off)
  }

  lemma ExecCons(c: Cursor, first: Insn, rest: seq<Insn>)
    ensures Exec(c, [first] + rest) == Step(c, first).0 + Exec(Step(c, first).1, rest)
  {
    assert ([first] + rest)[1..] == rest;
  }

  lemma ExecSilent(c: Cursor, first: Insn, rest: seq<Insn>)
    requires !first.Bind?
    ensures Exec(c, [first] + rest) == Exec(Step(c, first).1, rest)
  {
    ExecCons(c, first, rest);
    assert [] + Exec(Step(c, first).1, rest) == Exec(Step(c, first).1, rest);
  }

  lemma ExecImport(c: Cursor, seg: nat, i: Import, rest: seq<Insn>)
    requires c.kind == 1 && c.ordinal == 1 && seg < 16
    ensures Exec(c, [SetSymbol(if i.weak then 1 else 0, i.name), SetPlace(seg, i.off), Bind(0)] + rest) ==
      [BindingOf(seg, i)] + Exec(BindingOf(seg, i).(off := Add64(i.off, 8)), rest)
  {
    var a, b, d := SetSymbol(if i.weak then 1 else 0, i.name), SetPlace(seg, i.off), Bind(0);
    assert [a, b, d] + rest == [a] + ([b] + ([d] + rest));
    ExecSilent(c, a, [b] + ([d] + rest));
    ExecSilent(Step(c, a).1, b, [d] + rest);
    ExecCons(BindingOf(seg, i), d, rest);
  }

  lemma {:induction false} ExecImports(c: Cursor, seg: nat, imports: seq<Import>)
    requires c.kind == 1 && c.ordinal == 1 && seg < 16
    ensures Exec(c, ImportProgram(seg, imports)) ==
      seq(|imports|, k requires 0 <= k < |imports| => BindingOf(seg, imports[k]))
    decreases |imports|
  {
    if imports != [] {
      ExecImport(c, seg, imports[0], ImportProgram(seg, imports[1..]));
      ExecImports(BindingOf(seg, imports[0]).(off := Add64(imports[0].off, 8)), seg, imports[1..]);
    }
  }

  /** For every relocation table dyld binds exactly the image's imports, in order. */
  lemma BoundImports(seg: nat, imports: seq<Import>)
    requires seg < 16
    ensures Bound(BindStream(seg, imports)) ==
      Some(seq(|imports|, k requires 0 <= k < |imports| => BindingOf(seg, imports[k])))
  {
    var b := BindStream(seg, imports);
    var tail := ImportProgram(seg, imports);
    assert HasAt(b, 0, b);
    ParseAssembled(b, 0, [SetType(1), SetOrdinal(1)] + tail);
    assert [SetType(1), SetOrdinal(1)] + tail == [SetType(1)] + ([SetOrdinal(1)] + tail);
    var c := Cursor(0, 0, 0, [], 0, 0);
    ExecSilent(c, SetType(1), [SetOrdinal(1)] + tail);
    ExecSilent(c.(kind := 1), SetOrdinal(1), tail);
    ExecImports(c.(kind := 1, ordinal := 1), seg, imports);
  }

  // ----- what the bindings come to, relocation by relocation -----

  /** Symbol `j` is an undefined, unversioned global or weak symbol of this name. */
  ghost predicate Carries(dyn: Dynamic, j: nat, name: Str) {
    && 1 <= j < |dyn.symtab| && dyn.symtab[j].name == name && dyn.symtab[j].shndx == 0
    && (dyn.symtab[j].bind == 1 || dyn.symtab[j].bind == 2) && name != [] && 64 !in name
  }

  ghost predicate CarriesFirst(dyn: Dynamic, j: nat, name: Str) {
    Carries(dyn, j, name) && forall i: nat :: i < j ==> !Carries(dyn, i, name)
  }

  /** The relocation is against such a symbol's name and its shifted slot is not before the segment. */
  ghost predicate Asks(dyn: Dynamic, r: Rela, vmaddr: u64, shift: u64) {
    && (r.kind == 257 || r.kind == 1025 || r.kind == 1026)
    && 0 < r.sym < |dyn.symtab| && (exists j: nat :: Carries(dyn, j, dyn.symtab[r.sym].name))
    && vmaddr <= (r.offset + shift) % TWO64
  }

  /**
   A pointer from the first library, under the symbol's name with an underscore and cut at
   254 characters, weak if the first symbol of that name is, into the relocation's slot.
   */
  ghost predicate Answers(dyn: Dynamic, r: Rela, seg: nat, vmaddr: u64, shift: u64, c: Cursor) {
    && 0 < r.sym < |dyn.symtab| && c.kind == 1 && c.ordinal == 1 && c.seg == seg
    && vmaddr + c.off == (r.offset + shift) % TWO64
    && (var name := dyn.symtab[r.sym].name; c.name == [95] + name[..if |name| < 254 then |name| else 254])
    && (exists j: nat :: CarriesFirst(dyn, j, dyn.symtab[r.sym].name) && c.flags == if dyn.symtab[j].bind == 2 then 1 else 0)
  }

  /** How many of the first `n` relocations ask. */
  ghost function Asking(dyn: Dynamic, rs: seq<Rela>, n: nat, vmaddr: u64, shift: u64): nat
    requires n <= |rs|
  {
    if n == 0 then 0
    else Asking(dyn, rs, n - 1, vmaddr, shift) + if Asks(dyn, rs[n - 1], vmaddr, shift) then 1 else 0
  }

  /** One binding for each relocation that asks, in table order, and no other. */
  ghost predicate AnswersAll(dyn: Dynamic, rs: seq<Rela>, seg: nat, vmaddr: u64, shift: u64, cs: seq<Cursor>) {
    && |cs| == Asking(dyn, rs, |rs|, vmaddr, shift)
    && forall k :: 0 <= k < |rs| && Asks(dyn, rs[k], vmaddr, shift) ==>
         var j := Asking(dyn, rs, k, vmaddr, shift);
         j < |cs| && Answers(dyn, rs[k], seg, vmaddr, shift, cs[j])
  }

  /** So does dyld when it runs the stream. */
  ghost predicate BindsAll(dyn: Dynamic, seg: nat, vmaddr: u64, shift: u64, stream: seq<byte>) {
    Bound(stream).Some? && AnswersAll(dyn, dyn.rela + dyn.jmprel, seg, vmaddr, shift, Bound(stream).value)
  }

  lemma {:induction false} FirstNamedAppend(a: seq<Undef>, b: seq<Undef>, name: Str)
    ensures FirstNamed(a + b, name) == if FirstNamed(a, name).Some? then FirstNamed(a, name) else FirstNamed(b, name)
    decreases |a|
  {
    if a == [] {
      assert a + b == b;
    } else {
      assert (a + b)[1..] == a[1..] + b;
      FirstNamedAppend(a[1..], b, name);
    }
  }

  /** The search finds the first symbol that carries the name, or nothing if none does. */
  lemma {:induction false} FirstUndef(dyn: Dynamic, n: nat, name: Str)
    requires n <= |dyn.symtab| && name != []
    ensures FirstNamed(Undefs(dyn.symtab[..n]), name).None? <==> forall j: nat :: j < n ==> !Carries(dyn, j, name)
    ensures forall j: nat :: j < n && CarriesFirst(dyn, j, name) ==>
      FirstNamed(Undefs(dyn.symtab[..n]), name) == Some(Undef(name, dyn.symtab[j].bind == 2))
    decreases n
  {
    if n > 1 {
      FirstUndef(dyn, n - 1, name);
      FirstUndefNext(dyn, n - 1, name);
    }
  }

  /** One more symbol makes a difference only if it is the first that carries the name. */
  lemma FirstUndefNext(dyn: Dynamic, n: nat, name: Str)
    requires 0 < n < |dyn.symtab| && name != []
    ensures
      var before := FirstNamed(Undefs(dyn.symtab[..n]), name);
      FirstNamed(Undefs(dyn.symtab[..n + 1]), name) ==
      if before.None? && Carries(dyn, n, name) then Some(Undef(name, dyn.symtab[n].bind == 2)) else before
  {
    var s := dyn.symtab[n];
    var more := if Importable(s) then [Undef(s.name, s.bind == STB_WEAK)] else [];
    assert dyn.symtab[..n + 1][..n] == dyn.symtab[..n];
    FirstNamedAppend(Undefs(dyn.symtab[..n]), more, name);
    if Importable(s) {
      assert more[1..] == [];
    }
  }

  lemma {:induction false} LeastCarrier(dyn: Dynamic, k: nat, name: Str) returns (j: nat)
    requires Carries(dyn, k, name)
    ensures CarriesFirst(dyn, j, name)
    decreases k
  {
    if i: nat :| i < k && Carries(dyn, i, name) {
      j := LeastCarrier(dyn, i, name);
    } else {
      j := k;
    }
  }

  lemma FoundIsFirst(dyn: Dynamic, sym: nat)
    requires 0 < sym < |dyn.symtab|
    ensures FindUndef(dyn, sym).Some? <==> exists j: nat :: Carries(dyn, j, dyn.symtab[sym].name)
    ensures FindUndef(dyn, sym).Some? ==>
      && FindUndef(dyn, sym).value.name == dyn.symtab[sym].name
      && exists j: nat ::
           CarriesFirst(dyn, j, dyn.symtab[sym].name) && FindUndef(dyn, sym).value.weak == (dyn.symtab[j].bind == 2)
  {
    var name := dyn.symtab[sym].name;
    if name != [] {
      assert dyn.symtab[..|dyn.symtab|] == dyn.symtab;
      FirstUndef(dyn, |dyn.symtab|, name);
      if k :| Carries(dyn, k, name) {
        var j := LeastCarrier(dyn, k, name);
        assert CarriesFirst(dyn, j, name);
      }
    }
  }

  lemma ImportAnswers(dyn: Dynamic, r: Rela, seg: nat, vmaddr: u64, shift: u64)
    ensures ImportOf(dyn, r, vmaddr, shift).Some? <==> Asks(dyn, r, vmaddr, shift)
    ensures ImportOf(dyn, r, vmaddr, shift).Some? ==>
      Answers(dyn, r, seg, vmaddr, shift, BindingOf(seg, ImportOf(dyn, r, vmaddr, shift).value))
  {
    if 0 < r.sym < |dyn.symtab| {
      FoundIsFirst(dyn, r.sym);
    }
  }

  function Bindings(seg: nat, imports: seq<Import>): (cs: seq<Cursor>)
    ensures |cs| == |imports|
  {
    seq(|imports|, k requires 0 <= k < |imports| => BindingOf(seg, imports[k]))
  }

  lemma {:induction false} ImportsAppend(dyn: Dynamic, a: seq<Rela>, b: seq<Rela>, vmaddr: u64, shift: u64)
    ensures ImportsOf(dyn, a + b, vmaddr, shift) == ImportsOf(dyn, a, vmaddr, shift) + ImportsOf(dyn, b, vmaddr, shift)
    decreases |a|
  {
    if a == [] {
      assert a + b == b;
    } else {
      assert (a + b)[1..] == a[1..] + b;
      ImportsAppend(dyn, a[1..], b, vmaddr, shift);
    }
  }

  lemma OneImport(dyn: Dynamic, r: Rela, vmaddr: u64, shift: u64)
    ensures ImportsOf(dyn, [r], vmaddr, shift) ==
      match ImportOf(dyn, r, vmaddr, shift) { case None => [] case Some(i) => [i] }
  {
    assert [r][1..] == [];
  }

  lemma ImportsNext(dyn: Dynamic, rs: seq<Rela>, n: nat, vmaddr: u64, shift: u64)
    requires n < |rs|
    ensures ImportsOf(dyn, rs[..n + 1], vmaddr, shift) == ImportsOf(dyn, rs[..n], vmaddr, shift) +
      match ImportOf(dyn, rs[n], vmaddr, shift) { case None => [] case Some(i) => [i] }
  {
    assert rs[..n + 1] == rs[..n] + [rs[n]];
    ImportsAppend(dyn, rs[..n], [rs[n]], vmaddr, shift);
    OneImport(dyn, rs[n], vmaddr, shift);
  }

  lemma {:induction false} ImportsCount(dyn: Dynamic, rs: seq<Rela>, n: nat, vmaddr: u64, shift: u64)
    requires n <= |rs|
    ensures |ImportsOf(dyn, rs[..n], vmaddr, shift)| == Asking(dyn, rs, n, vmaddr, shift)
    decreases n
  {
    if n > 0 {
      ImportsCount(dyn, rs, n - 1, vmaddr, shift);
      ImportsNext(dyn, rs, n - 1, vmaddr, shift);
      ImportAnswers(dyn, rs[n - 1], 0, vmaddr, shift);
    }
  }

  /** The import of a relocation that asks stands behind those of the ones before it. */
  lemma ImportAt(dyn: Dynamic, rs: seq<Rela>, k: nat, vmaddr: u64, shift: u64)
    requires k < |rs| && ImportOf(dyn, rs[k], vmaddr, shift).Some?
    ensures var j := Asking(dyn, rs, k, vmaddr, shift);
      && j < |ImportsOf(dyn, rs, vmaddr, shift)|
      && ImportsOf(dyn, rs, vmaddr, shift)[j] == ImportOf(dyn, rs[k], vmaddr, shift).value
  {
    ImportsCount(dyn, rs, k, vmaddr, shift);
    ImportsNext(dyn, rs, k, vmaddr, shift);
    assert rs == rs[..k + 1] + rs[k + 1..];
    ImportsAppend(dyn, rs[..k + 1], rs[k + 1..], vmaddr, shift);
  }

  lemma ImportsAnswer(dyn: Dynamic, rs: seq<Rela>, seg: nat, vmaddr: u64, shift: u64)
    ensures AnswersAll(dyn, rs, seg, vmaddr, shift, Bindings(seg, ImportsOf(dyn, rs, vmaddr, shift)))
  {
    assert rs[..|rs|] == rs;
    ImportsCount(dyn, rs, |rs|, vmaddr, shift);
    forall k | 0 <= k < |rs| && Asks(dyn, rs[k], vmaddr, shift)
      ensures Asking(dyn, rs, k, vmaddr, shift) < |ImportsOf(dyn, rs, vmaddr, shift)|
      ensures Answers(dyn, rs[k], seg, vmaddr, shift,
                Bindings(seg, ImportsOf(dyn, rs, vmaddr, shift))[Asking(dyn, rs, k, vmaddr, shift)])
    {
      ImportAnswers(dyn, rs[k], seg, vmaddr, shift);
      ImportAt(dyn, rs, k, vmaddr, shift);
    }
  }

  /** For every pair of tables, the emitted stream binds exactly what the relocations ask for. */
  lemma StreamBindsAll(dyn: Dynamic, seg: nat, vmaddr: u64, shift: u64)
    requires seg < 16
    ensures BindsAll(dyn, seg, vmaddr, shift, BindStream(seg, Imports(dyn, vmaddr, shift)))
  {
    ImportsAnswer(dyn, dyn.rela + dyn.jmprel, seg, vmaddr, shift);
    BoundImports(seg, Imports(dyn, vmaddr, shift));
    assert Bound(BindStream(seg, Imports(dyn, vmaddr, shift))).value == Bindings(seg, Imports(dyn, vmaddr, shift));
  }

  // ----- the converter's method -----

  function ImportBytes(seg: nat, i: Import): seq<byte> {
    [if i.weak then 0x41 else 0x40] + CStr(i.name) + [0x70 + seg % 16] + UlebBytes(i.off) + [0x90]
  }

  lemma AssembleCons(first: Plain, rest: seq<Plain>)
    ensures Assemble([first] + rest) == InsnBytes(first) + Assemble(rest)
  {
    assert ([first] + rest)[1..] == rest;
  }

  lemma Regroup(p: seq<byte>, q: seq<byte>, r: seq<byte>, s: seq<byte>, t: seq<byte>, rest: seq<byte>)
    ensures (p + q) + ((r + s) + (t + rest)) == p + q + r + s + t + rest
  {
  }

  lemma AssembleThree(a: Plain, b: Plain, c: Plain, rest: seq<Plain>)
    ensures Assemble([a, b, c] + rest) == InsnBytes(a) + (InsnBytes(b) + (InsnBytes(c) + Assemble(rest)))
  {
    assert [a, b, c] + rest == [a] + ([b] + ([c] + rest));
    AssembleCons(a, [b] + ([c] + rest));
    AssembleCons(b, [c] + rest);
    AssembleCons(c, rest);
  }

  lemma AssembleImport(seg: nat, i: Import, rest: seq<Plain>)
    ensures var prog: seq<Plain> := [SetSymbol(if i.weak then 1 else 0, i.name), SetPlace(seg % 16, i.off), Bind(0)];
      Assemble(prog + rest) == ImportBytes(seg, i) + Assemble(rest)
  {
    AssembleThree(SetSymbol(if i.weak then 1 else 0, i.name), SetPlace(seg % 16, i.off), Bind(0), rest);
    Regroup([if i.weak then 0x41 else 0x40], CStr(i.name), [0x70 + seg % 16], UlebBytes(i.off), [0x90], Assemble(rest));
  }

  /** What is still to be written when the loop reaches `rs`, with the end mark. */
  function Remaining(dyn: Dynamic, seg: nat, rs: seq<Rela>, vmaddr: u64, shift: u64): seq<byte> {
    Assemble(ImportProgram(seg, ImportsOf(dyn, rs, vmaddr, shift)))
  }

  lemma RemainingStep(dyn: Dynamic, seg: nat, rs: seq<Rela>, vmaddr: u64, shift: u64)
    requires rs != []
    ensures var rest := Remaining(dyn, seg, rs[1..], vmaddr, shift);
      Remaining(dyn, seg, rs, vmaddr, shift) ==
      match ImportOf(dyn, rs[0], vmaddr, shift) case None => rest case Some(i) => ImportBytes(seg, i) + rest
  {
    var later := ImportsOf(dyn, rs[1..], vmaddr, shift);
    match ImportOf(dyn, rs[0], vmaddr, shift)
    case None =>
      assert [] + later == later;
    case Some(i) =>
      assert ([i] + later)[1..] == later;
      AssembleImport(seg, i, ImportProgram(seg, later));
  }

  method EmitSymbol(bb: Buffer, op: byte, name: Str)
    requires bb.Valid()
    modifies bb, bb.buf
    ensures bb.Valid() && (bb.buf == old(bb.buf) || fresh(bb.buf))
    ensures bb.Contents() == old(bb.Contents()) + ([op] + CStr(name))
  {
    bb.Byte(op);
    bb.String(name);
    Assoc(old(bb.Contents()), [op], CStr(name));
  }

  method EmitPlace(bb: Buffer, op: byte, off: u64)
    requires bb.Valid()
    modifies bb, bb.buf
    ensures bb.Valid() && (bb.buf == old(bb.buf) || fresh(bb.buf))
    ensures bb.Contents() == old(bb.Contents()) + ([op] + UlebBytes(off))
  {
    bb.Byte(op);
    bb.Number(off);
    Assoc(old(bb.Contents()), [op], UlebBytes(off));
  }

  method EmitImport(bb: Buffer, seg: nat, i: Import)
    requires bb.Valid()
    modifies bb, bb.buf
    ensures bb.Valid() && (bb.buf == old(bb.buf) || fresh(bb.buf))
    ensures bb.Contents() == old(bb.Contents()) + ImportBytes(seg, i)
  {
    ghost var was := bb.Contents();
    var op: byte := if i.weak then 0x41 else 0x40;
    EmitSymbol(bb, op, i.name);
    EmitPlace(bb, 0x70 + seg % 16, i.off);
    bb.Byte(0x90);
    Gather(was, [op], CStr(i.name), [0x70 + seg % 16], UlebBytes(i.off), [0x90]);
  }

  lemma Gather(w: seq<byte>, p: seq<byte>, q: seq<byte>, r: seq<byte>, s: seq<byte>, t: seq<byte>)
    ensures w + (p + q) + (r + s) + t == w + (p + q + r + s + t)
  {
  }

  lemma BindStreamHeader(seg: nat, imports: seq<Import>)
    ensures BindStream(seg, imports) == [0x51, 0x11] + Assemble(ImportProgram(seg, imports))
  {
    var prog := ImportProgram(seg, imports);
    assert [SetType(1), SetOrdinal(1)] + prog == [SetType(1)] + ([SetOrdinal(1)] + prog);
    AssembleCons(SetType(1), [SetOrdinal(1)] + prog);
    AssembleCons(SetOrdinal(1), prog);
    Assoc([0x51], [0x11], Assemble(prog));
    assert [0x51] + [0x11] == [0x51, 0x11];
  }

  /** The second pass of `build_symtab`. */
  method CollectUndefs(symtab: seq<ElfSym>) returns (undefs: seq<Undef>)
    ensures undefs == Undefs(symtab)
  {
    undefs := [];
    var i := 1;
    while i < |symtab|
      invariant 1 <= i && (i <= |symtab| ==> undefs == Undefs(symtab[..i])) && (|symtab| == 0 ==> undefs == [])
      invariant i <= |symtab| || i == 1
    {
      assert symtab[..i + 1][..i] == symtab[..i];
      if Importable(symtab[i]) {
        undefs := undefs + [Undef(symtab[i].name, symtab[i].bind == STB_WEAK)];
      }
      i := i + 1;
    }
    assert i == |symtab| ==> symtab[..i] == symtab;
  }

  /** `find_undef_by_elf_sym`: linear search for the symbol's name. */
  method FindUndefByElfSym(dyn: Dynamic, undefs: seq<Undef>, sym: nat) returns (found: Option<Undef>)
    requires undefs == Undefs(dyn.symtab)
    ensures found == FindUndef(dyn, sym)
  {
    if sym == 0 || sym >= |dyn.symtab| || dyn.symtab[sym].name == [] {
      return None;
    }
    var i := 0;
    assert undefs[0..] == undefs;
    while i < |undefs|
      invariant 0 <= i <= |undefs|
      invariant FirstNamed(undefs, dyn.symtab[sym].name) == FirstNamed(undefs[i..], dyn.symtab[sym].name)
    {
      assert undefs[i..][1..] == undefs[i + 1..];
      if undefs[i].name == dyn.symtab[sym].name {
        return Some(undefs[i]);
      }
      i := i + 1;
    }
    found := None;
  }

  method FindImport(dyn: Dynamic, undefs: seq<Undef>, r: Rela, vmaddr: u64, shift: u64) returns (found: Option<Import>)
    requires undefs == Undefs(dyn.symtab)
    ensures found == ImportOf(dyn, r, vmaddr, shift)
  {
    if !SymbolReloc(r) {
      return None;
    }
    var u := FindUndefByElfSym(dyn, undefs, r.sym);
    var t := Add64(r.offset, shift);
    if u.None? || t < vmaddr {
      return None;
    }
    return Some(Import(ExportName(u.value.name), u.value.weak, t - vmaddr));
  }

  /** The loop over one relocation after another, up to and including the end mark. */
  method EmitImports(bb: Buffer, dyn: Dynamic, seg: nat, rs: seq<Rela>, vmaddr: u64, shift: u64)
    requires bb.Valid()
    modifies bb, bb.buf
    ensures bb.Valid() && (bb.buf == old(bb.buf) || fresh(bb.buf))
    ensures bb.Contents() == old(bb.Contents()) + Remaining(dyn, seg, rs, vmaddr, shift)
  {
    var undefs := CollectUndefs(dyn.symtab);
    var rest := rs;
    ghost var whole := bb.Contents() + Remaining(dyn, seg, rest, vmaddr, shift);
    while rest != []
      invariant bb.Valid() && (bb.buf == old(bb.buf) || fresh(bb.buf))
      invariant whole == bb.Contents() + Remaining(dyn, seg, rest, vmaddr, shift)
      decreases |rest|
    {
      RemainingStep(dyn, seg, rest, vmaddr, shift);
      var found := FindImport(dyn, undefs, rest[0], vmaddr, shift);
      if found.Some? {
        Assoc(bb.Contents(), ImportBytes(seg, found.value), Remaining(dyn, seg, rest[1..], vmaddr, shift));
        EmitImport(bb, seg, found.value);
      }
      rest := rest[1..];
    }
    assert Remaining(dyn, seg, [], vmaddr, shift) == [0];
    bb.Byte(0);
  }

  /** `build_binds`: the header, one group of opcodes per import, the end mark. */
  method BuildBinds(dyn: Dynamic, seg: nat, vmaddr: u64, shift: u64) returns (bb: Buffer)
    ensures bb.Valid() && fresh(bb) && fresh(bb.buf)
    ensures bb.Contents() == BindStream(seg, Imports(dyn, vmaddr, shift))
    ensures seg < 16 ==> BindsAll(dyn, seg, vmaddr, shift, bb.Contents())
  {
    if seg < 16 {
      StreamBindsAll(dyn, seg, vmaddr, shift);
    }
    bb := new Buffer();
    bb.Byte(0x51);
    bb.Byte(0x11);
    BindStreamHeader(seg, Imports(dyn, vmaddr, shift));
    EmitImports(bb, dyn, seg, dyn.rela + dyn.jmprel, vmaddr, shift);
  }
}
