/**
 What the load commands say: every field is filled from the plan of the file, and a
 reader that has nothing but the bytes follows the commands back to the segments and
 tables.
 */
module MachoFields {
  import opened Common
  import opened LittleEndian
  import opened MachoHeader
  import opened MachoLayout

  const LC_SEGMENT_64: nat := 0x19
  const LC_SYMTAB: nat := 0x02
  const LC_DYLD_INFO_ONLY: nat := 0x80000022
  const LC_DYLD_EXPORTS_TRIE: nat := 0x80000033

  // ----- words -----

  /** 32-bit fields one after another. */
  function Words(vs: seq<nat>): (b: seq<byte>)
    ensures |b| == 4 * |vs|
  {
    if vs == [] then [] else Le(vs[0], 4) + Words(vs[1..])
  }

  function U32(b: seq<byte>, p: nat): (v: nat)
    requires p + 4 <= |b|
    ensures v < TWO32
  {
    Pow256Widths();
    FromLeBound(b[p..p + 4]);
    FromLe(b[p..p + 4])
  }

  lemma {:induction false} WordsRead(b: seq<byte>, p: nat, vs: seq<nat>, i: nat)
    requires HasAt(b, p, Words(vs)) && i < |vs| && vs[i] < TWO32
    ensures p + 4 * i + 4 <= |b| && U32(b, p + 4 * i) == vs[i]
    decreases |vs|
  {
    HasAtSplit(b, p, Le(vs[0], 4), Words(vs[1..]));
    if i == 0 {
      Pow256Widths();
      FromLeLe(vs[0], 4);
    } else {
      WordsRead(b, p + 4, vs[1..], i - 1);
    }
  }

  type u32 = x: int | 0 <= x < TWO32

  /** A segment's place in memory and in the file, and its protections, at most and at first. */
  datatype Extent = Extent(vmaddr: u64, vmsize: u64, fileoff: u64, filesize: u64, maxprot: u32, initprot: u32)

  function ExtentBytes(x: Extent): (b: seq<byte>)
    ensures |b| == 40
  {
    Le(x.vmaddr, 8) + Le(x.vmsize, 8) + Le(x.fileoff, 8) + Le(x.filesize, 8) + Words([x.maxprot, x.initprot])
  }

  lemma WordRead(b: seq<byte>, p: nat, v: u64)
    requires HasAt(b, p, Le(v, 8))
    ensures Word(b, p) == v
  {
    Pow256Widths();
    FromLeLe(v, 8);
  }

  function ReadExtent(b: seq<byte>, p: nat): Extent
    requires p + 40 <= |b|
  {
    Extent(Word(b, p), Word(b, p + 8), Word(b, p + 16), Word(b, p + 24), U32(b, p + 32), U32(b, p + 36))
  }

  lemma ExtentRead(b: seq<byte>, p: nat, x: Extent)
    requires HasAt(b, p, ExtentBytes(x))
    ensures ReadExtent(b, p) == x
  {
    var prots := [x.maxprot, x.initprot];
    HasAtSplit(b, p, Le(x.vmaddr, 8) + Le(x.vmsize, 8) + Le(x.fileoff, 8) + Le(x.filesize, 8), Words(prots));
    WordsRead(b, p + 32, prots, 0);
    WordsRead(b, p + 32, prots, 1);
    HasAtSplit(b, p, Le(x.vmaddr, 8) + Le(x.vmsize, 8) + Le(x.fileoff, 8), Le(x.filesize, 8));
    HasAtSplit(b, p, Le(x.vmaddr, 8) + Le(x.vmsize, 8), Le(x.fileoff, 8));
    HasAtSplit(b, p, Le(x.vmaddr, 8), Le(x.vmsize, 8));
    WordRead(b, p, x.vmaddr);
    WordRead(b, p + 8, x.vmsize);
    WordRead(b, p + 16, x.fileoff);
    WordRead(b, p + 24, x.filesize);
  }

  // ----- the fields -----

  function Larger(a: u64, b: u64): u64 {
    if a < b then b else a
  }

  function TextExtent(p: Plan, text: Segment): Extent {
    Extent(0, Larger(Wrap64(AlignPage(p.textOff + text.memsz)), Wrap64(p.textEnd)), 0, Wrap64(p.textEnd), 7, 5)
  }

  function DataExtent(p: Plan, data: Segment): Extent {
    var start, size := Wrap64(AlignDown(p.dataOff)), Wrap64(DataPages(p.dataOff, data.filesz));
    Extent(start, Larger(Wrap64(DataPages(p.dataOff, data.memsz)), size), start, size, 3, 3)
  }

  function LinkeditExtent(p: Plan): Extent
    requires p.linkedit <= p.total
  {
    var size := p.total - p.linkedit;
    Extent(Wrap64(p.linkedit), Wrap64(AlignPage(size)), Wrap64(p.linkedit), Wrap64(size), 1, 1)
  }

  /** The segments of a file, in the order of their commands. */
  function SegmentList(p: Plan, text: Segment, data: Option<Segment>): seq<Extent>
    requires p.linkedit <= p.total
  {
    [TextExtent(p, text)] + ((if data.None? then [] else [DataExtent(p, data.value)]) + [LinkeditExtent(p)])
  }

  function Name16(s: string): (b: seq<byte>)
    requires |s| <= 16
    ensures |b| == 16
  {
    Ascii(s) + Zeros(16 - |s|)
  }

  function SegmentBody(name: string, x: Extent, nsects: nat): (b: seq<byte>)
    requires |name| <= 16
    ensures |b| == 64
  {
    Name16(name) + ExtentBytes(x) + Words([nsects, 0])
  }

  function SectionBody(section: string, segment: string, addr: nat, size: nat, align: nat): (b: seq<byte>)
    requires |section| <= 16 && |segment| <= 16
    ensures |b| == 80
  {
    Name16(section) + Name16(segment) + Le(addr, 8) + Le(size, 8) + Words([Abs(addr), align, 0, 0, 0, 0, 0, 0])
  }

  /** What the header takes from elsewhere: platform, entry point and the ranges of external and undefined symbols. */
  datatype Meta = Meta(platform: u32, entry: u64, iext: u32, next: u32, iundef: u32, nundef: u32)

  /** Made from the entry point, with the version and variant bits set. */
  function Uuid(entry: u64): (b: seq<byte>)
    ensures |b| == 16
  {
    var e := Le(entry, 8);
    e[..6] + [e[6] % 16 + 0x40, e[7], 0x80] + Zeros(7)
  }

  /** Empty tables are given no place. */
  function Place(size: nat, at: nat): nat {
    if size > 0 then Abs(at) else 0
  }

  function InfoWords(p: Plan, t: Tables): seq<nat> {
    [ Place(t.rebase, p.rebase), Abs(t.rebase), Place(t.bind, p.bind), Abs(t.bind), 0, 0, 0, 0,
      Place(t.trie, p.trie), Abs(t.trie) ]
  }

  function SymtabWords(p: Plan, t: Tables): seq<nat> {
    [Place(t.nsyms, p.symtab), Abs(t.nsyms), Abs(p.strings), if t.strings > 0 then Abs(t.strings) else 1]
  }

  function BuildWords(m: Meta): (r: seq<nat>)
    ensures |r| == 4 && r[0] == m.platform && r[1] == 0xF0000
  {
    [m.platform, 0xF0000, 0xF0000, 0]
  }

  function RangeWords(m: Meta): (r: seq<nat>)
    ensures |r| == 18 && r[2] == m.iext && r[3] == m.next && r[4] == m.iundef && r[5] == m.nundef
  {
    [0, 0, m.iext, m.next, m.iundef, m.nundef, 0, 0, 0, 0, 0, 0, 0, 0, 0, 0, 0, 0]
  }

  function TrieWords(p: Plan, t: Tables): seq<nat> {
    [Place(t.trie, p.trie), Abs(t.trie)]
  }

  function TextBody(p: Plan, text: Segment): (b: seq<byte>)
    ensures |b| == 144
  {
    SegmentBody("__TEXT", TextExtent(p, text), 1) + SectionBody("__text", "__TEXT", p.textOff, text.filesz, 2)
  }

  function DataBody(p: Plan, data: Segment): (b: seq<byte>)
    ensures |b| == 144
  {
    SegmentBody("__DATA", DataExtent(p, data), 1) + SectionBody("__data", "__DATA", p.dataOff, data.filesz, 3)
  }

  function FieldsOf(p: Plan, text: Segment, data: Option<Segment>, t: Tables, m: Meta): (f: Fields)
    requires p.linkedit <= p.total
    ensures f.Sized()
  {
    Fields(
      TextBody(p, text),
      if data.Some? then DataBody(p, data.value) else Zeros(144),
      SegmentBody("__LINKEDIT", LinkeditExtent(p), 0),
      Words([24, 1, 0x10000, 0x10000]),
      Words(BuildWords(m)),
      Uuid(m.entry),
      Words([24, 1, 0x10000, 0x10000]),
      Words([12]),
      Words(InfoWords(p, t)),
      Words(SymtabWords(p, t)),
      Words(RangeWords(m)),
      Words(TrieWords(p, t)),
      Words([Abs(p.signature), 0]))
  }

  // ----- a reader -----

  function CommandsOf(b: seq<byte>): Option<seq<seq<byte>>> {
    if |b| < 32 then None else Commands(b, 32, U32(b, 16))
  }

  predicate IsKind(cmd: seq<byte>, kind: nat) {
    |cmd| >= 4 && U32(cmd, 0) == kind
  }

  function FirstOf(cmds: seq<seq<byte>>, kind: nat): Option<seq<byte>> {
    if cmds == [] then None else if IsKind(cmds[0], kind) then Some(cmds[0]) else FirstOf(cmds[1..], kind)
  }

  function CommandOf(b: seq<byte>, kind: nat): Option<seq<byte>> {
    match CommandsOf(b)
    case None => None
    case Some(cmds) => FirstOf(cmds, kind)
  }

  /** The bytes that an offset and a length in the file stand for. */
  function Slice(b: seq<byte>, off: nat, size: nat): Option<seq<byte>> {
    if size == 0 then Some([]) else if off + size <= |b| then Some(b[off..off + size]) else None
  }

  /** The offset and the count at `at` of the first command of a kind. */
  function Locate(b: seq<byte>, kind: nat, at: nat): Option<(nat, nat)> {
    match CommandOf(b, kind)
    case None => None
    case Some(cmd) => if |cmd| < at + 8 then None else Some((U32(cmd, at), U32(cmd, at + 4)))
  }

  /** The bytes there. */
  function Blob(b: seq<byte>, kind: nat, at: nat): Option<seq<byte>> {
    match Locate(b, kind, at)
    case None => None
    case Some((off, size)) => Slice(b, off, size)
  }

  function RebaseInfo(b: seq<byte>): Option<seq<byte>> {
    Blob(b, LC_DYLD_INFO_ONLY, 8)
  }

  function BindInfo(b: seq<byte>): Option<seq<byte>> {
    Blob(b, LC_DYLD_INFO_ONLY, 16)
  }

  function ExportInfo(b: seq<byte>): Option<seq<byte>> {
    Blob(b, LC_DYLD_INFO_ONLY, 40)
  }

  function ExportsTrie(b: seq<byte>): Option<seq<byte>> {
    Blob(b, LC_DYLD_EXPORTS_TRIE, 8)
  }

  /** The symbols, sixteen bytes each. */
  function SymbolEntries(b: seq<byte>): Option<seq<byte>> {
    match Locate(b, LC_SYMTAB, 8)
    case None => None
    case Some((off, n)) => Slice(b, off, 16 * n)
  }

  function SymbolStrings(b: seq<byte>): Option<seq<byte>> {
    Blob(b, LC_SYMTAB, 16)
  }

  /** The extents of the segment commands, in order. */
  function ExtentsIn(cmds: seq<seq<byte>>): seq<Extent> {
    if cmds == [] then []
    else if IsKind(cmds[0], LC_SEGMENT_64) && |cmds[0]| >= 64 then [ReadExtent(cmds[0], 24)] + ExtentsIn(cmds[1..])
    else ExtentsIn(cmds[1..])
  }

  function Extents(b: seq<byte>): Option<seq<Extent>> {
    match CommandsOf(b)
    case None => None
    case Some(cmds) => Some(ExtentsIn(cmds))
  }

  // ----- finding a command -----

  lemma KindRead(c: Command, kind: nat)
    requires c.kind < TWO32
    ensures IsKind(Encode(c), kind) <==> c.kind == kind
  {
    Pow256Widths();
    FromLeLe(c.kind, 4);
    assert Encode(c)[0..4] == Le(c.kind, 4);
  }

  lemma BodyRead(kind: nat, body: seq<byte>)
    ensures HasAt(Encode(Fixed(kind, body)), 8, body)
  {
  }

  function FirstKind(cs: seq<Command>, kind: nat): Option<Command> {
    if cs == [] then None else if cs[0].kind == kind then Some(cs[0]) else FirstKind(cs[1..], kind)
  }

  ghost predicate KindsFit(cs: seq<Command>) {
    forall i :: 0 <= i < |cs| ==> cs[i].kind < TWO32
  }

  lemma EncodingsTail(cs: seq<Command>)
    requires cs != []
    ensures Encodings(cs)[0] == Encode(cs[0]) && Encodings(cs)[1..] == Encodings(cs[1..])
  {
    forall i | 0 <= i < |cs| - 1
      ensures Encodings(cs)[1..][i] == Encodings(cs[1..])[i]
    {
    }
  }

  lemma {:induction false} FirstOfEncodings(cs: seq<Command>, kind: nat)
    requires KindsFit(cs)
    ensures FirstOf(Encodings(cs), kind) ==
      match FirstKind(cs, kind) { case None => None case Some(c) => Some(Encode(c)) }
    decreases |cs|
  {
    if cs != [] {
      EncodingsTail(cs);
      KindRead(cs[0], kind);
      FirstOfEncodings(cs[1..], kind);
    }
  }

  lemma {:induction false} FirstKindPast(a: seq<Command>, b: seq<Command>, kind: nat)
    requires forall i :: 0 <= i < |a| ==> a[i].kind != kind
    ensures FirstKind(a + b, kind) == FirstKind(b, kind)
    decreases |a|
  {
    if a == [] {
      assert a + b == b;
    } else {
      assert (a + b)[1..] == a[1..] + b;
      FirstKindPast(a[1..], b, kind);
    }
  }

  /** Everything before the last five commands. */
  function Early(f: Fields, hasData: bool, base: seq<byte>, names: seq<seq<byte>>): seq<Command> {
    FirstCommands(f, hasData, base) + (LoadCommands(f, names) + (if names == [] then [] else PathCommands(f, SearchPaths())))
  }

  lemma EarlyThenLast(f: Fields, hasData: bool, base: seq<byte>, names: seq<seq<byte>>)
    ensures AllCommands(f, hasData, base, names) == Early(f, hasData, base, names) + LastCommands(f)
  {
    var a, b := FirstCommands(f, hasData, base), LoadCommands(f, names);
    var c, d := if names == [] then [] else PathCommands(f, SearchPaths()), LastCommands(f);
    assert a + b + c == a + (b + c);
  }

  lemma FirstKinds(f: Fields, hasData: bool, base: seq<byte>)
    ensures forall c :: c in FirstCommands(f, hasData, base) ==> c.kind in {0x19, 0x0D, 0x32, 0x1B}
  {
  }

  lemma EarlyKinds(f: Fields, hasData: bool, base: seq<byte>, names: seq<seq<byte>>, i: nat)
    requires i < |Early(f, hasData, base, names)|
    ensures Early(f, hasData, base, names)[i].kind in {0x19, 0x0D, 0x32, 0x1B, 0x0C, 0x8000001C}
  {
    var a, b := FirstCommands(f, hasData, base), LoadCommands(f, names);
    var c := if names == [] then [] else PathCommands(f, SearchPaths());
    FirstKinds(f, hasData, base);
    if i < |a| {
      assert Early(f, hasData, base, names)[i] == a[i] && a[i] in a;
    } else if i < |a| + |b| {
      assert Early(f, hasData, base, names)[i] == b[i - |a|];
    } else {
      assert Early(f, hasData, base, names)[i] == c[i - |a| - |b|];
    }
  }

  lemma AllKindsFit(f: Fields, hasData: bool, base: seq<byte>, names: seq<seq<byte>>)
    ensures KindsFit(AllCommands(f, hasData, base, names))
  {
    EarlyThenLast(f, hasData, base, names);
    var all, early := AllCommands(f, hasData, base, names), Early(f, hasData, base, names);
    forall i | 0 <= i < |all|
      ensures all[i].kind < TWO32
    {
      if i < |early| {
        EarlyKinds(f, hasData, base, names, i);
      } else {
        assert all[i] == LastCommands(f)[i - |early|];
      }
    }
  }

  /** The first command of each of the last kinds is among the last five. */
  lemma LastFound(f: Fields, hasData: bool, base: seq<byte>, names: seq<seq<byte>>)
    ensures var cs := AllCommands(f, hasData, base, names);
      && FirstKind(cs, LC_DYLD_INFO_ONLY) == Some(Fixed(LC_DYLD_INFO_ONLY, f.dyldInfo))
      && FirstKind(cs, LC_SYMTAB) == Some(Fixed(LC_SYMTAB, f.symtab))
      && FirstKind(cs, LC_DYLD_EXPORTS_TRIE) == Some(Fixed(LC_DYLD_EXPORTS_TRIE, f.trie))
  {
    EarlyThenLast(f, hasData, base, names);
    var early, last := Early(f, hasData, base, names), LastCommands(f);
    forall i | 0 <= i < |early|
      ensures early[i].kind != LC_DYLD_INFO_ONLY && early[i].kind != LC_SYMTAB && early[i].kind != LC_DYLD_EXPORTS_TRIE
    {
      EarlyKinds(f, hasData, base, names, i);
    }
    FirstKindPast(early, last, LC_DYLD_INFO_ONLY);
    FirstKindPast(early, last, LC_SYMTAB);
    FirstKindPast(early, last, LC_DYLD_EXPORTS_TRIE);
    FirstKindPast(last[..1], last[1..], LC_SYMTAB);
    assert last == last[..1] + last[1..];
    FirstKindPast(last[..3], last[3..], LC_DYLD_EXPORTS_TRIE);
    assert last == last[..3] + last[3..];
  }

  // ----- following it -----

  lemma CommandsFound(b: seq<byte>, cs: seq<Command>)
    requires Loads(b, cs)
    ensures CommandsOf(b) == Some(Encodings(cs))
  {
  }

  lemma CommandRead(kind: nat, ws: seq<nat>, i: nat)
    requires i < |ws| && ws[i] < TWO32
    ensures 8 + 4 * i + 4 <= |Encode(Fixed(kind, Words(ws)))| && U32(Encode(Fixed(kind, Words(ws))), 8 + 4 * i) == ws[i]
  {
    BodyRead(kind, Words(ws));
    WordsRead(Encode(Fixed(kind, Words(ws))), 8, ws, i);
  }

  lemma CommandFound(b: seq<byte>, cs: seq<Command>, c: Command)
    requires Loads(b, cs) && KindsFit(cs) && FirstKind(cs, c.kind) == Some(c)
    ensures CommandOf(b, c.kind) == Some(Encode(c))
  {
    CommandsFound(b, cs);
    FirstOfEncodings(cs, c.kind);
  }

  /** The words of a command, from its ninth byte on. */
  ghost predicate Reads(cmd: seq<byte>, ws: seq<nat>) {
    forall i :: 0 <= i < |ws| && ws[i] < TWO32 ==> 12 + 4 * i <= |cmd| && U32(cmd, 8 + 4 * i) == ws[i]
  }

  lemma CommandReads(kind: nat, ws: seq<nat>)
    ensures Reads(Encode(Fixed(kind, Words(ws))), ws)
  {
    forall i | 0 <= i < |ws| && ws[i] < TWO32
      ensures 12 + 4 * i <= |Encode(Fixed(kind, Words(ws)))| && U32(Encode(Fixed(kind, Words(ws))), 8 + 4 * i) == ws[i]
    {
      CommandRead(kind, ws, i);
    }
  }

  /** The first command of a kind has these words. */
  ghost predicate Shows(b: seq<byte>, kind: nat, ws: seq<nat>) {
    CommandOf(b, kind).Some? && Reads(CommandOf(b, kind).value, ws)
  }

  lemma CommandShows(b: seq<byte>, cs: seq<Command>, kind: nat, ws: seq<nat>)
    requires Loads(b, cs) && KindsFit(cs) && FirstKind(cs, kind) == Some(Fixed(kind, Words(ws)))
    ensures Shows(b, kind, ws)
  {
    CommandFound(b, cs, Fixed(kind, Words(ws)));
    CommandReads(kind, ws);
  }

  lemma Located(b: seq<byte>, kind: nat, ws: seq<nat>, i: nat)
    requires Shows(b, kind, ws) && i + 1 < |ws| && ws[i] < TWO32 && ws[i + 1] < TWO32
    ensures Locate(b, kind, 8 + 4 * i) == Some((ws[i], ws[i + 1]))
  {
  }

  lemma SliceThere(b: seq<byte>, off: nat, part: seq<byte>, place: nat)
    requires HasAt(b, off, part) && (part != [] ==> place == off)
    ensures Slice(b, place, |part|) == Some(part)
  {
  }

  /** The five tables as pieces of the file, where the plan has them. */
  ghost predicate TablesThere(b: seq<byte>, p: Plan, c: Contents) {
    && HasAt(b, p.rebase, c.rebase) && HasAt(b, p.bind, c.bind) && HasAt(b, p.trie, c.trie)
    && HasAt(b, p.symtab, c.symtab) && HasAt(b, p.strings, c.strings)
  }

  lemma InfoFound(b: seq<byte>, ws: seq<nat>)
    requires Shows(b, LC_DYLD_INFO_ONLY, ws)
    requires |ws| == 10 && forall i :: 0 <= i < 10 ==> ws[i] < TWO32
    ensures RebaseInfo(b) == Slice(b, ws[0], ws[1])
    ensures BindInfo(b) == Slice(b, ws[2], ws[3])
    ensures ExportInfo(b) == Slice(b, ws[8], ws[9])
  {
    Located(b, LC_DYLD_INFO_ONLY, ws, 0);
    Located(b, LC_DYLD_INFO_ONLY, ws, 2);
    Located(b, LC_DYLD_INFO_ONLY, ws, 8);
  }

  lemma SymbolsFound(b: seq<byte>, ws: seq<nat>)
    requires Shows(b, LC_SYMTAB, ws)
    requires |ws| == 4 && forall i :: 0 <= i < 4 ==> ws[i] < TWO32
    ensures SymbolEntries(b) == Slice(b, ws[0], 16 * ws[1])
    ensures SymbolStrings(b) == Slice(b, ws[2], ws[3])
  {
    Located(b, LC_SYMTAB, ws, 0);
    Located(b, LC_SYMTAB, ws, 2);
  }

  lemma TrieFound(b: seq<byte>, ws: seq<nat>)
    requires Shows(b, LC_DYLD_EXPORTS_TRIE, ws)
    requires |ws| == 2 && ws[0] < TWO32 && ws[1] < TWO32
    ensures ExportsTrie(b) == Slice(b, ws[0], ws[1])
  {
    Located(b, LC_DYLD_EXPORTS_TRIE, ws, 0);
  }

  /** The fields that lead to the tables. */
  ghost predicate Tells(f: Fields, p: Plan, t: Tables) {
    && f.dyldInfo == Words(InfoWords(p, t)) && f.symtab == Words(SymtabWords(p, t))
    && f.trie == Words(TrieWords(p, t))
  }

  lemma FieldsCount(p: Plan, text: Segment, data: Option<Segment>, t: Tables, m: Meta)
    requires p.linkedit <= p.total
    ensures FieldsOf(p, text, data, t, m).build == Words(BuildWords(m))
    ensures FieldsOf(p, text, data, t, m).dysymtab == Words(RangeWords(m))
  {
  }

  lemma FieldsTell(p: Plan, text: Segment, data: Option<Segment>, t: Tables, m: Meta)
    requires p.linkedit <= p.total
    ensures Tells(FieldsOf(p, text, data, t, m), p, t)
  {
  }

  /** A reader sees the words that lead to the tables. */
  ghost predicate Shown(b: seq<byte>, p: Plan, t: Tables) {
    && Shows(b, LC_DYLD_INFO_ONLY, InfoWords(p, t)) && Shows(b, LC_SYMTAB, SymtabWords(p, t))
    && Shows(b, LC_DYLD_EXPORTS_TRIE, TrieWords(p, t))
  }

  lemma LastShow(b: seq<byte>, f: Fields, p: Plan, t: Tables, hasData: bool, base: seq<byte>, names: seq<seq<byte>>)
    requires Tells(f, p, t) && Loads(b, AllCommands(f, hasData, base, names))
    ensures Shown(b, p, t)
  {
    var cs := AllCommands(f, hasData, base, names);
    AllKindsFit(f, hasData, base, names);
    LastFound(f, hasData, base, names);
    CommandShows(b, cs, LC_DYLD_INFO_ONLY, InfoWords(p, t));
    CommandShows(b, cs, LC_SYMTAB, SymtabWords(p, t));
    CommandShows(b, cs, LC_DYLD_EXPORTS_TRIE, TrieWords(p, t));
  }

  lemma InfoSlices(b: seq<byte>, p: Plan, t: Tables)
    requires Shown(b, p, t)
    ensures RebaseInfo(b) == Slice(b, Place(t.rebase, p.rebase), Abs(t.rebase))
    ensures BindInfo(b) == Slice(b, Place(t.bind, p.bind), Abs(t.bind))
    ensures ExportInfo(b) == Slice(b, Place(t.trie, p.trie), Abs(t.trie))
  {
    InfoFound(b, InfoWords(p, t));
  }

  lemma SymbolSlices(b: seq<byte>, p: Plan, t: Tables)
    requires Shown(b, p, t)
    ensures ExportsTrie(b) == Slice(b, Place(t.trie, p.trie), Abs(t.trie))
    ensures SymbolEntries(b) == Slice(b, Place(t.nsyms, p.symtab), 16 * Abs(t.nsyms))
    ensures SymbolStrings(b) == Slice(b, Abs(p.strings), if t.strings > 0 then Abs(t.strings) else 1)
  {
    SymbolsFound(b, SymtabWords(p, t));
    TrieFound(b, TrieWords(p, t));
  }

  /** Nothing that starts or ends before the strings needs more than 32 bits. */
  lemma TablesNarrow(p: Plan, text: Segment, data: Option<Segment>, t: Tables)
    requires Placed(p, text, data, t) && p.strings < TWO32
    ensures Abs(t.rebase) == t.rebase && Abs(t.bind) == t.bind && Abs(t.trie) == t.trie && Abs(t.nsyms) == t.nsyms
    ensures Abs(p.rebase) == p.rebase && Abs(p.bind) == p.bind && Abs(p.trie) == p.trie && Abs(p.symtab) == p.symtab
    ensures Abs(p.strings) == p.strings
  {
    TablesInPlace(p, text, data, t);
  }

  lemma SlicesThere(b: seq<byte>, p: Plan, c: Contents)
    requires TablesThere(b, p, c) && |c.symtab| % 16 == 0
    requires Abs(p.rebase) == p.rebase && Abs(p.bind) == p.bind && Abs(p.trie) == p.trie && Abs(p.symtab) == p.symtab
    ensures Slice(b, Place(|c.rebase|, p.rebase), |c.rebase|) == Some(c.rebase)
    ensures Slice(b, Place(|c.bind|, p.bind), |c.bind|) == Some(c.bind)
    ensures Slice(b, Place(|c.trie|, p.trie), |c.trie|) == Some(c.trie)
    ensures Slice(b, Place(|c.symtab| / 16, p.symtab), |c.symtab|) == Some(c.symtab)
  {
    SliceThere(b, p.rebase, c.rebase, Place(|c.rebase|, p.rebase));
    SliceThere(b, p.bind, c.bind, Place(|c.bind|, p.bind));
    SliceThere(b, p.trie, c.trie, Place(|c.trie|, p.trie));
    SliceThere(b, p.symtab, c.symtab, Place(|c.symtab| / 16, p.symtab));
  }

  /** Every table is read back whole. */
  ghost predicate TablesRead(b: seq<byte>, c: Contents) {
    && RebaseInfo(b) == Some(c.rebase) && BindInfo(b) == Some(c.bind)
    && ExportInfo(b) == Some(c.trie) && ExportsTrie(b) == Some(c.trie)
    && SymbolEntries(b) == Some(c.symtab)
    && (0 < |c.strings| < TWO32 ==> SymbolStrings(b) == Some(c.strings))
  }

  lemma ShownInfoRead(b: seq<byte>, p: Plan, c: Contents, text: Segment, data: Option<Segment>, t: Tables)
    requires Placed(p, text, data, t) && Holds(c, text, data, t) && p.strings < TWO32
    requires Shown(b, p, t) && TablesThere(b, p, c)
    ensures RebaseInfo(b) == Some(c.rebase) && BindInfo(b) == Some(c.bind) && ExportInfo(b) == Some(c.trie)
  {
    TablesNarrow(p, text, data, t);
    SlicesThere(b, p, c);
    InfoSlices(b, p, t);
  }

  lemma ShownSymbolsRead(b: seq<byte>, p: Plan, c: Contents, text: Segment, data: Option<Segment>, t: Tables)
    requires Placed(p, text, data, t) && Holds(c, text, data, t) && p.strings < TWO32
    requires Shown(b, p, t) && TablesThere(b, p, c)
    ensures ExportsTrie(b) == Some(c.trie) && SymbolEntries(b) == Some(c.symtab)
  {
    TablesNarrow(p, text, data, t);
    SlicesThere(b, p, c);
    SymbolSlices(b, p, t);
  }

  lemma AbsSame(x: nat)
    requires x < TWO32
    ensures Abs(x) == x
  {
  }

  lemma ShownStringsRead(b: seq<byte>, p: Plan, strings: seq<byte>, t: Tables)
    requires Shown(b, p, t) && HasAt(b, p.strings, strings) && p.strings < TWO32 && 0 < t.strings == |strings| < TWO32
    ensures SymbolStrings(b) == Some(strings)
  {
    AbsSame(t.strings);
    AbsSame(p.strings);
    SymbolSlices(b, p, t);
    SliceThere(b, p.strings, strings, p.strings);
  }

  lemma ShownTablesRead(b: seq<byte>, p: Plan, c: Contents, text: Segment, data: Option<Segment>, t: Tables)
    requires Placed(p, text, data, t) && Holds(c, text, data, t) && p.strings < TWO32
    requires Shown(b, p, t) && TablesThere(b, p, c)
    ensures TablesRead(b, c)
  {
    ShownInfoRead(b, p, c, text, data, t);
    ShownSymbolsRead(b, p, c, text, data, t);
    if 0 < |c.strings| < TWO32 {
      ShownStringsRead(b, p, c.strings, t);
    }
  }

  /** A reader that follows the header's offsets and sizes gets back every table. */
  lemma TablesFollowed(b: seq<byte>, p: Plan, c: Contents, text: Segment, data: Option<Segment>, t: Tables, f: Fields,
                       base: seq<byte>, names: seq<seq<byte>>)
    requires Placed(p, text, data, t) && Holds(c, text, data, t) && p.strings < TWO32
    requires Tells(f, p, t) && TablesThere(b, p, c) && Loads(b, AllCommands(f, data.Some?, base, names))
    ensures TablesRead(b, c)
  {
    LastShow(b, f, p, t, data.Some?, base, names);
    ShownTablesRead(b, p, c, text, data, t);
  }

  // ----- segments -----

  lemma {:induction false} ExtentsAppend(a: seq<seq<byte>>, b: seq<seq<byte>>)
    ensures ExtentsIn(a + b) == ExtentsIn(a) + ExtentsIn(b)
    decreases |a|
  {
    if a == [] {
      assert a + b == b;
    } else {
      assert (a + b)[1..] == a[1..] + b;
      ExtentsAppend(a[1..], b);
    }
  }

  lemma {:induction false} NoExtents(cs: seq<Command>)
    requires KindsFit(cs) && forall i :: 0 <= i < |cs| ==> cs[i].kind != LC_SEGMENT_64
    ensures ExtentsIn(Encodings(cs)) == []
    decreases |cs|
  {
    if cs != [] {
      EncodingsTail(cs);
      KindRead(cs[0], LC_SEGMENT_64);
      NoExtents(cs[1..]);
    }
  }

  lemma EncodingsAppend(a: seq<Command>, b: seq<Command>)
    ensures Encodings(a + b) == Encodings(a) + Encodings(b)
  {
  }

  /** A segment command followed by others. */
  lemma ExtentThen(x: Extent, body: seq<byte>, rest: seq<Command>)
    requires HasAt(body, 16, ExtentBytes(x))
    ensures ExtentsIn(Encodings([Fixed(LC_SEGMENT_64, body)] + rest)) == [x] + ExtentsIn(Encodings(rest))
  {
    var cs := [Fixed(LC_SEGMENT_64, body)] + rest;
    assert cs[1..] == rest;
    EncodingsTail(cs);
    KindRead(cs[0], LC_SEGMENT_64);
    var cmd := Encode(cs[0]);
    BodyRead(LC_SEGMENT_64, body);
    assert cmd[24..64] == cmd[8..8 + |body|][16..56] == body[16..56];
    ExtentRead(cmd, 24, x);
  }

  lemma SegmentBodyHas(name: string, x: Extent, nsects: nat, more: seq<byte>)
    requires |name| <= 16
    ensures HasAt(SegmentBody(name, x, nsects) + more, 16, ExtentBytes(x))
  {
  }

  lemma NoneBoth(a: seq<Command>, b: seq<Command>)
    requires ExtentsIn(Encodings(a)) == [] && ExtentsIn(Encodings(b)) == []
    ensures ExtentsIn(Encodings(a + b)) == []
  {
    EncodingsAppend(a, b);
    ExtentsAppend(Encodings(a), Encodings(b));
  }

  lemma NoneInAll(a: seq<Command>, b: seq<Command>, c: seq<Command>, d: seq<Command>)
    requires ExtentsIn(Encodings(a)) == [] && ExtentsIn(Encodings(b)) == []
    requires ExtentsIn(Encodings(c)) == [] && ExtentsIn(Encodings(d)) == []
    ensures ExtentsIn(Encodings(a + (b + c) + d)) == []
  {
    NoneBoth(b, c);
    NoneBoth(a, b + c);
    NoneBoth(a + (b + c), d);
  }

  /** The commands after the segment commands. */
  function Others(f: Fields, base: seq<byte>, names: seq<seq<byte>>): seq<Command> {
    [Named(0x0D, f.id, LibraryName(base)), Fixed(0x32, f.build), Fixed(0x1B, f.uuid)] +
    (LoadCommands(f, names) + (if names == [] then [] else PathCommands(f, SearchPaths()))) + LastCommands(f)
  }

  lemma NoMoreSegments(f: Fields, base: seq<byte>, names: seq<seq<byte>>)
    ensures ExtentsIn(Encodings(Others(f, base, names))) == []
  {
    var a, b := [Named(0x0D, f.id, LibraryName(base)), Fixed(0x32, f.build), Fixed(0x1B, f.uuid)], LoadCommands(f, names);
    var c, d := if names == [] then [] else PathCommands(f, SearchPaths()), LastCommands(f);
    NoExtents(a);
    NoExtents(b);
    NoExtents(c);
    NoExtents(d);
    NoneInAll(a, b, c, d);
  }

  lemma SegmentsBegin(f: Fields, hasData: bool, base: seq<byte>, names: seq<seq<byte>>)
    ensures AllCommands(f, hasData, base, names) ==
      [Fixed(LC_SEGMENT_64, f.text)] + ((if hasData then [Fixed(LC_SEGMENT_64, f.data)] else []) +
      ([Fixed(LC_SEGMENT_64, f.linkedit)] + Others(f, base, names)))
  {
    var b := LoadCommands(f, names);
    var c, d := if names == [] then [] else PathCommands(f, SearchPaths()), LastCommands(f);
    var x, y := [Fixed(LC_SEGMENT_64, f.text)], if hasData then [Fixed(LC_SEGMENT_64, f.data)] else [];
    var z := [Named(0x0D, f.id, LibraryName(base)), Fixed(0x32, f.build), Fixed(0x1B, f.uuid)];
    var l := [Fixed(LC_SEGMENT_64, f.linkedit)];
    assert FirstCommands(f, hasData, base) == x + y + (l + z);
    Regrouped(x, y, l, z, b, c, d);
  }

  lemma Regrouped(x: seq<Command>, y: seq<Command>, l: seq<Command>, z: seq<Command>, b: seq<Command>, c: seq<Command>,
                  d: seq<Command>)
    ensures x + y + (l + z) + b + c + d == x + (y + (l + (z + (b + c) + d)))
  {
  }

  /** The segment commands lead to these extents. */
  ghost predicate Marks(f: Fields, text: Extent, data: Option<Extent>, linkedit: Extent) {
    && HasAt(f.text, 16, ExtentBytes(text)) && (data.Some? ==> HasAt(f.data, 16, ExtentBytes(data.value)))
    && HasAt(f.linkedit, 16, ExtentBytes(linkedit))
  }

  /** A reader that collects the segment commands gets back the planned segments, in order. */
  lemma SegmentsFollowed(b: seq<byte>, f: Fields, text: Extent, data: Option<Extent>, linkedit: Extent, base: seq<byte>,
                      names: seq<seq<byte>>)
    requires Marks(f, text, data, linkedit) && Loads(b, AllCommands(f, data.Some?, base, names))
    ensures Extents(b) == Some([text] + ((if data.None? then [] else [data.value]) + [linkedit]))
  {
    CommandsFound(b, AllCommands(f, data.Some?, base, names));
    SegmentsBegin(f, data.Some?, base, names);
    NoMoreSegments(f, base, names);
    ExtentThen(linkedit, f.linkedit, Others(f, base, names));
    var tail := [Fixed(LC_SEGMENT_64, f.linkedit)] + Others(f, base, names);
    ExtentMaybe(data, f.data, tail);
    ExtentThen(text, f.text, (if data.Some? then [Fixed(LC_SEGMENT_64, f.data)] else []) + tail);
    assert [linkedit] + [] == [linkedit];
  }

  lemma ExtentMaybe(x: Option<Extent>, body: seq<byte>, rest: seq<Command>)
    requires x.Some? ==> HasAt(body, 16, ExtentBytes(x.value))
    ensures ExtentsIn(Encodings((if x.Some? then [Fixed(LC_SEGMENT_64, body)] else []) + rest)) ==
      (if x.None? then [] else [x.value]) + ExtentsIn(Encodings(rest))
  {
    if x.Some? {
      ExtentThen(x.value, body, rest);
    } else {
      assert [] + rest == rest && [] + ExtentsIn(Encodings(rest)) == ExtentsIn(Encodings(rest));
    }
  }

  function DataExtents(p: Plan, data: Option<Segment>): Option<Extent> {
    if data.None? then None else Some(DataExtent(p, data.value))
  }

  lemma FieldsMark(p: Plan, text: Segment, data: Option<Segment>, t: Tables, m: Meta)
    requires p.linkedit <= p.total
    ensures Marks(FieldsOf(p, text, data, t, m), TextExtent(p, text), DataExtents(p, data), LinkeditExtent(p))
  {
    var f := FieldsOf(p, text, data, t, m);
    SegmentBodyHas("__LINKEDIT", LinkeditExtent(p), 0, []);
    assert f.linkedit == f.linkedit + [];
    SegmentBodyHas("__TEXT", TextExtent(p, text), 1, SectionBody("__text", "__TEXT", p.textOff, text.filesz, 2));
    if data.Some? {
      SegmentBodyHas("__DATA", DataExtent(p, data.value), 1,
        SectionBody("__data", "__DATA", p.dataOff, data.value.filesz, 3));
    }
  }
}
