/**
 The converter from end to end: segments are chosen and placed, streams and trie built,
 everything written, and then read back from the bytes of the file alone.
 */
module MachoImage {
  import opened Common
  import opened LittleEndian
  import opened ExportTrie
  import opened Relocs
  import opened MachoHeader
  import opened MachoLayout
  import opened MachoFields
  import Bind
  import Rebase
  import SelfReloc
  import TrieBuilder
  import TrieEncoding

  /** What is taken from the ELF file; `dyn` is absent when there is no dynamic section. */
  datatype Elf = Elf(segments: seq<Segment>, textBytes: seq<byte>, dataBytes: seq<byte>, dyn: Option<Dynamic>,
                     ext: seq<TrieBuilder.ExternalSymbol>, symbols: seq<byte>, strings: seq<byte>,
                     needed: seq<Option<seq<byte>>>, name: seq<byte>, meta: Meta)

  /** The bytes of a segment, as many as its header says, at addresses that do not wrap. */
  predicate Bytes(s: Option<Segment>, b: seq<byte>) {
    s.Some? ==> |b| == s.value.filesz && s.value.vaddr + s.value.filesz + 2 * PAGE <= TWO64
  }

  predicate Whole(e: Elf) {
    && Bytes(FirstText(e.segments), e.textBytes) && Bytes(FirstData(e.segments), e.dataBytes)
    && |e.symbols| % 16 == 0 && |e.needed| <= MAX_NEEDED
    && (e.dyn.None? ==> e.ext == [] && e.symbols == [] && e.strings == [] && e.needed == [])
  }

  predicate HasText(e: Elf) {
    Whole(e) && FirstText(e.segments).Some?
  }

  function TextOf(e: Elf): Segment
    requires HasText(e)
  {
    FirstText(e.segments).value
  }

  function DataOf(e: Elf): Option<Segment> {
    FirstData(e.segments)
  }

  function ShiftOf(e: Elf): u64
    requires HasText(e)
  {
    Shift(TextOf(e).vaddr)
  }

  /** The segment that opcodes refer to: the data if there is any, else the text. */
  function OpcodeSegment(e: Elf): nat {
    if DataOf(e).Some? then 1 else 0
  }

  function SegmentStart(e: Elf): u64
    requires HasText(e)
  {
    if DataOf(e).Some? then AlignDown(ShiftOf(e) + DataOf(e).value.vaddr) else 0
  }

  /** The file part of the data segment, and the shift that everything was moved by. */
  function LayoutOf(e: Elf): SelfReloc.Layout
    requires HasText(e) && DataOf(e).Some?
  {
    var d := DataOf(e).value;
    SelfReloc.Layout(SegmentStart(e), DataPages(ShiftOf(e) + d.vaddr, d.filesz), ShiftOf(e))
  }

  function RebaseBytes(e: Elf): seq<byte>
    requires HasText(e)
  {
    if e.dyn.None? then [] else Rebase.RebaseStream(e.dyn.value, OpcodeSegment(e), SegmentStart(e), ShiftOf(e))
  }

  function BindBytes(e: Elf): seq<byte>
    requires HasText(e)
  {
    if e.dyn.None? then []
    else Bind.BindStream(OpcodeSegment(e), Bind.Imports(e.dyn.value, SegmentStart(e), ShiftOf(e)))
  }

  function TrieOf(e: Elf): Trie
    requires HasText(e)
  {
    TrieEncoding.SortedTrie(TrieBuilder.Exports(e.ext, ShiftOf(e)))
  }

  // ----- building the streams -----

  method BuildStreams(e: Elf) returns (rebase: seq<byte>, bind: seq<byte>)
    requires HasText(e)
    ensures rebase == RebaseBytes(e) && bind == BindBytes(e)
  {
    rebase, bind := [], [];
    if e.dyn.Some? {
      var bb := Bind.BuildBinds(e.dyn.value, OpcodeSegment(e), SegmentStart(e), ShiftOf(e));
      var rb := Rebase.BuildRebases(e.dyn.value, OpcodeSegment(e), SegmentStart(e), ShiftOf(e));
      rebase, bind := rb.buf[..rb.size], bb.buf[..bb.size];
    }
  }

  lemma EmptyTrieExportsNothing(q: Str)
    ensures TrieEncoding.FindExport([], q) == None
  {
  }

  method BuildTrie(e: Elf) returns (trie: seq<byte>)
    requires HasText(e) && TrieBuilder.Encodable(TrieOf(e))
    ensures TrieBuilder.SettlesInTime(TrieOf(e)) ==> TrieBuilder.ExportsAll(e.ext, ShiftOf(e), trie)
  {
    if e.dyn.Some? && |e.ext| > 0 {
      trie := TrieBuilder.BuildExportTrie(e.ext, ShiftOf(e));
    } else {
      trie := [];
      forall q
        ensures TrieEncoding.FindExport(trie, q) == None
      {
        EmptyTrieExportsNothing(q);
      }
    }
  }

  // ----- writing -----

  /** A plan that places the segments of this file. */
  ghost predicate Planned(p: Plan, e: Elf)
    requires HasText(e)
  {
    && p.shift == ShiftOf(e) && p.textOff == p.shift + TextOf(e).vaddr
    && p.textEnd == AlignPage(p.textOff + TextOf(e).filesz)
    && (DataOf(e).Some? ==> p.dataOff == p.shift + DataOf(e).value.vaddr)
    && p.linkedit == SegmentsEnd(TextOf(e), DataOf(e))
    && PAGE <= p.textOff && p.textOff + |e.textBytes| <= p.linkedit <= p.total
    && (DataOf(e).Some? ==> p.dataOff + |e.dataBytes| <= p.linkedit)
  }

  /** The file with nothing but the segments in it. */
  function Raw(e: Elf, p: Plan): (b: seq<byte>)
    requires p.textOff + |e.textBytes| <= p.total && (DataOf(e).Some? ==> p.dataOff + |e.dataBytes| <= p.total)
    ensures |b| == p.total
  {
    var b := Patch(Zeros(p.total), p.textOff, e.textBytes);
    if DataOf(e).Some? then Patch(b, p.dataOff, e.dataBytes) else b
  }

  /** The same with the relocations that the image resolves itself. */
  function Filled(e: Elf, p: Plan): (b: seq<byte>)
    requires HasText(e)
    requires p.textOff + |e.textBytes| <= p.total && (DataOf(e).Some? ==> p.dataOff + |e.dataBytes| <= p.total)
    ensures |b| == p.total
  {
    if DataOf(e).Some? && e.dyn.Some?
    then SelfReloc.Prewritten(e.dyn.value, LayoutOf(e), Raw(e, p), SelfReloc.Table(e.dyn.value))
    else Raw(e, p)
  }

  method WriteSegments(e: Elf, p: Plan) returns (out: array<byte>)
    requires HasText(e) && Planned(p, e)
    ensures fresh(out) && out[..] == Filled(e, p)
  {
    out := new byte[p.total](_ => 0);
    assert out[..] == Zeros(p.total);
    var next := WriteBytes(out, p.textOff, e.textBytes);
    if DataOf(e).Some? {
      next := WriteBytes(out, p.dataOff, e.dataBytes);
    }
    assert out[..] == Raw(e, p);
    if DataOf(e).Some? && e.dyn.Some? {
      SelfReloc.ApplySelfRelocs(e.dyn.value, LayoutOf(e), out);
    }
  }

  function HeaderFront(): (b: seq<byte>)
    ensures |b| == 16
  {
    Words([0xFEEDFACF, 0x0100000C, 0, 6])
  }

  function HeaderBack(): (b: seq<byte>)
    ensures |b| == 8
  {
    Words([0x200084, 0])
  }

  lemma TablesAreThere(b: seq<byte>, p: Plan, c: Contents, text: Segment, data: Option<Segment>, t: Tables)
    requires Placed(p, text, data, t) && p.strings < TWO32 && AllThere(b, TablePieces(p, c))
    ensures TablesThere(b, p, c)
  {
    var ps := TablePieces(p, c);
    TablesInPlace(p, text, data, t);
    assert ps[0] == Piece(p.rebase, c.rebase) && ps[1] == Piece(p.bind, c.bind) && ps[2] == Piece(p.trie, c.trie);
    assert ps[3] == Piece(p.symtab, c.symtab) && ps[4] == Piece(p.strings, c.strings);
  }

  lemma WindowKept(m: seq<byte>, n: seq<byte>, o: seq<byte>, lo: nat, hi: nat)
    requires lo <= hi <= |m| == |n| == |o| && n[..hi] == m[..hi] && o[lo..] == n[lo..]
    ensures o[lo..hi] == m[lo..hi]
  {
    assert o[lo..hi] == o[lo..][..hi - lo] == n[lo..][..hi - lo] == n[lo..hi] == n[..hi][lo..] == m[..hi][lo..];
  }

  lemma TailKept(m: seq<byte>, n: seq<byte>, wp: nat, lo: nat)
    requires wp <= lo <= |m| == |n| && n[wp..] == m[wp..]
    ensures n[lo..] == m[lo..]
  {
    assert n[lo..] == n[wp..][lo - wp..] == m[wp..][lo - wp..];
  }

  /** The tables and the header, around segments already written. */
  method WriteAround(out: array<byte>, p: Plan, c: Contents, text: Segment, data: Option<Segment>, t: Tables, f: Fields,
                     base: seq<byte>, needed: seq<Option<seq<byte>>>)
    requires Placed(p, text, data, t) && Holds(c, text, data, t) && out.Length == p.total
    requires f.Sized() && |needed| <= MAX_NEEDED
    modifies out
    ensures Loads(out[..], AllCommands(f, data.Some?, base, Found(needed)))
    ensures p.strings < TWO32 ==> TablesThere(out[..], p, c)
    ensures p.strings < TWO32 ==> out[PAGE..p.linkedit] == old(out[PAGE..p.linkedit])
  {
    ghost var m0 := out[..];
    PiecesOrdered(p, c, text, data, t);
    WritePieces(out, TablePieces(p, c), p.linkedit);
    ghost var m1 := out[..];
    var wp := WriteHeader(out, f, HeaderFront(), HeaderBack(), data.Some?, base, needed);
    if p.strings < TWO32 {
      assert m1[wp..] == out[..][wp..];
      StillThere(m1, out[..], wp, TablePieces(p, c), p.linkedit);
      TablesAreThere(out[..], p, c, text, data, t);
      TailKept(m1, out[..], wp, PAGE);
      WindowKept(m0, m1, out[..], PAGE, p.linkedit);
    }
  }

  // ----- the whole conversion -----

  /** A reader of the file finds the segments, filled. */
  ghost predicate Laid(b: seq<byte>, e: Elf, p: Plan)
    requires HasText(e) && Planned(p, e)
  {
    && |b| == p.total && b[PAGE..p.linkedit] == Filled(e, p)[PAGE..p.linkedit]
    && Extents(b) == Some(SegmentList(p, TextOf(e), DataOf(e)))
  }

  /** A reader of the file finds the streams, the exports and the symbols. */
  ghost predicate Linked(b: seq<byte>, e: Elf)
    requires HasText(e)
  {
    && RebaseInfo(b) == Some(RebaseBytes(e)) && BindInfo(b) == Some(BindBytes(e))
    && ExportsTrie(b).Some? && ExportInfo(b) == ExportsTrie(b)
    && (TrieBuilder.SettlesInTime(TrieOf(e)) ==> TrieBuilder.ExportsAll(e.ext, ShiftOf(e), ExportsTrie(b).value))
    && SymbolEntries(b) == Some(e.symbols) && (0 < |e.strings| < TWO32 ==> SymbolStrings(b) == Some(e.strings))
  }

  /** The commands are those that the plan, the table sizes and the names give. */
  ghost predicate Headed(b: seq<byte>, e: Elf, p: Plan, t: Tables)
    requires HasText(e) && Planned(p, e)
  {
    Loads(b, AllCommands(FieldsOf(p, TextOf(e), DataOf(e), t, e.meta), DataOf(e).Some?, e.name, Found(e.needed)))
  }

  lemma ConvertedFrom(b: seq<byte>, e: Elf, p: Plan, c: Contents, t: Tables, f: Fields)
    requires HasText(e) && Planned(p, e) && Placed(p, TextOf(e), DataOf(e), t) && Holds(c, TextOf(e), DataOf(e), t)
    requires c == Contents(e.textBytes, e.dataBytes, RebaseBytes(e), BindBytes(e), c.trie, e.symbols, e.strings)
    requires TrieBuilder.SettlesInTime(TrieOf(e)) ==> TrieBuilder.ExportsAll(e.ext, ShiftOf(e), c.trie)
    requires p.strings < TWO32 && TablesThere(b, p, c) && |b| == p.total
    requires b[PAGE..p.linkedit] == Filled(e, p)[PAGE..p.linkedit]
    requires Tells(f, p, t) && Marks(f, TextExtent(p, TextOf(e)), DataExtents(p, DataOf(e)), LinkeditExtent(p))
    requires Loads(b, AllCommands(f, DataOf(e).Some?, e.name, Found(e.needed)))
    ensures Laid(b, e, p) && Linked(b, e)
  {
    TablesFollowed(b, p, c, TextOf(e), DataOf(e), t, f, e.name, Found(e.needed));
    SegmentsFollowed(b, f, TextExtent(p, TextOf(e)), DataExtents(p, DataOf(e)), LinkeditExtent(p), e.name, Found(e.needed));
  }

  method WriteFile(e: Elf, p: Plan, t: Tables, rebase: seq<byte>, bind: seq<byte>, trie: seq<byte>)
    returns (out: array<byte>)
    requires HasText(e) && Planned(p, e) && Placed(p, TextOf(e), DataOf(e), t)
    requires t == Tables(|rebase|, |bind|, |trie|, |e.symbols| / 16, |e.strings|)
    requires rebase == RebaseBytes(e) && bind == BindBytes(e)
    requires TrieBuilder.SettlesInTime(TrieOf(e)) ==> TrieBuilder.ExportsAll(e.ext, ShiftOf(e), trie)
    ensures out.Length == p.total && Headed(out[..], e, p, t) && (p.strings < TWO32 ==> Laid(out[..], e, p) && Linked(out[..], e))
  {
    var text, data := TextOf(e), DataOf(e);
    var c := Contents(e.textBytes, e.dataBytes, rebase, bind, trie, e.symbols, e.strings);
    out := WriteSegments(e, p);
    var f := FieldsOf(p, text, data, t, e.meta);
    FieldsTell(p, text, data, t, e.meta);
    FieldsMark(p, text, data, t, e.meta);
    WriteAround(out, p, c, text, data, t, f, e.name, e.needed);
    if p.strings < TWO32 {
      ConvertedFrom(out[..], e, p, c, t, f);
    }
  }

  /** The data would start inside the text segment. */
  predicate Refused(e: Elf)
    requires HasText(e)
  {
    DataOf(e).Some? && Overlaps(TextOf(e), DataOf(e).value)
  }

  /**
   Converts a file.  Below four gigabytes a reader of the result finds the segments, the
   streams, the exports and the symbols, each through the header.
   */
  method Convert(e: Elf) returns (r: Option<array<byte>>, p: Plan)
    requires Whole(e) && (HasText(e) ==> TrieBuilder.Encodable(TrieOf(e)))
    ensures r.None? <==> FirstText(e.segments).None? || Refused(e)
    ensures r.Some? ==> Planned(p, e) && r.value.Length == p.total && exists t :: Headed(r.value[..], e, p, t)
    ensures r.Some? && p.strings < TWO32 ==> Laid(r.value[..], e, p) && Linked(r.value[..], e)
  {
    var text, data := FindSegments(e.segments);
    if text.None? {
      r, p := None, Plan(0, 0, 0, 0, 0, 0, 0, 0, 0, 0, 0, 0);
    } else {
      r, p := ConvertSegments(e);
    }
  }

  method PlanFile(e: Elf, t: Tables) returns (r: Option<Plan>)
    requires HasText(e)
    ensures r.None? <==> Refused(e)
    ensures r.Some? ==> Planned(r.value, e) && Placed(r.value, TextOf(e), DataOf(e), t)
  {
    r := LayOut(TextOf(e), DataOf(e), t);
  }

  /** The rest of the conversion, once there is a text segment. */
  method ConvertSegments(e: Elf) returns (r: Option<array<byte>>, p: Plan)
    requires HasText(e) && TrieBuilder.Encodable(TrieOf(e))
    ensures r.None? <==> Refused(e)
    ensures r.Some? ==> Planned(p, e) && r.value.Length == p.total && exists t :: Headed(r.value[..], e, p, t)
    ensures r.Some? && p.strings < TWO32 ==> Laid(r.value[..], e, p) && Linked(r.value[..], e)
  {
    p := Plan(0, 0, 0, 0, 0, 0, 0, 0, 0, 0, 0, 0);
    var rebase, bind := BuildStreams(e);
    var trie := BuildTrie(e);
    var t := Tables(|rebase|, |bind|, |trie|, |e.symbols| / 16, |e.strings|);
    var plan := PlanFile(e, t);
    if plan.None? {
      return None, p;
    }
    p := plan.value;
    var out := WriteFile(e, p, t, rebase, bind, trie);
    r := Some(out);
  }

  // ----- loading the file -----

  /** File offsets of the places that dyld rebases. */
  function FilePlaces(xs: seq<Extent>, cs: seq<Rebase.Cursor>): Option<seq<u64>> {
    if cs == [] then Some([])
    else if cs[0].seg >= |xs| || xs[cs[0].seg].fileoff + cs[0].off >= TWO64 then None
    else
      match FilePlaces(xs, cs[1..])
      case None => None
      case Some(rest) => Some([xs[cs[0].seg].fileoff + cs[0].off] + rest)
  }

  predicate AllInside(places: seq<u64>, n: nat) {
    forall t :: t in places ==> t + 8 <= n
  }

  /** Runs a rebase stream over the segments of a file. */
  function SlidOver(b: seq<byte>, xs: seq<Extent>, stream: seq<byte>, slide: u64): Option<seq<byte>> {
    match Rebase.Rebased(stream)
    case None => None
    case Some(cs) =>
      match FilePlaces(xs, cs)
      case None => None
      case Some(places) => if AllInside(places, |b|) then Some(SelfReloc.Slide(b, 0, places, slide)) else None
  }

  /** dyld on the file alone: read the segments and the rebase stream, run it, and slide the words at its places. */
  function Slid(b: seq<byte>, slide: u64): Option<seq<byte>> {
    var xs, stream := Extents(b), RebaseInfo(b);
    if xs.None? || stream.None? then None else SlidOver(b, xs.value, stream.value, slide)
  }

  function Moved(d: u64, ts: seq<u64>): (r: seq<u64>)
    requires forall t :: t in ts ==> d + t < TWO64
    ensures |r| == |ts|
  {
    assert forall k :: 0 <= k < |ts| ==> ts[k] in ts;
    seq<u64>(|ts|, k requires 0 <= k < |ts| && d + ts[k] < TWO64 => d + ts[k])
  }

  lemma {:induction false} PlacesMoved(xs: seq<Extent>, seg: nat, ts: seq<u64>)
    requires seg < |xs| && forall t :: t in ts ==> xs[seg].fileoff + t < TWO64
    ensures FilePlaces(xs, Rebase.At(seg, ts)) == Some(Moved(xs[seg].fileoff, ts))
    decreases |ts|
  {
    if ts != [] {
      var rest := ts[1..];
      assert forall t :: t in rest ==> t in ts;
      assert ts[0] in ts;
      assert Rebase.At(seg, ts)[1..] == Rebase.At(seg, rest);
      PlacesMoved(xs, seg, rest);
      assert Moved(xs[seg].fileoff, ts) == [xs[seg].fileoff + ts[0]] + Moved(xs[seg].fileoff, rest);
    }
  }

  lemma MovedInside(d: u64, ts: seq<u64>, size: nat)
    requires forall t :: t in ts ==> d + t < TWO64 && d + t + 8 <= size
    ensures AllInside(Moved(d, ts), size)
  {
    var moved := Moved(d, ts);
    forall m | m in moved
      ensures m + 8 <= size
    {
      var k :| 0 <= k < |moved| && moved[k] == m;
      assert ts[k] in ts;
    }
  }

  lemma {:induction false} SlideMoved(b: seq<byte>, d: u64, ts: seq<u64>, slide: u64)
    requires forall t :: t in ts ==> d + t < TWO64 && d + t + 8 <= |b|
    ensures AllInside(Moved(d, ts), |b|)
    ensures SelfReloc.Slide(b, 0, Moved(d, ts), slide) == SelfReloc.Slide(b, d, ts, slide)
    decreases |ts|
  {
    MovedInside(d, ts, |b|);
    if ts != [] {
      var front := ts[..|ts| - 1];
      assert forall t :: t in front ==> t in ts;
      assert Moved(d, ts)[..|ts| - 1] == Moved(d, front);
      SlideMoved(b, d, front, slide);
    }
  }

  /** Over slots that do not overlap, the stream slides exactly the targets. */
  lemma SlidOverTargets(b: seq<byte>, xs: seq<Extent>, dyn: Dynamic, lay: SelfReloc.Layout, slide: u64)
    requires SelfReloc.SlotsApart(dyn, lay, |b|) && |xs| > 1 && xs[1].fileoff == lay.dataOff
    ensures var ts := Rebase.RebaseTargets(dyn, lay.dataOff, lay.shift);
      && (forall t :: t in ts ==> lay.dataOff + t + 8 <= |b|)
      && SlidOver(b, xs, Rebase.RebaseStream(dyn, 1, lay.dataOff, lay.shift), slide) ==
           Some(SelfReloc.Slide(b, lay.dataOff, ts, slide))
  {
    var ts := Rebase.RebaseTargets(dyn, lay.dataOff, lay.shift);
    SelfReloc.TargetsApart(dyn, lay, |b|);
    Rebase.RebasedPlaces(dyn, 1, lay.dataOff, lay.shift);
    forall t | t in ts
      ensures lay.dataOff + t < TWO64
    {
      var i :| 0 <= i < |SelfReloc.Table(dyn)| && SelfReloc.Collected(dyn, i)
        && lay.dataOff + t == SelfReloc.Slot(lay, SelfReloc.Table(dyn)[i]);
    }
    PlacesMoved(xs, 1, ts);
    SlideMoved(b, lay.dataOff, ts, slide);
  }

  lemma WindowWord(b: seq<byte>, c: seq<byte>, lo: nat, hi: nat, q: nat)
    requires lo <= q && q + 8 <= hi <= |b| == |c| && b[lo..hi] == c[lo..hi]
    ensures Word(b, q) == Word(c, q)
  {
    forall k | q <= k < q + 8
      ensures b[k] == c[k]
    {
      assert b[k] == b[lo..hi][k - lo] && c[k] == c[lo..hi][k - lo];
    }
    assert b[q..q + 8] == c[q..q + 8];
  }

  /** A file that agrees with the pre-written image on the data segment holds the pre-written value of every slot. */
  lemma SlotInWindow(b: seq<byte>, raw: seq<byte>, dyn: Dynamic, lay: SelfReloc.Layout, lo: nat, hi: nat, i: nat)
    requires |b| == |raw| && SelfReloc.SlotsApart(dyn, lay, |b|) && lo <= lay.dataOff
    requires lay.dataOff + lay.dataSize <= hi <= |b|
    requires b[lo..hi] == SelfReloc.Prewritten(dyn, lay, raw, SelfReloc.Table(dyn))[lo..hi]
    requires i < |SelfReloc.Table(dyn)| && SelfReloc.SelfResolved(dyn, SelfReloc.Table(dyn)[i])
    ensures SelfReloc.Slot(lay, SelfReloc.Table(dyn)[i]) + 8 <= |b|
    ensures Word(b, SelfReloc.Slot(lay, SelfReloc.Table(dyn)[i])) ==
      SelfReloc.SelfValue(dyn, SelfReloc.Table(dyn)[i], lay.shift)
  {
    var rs := SelfReloc.Table(dyn);
    assert SelfReloc.Fits(lay, rs[i], |b|);
    assert rs[..|rs|] == rs;
    SelfReloc.PrewrittenWord(dyn, lay, raw, |rs|, i);
    WindowWord(b, SelfReloc.Prewritten(dyn, lay, raw, rs), lo, hi, SelfReloc.Slot(lay, rs[i]));
  }

  /** Both halves together, on such a file. */
  lemma WindowRelocates(b: seq<byte>, raw: seq<byte>, xs: seq<Extent>, dyn: Dynamic, lay: SelfReloc.Layout, lo: nat, hi: nat,
                        image: u64, i: nat)
    requires |b| == |raw| && SelfReloc.SlotsApart(dyn, lay, |b|) && lo <= lay.dataOff
    requires lay.dataOff + lay.dataSize <= hi <= |b| && |xs| > 1 && xs[1].fileoff == lay.dataOff
    requires b[lo..hi] == SelfReloc.Prewritten(dyn, lay, raw, SelfReloc.Table(dyn))[lo..hi]
    requires i < |SelfReloc.Table(dyn)| && SelfReloc.SelfResolved(dyn, SelfReloc.Table(dyn)[i])
    ensures
      var r := SelfReloc.Table(dyn)[i];
      var slid := SlidOver(b, xs, Rebase.RebaseStream(dyn, 1, lay.dataOff, lay.shift), image);
      && slid.Some? && |slid.value| == |b| && SelfReloc.Slot(lay, r) + 8 <= |b|
      && (Word(slid.value, SelfReloc.Slot(lay, r)) == SelfReloc.RelocResult(dyn, r, Add64(image, lay.shift))
          <==> SelfReloc.Collected(dyn, i) || image == 0)
  {
    SlotInWindow(b, raw, dyn, lay, lo, hi, i);
    SlidOverTargets(b, xs, dyn, lay, image);
    SelfReloc.SlidValue(dyn, lay, b, image, i);
    SelfReloc.ValueArithmetic(dyn, SelfReloc.Table(dyn)[i], lay.shift, image);
  }

  /** The plan, the segment command and the relocation layout have the data segment in one place. */
  lemma OneDataSegment(e: Elf, p: Plan)
    requires HasText(e) && Planned(p, e) && DataOf(e).Some? && !Refused(e)
    ensures DataExtent(p, DataOf(e).value).fileoff == DataExtent(p, DataOf(e).value).vmaddr == LayoutOf(e).dataOff
    ensures PAGE <= LayoutOf(e).dataOff && LayoutOf(e).dataOff + LayoutOf(e).dataSize == p.linkedit
  {
  }

  /** The bytes of the data segment as the converter left them. */
  lemma WindowOf(b: seq<byte>, e: Elf, p: Plan)
    requires HasText(e) && Planned(p, e) && Laid(b, e, p) && DataOf(e).Some? && e.dyn.Some?
    ensures |b| == |Raw(e, p)| == p.total
    ensures b[PAGE..p.linkedit] ==
      SelfReloc.Prewritten(e.dyn.value, LayoutOf(e), Raw(e, p), SelfReloc.Table(e.dyn.value))[PAGE..p.linkedit]
  {
  }

  lemma StreamsOf(b: seq<byte>, e: Elf, p: Plan)
    requires HasText(e) && Planned(p, e) && Laid(b, e, p) && Linked(b, e) && DataOf(e).Some? && e.dyn.Some?
    ensures Extents(b) == Some(SegmentList(p, TextOf(e), DataOf(e)))
    ensures RebaseInfo(b) == Some(Rebase.RebaseStream(e.dyn.value, 1, LayoutOf(e).dataOff, LayoutOf(e).shift))
  {
  }

  lemma SecondSegment(p: Plan, text: Segment, data: Segment)
    requires p.linkedit <= p.total
    ensures |SegmentList(p, text, Some(data))| == 3 && SegmentList(p, text, Some(data))[1] == DataExtent(p, data)
  {
  }

  /** A file whose header leads to the data segment and the rebase stream, and whose data is pre-written. */
  ghost predicate Loadable(b: seq<byte>, raw: seq<byte>, dyn: Dynamic, lay: SelfReloc.Layout, hi: nat) {
    && |b| == |raw| && PAGE <= lay.dataOff && lay.dataOff + lay.dataSize <= hi <= |b|
    && b[PAGE..hi] == SelfReloc.Prewritten(dyn, lay, raw, SelfReloc.Table(dyn))[PAGE..hi]
    && Extents(b).Some? && |Extents(b).value| > 1 && Extents(b).value[1].fileoff == lay.dataOff
    && RebaseInfo(b) == Some(Rebase.RebaseStream(dyn, 1, lay.dataOff, lay.shift))
  }

  lemma ConvertedLoads(b: seq<byte>, e: Elf, p: Plan)
    requires HasText(e) && Planned(p, e) && Laid(b, e, p) && Linked(b, e) && DataOf(e).Some? && e.dyn.Some? && !Refused(e)
    ensures Loadable(b, Raw(e, p), e.dyn.value, LayoutOf(e), p.linkedit)
  {
    OneDataSegment(e, p);
    SecondSegment(p, TextOf(e), DataOf(e).value);
    WindowOf(b, e, p);
    StreamsOf(b, e, p);
  }

  lemma LoadableRelocates(b: seq<byte>, raw: seq<byte>, dyn: Dynamic, lay: SelfReloc.Layout, hi: nat, image: u64, i: nat)
    requires Loadable(b, raw, dyn, lay, hi) && SelfReloc.SlotsApart(dyn, lay, |b|)
    requires i < |SelfReloc.Table(dyn)| && SelfReloc.SelfResolved(dyn, SelfReloc.Table(dyn)[i])
    ensures Slid(b, image).Some? && |Slid(b, image).value| == |b|
    ensures
      var r := SelfReloc.Table(dyn)[i];
      && SelfReloc.Slot(lay, r) + 8 <= |b|
      && (Word(Slid(b, image).value, SelfReloc.Slot(lay, r)) == SelfReloc.RelocResult(dyn, r, Add64(image, lay.shift))
          <==> SelfReloc.Collected(dyn, i) || image == 0)
  {
    WindowRelocates(b, raw, Extents(b).value, dyn, lay, PAGE, hi, image, i);
  }
}
