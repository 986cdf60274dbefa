/**
 What a loader makes of a converted file.  Everything here is said of the bytes of the file
 alone, in terms of the ELF file it was made from and of no function that made it.
 */
module MachoFile {
  import opened Common
  import opened LittleEndian
  import opened ExportTrie
  import opened Relocs
  import opened MachoHeader
  import opened MachoLayout
  import opened MachoFields
  import opened MachoNames
  import opened MachoImage
  import Bind
  import Rebase
  import SelfReloc
  import TrieBuilder
  import TrieEncoding

  // ----- mapping -----

  /** The byte of the file that the first segment holding address `a` maps there. */
  function MappedAt(b: seq<byte>, xs: seq<Extent>, a: nat): Option<byte> {
    if xs == [] then None
    else if xs[0].vmaddr <= a < xs[0].vmaddr + xs[0].filesize then
      var k := xs[0].fileoff + (a - xs[0].vmaddr);
      if k < |b| then Some(b[k]) else None
    else MappedAt(b, xs[1..], a)
  }

  function LoadedAt(b: seq<byte>, a: nat): Option<byte> {
    match Extents(b)
    case None => None
    case Some(xs) => MappedAt(b, xs, a)
  }

  /** A page when the text would lie under the header, else nothing. */
  ghost function Displacement(e: Elf): u64
    requires HasText(e)
  {
    if TextOf(e).vaddr < 0x4000 then 0x4000 else 0
  }

  lemma DisplacementIsShift(e: Elf)
    requires HasText(e)
    ensures Displacement(e) == ShiftOf(e)
  {
  }

  /** A file that holds the segments of `e`. */
  ghost predicate Made(b: seq<byte>, e: Elf, p: Plan) {
    HasText(e) && Planned(p, e) && !Refused(e) && Laid(b, e, p)
  }

  /** What a reader finds first: the planned segments. */
  lemma MadeExtents(b: seq<byte>, e: Elf, p: Plan)
    requires Made(b, e, p)
    ensures |b| == p.total && p.linkedit <= p.total && Extents(b) == Some(SegmentList(p, TextOf(e), DataOf(e)))
  {
  }

  lemma MadeWindow(b: seq<byte>, e: Elf, p: Plan)
    requires Made(b, e, p)
    ensures |b| == |Filled(e, p)| == p.total && PAGE <= p.linkedit <= p.total
    ensures b[PAGE..p.linkedit] == Filled(e, p)[PAGE..p.linkedit]
  {
  }

  lemma SegmentBounds(e: Elf, p: Plan)
    requires HasText(e) && Planned(p, e) && !Refused(e)
    ensures p.textOff + |e.textBytes| <= p.textEnd <= p.linkedit <= p.total && p.textEnd < TWO64
    ensures p.textOff == ShiftOf(e) + TextOf(e).vaddr && PAGE <= p.textOff && |e.textBytes| == TextOf(e).filesz
    ensures DataOf(e).Some? ==>
      && p.linkedit < TWO64 && p.textEnd <= AlignDown(p.dataOff) && p.dataOff + |e.dataBytes| <= p.linkedit
      && AlignDown(p.dataOff) + DataPages(p.dataOff, DataOf(e).value.filesz) == p.linkedit
      && p.dataOff == ShiftOf(e) + DataOf(e).value.vaddr && |e.dataBytes| == DataOf(e).value.filesz
  {
  }

  lemma TextMapped(b: seq<byte>, xs: seq<Extent>, p: Plan, text: Segment, a: nat)
    requires xs != [] && xs[0] == TextExtent(p, text) && a < p.textEnd < TWO64 && p.textEnd <= |b|
    ensures MappedAt(b, xs, a) == Some(b[a])
  {
  }

  lemma DataMapped(b: seq<byte>, xs: seq<Extent>, p: Plan, text: Segment, data: Segment, a: nat)
    requires |xs| > 1 && xs[0] == TextExtent(p, text) && xs[1] == DataExtent(p, data)
    requires p.textEnd <= AlignDown(p.dataOff) && AlignDown(p.dataOff) + DataPages(p.dataOff, data.filesz) == p.linkedit
    requires AlignDown(p.dataOff) <= a < p.linkedit <= |b| && p.linkedit < TWO64
    ensures MappedAt(b, xs, a) == Some(b[a])
  {
    assert xs[1..][0] == xs[1];
    assert MappedAt(b, xs, a) == MappedAt(b, xs[1..], a);
  }

  lemma ListedSegments(p: Plan, text: Segment, data: Option<Segment>)
    requires p.linkedit <= p.total
    ensures var xs := SegmentList(p, text, data);
      && |xs| == (if data.Some? then 3 else 2)
      && xs[0] == TextExtent(p, text) && xs[|xs| - 1] == LinkeditExtent(p)
      && (data.Some? ==> xs[1] == DataExtent(p, data.value))
  {
  }

  // ----- segments -----

  /** Text readable and executable, from the start of the file. */
  ghost predicate TextSegment(x: Extent) {
    x.vmaddr == x.fileoff == 0 && x.maxprot == 7 && x.initprot == 5 && x.filesize <= x.vmsize
  }

  /** Data readable and writable, in whole pages that hold its bytes. */
  ghost predicate DataSegment(x: Extent, start: nat, size: nat) {
    && x.vmaddr == x.fileoff && x.vmaddr % 0x4000 == 0 && x.maxprot == x.initprot == 3 && x.filesize <= x.vmsize
    && x.vmaddr <= start && start + size <= x.vmaddr + x.filesize
  }

  /** The tables readable, up to the end of the file. */
  ghost predicate TableSegment(x: Extent, size: nat) {
    && x.maxprot == x.initprot == 1
    && (size < TWO64 ==> x.vmaddr == x.fileoff && x.fileoff % 0x4000 == 0 && x.fileoff + x.filesize == size)
  }

  lemma LinkeditAligned(e: Elf, p: Plan)
    requires HasText(e) && Planned(p, e)
    ensures p.linkedit % PAGE == 0
  {
    if DataOf(e).Some? {
      AlignedAlready(AlignDown(p.dataOff), DataPages(p.dataOff, DataOf(e).value.filesz));
    }
  }

  lemma PlannedSegments(e: Elf, p: Plan)
    requires HasText(e) && Planned(p, e) && !Refused(e)
    ensures TextSegment(TextExtent(p, TextOf(e))) && TextExtent(p, TextOf(e)).filesize == p.textEnd
    ensures TableSegment(LinkeditExtent(p), p.total)
    ensures DataOf(e).Some? ==>
      && DataSegment(DataExtent(p, DataOf(e).value), Displacement(e) + DataOf(e).value.vaddr, |e.dataBytes|)
      && DataExtent(p, DataOf(e).value).vmaddr == AlignDown(p.dataOff)
      && AlignDown(p.dataOff) + DataExtent(p, DataOf(e).value).filesize == p.linkedit
  {
    SegmentBounds(e, p);
    LinkeditAligned(e, p);
    DisplacementIsShift(e);
  }

  /** The two or three segments, in order and apart. */
  lemma FileSegments(b: seq<byte>, e: Elf, p: Plan)
    requires Made(b, e, p)
    ensures Extents(b).Some? && |Extents(b).value| == if DataOf(e).Some? then 3 else 2
    ensures TextSegment(Extents(b).value[0]) && TableSegment(Extents(b).value[|Extents(b).value| - 1], |b|)
    ensures DataOf(e).Some? ==>
      && DataSegment(Extents(b).value[1], Displacement(e) + DataOf(e).value.vaddr, |e.dataBytes|)
      && Extents(b).value[0].filesize <= Extents(b).value[1].vmaddr
  {
    MadeExtents(b, e, p);
    SegmentBounds(e, p);
    PlannedSegments(e, p);
    ListedSegments(p, TextOf(e), DataOf(e));
  }

  lemma TextInRaw(e: Elf, p: Plan, a: nat)
    requires HasText(e) && Planned(p, e) && !Refused(e) && a < p.textEnd
    ensures Raw(e, p)[a] == if p.textOff <= a < p.textOff + |e.textBytes| then e.textBytes[a - p.textOff] else 0
  {
    SegmentBounds(e, p);
  }

  lemma DataInRaw(e: Elf, p: Plan, a: nat)
    requires HasText(e) && Planned(p, e) && !Refused(e) && DataOf(e).Some? && AlignDown(p.dataOff) <= a < p.linkedit
    ensures Raw(e, p)[a] == if p.dataOff <= a < p.dataOff + |e.dataBytes| then e.dataBytes[a - p.dataOff] else 0
  {
    SegmentBounds(e, p);
  }

  lemma WindowByte(b: seq<byte>, c: seq<byte>, lo: nat, hi: nat, k: nat)
    requires lo <= k < hi <= |b| == |c| && b[lo..hi] == c[lo..hi]
    ensures b[k] == c[k]
  {
    assert b[lo..hi][k - lo] == b[k] && c[lo..hi][k - lo] == c[k];
  }

  lemma TextInFilled(e: Elf, p: Plan, a: nat)
    requires HasText(e) && Planned(p, e) && !Refused(e) && a < p.textEnd
    ensures Filled(e, p)[a] == if p.textOff <= a < p.textOff + |e.textBytes| then e.textBytes[a - p.textOff] else 0
  {
    SegmentBounds(e, p);
    TextInRaw(e, p, a);
    if DataOf(e).Some? && e.dyn.Some? {
      SelfReloc.PrewrittenBelow(e.dyn.value, LayoutOf(e), Raw(e, p), SelfReloc.Table(e.dyn.value), a);
    }
  }

  lemma TextLoaded(b: seq<byte>, e: Elf, p: Plan, a: nat)
    requires Made(b, e, p) && PAGE <= a < p.textEnd
    ensures a < |Filled(e, p)| && LoadedAt(b, a) == Some(Filled(e, p)[a])
  {
    MadeExtents(b, e, p);
    MadeWindow(b, e, p);
    SegmentBounds(e, p);
    ListedSegments(p, TextOf(e), DataOf(e));
    TextMapped(b, Extents(b).value, p, TextOf(e), a);
    WindowByte(b, Filled(e, p), PAGE, p.linkedit, a);
  }

  lemma DataLoaded(b: seq<byte>, e: Elf, p: Plan, a: nat)
    requires Made(b, e, p) && DataOf(e).Some? && AlignDown(p.dataOff) <= a < p.linkedit
    ensures a < |Filled(e, p)| && LoadedAt(b, a) == Some(Filled(e, p)[a])
  {
    MadeExtents(b, e, p);
    MadeWindow(b, e, p);
    SegmentBounds(e, p);
    ListedSegments(p, TextOf(e), DataOf(e));
    DataMapped(b, Extents(b).value, p, TextOf(e), DataOf(e).value, a);
    WindowByte(b, Filled(e, p), PAGE, p.linkedit, a);
  }

  lemma TextEnds(b: seq<byte>, e: Elf, p: Plan)
    requires Made(b, e, p)
    ensures Extents(b).Some? && |Extents(b).value| > 0 && Extents(b).value[0].filesize == p.textEnd
  {
    MadeExtents(b, e, p);
    PlannedSegments(e, p);
    ListedSegments(p, TextOf(e), DataOf(e));
  }

  lemma DataAt(b: seq<byte>, e: Elf, p: Plan)
    requires Made(b, e, p) && DataOf(e).Some?
    ensures Extents(b).Some? && |Extents(b).value| > 1 && Extents(b).value[1] == DataExtent(p, DataOf(e).value)
    ensures Extents(b).value[1].vmaddr == AlignDown(p.dataOff)
    ensures Extents(b).value[1].vmaddr + Extents(b).value[1].filesize == p.linkedit
  {
    MadeExtents(b, e, p);
    PlannedSegments(e, p);
    ListedSegments(p, TextOf(e), DataOf(e));
  }

  /** The code is mapped at its shifted address; the rest of its segment behind the header is zero. */
  lemma FileText(b: seq<byte>, e: Elf, p: Plan, a: nat)
    requires Made(b, e, p) && Extents(b).Some? && |Extents(b).value| > 0 && 0x4000 <= a < Extents(b).value[0].filesize
    ensures var start := Displacement(e) + TextOf(e).vaddr;
      LoadedAt(b, a) == Some(if start <= a < start + |e.textBytes| then e.textBytes[a - start] else 0)
  {
    TextEnds(b, e, p);
    DisplacementIsShift(e);
    TextLoaded(b, e, p, a);
    TextInFilled(e, p, a);
  }

  // ----- relocations -----

  /** A relocation that the image can resolve itself: relative, or against a symbol it defines. */
  ghost predicate Own(dyn: Dynamic, r: Rela) {
    || r.kind == 1027
    || ((r.kind == 257 || r.kind == 1025 || r.kind == 1026) && 0 < r.sym < |dyn.symtab| && dyn.symtab[r.sym].shndx != 0)
  }

  lemma OwnIsSelfResolved(dyn: Dynamic, r: Rela)
    ensures Own(dyn, r) <==> SelfReloc.SelfResolved(dyn, r)
  {
  }

  /** Address `a` is in the slot of such a relocation, and the slot in the file part of the data segment `x`. */
  ghost predicate InSlot(dyn: Dynamic, shift: u64, x: Extent, a: nat) {
    exists r :: (r in dyn.rela || r in dyn.jmprel) && InSlotOf(dyn, r, shift, x, a)
  }

  ghost predicate InSlotOf(dyn: Dynamic, r: Rela, shift: u64, x: Extent, a: nat) {
    var slot := (r.offset + shift) % TWO64;
    Own(dyn, r) && x.vmaddr <= slot <= a < slot + 8 <= x.vmaddr + x.filesize
  }

  lemma OutsideSlots(e: Elf, p: Plan, a: nat)
    requires HasText(e) && Planned(p, e) && !Refused(e) && DataOf(e).Some? && e.dyn.Some? && a < p.linkedit
    requires !InSlot(e.dyn.value, Displacement(e), DataExtent(p, DataOf(e).value), a)
    ensures Filled(e, p)[a] == Raw(e, p)[a]
  {
    var dyn, lay, x := e.dyn.value, LayoutOf(e), DataExtent(p, DataOf(e).value);
    SegmentBounds(e, p);
    DisplacementIsShift(e);
    OneDataSegment(e, p);
    forall r | r in SelfReloc.Table(dyn) && SelfReloc.SelfResolved(dyn, r) && SelfReloc.Fits(lay, r, p.total)
      ensures !(SelfReloc.Slot(lay, r) <= a < SelfReloc.Slot(lay, r) + 8)
    {
      assert r in dyn.rela || r in dyn.jmprel;
      assert !InSlotOf(dyn, r, Displacement(e), x, a);
    }
    SelfReloc.PrewrittenByte(dyn, lay, Raw(e, p), SelfReloc.Table(dyn), a);
  }

  lemma DataInFilled(e: Elf, p: Plan, a: nat)
    requires HasText(e) && Planned(p, e) && !Refused(e) && DataOf(e).Some? && AlignDown(p.dataOff) <= a < p.linkedit
    requires e.dyn.Some? ==> !InSlot(e.dyn.value, Displacement(e), DataExtent(p, DataOf(e).value), a)
    ensures var start := Displacement(e) + DataOf(e).value.vaddr;
      a < |Filled(e, p)| && Filled(e, p)[a] == if start <= a < start + |e.dataBytes| then e.dataBytes[a - start] else 0
  {
    DisplacementIsShift(e);
    DataInRaw(e, p, a);
    if e.dyn.Some? {
      OutsideSlots(e, p, a);
    }
  }

  /** Outside slots the data is mapped at its shifted address; the rest of its segment is zero. */
  lemma FileData(b: seq<byte>, e: Elf, p: Plan, a: nat)
    requires Made(b, e, p) && DataOf(e).Some? && Extents(b).Some? && |Extents(b).value| > 1
    requires Extents(b).value[1].vmaddr <= a < Extents(b).value[1].vmaddr + Extents(b).value[1].filesize
    requires e.dyn.Some? ==> !InSlot(e.dyn.value, Displacement(e), Extents(b).value[1], a)
    ensures var start := Displacement(e) + DataOf(e).value.vaddr;
      LoadedAt(b, a) == Some(if start <= a < start + |e.dataBytes| then e.dataBytes[a - start] else 0)
  {
    DataAt(b, e, p);
    DataLoaded(b, e, p, a);
    DataInFilled(e, p, a);
  }

  /** Both tables, one behind the other. */
  ghost function Relocations(dyn: Dynamic): seq<Rela> {
    dyn.rela + dyn.jmprel
  }

  /** The slots of own relocations lie in the file part of segment `x`, and no two of them overlap. */
  ghost predicate SlotsInside(dyn: Dynamic, shift: u64, x: Extent) {
    var rs := Relocations(dyn);
    && (forall i :: 0 <= i < |rs| && Own(dyn, rs[i]) ==>
          x.vmaddr <= rs[i].offset + shift && rs[i].offset + shift + 8 <= x.vmaddr + x.filesize)
    && (forall i, j :: 0 <= i < j < |rs| && Own(dyn, rs[i]) && Own(dyn, rs[j]) ==>
          rs[i].offset + 8 <= rs[j].offset || rs[j].offset + 8 <= rs[i].offset)
  }

  lemma SlotsInsideApart(dyn: Dynamic, lay: SelfReloc.Layout, x: Extent, size: nat)
    requires SlotsInside(dyn, lay.shift, x) && x.vmaddr == lay.dataOff && x.filesize == lay.dataSize
    requires lay.dataOff + lay.dataSize <= size && lay.dataOff + lay.dataSize < TWO64
    ensures SelfReloc.SlotsApart(dyn, lay, size)
  {
    var rs := SelfReloc.Table(dyn);
    assert rs == Relocations(dyn);
    forall i | 0 <= i < |rs|
      ensures SelfReloc.SelfResolved(dyn, rs[i]) <==> Own(dyn, rs[i])
    {
      OwnIsSelfResolved(dyn, rs[i]);
    }
  }

  lemma OneLayout(e: Elf, p: Plan)
    requires HasText(e) && Planned(p, e) && DataOf(e).Some? && !Refused(e)
    ensures DataExtent(p, DataOf(e).value).vmaddr == LayoutOf(e).dataOff
    ensures DataExtent(p, DataOf(e).value).filesize == LayoutOf(e).dataSize
    ensures LayoutOf(e).shift == Displacement(e) && LayoutOf(e).dataOff + LayoutOf(e).dataSize == p.linkedit < TWO64
    ensures p.linkedit <= p.total
  {
    SegmentBounds(e, p);
    DisplacementIsShift(e);
  }

  /** What the slot of an own relocation should hold: base plus symbol plus addend, as AAELF64 has it. */
  ghost function Resolved(dyn: Dynamic, r: Rela, base: int): u64
    requires Own(dyn, r)
  {
    (base + (if r.kind == 1027 then 0 else dyn.symtab[r.sym].value) + r.addend) % TWO64
  }

  lemma ResolvedIsResult(dyn: Dynamic, r: Rela, image: u64, shift: u64)
    requires Own(dyn, r)
    ensures SelfReloc.SelfResolved(dyn, r)
    ensures Resolved(dyn, r, image + shift) == SelfReloc.RelocResult(dyn, r, Add64(image, shift))
  {
    OwnIsSelfResolved(dyn, r);
    var x := (if r.kind == 1027 then 0 else dyn.symtab[r.sym].value) + r.addend;
    SelfReloc.ModAdd(image + shift, x);
  }

  lemma MadeLoadable(b: seq<byte>, e: Elf, p: Plan)
    requires Made(b, e, p) && Linked(b, e) && DataOf(e).Some? && e.dyn.Some?
    ensures Loadable(b, Raw(e, p), e.dyn.value, LayoutOf(e), p.linkedit)
  {
    ConvertedLoads(b, e, p);
  }

  lemma CollectedIs(dyn: Dynamic, i: nat)
    requires i < |Relocations(dyn)| && Own(dyn, Relocations(dyn)[i])
    ensures Relocations(dyn) == SelfReloc.Table(dyn)
    ensures SelfReloc.Collected(dyn, i) <==> i < |dyn.rela| || Relocations(dyn)[i].kind != 1027
  {
  }

  /** After loading at `image`, the slot of relocation `i` is right, or it is one of those that are not rebased. */
  ghost predicate Resolves(b: seq<byte>, dyn: Dynamic, shift: u64, image: u64, i: nat)
    requires i < |Relocations(dyn)| && Own(dyn, Relocations(dyn)[i])
  {
    var r := Relocations(dyn)[i];
    && r.offset + shift + 8 <= |b| && Slid(b, image).Some? && |Slid(b, image).value| == |b|
    && (Word(Slid(b, image).value, r.offset + shift) == Resolved(dyn, r, image + shift)
        <==> i < |dyn.rela| || r.kind != 1027 || image == 0)
  }

  lemma LoadableResolves(b: seq<byte>, raw: seq<byte>, dyn: Dynamic, lay: SelfReloc.Layout, hi: nat, image: u64, i: nat)
    requires Loadable(b, raw, dyn, lay, hi) && SelfReloc.SlotsApart(dyn, lay, |b|)
    requires i < |Relocations(dyn)| && Own(dyn, Relocations(dyn)[i])
    ensures Resolves(b, dyn, lay.shift, image, i)
  {
    CollectedIs(dyn, i);
    ResolvedIsResult(dyn, Relocations(dyn)[i], image, lay.shift);
    LoadableRelocates(b, raw, dyn, lay, hi, image, i);
  }

  lemma MadeApart(b: seq<byte>, e: Elf, p: Plan)
    requires Made(b, e, p) && DataOf(e).Some? && e.dyn.Some? && Extents(b).Some? && |Extents(b).value| > 1
    requires SlotsInside(e.dyn.value, Displacement(e), Extents(b).value[1])
    ensures SelfReloc.SlotsApart(e.dyn.value, LayoutOf(e), |b|) && LayoutOf(e).shift == Displacement(e)
  {
    DataAt(b, e, p);
    OneLayout(e, p);
    SlotsInsideApart(e.dyn.value, LayoutOf(e), Extents(b).value[1], |b|);
  }

  /**
   Once dyld has loaded the file at `image`, the slot of every own relocation holds its
   AAELF64 result, with B the image's address and the displacement, unless it is a RELATIVE
   entry of the second table and the image was moved.
   */
  lemma FileRelocates(b: seq<byte>, e: Elf, p: Plan, image: u64, i: nat)
    requires Made(b, e, p) && Linked(b, e) && DataOf(e).Some? && e.dyn.Some? && Extents(b).Some? && |Extents(b).value| > 1
    requires SlotsInside(e.dyn.value, Displacement(e), Extents(b).value[1])
    requires i < |Relocations(e.dyn.value)| && Own(e.dyn.value, Relocations(e.dyn.value)[i])
    ensures Resolves(b, e.dyn.value, Displacement(e), image, i)
  {
    MadeApart(b, e, p);
    MadeLoadable(b, e, p);
    LoadableResolves(b, Raw(e, p), e.dyn.value, LayoutOf(e), p.linkedit, image, i);
  }

  // ----- imports and exports -----

  lemma MadeBinds(b: seq<byte>, e: Elf)
    requires HasText(e) && Linked(b, e) && e.dyn.Some?
    ensures BindInfo(b) ==
      Some(Bind.BindStream(OpcodeSegment(e), Bind.Imports(e.dyn.value, SegmentStart(e), ShiftOf(e))))
  {
  }

  lemma StartIsExtent(b: seq<byte>, e: Elf, p: Plan)
    requires Made(b, e, p)
    ensures Extents(b).Some? && OpcodeSegment(e) < |Extents(b).value|
    ensures Extents(b).value[OpcodeSegment(e)].vmaddr == SegmentStart(e)
  {
    MadeExtents(b, e, p);
    ListedSegments(p, TextOf(e), DataOf(e));
    if DataOf(e).Some? {
      OneLayout(e, p);
    }
  }

  /**
   dyld binds one pointer for each relocation that asks for a symbol from elsewhere, in
   table order, at the relocation's shifted address in the segment that the file gives.
   */
  lemma FileBinds(b: seq<byte>, e: Elf, p: Plan)
    requires Made(b, e, p) && Linked(b, e) && e.dyn.Some?
    ensures
      var seg := if DataOf(e).Some? then 1 else 0;
      && Extents(b).Some? && seg < |Extents(b).value| && BindInfo(b).Some?
      && Bind.BindsAll(e.dyn.value, seg, Extents(b).value[seg].vmaddr, Displacement(e), BindInfo(b).value)
  {
    MadeBinds(b, e);
    StartIsExtent(b, e, p);
    DisplacementIsShift(e);
    Bind.StreamBindsAll(e.dyn.value, OpcodeSegment(e), SegmentStart(e), ShiftOf(e));
  }

  /** The last symbol of each name is exported at its shifted address, and nothing else is. */
  lemma FileExports(b: seq<byte>, e: Elf)
    requires HasText(e) && Linked(b, e) && TrieBuilder.SettlesInTime(TrieOf(e))
    ensures ExportsTrie(b).Some? && ExportInfo(b) == ExportsTrie(b)
    ensures TrieBuilder.ExportsAll(e.ext, Displacement(e), ExportsTrie(b).value)
  {
    DisplacementIsShift(e);
  }

  // ----- names -----

  /** A library is loaded by this name, in a buffer of 256 bytes. */
  ghost function LibraryPath(name: seq<byte>): seq<byte> {
    var whole := [64, 114, 112, 97, 116, 104, 47] + name + [46, 100, 121, 108, 105, 98];
    whole[..if |whole| < 255 then |whole| else 255]
  }

  lemma LibraryPathIs(name: seq<byte>)
    ensures LibraryName(name) == LibraryPath(name)
    ensures 0 !in name ==> 0 !in LibraryName(name)
  {
    assert Ascii("@rpath/") == [64, 114, 112, 97, 116, 104, 47];
    assert Ascii(".dylib") == [46, 100, 121, 108, 105, 98];
  }

  /** How many of the first `n` needed libraries have a readable name. */
  ghost function Readable(needed: seq<Option<seq<byte>>>, n: nat): nat
    requires n <= |needed|
  {
    if n == 0 then 0 else Readable(needed, n - 1) + if needed[n - 1].Some? then 1 else 0
  }

  /** One name for each of those, in order. */
  ghost predicate AsksFor(needed: seq<Option<seq<byte>>>, names: seq<seq<byte>>) {
    && |names| == Readable(needed, |needed|)
    && forall k :: 0 <= k < |needed| && needed[k].Some? ==>
         Readable(needed, k) < |names| && names[Readable(needed, k)] == LibraryPath(needed[k].value)
  }

  lemma {:induction false} FoundCount(needed: seq<Option<seq<byte>>>, n: nat)
    requires n <= |needed|
    ensures |Found(needed[..n])| == Readable(needed, n)
    decreases n
  {
    if n > 0 {
      assert needed[..n][..n - 1] == needed[..n - 1];
      FoundCount(needed, n - 1);
    }
  }

  lemma {:induction false} FoundAt(needed: seq<Option<seq<byte>>>, n: nat, k: nat)
    requires k < n <= |needed| && needed[k].Some?
    ensures Readable(needed, k) < |Found(needed[..n])| && Found(needed[..n])[Readable(needed, k)] == needed[k].value
    decreases n
  {
    assert needed[..n][..n - 1] == needed[..n - 1];
    FoundCount(needed, n - 1);
    if k < n - 1 {
      FoundAt(needed, n - 1, k);
    }
  }

  lemma FoundAsks(needed: seq<Option<seq<byte>>>)
    ensures AsksFor(needed, LibraryNames(Found(needed)))
  {
    assert needed[..|needed|] == needed;
    FoundCount(needed, |needed|);
    forall k | 0 <= k < |needed| && needed[k].Some?
      ensures Readable(needed, k) < |Found(needed)|
      ensures LibraryNames(Found(needed))[Readable(needed, k)] == LibraryPath(needed[k].value)
    {
      FoundAt(needed, |needed|, k);
      LibraryPathIs(needed[k].value);
    }
  }

  lemma {:induction false} FoundMember(needed: seq<Option<seq<byte>>>, name: seq<byte>)
    requires name in Found(needed)
    ensures Some(name) in needed
    decreases |needed|
  {
    if needed != [] && name in Found(needed[..|needed| - 1]) {
      FoundMember(needed[..|needed| - 1], name);
    }
  }

  /** The library's own name, those it needs in order, and the search paths if it needs any. */
  lemma FileNames(b: seq<byte>, e: Elf, p: Plan, t: Tables)
    requires HasText(e) && Planned(p, e) && Headed(b, e, p, t)
    ensures 0 !in e.name ==> Names(b, 0x0D) == Some([LibraryPath(e.name)])
    ensures (forall n :: Some(n) in e.needed ==> 0 !in n) ==> Names(b, 0x0C).Some? && AsksFor(e.needed, Names(b, 0x0C).value)
    ensures Names(b, 0x8000001C) == Some(if Found(e.needed) == [] then [] else PathTexts())
  {
    var f := FieldsOf(p, TextOf(e), DataOf(e), t, e.meta);
    LibraryPathIs(e.name);
    if 0 !in e.name {
      OwnNameFollowed(b, f, DataOf(e).Some?, e.name, Found(e.needed));
    }
    if forall n :: Some(n) in e.needed ==> 0 !in n {
      forall n | n in Found(e.needed)
        ensures 0 !in LibraryName(n)
      {
        FoundMember(e.needed, n);
        LibraryPathIs(n);
      }
      LibrariesFollowed(b, f, DataOf(e).Some?, e.name, Found(e.needed));
      FoundAsks(e.needed);
    }
    PathsFollowed(b, f, DataOf(e).Some?, e.name, Found(e.needed));
  }

  /** The header gives this platform, and these ranges of external and undefined symbols. */
  ghost predicate Numbers(b: seq<byte>, m: Meta) {
    && Locate(b, 0x32, 8) == Some((m.platform, 0xF0000))
    && Locate(b, 0x0B, 16) == Some((m.iext, m.next)) && Locate(b, 0x0B, 24) == Some((m.iundef, m.nundef))
  }

  lemma NumbersOf(b: seq<byte>, f: Fields, hasData: bool, base: seq<byte>, names: seq<seq<byte>>, m: Meta)
    requires Loads(b, AllCommands(f, hasData, base, names))
    requires f.build == Words(BuildWords(m)) && f.dysymtab == Words(RangeWords(m))
    ensures Numbers(b, m)
  {
    NumbersFollowed(b, f, hasData, base, names, BuildWords(m), RangeWords(m));
  }

  lemma FileNumbers(b: seq<byte>, e: Elf, p: Plan, t: Tables)
    requires HasText(e) && Planned(p, e) && Headed(b, e, p, t)
    ensures Numbers(b, e.meta)
  {
    FieldsCount(p, TextOf(e), DataOf(e), t, e.meta);
    NumbersOf(b, FieldsOf(p, TextOf(e), DataOf(e), t, e.meta), DataOf(e).Some?, e.name, Found(e.needed), e.meta);
  }
}
