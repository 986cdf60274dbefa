/**
 Relocations the image resolves itself.  The converter writes the unslid value
 into the slot and asks dyld to add the slide; here the two halves are put
 together and compared with the results that AAELF64 ("Dynamic relocations")
 gives: B + A for RELATIVE, B + S + A for a symbol defined in the image.
 */
module SelfReloc {
  import opened Common
  import opened LittleEndian
  import opened Relocs
  import opened OffsetSort
  import Rebase

  predicate SelfResolved(dyn: Dynamic, r: Rela) {
    r.kind == R_RELATIVE || DefinedReloc(dyn, r)
  }

  /** The value that is pre-written: the target's address before sliding. */
  function SelfValue(dyn: Dynamic, r: Rela, shift: u64): u64
    requires SelfResolved(dyn, r)
  {
    if r.kind == R_RELATIVE then Add64(r.addend, shift)
    else Add64(Add64(dyn.symtab[r.sym].value, r.addend), shift)
  }

  /** What the relocation must hold once the image is loaded at base B. */
  function RelocResult(dyn: Dynamic, r: Rela, base: u64): u64
    requires SelfResolved(dyn, r)
  {
    if r.kind == R_RELATIVE then Add64(base, r.addend)
    else Wrap64(base + dyn.symtab[r.sym].value + r.addend)
  }

  /** The __DATA segment, whose file offset and unslid address agree, and the shift. */
  datatype Layout = Layout(dataOff: u64, dataSize: u64, shift: u64)

  function Slot(lay: Layout, r: Rela): u64 {
    Add64(r.offset, lay.shift)
  }

  predicate Fits(lay: Layout, r: Rela, size: nat) {
    lay.dataOff <= Slot(lay, r) && Slot(lay, r) + 8 <= lay.dataOff + lay.dataSize && Slot(lay, r) + 8 <= size
  }

  /** One iteration of the pre-writing loop. */
  function Prewrite(dyn: Dynamic, lay: Layout, img: seq<byte>, r: Rela): (out: seq<byte>)
    ensures |out| == |img|
  {
    if SelfResolved(dyn, r) && Fits(lay, r, |img|)
    then Patch(img, Slot(lay, r), Le(SelfValue(dyn, r, lay.shift), 8))
    else img
  }

  /** `apply_self_reloc_values` over a table. */
  function Prewritten(dyn: Dynamic, lay: Layout, img: seq<byte>, rs: seq<Rela>): (out: seq<byte>)
    ensures |out| == |img|
  {
    if rs == [] then img
    else Prewrite(dyn, lay, Prewritten(dyn, lay, img, rs[..|rs| - 1]), rs[|rs| - 1])
  }

  method ApplySelfRelocs(dyn: Dynamic, lay: Layout, out: array<byte>)
    modifies out
    ensures out[..] == Prewritten(dyn, lay, old(out[..]), dyn.rela + dyn.jmprel)
  {
    ghost var img := out[..];
    var rs := dyn.rela + dyn.jmprel;
    var i := 0;
    while i < |rs|
      invariant 0 <= i <= |rs| && out[..] == Prewritten(dyn, lay, img, rs[..i])
    {
      assert rs[..i + 1][..i] == rs[..i];
      if SelfResolved(dyn, rs[i]) && Fits(lay, rs[i], out.Length) {
        StoreWord(out, Slot(lay, rs[i]), SelfValue(dyn, rs[i], lay.shift));
      }
      i := i + 1;
    }
    assert rs[..i] == rs;
  }

  method StoreWord(out: array<byte>, pos: nat, v: u64)
    requires pos + 8 <= out.Length
    modifies out
    ensures out[..] == Patch(old(out[..]), pos, Le(v, 8))
  {
    var bytes := Le(v, 8);
    forall k | 0 <= k < 8 {
      out[pos + k] := bytes[k];
    }
  }

  // ----- dyld's half -----

  /** Adds the slide to the word at each place of the segment at `dataOff`. */
  function Slide(img: seq<byte>, dataOff: nat, places: seq<u64>, slide: u64): (out: seq<byte>)
    requires forall t :: t in places ==> dataOff + t + 8 <= |img|
    ensures |out| == |img|
  {
    if places == [] then img
    else
      var front, p := places[..|places| - 1], dataOff + places[|places| - 1];
      assert forall t :: t in front ==> t in places;
      var before := Slide(img, dataOff, front, slide);
      assert places[|places| - 1] in places;
      Patch(before, p, Le(Add64(Word(before, p), slide), 8))
  }

  ghost predicate ApartFrom(a: int, b: int) {
    a + 8 <= b || b + 8 <= a
  }

  ghost predicate PairwiseApart(s: seq<u64>) {
    forall i, j :: 0 <= i < j < |s| ==> ApartFrom(s[i], s[j])
  }

  ghost predicate ClearOf(places: seq<u64>, dataOff: nat, q: nat) {
    forall t :: t in places && dataOff + t != q ==> ApartFrom(dataOff + t, q)
  }

  lemma ApartFront(places: seq<u64>)
    requires PairwiseApart(places) && places != []
    ensures PairwiseApart(places[..|places| - 1]) && places[|places| - 1] !in places[..|places| - 1]
  {
  }

  lemma SlideStep(before: seq<byte>, p: nat, slide: u64, q: nat)
    requires p + 8 <= |before| && q + 8 <= |before| && (p == q || ApartFrom(p, q))
    ensures Word(Patch(before, p, Le(Add64(Word(before, p), slide), 8)), q) ==
      if p == q then Add64(Word(before, q), slide) else Word(before, q)
  {
    StoredWord(before, p, Add64(Word(before, p), slide), q);
  }

  /** Sliding changes exactly the words at its places. */
  lemma {:induction false} SlideWord(img: seq<byte>, dataOff: nat, places: seq<u64>, slide: u64, q: nat)
    requires forall t :: t in places ==> dataOff + t + 8 <= |img|
    requires PairwiseApart(places) && q + 8 <= |img| && ClearOf(places, dataOff, q)
    ensures Word(Slide(img, dataOff, places, slide), q) ==
      if q - dataOff in places then Add64(Word(img, q), slide) else Word(img, q)
    decreases |places|
  {
    if places != [] {
      var front, last := places[..|places| - 1], places[|places| - 1];
      assert places == front + [last] && last in places;
      assert forall t :: t in front ==> t in places;
      ApartFront(places);
      SlideWord(img, dataOff, front, slide, q);
      SlideStep(Slide(img, dataOff, front, slide), dataOff + last, slide, q);
    }
  }

  lemma {:induction false} SlideByte(img: seq<byte>, dataOff: nat, places: seq<u64>, slide: u64, q: nat)
    requires forall t :: t in places ==> dataOff + t + 8 <= |img|
    requires q < |img| && forall t :: t in places ==> !(dataOff + t <= q < dataOff + t + 8)
    ensures Slide(img, dataOff, places, slide)[q] == img[q]
    decreases |places|
  {
    if places != [] {
      var front, last := places[..|places| - 1], places[|places| - 1];
      assert places == front + [last] && last in places;
      assert forall t :: t in front ==> t in places;
      SlideByte(img, dataOff, front, slide, q);
    }
  }

  // ----- the two halves together -----

  function Table(dyn: Dynamic): seq<Rela> {
    dyn.rela + dyn.jmprel
  }

  /** Self-resolved slots lie in the file part of __DATA and do not overlap. */
  ghost predicate SlotsApart(dyn: Dynamic, lay: Layout, size: nat) {
    && (forall i :: 0 <= i < |Table(dyn)| && SelfResolved(dyn, Table(dyn)[i]) ==>
          Table(dyn)[i].offset + lay.shift < TWO64 && Fits(lay, Table(dyn)[i], size))
    && (forall i, j :: 0 <= i < j < |Table(dyn)| && SelfResolved(dyn, Table(dyn)[i]) && SelfResolved(dyn, Table(dyn)[j]) ==>
          ApartFrom(Table(dyn)[i].offset, Table(dyn)[j].offset))
  }

  lemma {:induction false} PrewrittenWord(dyn: Dynamic, lay: Layout, img: seq<byte>, n: nat, i: nat)
    requires SlotsApart(dyn, lay, |img|) && i < n <= |Table(dyn)| && SelfResolved(dyn, Table(dyn)[i])
    ensures Word(Prewritten(dyn, lay, img, Table(dyn)[..n]), Slot(lay, Table(dyn)[i])) ==
      SelfValue(dyn, Table(dyn)[i], lay.shift)
    decreases n
  {
    var rs := Table(dyn);
    assert rs[..n][..n - 1] == rs[..n - 1];
    var before, last, q := Prewritten(dyn, lay, img, rs[..n - 1]), rs[n - 1], Slot(lay, rs[i]);
    if i < n - 1 {
      PrewrittenWord(dyn, lay, img, n - 1, i);
    }
    if SelfResolved(dyn, last) {
      StoredWord(before, Slot(lay, last), SelfValue(dyn, last, lay.shift), q);
    }
  }

  lemma {:induction false} PrewrittenByte(dyn: Dynamic, lay: Layout, img: seq<byte>, rs: seq<Rela>, q: nat)
    requires q < |img|
    requires forall r :: r in rs && SelfResolved(dyn, r) && Fits(lay, r, |img|) ==> !(Slot(lay, r) <= q < Slot(lay, r) + 8)
    ensures Prewritten(dyn, lay, img, rs)[q] == img[q]
    decreases |rs|
  {
    if rs != [] {
      assert forall r :: r in rs[..|rs| - 1] ==> r in rs;
      PrewrittenByte(dyn, lay, img, rs[..|rs| - 1], q);
      assert rs[|rs| - 1] in rs;
    }
  }

  /** Nothing before the data segment is pre-written. */
  lemma {:induction false} PrewrittenBelow(dyn: Dynamic, lay: Layout, img: seq<byte>, rs: seq<Rela>, q: nat)
    requires q < |img| && q < lay.dataOff
    ensures Prewritten(dyn, lay, img, rs)[q] == img[q]
    decreases |rs|
  {
    if rs != [] {
      PrewrittenBelow(dyn, lay, img, rs[..|rs| - 1], q);
    }
  }

  /** Entry `i` of the table is collected for rebasing: RELATIVE counts only from DT_RELA. */
  predicate Collected(dyn: Dynamic, i: nat)
    requires i < |Table(dyn)|
  {
    (i < |dyn.rela| && Table(dyn)[i].kind == R_RELATIVE) || DefinedReloc(dyn, Table(dyn)[i])
  }

  lemma {:induction false} RelativesMembers(rs: seq<Rela>, o: u64)
    ensures o in Rebase.Relatives(rs) <==> exists r :: r in rs && r.kind == R_RELATIVE && r.offset == o
    decreases |rs|
  {
    if rs != [] {
      var front, last := rs[..|rs| - 1], rs[|rs| - 1];
      RelativesMembers(front, o);
      assert rs == front + [last];
    }
  }

  lemma {:induction false} DefinedMembers(dyn: Dynamic, rs: seq<Rela>, o: u64)
    ensures o in Rebase.DefinedOffsets(dyn, rs) <==> exists r :: r in rs && DefinedReloc(dyn, r) && r.offset == o
    decreases |rs|
  {
    if rs != [] {
      var front, last := rs[..|rs| - 1], rs[|rs| - 1];
      DefinedMembers(dyn, front, o);
      assert rs == front + [last];
    }
  }

  lemma OffsetsMembers(dyn: Dynamic, o: u64)
    ensures o in Rebase.RebaseOffsets(dyn) <==>
      exists i :: 0 <= i < |Table(dyn)| && Collected(dyn, i) && Table(dyn)[i].offset == o
  {
    var rs := Table(dyn);
    RelativesMembers(dyn.rela, o);
    DefinedMembers(dyn, dyn.rela, o);
    DefinedMembers(dyn, dyn.jmprel, o);
    if o in Rebase.RebaseOffsets(dyn) {
      if o in Rebase.Relatives(dyn.rela) {
        var r :| r in dyn.rela && r.kind == R_RELATIVE && r.offset == o;
        var i :| 0 <= i < |dyn.rela| && dyn.rela[i] == r;
        assert rs[i] == r && Collected(dyn, i);
      } else {
        var r :| (r in dyn.rela || r in dyn.jmprel) && DefinedReloc(dyn, r) && r.offset == o;
        assert r in rs;
        var i :| 0 <= i < |rs| && rs[i] == r;
        assert Collected(dyn, i);
      }
    }
    forall i | 0 <= i < |rs| && Collected(dyn, i) && rs[i].offset == o ensures o in Rebase.RebaseOffsets(dyn) {
      assert rs[i] in dyn.rela || rs[i] in dyn.jmprel;
      if i < |dyn.rela| {
        assert rs[i] == dyn.rela[i];
      }
    }
  }

  /** Over slots that do not overlap, dyld's places are clear of each other and in range. */
  lemma OneSlot(dyn: Dynamic, lay: Layout, size: nat, i: nat, j: nat)
    requires SlotsApart(dyn, lay, size) && i < |Table(dyn)| && j < |Table(dyn)|
    requires SelfResolved(dyn, Table(dyn)[i]) && SelfResolved(dyn, Table(dyn)[j])
    ensures i == j || ApartFrom(Table(dyn)[i].offset, Table(dyn)[j].offset)
    ensures Slot(lay, Table(dyn)[i]) == Table(dyn)[i].offset + lay.shift
  {
    if i < j {
      assert ApartFrom(Table(dyn)[i].offset, Table(dyn)[j].offset);
    } else if j < i {
      assert ApartFrom(Table(dyn)[j].offset, Table(dyn)[i].offset);
    }
  }

  lemma TargetsApart(dyn: Dynamic, lay: Layout, size: nat)
    requires SlotsApart(dyn, lay, size)
    ensures var ts := Rebase.RebaseTargets(dyn, lay.dataOff, lay.shift);
      && Rebase.Spaced(ts) && PairwiseApart(ts)
      && (forall t :: t in ts ==> lay.dataOff + t + 8 <= size)
      && (forall t :: t in ts ==>
            exists i :: 0 <= i < |Table(dyn)| && Collected(dyn, i) && lay.dataOff + t == Slot(lay, Table(dyn)[i]))
  {
    var ts := Rebase.RebaseTargets(dyn, lay.dataOff, lay.shift);
    var rs := Table(dyn);
    forall o | o in Rebase.RebaseOffsets(dyn) ensures o + lay.shift < TWO64 {
      OffsetsMembers(dyn, o);
    }
    forall t | t in ts
      ensures exists i :: 0 <= i < |rs| && Collected(dyn, i) && lay.dataOff + t == Slot(lay, rs[i])
    {
      Rebase.RebaseTargetsExact(dyn, lay.dataOff, lay.shift, t);
      OffsetsMembers(dyn, t + lay.dataOff - lay.shift);
    }
    forall a, b | 0 <= a < b < |ts| ensures ApartFrom(ts[a], ts[b]) && ts[a] < ts[b] {
      Rebase.RebaseTargetsExact(dyn, lay.dataOff, lay.shift, ts[a]);
      assert ts[a] in ts && ts[b] in ts && ts[a] < ts[b];
      var i :| 0 <= i < |rs| && Collected(dyn, i) && lay.dataOff + ts[a] == Slot(lay, rs[i]);
      var j :| 0 <= j < |rs| && Collected(dyn, j) && lay.dataOff + ts[b] == Slot(lay, rs[j]);
      OneSlot(dyn, lay, size, i, j);
      OneSlot(dyn, lay, size, j, i);
    }
  }

  const DATA_SEGMENT: nat := 1

  /** The offsets in __DATA that dyld adds the slide to when it runs a rebase stream. */
  function Places(stream: seq<byte>): seq<u64> {
    match Rebase.Rebased(stream)
    case None => []
    case Some(cs) => seq(|cs|, k requires 0 <= k < |cs| => cs[k].off)
  }

  /** For slots that do not overlap, running the emitted stream visits exactly the targets. */
  lemma StreamPlaces(dyn: Dynamic, lay: Layout, size: nat)
    requires SlotsApart(dyn, lay, size)
    ensures Places(Rebase.RebaseStream(dyn, DATA_SEGMENT, lay.dataOff, lay.shift)) ==
      Rebase.RebaseTargets(dyn, lay.dataOff, lay.shift)
  {
    TargetsApart(dyn, lay, size);
    Rebase.RebasedPlaces(dyn, DATA_SEGMENT, lay.dataOff, lay.shift);
  }

  /** The image after pre-writing, and after dyld has run the emitted rebase stream. */
  ghost function Loaded(dyn: Dynamic, lay: Layout, img: seq<byte>, slide: u64): seq<byte>
    requires SlotsApart(dyn, lay, |img|)
  {
    TargetsApart(dyn, lay, |img|);
    StreamPlaces(dyn, lay, |img|);
    Slide(Prewritten(dyn, lay, img, Table(dyn)), lay.dataOff,
      Places(Rebase.RebaseStream(dyn, DATA_SEGMENT, lay.dataOff, lay.shift)), slide)
  }

  /** The same, with the places given as targets rather than as opcodes. */
  ghost function Slid(dyn: Dynamic, lay: Layout, img: seq<byte>, slide: u64): seq<byte>
    requires SlotsApart(dyn, lay, |img|)
  {
    TargetsApart(dyn, lay, |img|);
    Slide(Prewritten(dyn, lay, img, Table(dyn)), lay.dataOff,
      Rebase.RebaseTargets(dyn, lay.dataOff, lay.shift), slide)
  }

  lemma LoadedIsSlid(dyn: Dynamic, lay: Layout, img: seq<byte>, slide: u64)
    requires SlotsApart(dyn, lay, |img|)
    ensures Loaded(dyn, lay, img, slide) == Slid(dyn, lay, img, slide)
  {
    StreamPlaces(dyn, lay, |img|);
  }

  lemma CollectedIsTarget(dyn: Dynamic, lay: Layout, size: nat, i: nat)
    requires SlotsApart(dyn, lay, size) && i < |Table(dyn)| && SelfResolved(dyn, Table(dyn)[i])
    ensures Slot(lay, Table(dyn)[i]) - lay.dataOff in Rebase.RebaseTargets(dyn, lay.dataOff, lay.shift) <==>
      Collected(dyn, i)
  {
    var rs := Table(dyn);
    var t := Slot(lay, rs[i]) - lay.dataOff;
    forall o | o in Rebase.RebaseOffsets(dyn) ensures o + lay.shift < TWO64 {
      OffsetsMembers(dyn, o);
    }
    Rebase.RebaseTargetsExact(dyn, lay.dataOff, lay.shift, t);
    OffsetsMembers(dyn, rs[i].offset);
    if rs[i].offset in Rebase.RebaseOffsets(dyn) {
      var j :| 0 <= j < |rs| && Collected(dyn, j) && rs[j].offset == rs[i].offset;
      OneSlot(dyn, lay, size, i, j);
      OneSlot(dyn, lay, size, j, i);
    }
  }

  /** Every rebased place is this slot itself or clear of it. */
  lemma SlotsClear(dyn: Dynamic, lay: Layout, size: nat, i: nat)
    requires SlotsApart(dyn, lay, size) && i < |Table(dyn)| && SelfResolved(dyn, Table(dyn)[i])
    ensures var ts := Rebase.RebaseTargets(dyn, lay.dataOff, lay.shift);
      && (forall t :: t in ts ==> lay.dataOff + t + 8 <= size) && PairwiseApart(ts)
      && ClearOf(ts, lay.dataOff, Slot(lay, Table(dyn)[i]))
  {
    var rs, ts := Table(dyn), Rebase.RebaseTargets(dyn, lay.dataOff, lay.shift);
    TargetsApart(dyn, lay, size);
    forall t | t in ts && lay.dataOff + t != Slot(lay, rs[i]) ensures ApartFrom(lay.dataOff + t, Slot(lay, rs[i])) {
      var j :| 0 <= j < |rs| && Collected(dyn, j) && lay.dataOff + t == Slot(lay, rs[j]);
      OneSlot(dyn, lay, size, i, j);
      OneSlot(dyn, lay, size, j, i);
    }
  }

  /** In any image that holds the pre-written value of a slot, sliding adds the slide to it if it was collected. */
  lemma SlidValue(dyn: Dynamic, lay: Layout, b: seq<byte>, addr: u64, i: nat)
    requires SlotsApart(dyn, lay, |b|) && i < |Table(dyn)| && SelfResolved(dyn, Table(dyn)[i])
    requires Word(b, Slot(lay, Table(dyn)[i])) == SelfValue(dyn, Table(dyn)[i], lay.shift)
    requires forall t :: t in Rebase.RebaseTargets(dyn, lay.dataOff, lay.shift) ==> lay.dataOff + t + 8 <= |b|
    ensures Word(Slide(b, lay.dataOff, Rebase.RebaseTargets(dyn, lay.dataOff, lay.shift), addr), Slot(lay, Table(dyn)[i])) ==
      Add64(SelfValue(dyn, Table(dyn)[i], lay.shift), if Collected(dyn, i) then addr else 0)
  {
    SlotsClear(dyn, lay, |b|, i);
    SlideWord(b, lay.dataOff, Rebase.RebaseTargets(dyn, lay.dataOff, lay.shift), addr, Slot(lay, Table(dyn)[i]));
    CollectedIsTarget(dyn, lay, |b|, i);
  }

  lemma SlidWord(dyn: Dynamic, lay: Layout, img: seq<byte>, addr: u64, i: nat)
    requires SlotsApart(dyn, lay, |img|) && i < |Table(dyn)| && SelfResolved(dyn, Table(dyn)[i])
    ensures Word(Slid(dyn, lay, img, addr), Slot(lay, Table(dyn)[i])) ==
      Add64(SelfValue(dyn, Table(dyn)[i], lay.shift), if Collected(dyn, i) then addr else 0)
  {
    var rs := Table(dyn);
    assert rs[..|rs|] == rs;
    PrewrittenWord(dyn, lay, img, |rs|, i);
    TargetsApart(dyn, lay, |img|);
    SlidValue(dyn, lay, Prewritten(dyn, lay, img, rs), addr, i);
  }

  lemma ModAdd(x: int, y: int)
    ensures Add64(x % TWO64, y) == Add64(x, y)
  {
  }

  lemma AddNothing(v: u64, a: u64)
    ensures Add64(v, a) == v <==> a == 0
  {
  }

  /** Adding the shift and then the slide is adding the value to the base. */
  lemma SumsAgree(x: int, shift: u64, addr: u64)
    ensures Add64(Add64(x, shift), addr) == Add64(Add64(addr, shift), x)
  {
    ModAdd(x + shift, addr);
    ModAdd(addr + shift, x);
  }

  /** Shifted value plus slide is base plus value, and equal to it unslid only at slide 0. */
  lemma ValueArithmetic(dyn: Dynamic, r: Rela, shift: u64, addr: u64)
    requires SelfResolved(dyn, r)
    ensures Add64(SelfValue(dyn, r, shift), addr) == RelocResult(dyn, r, Add64(addr, shift))
    ensures SelfValue(dyn, r, shift) == RelocResult(dyn, r, Add64(addr, shift)) <==> addr == 0
  {
    var x := if r.kind == R_RELATIVE then r.addend else dyn.symtab[r.sym].value + r.addend;
    ModAdd(x, shift);
    SumsAgree(x, shift, addr);
    AddNothing(SelfValue(dyn, r, shift), addr);
  }

  /**
   Every self-resolved slot holds its AAELF64 result after loading at `addr`, with B
   the base that the loader recomputes, except a RELATIVE entry of DT_JMPREL, which is
   pre-written but not rebased: that one is right only when the image was not moved.
   */
  lemma LoadedSlot(dyn: Dynamic, lay: Layout, img: seq<byte>, addr: u64, i: nat)
    requires SlotsApart(dyn, lay, |img|) && i < |Table(dyn)| && SelfResolved(dyn, Table(dyn)[i])
    ensures
      var got := Word(Loaded(dyn, lay, img, addr), Slot(lay, Table(dyn)[i]));
      got == RelocResult(dyn, Table(dyn)[i], Add64(addr, lay.shift)) <==> Collected(dyn, i) || addr == 0
  {
    LoadedIsSlid(dyn, lay, img, addr);
    SlidWord(dyn, lay, img, addr, i);
    ValueArithmetic(dyn, Table(dyn)[i], lay.shift, addr);
  }

  /** No byte outside a self-resolved slot is touched by either half. */
  lemma LoadedElsewhere(dyn: Dynamic, lay: Layout, img: seq<byte>, addr: u64, q: nat)
    requires SlotsApart(dyn, lay, |img|) && q < |img|
    requires forall r :: r in Table(dyn) && SelfResolved(dyn, r) ==> !(Slot(lay, r) <= q < Slot(lay, r) + 8)
    ensures Loaded(dyn, lay, img, addr)[q] == img[q]
  {
    var ts := Rebase.RebaseTargets(dyn, lay.dataOff, lay.shift);
    TargetsApart(dyn, lay, |img|);
    LoadedIsSlid(dyn, lay, img, addr);
    PrewrittenByte(dyn, lay, img, Table(dyn), q);
    forall t | t in ts ensures !(lay.dataOff + t <= q < lay.dataOff + t + 8) {
      var j :| 0 <= j < |Table(dyn)| && Collected(dyn, j) && lay.dataOff + t == Slot(lay, Table(dyn)[j]);
      assert Table(dyn)[j] in Table(dyn);
    }
    SlideByte(Prewritten(dyn, lay, img, Table(dyn)), lay.dataOff, ts, addr, q);
  }

  /** A relative relocation of the second table keeps its unslid value, which is wrong once the image has moved. */
  lemma JumpTableUnslid(dyn: Dynamic, lay: Layout, img: seq<byte>, addend: u64, addr: u64)
    requires dyn == Dynamic([], [Rela(0, R_RELATIVE, 0, addend)], []) && lay == Layout(0, 8, 0)
    requires |img| == 8 && addr != 0
    ensures Word(Loaded(dyn, lay, img, addr), 0) != RelocResult(dyn, dyn.jmprel[0], addr)
  {
    assert Table(dyn) == [Rela(0, R_RELATIVE, 0, addend)];
    LoadedSlot(dyn, lay, img, addr, 0);
  }
}
