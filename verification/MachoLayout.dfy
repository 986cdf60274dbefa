/**
 Where everything goes in the converted file: the header, the two ELF segments moved by
 one shift, and the tables after them; and the same shift again in the loader.
 */
module MachoLayout {
  import opened Common
  import opened MachoHeader

  const PF_X: nat := 1
  const PF_W: nat := 2
  const PT_LOAD: nat := 1

  function AlignDown(x: nat): (r: nat)
    ensures r <= x < r + PAGE && r % PAGE == 0
  {
    x - x % PAGE
  }

  function AlignPage(x: nat): (r: nat)
    ensures x <= r < x + PAGE && r % PAGE == 0
  {
    (x + PAGE - 1) / PAGE * PAGE
  }

  function Align16(x: nat): (r: nat)
    ensures x <= r < x + 16 && r % 16 == 0
  {
    (x + 15) / 16 * 16
  }

  // ----- segments -----

  datatype Segment = Segment(kind: nat, exec: bool, write: bool, vaddr: nat, filesz: nat, memsz: nat)

  predicate IsText(s: Segment) {
    s.kind == PT_LOAD && s.exec
  }

  /** The first executable loaded segment. */
  function FirstText(ss: seq<Segment>): Option<Segment>
    decreases |ss|
  {
    if ss == [] then None else
      var before := FirstText(ss[..|ss| - 1]);
      if before.Some? then before else if IsText(ss[|ss| - 1]) then Some(ss[|ss| - 1]) else None
  }

  /** The first writable loaded segment other than the text. */
  function FirstData(ss: seq<Segment>): Option<Segment>
    decreases |ss|
  {
    if ss == [] then None else
      var most, last := ss[..|ss| - 1], ss[|ss| - 1];
      var before := FirstData(most);
      if before.Some? then before
      else if last.kind == PT_LOAD && last.write && !(last.exec && FirstText(most).None?) then Some(last) else None
  }

  lemma {:induction false} FirstTextIs(ss: seq<Segment>, k: nat)
    requires k < |ss| && IsText(ss[k]) && forall j :: 0 <= j < k ==> !IsText(ss[j])
    ensures FirstText(ss) == Some(ss[k])
    decreases |ss|
  {
    if k < |ss| - 1 {
      FirstTextIs(ss[..|ss| - 1], k);
    } else {
      NoText(ss[..k]);
    }
  }

  lemma {:induction false} NoText(ss: seq<Segment>)
    requires forall j :: 0 <= j < |ss| ==> !IsText(ss[j])
    ensures FirstText(ss).None?
    decreases |ss|
  {
    if ss != [] {
      NoText(ss[..|ss| - 1]);
    }
  }

  /** A writable loaded segment that the text has not taken: not executable, or behind the text. */
  ghost predicate IsData(ss: seq<Segment>, k: nat)
    requires k < |ss|
  {
    ss[k].kind == PT_LOAD && ss[k].write && (ss[k].exec ==> exists j :: 0 <= j < k && IsText(ss[j]))
  }

  lemma IsDataFront(ss: seq<Segment>, n: nat, k: nat)
    requires k < n <= |ss|
    ensures IsData(ss[..n], k) == IsData(ss, k)
  {
    if j :| 0 <= j < k && IsText(ss[j]) {
      assert IsText(ss[..n][j]);
    }
    if j :| 0 <= j < k && IsText(ss[..n][j]) {
      assert IsText(ss[j]);
    }
  }

  lemma {:induction false} TextOrNone(ss: seq<Segment>)
    ensures FirstText(ss).None? <==> forall j :: 0 <= j < |ss| ==> !IsText(ss[j])
    decreases |ss|
  {
    if ss != [] {
      TextOrNone(ss[..|ss| - 1]);
    }
  }

  /** The data segment is the first of these. */
  lemma {:induction false} FirstDataIs(ss: seq<Segment>, k: nat)
    requires k < |ss| && IsData(ss, k) && forall j: nat :: j < k ==> !IsData(ss, j)
    ensures FirstData(ss) == Some(ss[k])
    decreases |ss|
  {
    var n := |ss| - 1;
    if k < n {
      forall j: nat | j <= k
        ensures IsData(ss[..n], j) == IsData(ss, j)
      {
        IsDataFront(ss, n, j);
      }
      FirstDataIs(ss[..n], k);
    } else {
      forall j: nat | j < n
        ensures !IsData(ss[..n], j)
      {
        IsDataFront(ss, n, j);
      }
      NoData(ss[..n]);
      TextOrNone(ss[..n]);
      if ss[n].exec {
        var j :| 0 <= j < n && IsText(ss[j]);
        assert IsText(ss[..n][j]);
      }
    }
  }

  lemma {:induction false} NoData(ss: seq<Segment>)
    requires forall j: nat :: j < |ss| ==> !IsData(ss, j)
    ensures FirstData(ss).None?
    decreases |ss|
  {
    if ss != [] {
      var n := |ss| - 1;
      forall j: nat | j < n
        ensures !IsData(ss[..n], j)
      {
        IsDataFront(ss, n, j);
      }
      NoData(ss[..n]);
      TextOrNone(ss[..n]);
      assert !IsData(ss, n);
      if ss[n].exec && FirstText(ss[..n]).Some? {
        var j :| 0 <= j < n && IsText(ss[..n][j]);
        assert IsText(ss[j]);
      }
    }
  }

  /** The converter's choice. */
  method FindSegments(ss: seq<Segment>) returns (text: Option<Segment>, data: Option<Segment>)
    ensures text == FirstText(ss) && data == FirstData(ss)
  {
    text, data := None, None;
    var i := 0;
    while i < |ss|
      invariant 0 <= i <= |ss| && text == FirstText(ss[..i]) && data == FirstData(ss[..i])
    {
      assert ss[..i + 1][..i] == ss[..i];
      if ss[i].kind == PT_LOAD {
        if ss[i].exec && text.None? {
          text := Some(ss[i]);
        } else if ss[i].write && data.None? {
          data := Some(ss[i]);
        }
      }
      i := i + 1;
    }
    assert ss[..|ss|] == ss;
  }

  /** One page when the text would lie under the header, else nothing. */
  function Shift(vaddr: nat): nat {
    if AlignDown(vaddr) == 0 then PAGE else 0
  }

  /** The loader's own computation of where the ELF image begins: its address, and the same page or nothing. */
  method LoaderBase(ss: seq<Segment>, image: nat) returns (base: nat)
    ensures FirstText(ss).Some? ==> base == image + if FirstText(ss).value.vaddr < 0x4000 then 0x4000 else 0
  {
    var page, k := 0, 0;
    while k < |ss|
      invariant 0 <= k <= |ss| && forall j :: 0 <= j < k ==> !IsText(ss[j])
      invariant page == 0
    {
      if ss[k].kind == PT_LOAD && ss[k].exec {
        page := AlignDown(ss[k].vaddr);
        FirstTextIs(ss, k);
        break;
      }
      k := k + 1;
    }
    if k == |ss| {
      NoText(ss);
    }
    base := image + (if page == 0 then PAGE else 0);
  }

  // ----- the plan -----

  /** Sizes of the tables: rebase and bind opcodes, export trie, symbols, strings. */
  datatype Tables = Tables(rebase: nat, bind: nat, trie: nat, nsyms: nat, strings: nat)

  datatype Plan = Plan(shift: nat, textOff: nat, textEnd: nat, dataOff: nat, linkedit: nat, rebase: nat, bind: nat,
                       trie: nat, symtab: nat, strings: nat, signature: nat, total: nat)

  datatype Range = Range(lo: nat, hi: nat)

  /** Each range ends before the next begins, and the last before `end`. */
  ghost predicate InOrder(rs: seq<Range>, end: nat) {
    && (forall i :: 0 <= i < |rs| ==> rs[i].lo <= rs[i].hi <= end)
    && (forall i :: 0 < i < |rs| ==> rs[i - 1].hi <= rs[i].lo)
  }

  lemma {:induction false} InOrderBefore(rs: seq<Range>, end: nat, i: nat, j: nat)
    requires InOrder(rs, end) && i < j < |rs|
    ensures rs[i].hi <= rs[j].lo
    decreases j
  {
    if i < j - 1 {
      InOrderBefore(rs, end, i, j - 1);
    }
  }

  /** No two of the ranges share a byte, and all lie in the file. */
  lemma InOrderDisjoint(rs: seq<Range>, end: nat, i: nat, j: nat, k: nat)
    requires InOrder(rs, end) && i < |rs| && j < |rs| && i != j
    requires rs[i].lo <= k < rs[i].hi
    ensures k < end && !(rs[j].lo <= k < rs[j].hi)
  {
    if i < j {
      InOrderBefore(rs, end, i, j);
    } else {
      InOrderBefore(rs, end, j, i);
    }
  }

  /** The header, the two segments and the five tables. */
  function Ranges(p: Plan, header: nat, text: Segment, data: Option<Segment>, t: Tables): seq<Range> {
    [ Range(0, header), Range(p.textOff, p.textOff + text.filesz) ] +
    (if data.None? then [] else [Range(p.dataOff, p.dataOff + data.value.filesz)]) +
    [ Range(p.rebase, p.rebase + t.rebase), Range(p.bind, p.bind + t.bind), Range(p.trie, p.trie + t.trie),
      Range(p.symtab, p.symtab + 16 * t.nsyms), Range(p.strings, p.strings + t.strings) ]
  }

  /** The writable segment would start before the text segment ends in the file. */
  predicate Overlaps(text: Segment, data: Segment) {
    AlignDown(Shift(text.vaddr) + data.vaddr) < AlignPage(Shift(text.vaddr) + text.vaddr + text.filesz)
  }

  /** The order of things in a plan, each before the next. */
  ghost predicate Placed(p: Plan, text: Segment, data: Option<Segment>, t: Tables) {
    && PAGE <= p.textOff && p.textOff + text.filesz <= p.linkedit
    && (data.Some? ==> p.textOff + text.filesz <= p.dataOff && p.dataOff + data.value.filesz <= p.linkedit)
    && p.linkedit <= p.rebase && p.rebase + t.rebase <= p.bind && p.bind + t.bind <= p.trie
    && p.trie + t.trie <= p.symtab && p.symtab + 16 * t.nsyms <= p.strings && p.strings + t.strings <= p.total
  }

  lemma PlacedInOrder(p: Plan, header: nat, text: Segment, data: Option<Segment>, t: Tables)
    requires Placed(p, text, data, t) && header <= PAGE
    ensures InOrder(Ranges(p, header, text, data, t), p.total)
  {
  }

  /** The file part of the data segment, in whole pages. */
  function DataPages(pos: nat, size: nat): nat {
    AlignPage(pos - AlignDown(pos) + size)
  }

  /** Where the last of the two segments ends in the file. */
  function SegmentsEnd(text: Segment, data: Option<Segment>): nat {
    var shift := Shift(text.vaddr);
    if data.None? then AlignPage(shift + text.vaddr + text.filesz)
    else AlignDown(shift + data.value.vaddr) + DataPages(shift + data.value.vaddr, data.value.filesz)
  }

  lemma AlignedAlready(a: nat, b: nat)
    requires a % PAGE == 0 && b % PAGE == 0
    ensures AlignPage(a + b) == a + b
  {
  }

  method PlaceSegments(text: Segment, data: Option<Segment>)
    returns (ok: bool, shift: nat, textEnd: nat, dataOff: nat, linkedit: nat)
    ensures ok <==> !(data.Some? && Overlaps(text, data.value))
    ensures shift == Shift(text.vaddr) && PAGE <= shift + text.vaddr
    ensures textEnd == AlignPage(shift + text.vaddr + text.filesz)
    ensures ok ==> textEnd <= linkedit == SegmentsEnd(text, data) && linkedit % PAGE == 0
    ensures ok && data.Some? ==> textEnd <= dataOff == shift + data.value.vaddr && dataOff + data.value.filesz <= linkedit
  {
    shift := if AlignDown(text.vaddr) == 0 then PAGE else 0;
    textEnd := AlignPage(shift + text.vaddr + text.filesz);
    var dataSeg, dataSize := textEnd, 0;
    ok, dataOff, linkedit := true, textEnd, textEnd;
    if data.Some? {
      var pos := shift + data.value.vaddr;
      dataSeg := AlignDown(pos);
      if dataSeg < textEnd {
        ok := false;
        return;
      }
      dataSize := AlignPage(pos - dataSeg + data.value.filesz);
      dataOff := dataSeg + (pos - dataSeg);
    }
    linkedit := dataSeg + dataSize;
    if linkedit < textEnd {
      linkedit := textEnd;
    }
    AlignedAlready(dataSeg, dataSize);
    AlignedAlready(textEnd, 0);
    linkedit := AlignPage(linkedit);
  }

  /** Offsets of the tables, each rounded up, from the start of their segment. */
  method PlaceTables(t: Tables) returns (bind: nat, trie: nat, symtab: nat, strings: nat, signature: nat)
    ensures t.rebase <= bind && bind + t.bind <= trie && trie + t.trie <= symtab && symtab + 16 * t.nsyms == strings
    ensures strings + t.strings <= signature && signature % 16 == 0
  {
    bind := Align8(t.rebase);
    trie := bind + Align8(t.bind);
    symtab := trie + Align8(t.trie);
    strings := symtab + 16 * t.nsyms;
    var size := Align8(t.strings);
    if size == 0 {
      size := 8;
    }
    signature := Align16(strings + size);
  }

  /** The plan of a file: refused exactly when the data would start inside the text segment. */
  method LayOut(text: Segment, data: Option<Segment>, t: Tables) returns (r: Option<Plan>)
    ensures r.None? <==> data.Some? && Overlaps(text, data.value)
    ensures r.Some? ==> r.value.shift == Shift(text.vaddr) && r.value.textOff == r.value.shift + text.vaddr
    ensures r.Some? && data.Some? ==> r.value.dataOff == r.value.shift + data.value.vaddr
    ensures r.Some? ==> r.value.textEnd == AlignPage(r.value.textOff + text.filesz)
    ensures r.Some? ==> r.value.linkedit == SegmentsEnd(text, data) && r.value.linkedit % PAGE == 0
    ensures r.Some? ==> Placed(r.value, text, data, t)
  {
    var ok, shift, textEnd, dataOff, linkedit := PlaceSegments(text, data);
    if !ok {
      return None;
    }
    var bind, trie, symtab, strings, signature := PlaceTables(t);
    r := Some(Plan(shift, shift + text.vaddr, textEnd, dataOff, linkedit, linkedit, linkedit + bind, linkedit + trie,
                   linkedit + symtab, linkedit + strings, linkedit + signature, linkedit + signature));
  }

  // ----- writing the file -----

  /** File offsets of tables are kept in 32 bits. */
  function Abs(x: nat): nat {
    x % TWO32
  }

  /** Every table goes where it was planned exactly when the last of them starts below four gigabytes. */
  lemma TablesInPlace(p: Plan, text: Segment, data: Option<Segment>, t: Tables)
    requires Placed(p, text, data, t)
    ensures (Abs(p.rebase) == p.rebase && Abs(p.bind) == p.bind && Abs(p.trie) == p.trie && Abs(p.symtab) == p.symtab
             && Abs(p.strings) == p.strings) <==> p.strings < TWO32
  {
    assert p.rebase <= p.bind <= p.trie <= p.symtab <= p.strings;
  }

  /** With 2^28 symbols or more the string table is never where the header says. */
  lemma ManySymbolsMisplaced(p: Plan, text: Segment, data: Option<Segment>, t: Tables)
    requires Placed(p, text, data, t) && t.nsyms >= 0x1000_0000
    ensures Abs(p.strings) != p.strings
  {
    assert p.strings >= 16 * t.nsyms >= TWO32;
  }

  datatype Piece = Piece(lo: nat, bytes: seq<byte>)

  /** The pieces follow one another from `floor` on and end before `end`. */
  predicate Ordered(ps: seq<Piece>, floor: nat, end: nat)
    decreases |ps|
  {
    if ps == [] then floor <= end
    else floor <= ps[0].lo && Ordered(ps[1..], ps[0].lo + |ps[0].bytes|, end)
  }

  ghost predicate AllThere(b: seq<byte>, ps: seq<Piece>) {
    forall i :: 0 <= i < |ps| ==> HasAt(b, ps[i].lo, ps[i].bytes)
  }

  lemma {:induction false} OrderedEnd(ps: seq<Piece>, floor: nat, end: nat)
    requires Ordered(ps, floor, end)
    ensures floor <= end
    decreases |ps|
  {
    if ps != [] {
      OrderedEnd(ps[1..], ps[0].lo + |ps[0].bytes|, end);
    }
  }

  ghost predicate InRange(ps: seq<Piece>, end: nat) {
    forall i :: 0 <= i < |ps| ==> ps[i].lo + |ps[i].bytes| <= end
  }

  /** Writes the pieces one after another; in order, they are all there and what lies below the first stays. */
  method WritePieces(out: array<byte>, ps: seq<Piece>, ghost floor: nat)
    requires InRange(ps, out.Length)
    modifies out
    ensures Ordered(ps, floor, out.Length) ==> AllThere(out[..], ps)
    ensures Ordered(ps, floor, out.Length) ==> floor <= out.Length && out[..floor] == old(out[..floor])
    decreases |ps|
  {
    if ps == [] {
      return;
    }
    var lo, bytes := ps[0].lo, ps[0].bytes;
    ghost var m0 := out[..];
    var next := WriteBytes(out, lo, bytes);
    ghost var m1 := out[..];
    WritePieces(out, ps[1..], next);
    if Ordered(ps, floor, out.Length) {
      OrderedEnd(ps[1..], next, out.Length);
      PatchElsewhere(m0, lo, bytes, 0, floor);
      KeptBelow(m1, out[..], next, lo, bytes);
      assert out[..floor] == out[..next][..floor] == m1[..floor];
      AllThereFront(out[..], ps);
    }
  }

  lemma KeptBelow(m: seq<byte>, n: seq<byte>, floor: nat, lo: nat, bytes: seq<byte>)
    requires floor <= |m| == |n| && n[..floor] == m[..floor] && lo + |bytes| <= floor && HasAt(m, lo, bytes)
    ensures HasAt(n, lo, bytes)
  {
    assert n[lo..lo + |bytes|] == n[..floor][lo..lo + |bytes|] == m[..floor][lo..lo + |bytes|] == m[lo..lo + |bytes|];
  }

  lemma AllThereFront(b: seq<byte>, ps: seq<Piece>)
    requires ps != [] && HasAt(b, ps[0].lo, ps[0].bytes) && AllThere(b, ps[1..])
    ensures AllThere(b, ps)
  {
    forall i | 0 <= i < |ps|
      ensures HasAt(b, ps[i].lo, ps[i].bytes)
    {
      assert i > 0 ==> ps[i] == ps[1..][i - 1];
    }
  }

  /** The contents of a file. */
  datatype Contents = Contents(text: seq<byte>, data: seq<byte>, rebase: seq<byte>, bind: seq<byte>, trie: seq<byte>,
                               symtab: seq<byte>, strings: seq<byte>)

  predicate Holds(c: Contents, text: Segment, data: Option<Segment>, t: Tables) {
    && |c.text| == text.filesz && (data.Some? ==> |c.data| == data.value.filesz)
    && |c.rebase| == t.rebase && |c.bind| == t.bind && |c.trie| == t.trie && |c.symtab| == 16 * t.nsyms
    && |c.strings| == t.strings
  }

  /** The tables, at their 32-bit offsets. */
  function TablePieces(p: Plan, c: Contents): seq<Piece> {
    [ Piece(Abs(p.rebase), c.rebase), Piece(Abs(p.bind), c.bind), Piece(Abs(p.trie), c.trie),
      Piece(Abs(p.symtab), c.symtab), Piece(Abs(p.strings), c.strings) ]
  }

  lemma TablesOrdered(p: Plan, c: Contents, text: Segment, data: Option<Segment>, t: Tables)
    requires Placed(p, text, data, t) && Holds(c, text, data, t)
    ensures Ordered([ Piece(p.rebase, c.rebase), Piece(p.bind, c.bind), Piece(p.trie, c.trie),
                      Piece(p.symtab, c.symtab), Piece(p.strings, c.strings) ], p.linkedit, p.total)
  {
    var e := Piece(p.strings, c.strings);
    var d, g, b, a := Piece(p.symtab, c.symtab), Piece(p.trie, c.trie), Piece(p.bind, c.bind), Piece(p.rebase, c.rebase);
    OrderedFront(e, [], p.symtab + |c.symtab|, p.total);
    OrderedFront(d, [e], p.trie + |c.trie|, p.total);
    OrderedFront(g, [d, e], p.bind + |c.bind|, p.total);
    OrderedFront(b, [g, d, e], p.rebase + |c.rebase|, p.total);
    OrderedFront(a, [b, g, d, e], p.linkedit, p.total);
    assert [a] + [b, g, d, e] == [a, b, g, d, e];
  }

  lemma AbsBelow(x: nat)
    ensures Abs(x) <= x
  {
  }

  lemma TablesInRange(p: Plan, c: Contents, text: Segment, data: Option<Segment>, t: Tables)
    requires Placed(p, text, data, t) && Holds(c, text, data, t)
    ensures InRange(TablePieces(p, c), p.total)
  {
    AbsBelow(p.rebase);
    AbsBelow(p.bind);
    AbsBelow(p.trie);
    AbsBelow(p.symtab);
    AbsBelow(p.strings);
  }

  /** No table is written outside the file, and below four gigabytes none meets another. */
  lemma PiecesOrdered(p: Plan, c: Contents, text: Segment, data: Option<Segment>, t: Tables)
    requires Placed(p, text, data, t) && Holds(c, text, data, t)
    ensures InRange(TablePieces(p, c), p.total)
    ensures p.strings < TWO32 ==> Ordered(TablePieces(p, c), p.linkedit, p.total)
  {
    TablesInRange(p, c, text, data, t);
    TablesInPlace(p, text, data, t);
    TablesOrdered(p, c, text, data, t);
  }

  lemma OrderedFront(x: Piece, ps: seq<Piece>, floor: nat, end: nat)
    requires floor <= x.lo && Ordered(ps, x.lo + |x.bytes|, end)
    ensures Ordered([x] + ps, floor, end)
  {
    assert ([x] + ps)[1..] == ps;
  }

  lemma {:induction false} OrderedAbove(ps: seq<Piece>, floor: nat, end: nat, i: nat)
    requires Ordered(ps, floor, end) && i < |ps|
    ensures floor <= ps[i].lo && ps[i].lo + |ps[i].bytes| <= end
    decreases |ps|
  {
    OrderedEnd(ps[1..], ps[0].lo + |ps[0].bytes|, end);
    if i > 0 {
      OrderedAbove(ps[1..], ps[0].lo + |ps[0].bytes|, end, i - 1);
    }
  }

  lemma StillThere(m: seq<byte>, n: seq<byte>, wp: nat, ps: seq<Piece>, floor: nat)
    requires wp <= floor && |m| == |n| && wp <= |m| && n[wp..] == m[wp..]
    requires AllThere(m, ps) && Ordered(ps, floor, |m|)
    ensures AllThere(n, ps)
  {
    forall i | 0 <= i < |ps|
      ensures HasAt(n, ps[i].lo, ps[i].bytes)
    {
      OrderedAbove(ps, floor, |m|, i);
      KeptAbove(m, n, wp, ps[i].lo, ps[i].bytes);
    }
  }

  lemma KeptAbove(m: seq<byte>, n: seq<byte>, wp: nat, lo: nat, bytes: seq<byte>)
    requires wp <= |m| == |n| && n[wp..] == m[wp..] && wp <= lo && HasAt(m, lo, bytes)
    ensures HasAt(n, lo, bytes)
  {
    var k := lo + |bytes|;
    forall i | lo <= i < k
      ensures n[i] == m[i]
    {
      assert n[i] == n[wp..][i - wp] && m[i] == m[wp..][i - wp];
    }
    assert n[lo..k] == m[lo..k];
  }
}
