/**
 The header of the converted image: the command counts computed beforehand, the load
 commands written one after another, and the walk a loader makes over them.
 */
module MachoHeader {
  import opened Common
  import opened LittleEndian

  const PAGE: nat := 0x4000
  const MAX_NEEDED: nat := 16
  const NAME_ROOM: nat := 255

  function Align8(x: nat): (r: nat)
    ensures x <= r < x + 8 && r % 8 == 0
  {
    (x + 7) / 8 * 8
  }

  /** A load command: fixed fields after the kind and the size, and perhaps a string after them. */
  datatype Command = Fixed(kind: nat, body: seq<byte>) | Named(kind: nat, body: seq<byte>, text: seq<byte>)

  function Size(c: Command): nat {
    match c
    case Fixed(_, body) => 8 + |body|
    case Named(_, body, text) => Align8(8 + |body| + |text| + 1)
  }

  function Zeros(n: nat): (r: seq<byte>)
    ensures |r| == n
  {
    seq<byte>(n, i => 0)
  }

  function Encode(c: Command): (r: seq<byte>)
    ensures |r| == Size(c)
  {
    Le(c.kind, 4) + Le(Size(c), 4) + Rest(c)
  }

  function Rest(c: Command): (r: seq<byte>)
    ensures |r| == Size(c) - 8
  {
    match c
    case Fixed(_, body) => body
    case Named(_, body, text) => body + (text + [0]) + Zeros(Size(c) - 8 - |body| - |text| - 1)
  }

  function Encodings(cs: seq<Command>): (r: seq<seq<byte>>)
    ensures |r| == |cs|
  {
    seq(|cs|, i requires 0 <= i < |cs| => Encode(cs[i]))
  }

  function Join(bs: seq<seq<byte>>): (r: seq<byte>)
    decreases |bs|
  {
    if bs == [] then [] else Join(bs[..|bs| - 1]) + bs[|bs| - 1]
  }

  function SizeAll(cs: seq<Command>): nat
    decreases |cs|
  {
    if cs == [] then 0 else SizeAll(cs[..|cs| - 1]) + Size(cs[|cs| - 1])
  }

  // ----- a loader's walk -----

  /** The next `n` commands from `p`, each as long as its own size field says; `None` if one runs out of the buffer. */
  function Commands(b: seq<byte>, p: nat, n: nat): (r: Option<seq<seq<byte>>>)
    decreases n
  {
    if n == 0 then Some([])
    else if p + 8 > |b| then None
    else
      var size := FromLe(b[p + 4..p + 8]);
      if size < 8 || p + size > |b| then None
      else match Commands(b, p + size, n - 1)
        case None => None
        case Some(rest) => Some([b[p..p + size]] + rest)
  }

  lemma {:induction false} JoinFront(x: seq<byte>, bs: seq<seq<byte>>)
    ensures Join([x] + bs) == x + Join(bs)
    decreases |bs|
  {
    var all := [x] + bs;
    if bs == [] {
      assert all[..0] == [] && Join(all) == [] + x;
    } else {
      var most, last := bs[..|bs| - 1], bs[|bs| - 1];
      assert all[..|all| - 1] == [x] + most;
      JoinFront(x, most);
      assert x + Join(most) + last == x + (Join(most) + last);
    }
  }

  /** A command whose size field is right. */
  ghost predicate WellSized(x: seq<byte>) {
    8 <= |x| && FromLe(x[4..8]) == |x|
  }

  lemma EncodeWellSized(c: Command)
    requires Size(c) < TWO32
    ensures WellSized(Encode(c))
  {
    Pow256Widths();
    FromLeLe(Size(c), 4);
    assert Encode(c)[4..8] == Le(Size(c), 4);
  }

  lemma SizeFieldOf(b: seq<byte>, p: nat, x: seq<byte>)
    requires HasAt(b, p, x) && WellSized(x)
    ensures p + 8 <= |b| && FromLe(b[p + 4..p + 8]) == |x|
  {
    assert x == x[..4] + x[4..8] + x[8..];
    HasAtSplit(b, p, x[..4] + x[4..8], x[8..]);
    HasAtSplit(b, p, x[..4], x[4..8]);
  }

  /** Walking commands that lie one after another finds each of them, whole and in order. */
  lemma {:induction false} CommandsWritten(b: seq<byte>, p: nat, bs: seq<seq<byte>>)
    requires HasAt(b, p, Join(bs)) && forall i :: 0 <= i < |bs| ==> WellSized(bs[i])
    ensures Commands(b, p, |bs|) == Some(bs)
    decreases |bs|
  {
    if bs != [] {
      var x, rest := bs[0], bs[1..];
      assert bs == [x] + rest;
      JoinFront(x, rest);
      HasAtSplit(b, p, x, Join(rest));
      SizeFieldOf(b, p, x);
      CommandsWritten(b, p + |x|, rest);
    }
  }

  lemma {:induction false} JoinSize(cs: seq<Command>)
    ensures |Join(Encodings(cs))| == SizeAll(cs)
    decreases |cs|
  {
    if cs != [] {
      var most := cs[..|cs| - 1];
      JoinSize(most);
      assert Encodings(cs)[..|cs| - 1] == Encodings(most);
    }
  }

  // ----- the commands of one image -----

  /** The fields of each command, apart from kind and size. */
  datatype Fields = Fields(text: seq<byte>, data: seq<byte>, linkedit: seq<byte>, id: seq<byte>, build: seq<byte>,
                           uuid: seq<byte>, load: seq<byte>, rpath: seq<byte>, dyldInfo: seq<byte>, symtab: seq<byte>,
                           dysymtab: seq<byte>, trie: seq<byte>, signature: seq<byte>)
  {
    /** As long as the structures they fill. */
    predicate Sized() {
      && |text| == 144 && |data| == 144 && |linkedit| == 64 && |id| == 16 && |build| == 16 && |uuid| == 16
      && |load| == 16 && |rpath| == 4 && |dyldInfo| == 40 && |symtab| == 16 && |dysymtab| == 72 && |trie| == 8
      && |signature| == 8
    }
  }

  function Ascii(s: string): (b: seq<byte>)
    ensures |b| == |s|
  {
    seq<byte>(|s|, i requires 0 <= i < |s| => (s[i] as int) % 256)
  }

  /** The name a library is loaded by, in a buffer of 256 bytes. */
  function LibraryName(base: seq<byte>): (n: seq<byte>)
    ensures |n| <= NAME_ROOM
  {
    var whole := Ascii("@rpath/") + base + Ascii(".dylib");
    if |whole| <= NAME_ROOM then whole else whole[..NAME_ROOM]
  }

  function SearchPaths(): (r: seq<string>)
    ensures |r| == 5
  {
    [ "@loader_path", "@loader_path/../lib", "@loader_path/../../lib", "@loader_path/../usr/lib",
      "@loader_path/../../usr/lib" ]
  }

  /** The needed libraries whose names could be found. */
  function Found(needed: seq<Option<seq<byte>>>): (r: seq<seq<byte>>)
    ensures |r| <= |needed|
    decreases |needed|
  {
    if needed == [] then [] else
      var before := Found(needed[..|needed| - 1]);
      var last := needed[|needed| - 1];
      if last.None? then before else before + [last.value]
  }

  function LoadCommands(f: Fields, names: seq<seq<byte>>): (r: seq<Command>)
    ensures |r| == |names|
  {
    seq(|names|, i requires 0 <= i < |names| => Named(0x0C, f.load, LibraryName(names[i])))
  }

  function PathCommands(f: Fields, paths: seq<string>): (r: seq<Command>)
    ensures |r| == |paths|
  {
    seq(|paths|, i requires 0 <= i < |paths| => Named(0x8000001C, f.rpath, Ascii(paths[i])))
  }

  function FirstCommands(f: Fields, hasData: bool, base: seq<byte>): seq<Command> {
    [Fixed(0x19, f.text)] + (if hasData then [Fixed(0x19, f.data)] else []) +
    [Fixed(0x19, f.linkedit), Named(0x0D, f.id, LibraryName(base)), Fixed(0x32, f.build), Fixed(0x1B, f.uuid)]
  }

  function LastCommands(f: Fields): seq<Command> {
    [ Fixed(0x80000022, f.dyldInfo), Fixed(0x02, f.symtab), Fixed(0x0B, f.dysymtab), Fixed(0x80000033, f.trie),
      Fixed(0x1D, f.signature) ]
  }

  /** Every command, in the order written. */
  function AllCommands(f: Fields, hasData: bool, base: seq<byte>, names: seq<seq<byte>>): seq<Command> {
    FirstCommands(f, hasData, base) + LoadCommands(f, names) +
    (if names == [] then [] else PathCommands(f, SearchPaths())) + LastCommands(f)
  }

  // ----- the counts -----

  lemma {:induction false} SizeAllAppend(a: seq<Command>, b: seq<Command>)
    ensures SizeAll(a + b) == SizeAll(a) + SizeAll(b)
    decreases |b|
  {
    if b == [] {
      assert a + b == a;
    } else {
      assert (a + b)[..|a + b| - 1] == a + b[..|b| - 1];
      SizeAllAppend(a, b[..|b| - 1]);
    }
  }

  lemma SizeOne(c: Command)
    ensures SizeAll([c]) == Size(c)
  {
    assert [c][..0] == [];
  }

  lemma SizeTwo(c: Command, d: Command)
    ensures SizeAll([c, d]) == Size(c) + Size(d)
  {
    assert [c, d] == [c] + [d];
    SizeAllAppend([c], [d]);
    SizeOne(c);
    SizeOne(d);
  }

  lemma SizeFirst(f: Fields, hasData: bool, base: seq<byte>)
    requires f.Sized()
    ensures SizeAll(FirstCommands(f, hasData, base)) ==
      152 + (if hasData then 152 else 0) + 72 + Align8(24 + |LibraryName(base)| + 1) + 24 + 24
  {
    var a, d := [Fixed(0x19, f.text)], if hasData then [Fixed(0x19, f.data)] else [];
    var b, c := [Fixed(0x19, f.linkedit), Named(0x0D, f.id, LibraryName(base))], [Fixed(0x32, f.build), Fixed(0x1B, f.uuid)];
    assert FirstCommands(f, hasData, base) == a + d + b + c;
    SizeAllAppend(a + d + b, c);
    SizeAllAppend(a + d, b);
    SizeAllAppend(a, d);
    SizeOne(a[0]);
    SizeOne(Fixed(0x19, f.data));
    SizeTwo(b[0], b[1]);
    SizeTwo(c[0], c[1]);
  }

  lemma SizeLast(f: Fields)
    requires f.Sized()
    ensures SizeAll(LastCommands(f)) == 48 + 24 + 80 + 16 + 16
  {
    var all := LastCommands(f);
    SizeFive(all[0], all[1], all[2], all[3], all[4]);
  }

  lemma {:induction false} SizeLoads(f: Fields, names: seq<seq<byte>>)
    requires f.Sized()
    ensures SizeAll(LoadCommands(f, names)) <= 280 * |names|
    decreases |names|
  {
    if names != [] {
      var most := names[..|names| - 1];
      SizeLoads(f, most);
      assert LoadCommands(f, names)[..|most|] == LoadCommands(f, most);
    }
  }

  lemma SizeFive(a: Command, b: Command, c: Command, d: Command, e: Command)
    ensures SizeAll([a, b, c, d, e]) == Size(a) + Size(b) + Size(c) + Size(d) + Size(e)
  {
    assert [a, b, c, d, e] == [a, b] + [c, d] + [e];
    SizeAllAppend([a, b] + [c, d], [e]);
    SizeAllAppend([a, b], [c, d]);
    SizeTwo(a, b);
    SizeTwo(c, d);
    SizeOne(e);
  }

  lemma SizePaths(f: Fields)
    requires f.Sized()
    ensures SizeAll(PathCommands(f, SearchPaths())) == 32 + 32 + 40 + 40 + 40
  {
    var all := PathCommands(f, SearchPaths());
    SizeFive(all[0], all[1], all[2], all[3], all[4]);
    assert all == [all[0], all[1], all[2], all[3], all[4]];
  }

  /** The whole size, part by part. */
  lemma SizeParts(f: Fields, hasData: bool, base: seq<byte>, names: seq<seq<byte>>)
    ensures SizeAll(AllCommands(f, hasData, base, names)) ==
      SizeAll(FirstCommands(f, hasData, base)) + SizeAll(LoadCommands(f, names)) +
      SizeAll(if names == [] then [] else PathCommands(f, SearchPaths())) + SizeAll(LastCommands(f))
  {
    var a, b := FirstCommands(f, hasData, base), LoadCommands(f, names);
    var c, d := if names == [] then [] else PathCommands(f, SearchPaths()), LastCommands(f);
    SizeAllAppend(a + b + c, d);
    SizeAllAppend(a + b, c);
    SizeAllAppend(a, b);
  }

  /** Up to sixteen libraries, the header and its commands end within the first page. */
  lemma HeaderFits(f: Fields, hasData: bool, base: seq<byte>, names: seq<seq<byte>>)
    requires f.Sized() && |names| <= MAX_NEEDED
    ensures 32 + SizeAll(AllCommands(f, hasData, base, names)) < PAGE
  {
    SizeParts(f, hasData, base, names);
    SizeFirst(f, hasData, base);
    SizeLoads(f, names);
    SizePaths(f);
    SizeLast(f);
  }

  /** The sizes of the library commands, added up beside the list of names. */
  method MeasureLoads(f: Fields, needed: seq<Option<seq<byte>>>) returns (names: seq<seq<byte>>, size: nat)
    requires f.Sized()
    ensures names == Found(needed) && size == SizeAll(LoadCommands(f, names))
  {
    names, size := [], 0;
    var j := 0;
    while j < |needed|
      invariant 0 <= j <= |needed| && names == Found(needed[..j]) && size == SizeAll(LoadCommands(f, names))
    {
      assert needed[..j + 1][..j] == needed[..j];
      if needed[j].Some? {
        var name := LibraryName(needed[j].value);
        ghost var more := names + [needed[j].value];
        assert LoadCommands(f, more)[..|names|] == LoadCommands(f, names);
        names := names + [needed[j].value];
        size := size + Align8(24 + |name| + 1);
      }
      j := j + 1;
    }
    assert needed[..|needed|] == needed;
  }

  method MeasurePaths(f: Fields, paths: seq<string>) returns (size: nat)
    requires f.Sized()
    ensures size == SizeAll(PathCommands(f, paths))
  {
    size := 0;
    var j := 0;
    while j < |paths|
      invariant 0 <= j <= |paths| && size == SizeAll(PathCommands(f, paths[..j]))
    {
      assert PathCommands(f, paths[..j + 1])[..j] == PathCommands(f, paths[..j]);
      size := size + Align8(12 + |paths[j]| + 1);
      j := j + 1;
    }
    assert paths[..|paths|] == paths;
  }

  /** The counts put into the header, before any command is written. */
  method Measure(f: Fields, hasData: bool, base: seq<byte>, needed: seq<Option<seq<byte>>>)
    returns (names: seq<seq<byte>>, ncmds: nat, sizeofcmds: nat)
    requires f.Sized()
    ensures names == Found(needed)
    ensures ncmds == |AllCommands(f, hasData, base, names)|
    ensures sizeofcmds == SizeAll(AllCommands(f, hasData, base, names))
  {
    var loads;
    names, loads := MeasureLoads(f, needed);
    ncmds := 1 + (if hasData then 1 else 0) + 1 + 8 + |names| + (if |names| > 0 then 5 else 0);
    sizeofcmds := 152 + (if hasData then 152 else 0) + 72 + Align8(24 + |LibraryName(base)| + 1) +
      24 + 24 + 48 + 24 + 80 + 16 + 16;
    sizeofcmds := sizeofcmds + loads;
    SizeParts(f, hasData, base, names);
    SizeFirst(f, hasData, base);
    SizeLast(f);
    if |names| > 0 {
      var paths := MeasurePaths(f, SearchPaths());
      sizeofcmds := sizeofcmds + paths;
    }
  }

  // ----- writing -----

  method WriteBytes(out: array<byte>, wp: nat, data: seq<byte>) returns (next: nat)
    requires wp + |data| <= out.Length
    modifies out
    ensures next == wp + |data| && out[..] == Patch(old(out[..]), wp, data)
  {
    var i := 0;
    while i < |data|
      invariant 0 <= i <= |data|
      invariant out[..] == old(out[..wp]) + data[..i] + old(out[wp + i..])
    {
      out[wp + i] := data[i];
      i := i + 1;
    }
    next := wp + |data|;
  }

  method WriteTwo(out: array<byte>, wp: nat, x: seq<byte>, y: seq<byte>) returns (next: nat)
    requires wp + |x| + |y| <= out.Length
    modifies out
    ensures next == wp + |x| + |y| && out[..] == Patch(old(out[..]), wp, x + y)
  {
    ghost var m0 := out[..];
    next := WriteBytes(out, wp, x);
    next := WriteBytes(out, next, y);
    PatchTwice(m0, wp, x, y);
  }

  /** Fixed fields, a string and padding, one after another. */
  method WriteThree(out: array<byte>, wp: nat, x: seq<byte>, y: seq<byte>, z: seq<byte>) returns (next: nat)
    requires wp + |x| + |y| + |z| <= out.Length
    modifies out
    ensures next == wp + |x| + |y| + |z| && out[..] == Patch(old(out[..]), wp, x + y + z)
  {
    ghost var m0 := out[..];
    next := WriteTwo(out, wp, x, y);
    next := WriteBytes(out, next, z);
    PatchTwice(m0, wp, x + y, z);
  }

  /** The fields before the string. */
  function Front(c: Command): seq<byte> {
    Le(c.kind, 4) + Le(Size(c), 4) + c.body
  }

  lemma EncodeIsFront(c: Command)
    ensures c.Fixed? ==> Encode(c) == Front(c)
    ensures c.Named? ==> Encode(c) == Front(c) + (c.text + [0]) + Zeros(Size(c) - |Front(c)| - |c.text| - 1)
  {
    if c.Named? {
      var a, t, z := Le(c.kind, 4) + Le(Size(c), 4), c.text + [0], Zeros(Size(c) - 8 - |c.body| - |c.text| - 1);
      assert a + (c.body + t + z) == a + c.body + t + z;
    }
  }

  method WriteCommand(out: array<byte>, wp: nat, c: Command) returns (next: nat)
    requires wp + Size(c) <= out.Length
    modifies out
    ensures next == wp + Size(c) && out[..] == Patch(old(out[..]), wp, Encode(c))
  {
    EncodeIsFront(c);
    var front := Front(c);
    match c {
      case Fixed(_, _) =>
        next := WriteBytes(out, wp, front);
      case Named(_, _, text) =>
        next := WriteThree(out, wp, front, text + [0], Zeros(Size(c) - |front| - |text| - 1));
    }
  }

  /** One more command after those written so far. */
  method WriteNext(out: array<byte>, wp: nat, c: Command, ghost m0: seq<byte>, ghost start: nat, ghost done: seq<byte>)
    returns (next: nat)
    requires |m0| == out.Length && wp == start + |done| && wp + Size(c) <= out.Length
    requires out[..] == Patch(m0, start, done)
    modifies out
    ensures next == wp + Size(c) && out[..] == Patch(m0, start, done + Encode(c))
  {
    next := WriteCommand(out, wp, c);
    PatchTwice(m0, start, done, Encode(c));
  }

  lemma {:induction false} JoinAppend(a: seq<seq<byte>>, b: seq<seq<byte>>)
    ensures Join(a + b) == Join(a) + Join(b)
    decreases |b|
  {
    if b == [] {
      assert a + b == a;
    } else {
      var most, last := b[..|b| - 1], b[|b| - 1];
      assert (a + b)[..|a + b| - 1] == a + most;
      JoinAppend(a, most);
      assert Join(a) + Join(most) + last == Join(a) + (Join(most) + last);
    }
  }

  lemma JoinUpTo(bs: seq<seq<byte>>, i: nat)
    requires i < |bs|
    ensures Join(bs[..i + 1]) == Join(bs[..i]) + bs[i] && |Join(bs[..i + 1])| <= |Join(bs)|
  {
    assert bs[..i + 1][..i] == bs[..i];
    assert bs == bs[..i + 1] + bs[i + 1..];
    JoinAppend(bs[..i + 1], bs[i + 1..]);
  }

  method WriteCommands(out: array<byte>, wp: nat, cs: seq<Command>) returns (next: nat)
    requires wp + SizeAll(cs) <= out.Length
    modifies out
    ensures next == wp + SizeAll(cs) == wp + |Join(Encodings(cs))|
    ensures out[..] == Patch(old(out[..]), wp, Join(Encodings(cs)))
  {
    next := wp;
    ghost var bs := Encodings(cs);
    JoinSize(cs);
    var i := 0;
    while i < |cs|
      invariant 0 <= i <= |cs| && next == wp + |Join(bs[..i])| <= wp + |Join(bs)|
      invariant out[..] == Patch(old(out[..]), wp, Join(bs[..i]))
    {
      JoinUpTo(bs, i);
      next := WriteNext(out, next, cs[i], old(out[..]), wp, Join(bs[..i]));
      i := i + 1;
    }
    assert bs[..|cs|] == bs;
  }

  // ----- the whole header -----

  /** The file header: sixteen bytes, the two counts, eight bytes. */
  function FileHeader(front: seq<byte>, ncmds: nat, sizeofcmds: nat, back: seq<byte>): seq<byte> {
    front + Le(ncmds, 4) + Le(sizeofcmds, 4) + back
  }

  /** What a loader finds: the counted commands fill exactly the counted bytes after the file header. */
  ghost predicate Loads(b: seq<byte>, cs: seq<Command>) {
    && 32 + SizeAll(cs) <= |b|
    && FromLe(b[16..20]) == |cs| && FromLe(b[20..24]) == SizeAll(cs)
    && Commands(b, 32, |cs|) == Some(Encodings(cs)) && HasAt(b, 32, Join(Encodings(cs)))
  }

  lemma CountsReadBack(b: seq<byte>, front: seq<byte>, ncmds: nat, sizeofcmds: nat, back: seq<byte>)
    requires |front| == 16 && |back| == 8 && ncmds < TWO32 && sizeofcmds < TWO32
    requires HasAt(b, 0, FileHeader(front, ncmds, sizeofcmds, back))
    ensures FromLe(b[16..20]) == ncmds && FromLe(b[20..24]) == sizeofcmds
  {
    HasAtSplit(b, 0, front + Le(ncmds, 4) + Le(sizeofcmds, 4), back);
    HasAtSplit(b, 0, front + Le(ncmds, 4), Le(sizeofcmds, 4));
    HasAtSplit(b, 0, front, Le(ncmds, 4));
    Pow256Widths();
    FromLeLe(ncmds, 4);
    FromLeLe(sizeofcmds, 4);
  }

  lemma {:induction false} SizeAtLeast(cs: seq<Command>, i: nat)
    requires i < |cs|
    ensures Size(cs[i]) <= SizeAll(cs)
    decreases |cs|
  {
    if i < |cs| - 1 {
      SizeAtLeast(cs[..|cs| - 1], i);
    }
  }

  lemma LoadsFrom(b: seq<byte>, cs: seq<Command>)
    requires HasAt(b, 32, Join(Encodings(cs))) && SizeAll(cs) < TWO32
    ensures Commands(b, 32, |cs|) == Some(Encodings(cs))
  {
    forall i | 0 <= i < |cs|
      ensures WellSized(Encodings(cs)[i])
    {
      SizeAtLeast(cs, i);
      EncodeWellSized(cs[i]);
    }
    CommandsWritten(b, 32, Encodings(cs));
  }

  lemma HeaderLoads(b: seq<byte>, front: seq<byte>, back: seq<byte>, cs: seq<Command>)
    requires |front| == 16 && |back| == 8 && |cs| < TWO32 && SizeAll(cs) < TWO32
    requires HasAt(b, 0, FileHeader(front, |cs|, SizeAll(cs), back)) && HasAt(b, 32, Join(Encodings(cs)))
    ensures Loads(b, cs)
  {
    JoinSize(cs);
    CountsReadBack(b, front, |cs|, SizeAll(cs), back);
    LoadsFrom(b, cs);
  }

  /** A file header and the commands after it. */
  method WriteFrame(out: array<byte>, header: seq<byte>, cs: seq<Command>) returns (wp: nat)
    requires |header| == 32 && 32 + SizeAll(cs) <= out.Length
    modifies out
    ensures wp == 32 + SizeAll(cs) && HasAt(out[..], 0, header) && HasAt(out[..], 32, Join(Encodings(cs)))
    ensures out[wp..] == old(out[wp..])
  {
    ghost var m0 := out[..];
    wp := WriteBytes(out, 0, header);
    ghost var m1 := out[..];
    wp := WriteCommands(out, wp, cs);
    ghost var n := out.Length - wp;
    PatchElsewhere(m1, 32, Join(Encodings(cs)), 0, 32);
    PatchElsewhere(m1, 32, Join(Encodings(cs)), wp, n);
    PatchElsewhere(m0, 0, header, wp, n);
    assert out[wp..] == out[..][wp..wp + n] && m0[wp..wp + n] == old(out[wp..]);
  }

  /**
   Writes the header of an image.  A loader that trusts the counts finds every command;
   the header ends inside the first page and nothing after it is touched.
   */
  method WriteHeader(out: array<byte>, f: Fields, front: seq<byte>, back: seq<byte>, hasData: bool, base: seq<byte>,
                     needed: seq<Option<seq<byte>>>)
    returns (wp: nat)
    requires f.Sized() && |front| == 16 && |back| == 8 && |needed| <= MAX_NEEDED && PAGE <= out.Length
    modifies out
    ensures Loads(out[..], AllCommands(f, hasData, base, Found(needed)))
    ensures wp == 32 + SizeAll(AllCommands(f, hasData, base, Found(needed))) < PAGE
    ensures out[wp..] == old(out[wp..])
  {
    var names, ncmds, sizeofcmds := Measure(f, hasData, base, needed);
    HeaderFits(f, hasData, base, names);
    var cs := AllCommands(f, hasData, base, names);
    wp := WriteFrame(out, FileHeader(front, ncmds, sizeofcmds, back), cs);
    HeaderLoads(out[..], front, back, cs);
  }
}
