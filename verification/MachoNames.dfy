/**
 What else the load commands say: the library's own name, those it needs and where to look
 for them, the platform, and which symbols are external and which undefined.
 */
module MachoNames {
  import opened Common
  import opened LittleEndian
  import opened MachoHeader
  import opened MachoFields

  const LC_LOAD_DYLIB: nat := 0x0C
  const LC_ID_DYLIB: nat := 0x0D
  const LC_RPATH: nat := 0x8000001C

  // ----- a reader -----

  /** The bytes from `p` up to the next zero. */
  function StringAt(b: seq<byte>, p: nat): seq<byte>
    decreases |b| - p
  {
    if p >= |b| || b[p] == 0 then [] else [b[p]] + StringAt(b, p + 1)
  }

  /** The strings of the commands of a kind, in order; the word after kind and size says where the string begins. */
  function NamesIn(cmds: seq<seq<byte>>, kind: nat): seq<seq<byte>> {
    if cmds == [] then []
    else if IsKind(cmds[0], kind) && |cmds[0]| >= 12 then [StringAt(cmds[0], U32(cmds[0], 8))] + NamesIn(cmds[1..], kind)
    else NamesIn(cmds[1..], kind)
  }

  function Names(b: seq<byte>, kind: nat): Option<seq<seq<byte>>> {
    match CommandsOf(b)
    case None => None
    case Some(cmds) => Some(NamesIn(cmds, kind))
  }

  lemma {:induction false} StringRead(b: seq<byte>, p: nat, s: seq<byte>)
    requires HasAt(b, p, s + [0]) && 0 !in s
    ensures StringAt(b, p) == s
    decreases |s|
  {
    var w := b[p..p + |s| + 1];
    assert b[p] == w[0] == (s + [0])[0];
    if s != [] {
      assert s + [0] == [s[0]] + (s[1..] + [0]);
      HasAtSplit(b, p, [s[0]], s[1..] + [0]);
      assert s[0] in s;
      StringRead(b, p + 1, s[1..]);
    }
  }

  // ----- on commands -----

  /** The same, of commands not yet encoded. */
  function TextsOf(cs: seq<Command>, kind: nat): seq<seq<byte>> {
    if cs == [] then []
    else if cs[0].kind == kind && cs[0].Named? then [cs[0].text] + TextsOf(cs[1..], kind)
    else TextsOf(cs[1..], kind)
  }

  /** The command's string begins where its first word says. */
  ghost predicate Nameable(c: Command, ws: seq<nat>) {
    && c.Named? && ws != [] && c.body == Words(ws) && ws[0] == 8 + |c.body| < TWO32 && 0 !in c.text
  }

  lemma NamePlaced(c: Command)
    requires c.Named?
    ensures HasAt(Encode(c), 8, c.body) && HasAt(Encode(c), 8 + |c.body|, c.text + [0])
  {
    EncodeIsFront(c);
    var front, rest := Front(c), Zeros(Size(c) - |Front(c)| - |c.text| - 1);
    assert HasAt(Encode(c), 0, front + (c.text + [0]) + rest);
    HasAtSplit(Encode(c), 0, front + (c.text + [0]), rest);
    HasAtSplit(Encode(c), 0, front, c.text + [0]);
    HasAtSplit(Encode(c), 0, Le(c.kind, 4) + Le(Size(c), 4), c.body);
  }

  lemma NameRead(c: Command, ws: seq<nat>)
    requires Nameable(c, ws)
    ensures |Encode(c)| >= 12 && StringAt(Encode(c), U32(Encode(c), 8)) == c.text
  {
    NamePlaced(c);
    WordsRead(Encode(c), 8, ws, 0);
    StringRead(Encode(c), 8 + |c.body|, c.text);
  }

  ghost predicate AllNameable(cs: seq<Command>, kind: nat, ws: seq<nat>) {
    forall c :: c in cs && c.kind == kind ==> Nameable(c, ws)
  }

  lemma {:induction false} NamesAreTexts(cs: seq<Command>, kind: nat, ws: seq<nat>)
    requires KindsFit(cs) && AllNameable(cs, kind, ws)
    ensures NamesIn(Encodings(cs), kind) == TextsOf(cs, kind)
    decreases |cs|
  {
    if cs != [] {
      EncodingsTail(cs);
      assert cs[0] in cs && forall c :: c in cs[1..] ==> c in cs;
      KindRead(cs[0], kind);
      if cs[0].kind == kind {
        NameRead(cs[0], ws);
      }
      NamesAreTexts(cs[1..], kind, ws);
    }
  }

  lemma {:induction false} TextsAppend(a: seq<Command>, b: seq<Command>, kind: nat)
    ensures TextsOf(a + b, kind) == TextsOf(a, kind) + TextsOf(b, kind)
    decreases |a|
  {
    if a == [] {
      assert a + b == b;
    } else {
      assert (a + b)[1..] == a[1..] + b;
      TextsAppend(a[1..], b, kind);
    }
  }

  lemma {:induction false} NoTexts(cs: seq<Command>, kind: nat)
    requires forall c :: c in cs ==> c.kind != kind
    ensures TextsOf(cs, kind) == []
    decreases |cs|
  {
    if cs != [] {
      assert cs[0] in cs && forall c :: c in cs[1..] ==> c in cs;
      NoTexts(cs[1..], kind);
    }
  }

  /** Between commands of other kinds, the texts of these. */
  lemma TextsBetween(a: seq<Command>, b: seq<Command>, c: seq<Command>, kind: nat)
    requires forall x :: x in a || x in c ==> x.kind != kind
    ensures TextsOf(a + b + c, kind) == TextsOf(b, kind)
  {
    TextsAppend(a + b, c, kind);
    TextsAppend(a, b, kind);
    NoTexts(a, kind);
    NoTexts(c, kind);
  }

  function LibraryNames(names: seq<seq<byte>>): (r: seq<seq<byte>>)
    ensures |r| == |names|
  {
    seq(|names|, i requires 0 <= i < |names| => LibraryName(names[i]))
  }

  lemma {:induction false} AllTexts(cs: seq<Command>, kind: nat)
    requires forall i :: 0 <= i < |cs| ==> cs[i].Named? && cs[i].kind == kind
    ensures |TextsOf(cs, kind)| == |cs| && forall i :: 0 <= i < |cs| ==> TextsOf(cs, kind)[i] == cs[i].text
    decreases |cs|
  {
    if cs != [] {
      AllTexts(cs[1..], kind);
    }
  }

  lemma LoadTexts(f: Fields, names: seq<seq<byte>>)
    ensures TextsOf(LoadCommands(f, names), LC_LOAD_DYLIB) == LibraryNames(names)
  {
    AllTexts(LoadCommands(f, names), LC_LOAD_DYLIB);
  }

  lemma LoadKinds(f: Fields, names: seq<seq<byte>>)
    ensures forall c :: c in LoadCommands(f, names) ==>
      c.kind == LC_LOAD_DYLIB && exists n :: n in names && c == Named(LC_LOAD_DYLIB, f.load, LibraryName(n))
  {
    forall c | c in LoadCommands(f, names)
      ensures c.kind == LC_LOAD_DYLIB
      ensures exists n :: n in names && c == Named(LC_LOAD_DYLIB, f.load, LibraryName(n))
    {
      var i :| 0 <= i < |names| && LoadCommands(f, names)[i] == c;
      assert names[i] in names;
    }
  }

  function Paths(f: Fields, names: seq<seq<byte>>): seq<Command> {
    if names == [] then [] else PathCommands(f, SearchPaths())
  }

  lemma PathKinds(f: Fields, names: seq<seq<byte>>)
    ensures forall c :: c in Paths(f, names) ==>
      c.kind == LC_RPATH && exists s :: s in SearchPaths() && c == Named(LC_RPATH, f.rpath, Ascii(s))
  {
    forall c | c in Paths(f, names)
      ensures c.kind == LC_RPATH
      ensures exists s :: s in SearchPaths() && c == Named(LC_RPATH, f.rpath, Ascii(s))
    {
      var i :| 0 <= i < 5 && PathCommands(f, SearchPaths())[i] == c;
      assert SearchPaths()[i] in SearchPaths();
    }
  }

  lemma LastKinds(f: Fields)
    ensures forall c :: c in LastCommands(f) ==> c.kind in {0x80000022, 0x02, 0x0B, 0x80000033, 0x1D}
  {
  }

  /** All commands, in the four groups that they are written in. */
  lemma Groups(f: Fields, hasData: bool, base: seq<byte>, names: seq<seq<byte>>)
    ensures AllCommands(f, hasData, base, names) ==
      FirstCommands(f, hasData, base) + LoadCommands(f, names) + (Paths(f, names) + LastCommands(f))
    ensures AllCommands(f, hasData, base, names) ==
      (FirstCommands(f, hasData, base) + LoadCommands(f, names)) + Paths(f, names) + LastCommands(f)
  {
  }

  /** Each kind of command that has a string is in one group. */
  lemma AllKinds(f: Fields, hasData: bool, base: seq<byte>, names: seq<seq<byte>>, c: Command)
    requires c in AllCommands(f, hasData, base, names)
    ensures c.kind == LC_LOAD_DYLIB ==> c in LoadCommands(f, names)
    ensures c.kind == LC_RPATH ==> c in Paths(f, names)
    ensures c.kind == LC_ID_DYLIB ==> c in FirstCommands(f, hasData, base)
  {
    Groups(f, hasData, base, names);
    FirstKinds(f, hasData, base);
    LoadKinds(f, names);
    PathKinds(f, names);
    LastKinds(f);
  }

  // ----- what a reader is told -----

  /** Each needed library is asked for by its name, in order. */
  lemma LibrariesFollowed(b: seq<byte>, f: Fields, hasData: bool, base: seq<byte>, names: seq<seq<byte>>)
    requires Loads(b, AllCommands(f, hasData, base, names)) && f.load == Words([24, 1, 0x10000, 0x10000])
    requires forall n :: n in names ==> 0 !in LibraryName(n)
    ensures Names(b, LC_LOAD_DYLIB) == Some(LibraryNames(names))
  {
    var cs := AllCommands(f, hasData, base, names);
    CommandsFound(b, cs);
    AllKindsFit(f, hasData, base, names);
    LibrariesNameable(f, hasData, base, names);
    NamesAreTexts(cs, LC_LOAD_DYLIB, [24, 1, 0x10000, 0x10000]);
    LibraryTexts(f, hasData, base, names);
  }

  lemma LibrariesNameable(f: Fields, hasData: bool, base: seq<byte>, names: seq<seq<byte>>)
    requires f.load == Words([24, 1, 0x10000, 0x10000]) && forall n :: n in names ==> 0 !in LibraryName(n)
    ensures AllNameable(AllCommands(f, hasData, base, names), LC_LOAD_DYLIB, [24, 1, 0x10000, 0x10000])
  {
    LoadKinds(f, names);
    forall c | c in AllCommands(f, hasData, base, names) && c.kind == LC_LOAD_DYLIB
      ensures Nameable(c, [24, 1, 0x10000, 0x10000])
    {
      AllKinds(f, hasData, base, names, c);
    }
  }

  lemma LibraryTexts(f: Fields, hasData: bool, base: seq<byte>, names: seq<seq<byte>>)
    ensures TextsOf(AllCommands(f, hasData, base, names), LC_LOAD_DYLIB) == LibraryNames(names)
  {
    Groups(f, hasData, base, names);
    FirstKinds(f, hasData, base);
    PathKinds(f, names);
    LastKinds(f);
    TextsBetween(FirstCommands(f, hasData, base), LoadCommands(f, names), Paths(f, names) + LastCommands(f), LC_LOAD_DYLIB);
    LoadTexts(f, names);
  }

  /** The five search paths. */
  function PathTexts(): (r: seq<seq<byte>>)
    ensures |r| == 5
  {
    seq(5, i requires 0 <= i < 5 => Ascii(SearchPaths()[i]))
  }

  lemma SearchTexts(f: Fields)
    ensures TextsOf(PathCommands(f, SearchPaths()), LC_RPATH) == PathTexts()
  {
    AllTexts(PathCommands(f, SearchPaths()), LC_RPATH);
  }

  lemma NoZeroInPaths(s: string)
    requires s in SearchPaths()
    ensures 0 !in Ascii(s)
  {
  }

  lemma PathsNameable(f: Fields, hasData: bool, base: seq<byte>, names: seq<seq<byte>>)
    requires f.rpath == Words([12])
    ensures AllNameable(AllCommands(f, hasData, base, names), LC_RPATH, [12])
  {
    PathKinds(f, names);
    forall c | c in AllCommands(f, hasData, base, names) && c.kind == LC_RPATH
      ensures Nameable(c, [12])
    {
      AllKinds(f, hasData, base, names, c);
      var s :| s in SearchPaths() && c == Named(LC_RPATH, f.rpath, Ascii(s));
      NoZeroInPaths(s);
    }
  }

  /** The search paths are there exactly when something is searched for. */
  lemma PathsFollowed(b: seq<byte>, f: Fields, hasData: bool, base: seq<byte>, names: seq<seq<byte>>)
    requires Loads(b, AllCommands(f, hasData, base, names)) && f.rpath == Words([12])
    ensures Names(b, LC_RPATH) == Some(if names == [] then [] else PathTexts())
  {
    var cs := AllCommands(f, hasData, base, names);
    CommandsFound(b, cs);
    AllKindsFit(f, hasData, base, names);
    PathsNameable(f, hasData, base, names);
    NamesAreTexts(cs, LC_RPATH, [12]);
    PathsSaid(f, hasData, base, names);
  }

  lemma PathsSaid(f: Fields, hasData: bool, base: seq<byte>, names: seq<seq<byte>>)
    ensures TextsOf(AllCommands(f, hasData, base, names), LC_RPATH) == if names == [] then [] else PathTexts()
  {
    Groups(f, hasData, base, names);
    FirstKinds(f, hasData, base);
    LoadKinds(f, names);
    LastKinds(f);
    TextsBetween(FirstCommands(f, hasData, base) + LoadCommands(f, names), Paths(f, names), LastCommands(f), LC_RPATH);
    SearchTexts(f);
  }

  /** The library says its own name once. */
  lemma OwnNameFollowed(b: seq<byte>, f: Fields, hasData: bool, base: seq<byte>, names: seq<seq<byte>>)
    requires Loads(b, AllCommands(f, hasData, base, names)) && f.id == Words([24, 1, 0x10000, 0x10000])
    requires 0 !in LibraryName(base)
    ensures Names(b, LC_ID_DYLIB) == Some([LibraryName(base)])
  {
    var cs := AllCommands(f, hasData, base, names);
    CommandsFound(b, cs);
    AllKindsFit(f, hasData, base, names);
    forall c | c in cs && c.kind == LC_ID_DYLIB
      ensures Nameable(c, [24, 1, 0x10000, 0x10000])
    {
      AllKinds(f, hasData, base, names, c);
    }
    NamesAreTexts(cs, LC_ID_DYLIB, [24, 1, 0x10000, 0x10000]);
    OwnNameSaid(f, hasData, base, names);
  }

  lemma OwnNameFirst(f: Fields, hasData: bool, base: seq<byte>)
    ensures TextsOf(FirstCommands(f, hasData, base), LC_ID_DYLIB) == [LibraryName(base)]
  {
    var a := [Fixed(0x19, f.text)] + (if hasData then [Fixed(0x19, f.data)] else []) + [Fixed(0x19, f.linkedit)];
    var b := [Named(0x0D, f.id, LibraryName(base))];
    var c := [Fixed(0x32, f.build), Fixed(0x1B, f.uuid)];
    assert FirstCommands(f, hasData, base) == a + b + c;
    TextsBetween(a, b, c, LC_ID_DYLIB);
    assert b[1..] == [];
  }

  lemma TextsFirst(a: seq<Command>, b: seq<Command>, c: seq<Command>, kind: nat)
    requires forall x :: x in b || x in c ==> x.kind != kind
    ensures TextsOf(a + b + c, kind) == TextsOf(a, kind)
  {
    TextsAppend(a + b, c, kind);
    TextsAppend(a, b, kind);
    NoTexts(b, kind);
    NoTexts(c, kind);
  }

  lemma OwnNameSaid(f: Fields, hasData: bool, base: seq<byte>, names: seq<seq<byte>>)
    ensures TextsOf(AllCommands(f, hasData, base, names), LC_ID_DYLIB) == [LibraryName(base)]
  {
    var first, loads, rest := FirstCommands(f, hasData, base), LoadCommands(f, names), Paths(f, names) + LastCommands(f);
    Groups(f, hasData, base, names);
    LoadKinds(f, names);
    PathKinds(f, names);
    LastKinds(f);
    TextsFirst(first, loads, rest, LC_ID_DYLIB);
    OwnNameFirst(f, hasData, base);
  }

  // ----- numbers -----

  const LC_BUILD_VERSION: nat := 0x32
  const LC_DYSYMTAB: nat := 0x0B

  lemma RangesFound(f: Fields, hasData: bool, base: seq<byte>, names: seq<seq<byte>>)
    ensures FirstKind(AllCommands(f, hasData, base, names), LC_DYSYMTAB) == Some(Fixed(LC_DYSYMTAB, f.dysymtab))
  {
    EarlyThenLast(f, hasData, base, names);
    var early, last := Early(f, hasData, base, names), LastCommands(f);
    forall i | 0 <= i < |early|
      ensures early[i].kind != LC_DYSYMTAB
    {
      EarlyKinds(f, hasData, base, names, i);
    }
    FirstKindPast(early, last, LC_DYSYMTAB);
    FirstKindPast(last[..2], last[2..], LC_DYSYMTAB);
    assert last == last[..2] + last[2..];
  }

  lemma PlatformFound(f: Fields, hasData: bool, base: seq<byte>, names: seq<seq<byte>>)
    ensures FirstKind(AllCommands(f, hasData, base, names), LC_BUILD_VERSION) == Some(Fixed(LC_BUILD_VERSION, f.build))
  {
    var first := FirstCommands(f, hasData, base);
    var k := if hasData then 4 else 3;
    var rest := first[k..] + LoadCommands(f, names) + (Paths(f, names) + LastCommands(f));
    Groups(f, hasData, base, names);
    assert AllCommands(f, hasData, base, names) == first[..k] + rest;
    assert rest[0] == Fixed(LC_BUILD_VERSION, f.build);
    FirstKindPast(first[..k], rest, LC_BUILD_VERSION);
  }

  /** The platform and the ranges of symbols are those given. */
  lemma NumbersFollowed(b: seq<byte>, f: Fields, hasData: bool, base: seq<byte>, names: seq<seq<byte>>, build: seq<nat>,
                        ranges: seq<nat>)
    requires Loads(b, AllCommands(f, hasData, base, names)) && f.build == Words(build) && f.dysymtab == Words(ranges)
    requires |build| == 4 && |ranges| == 18 && build[0] < TWO32 && build[1] < TWO32
    requires forall i :: 2 <= i < 6 ==> ranges[i] < TWO32
    ensures Locate(b, LC_BUILD_VERSION, 8) == Some((build[0], build[1]))
    ensures Locate(b, LC_DYSYMTAB, 16) == Some((ranges[2], ranges[3]))
    ensures Locate(b, LC_DYSYMTAB, 24) == Some((ranges[4], ranges[5]))
  {
    var cs := AllCommands(f, hasData, base, names);
    AllKindsFit(f, hasData, base, names);
    RangesFound(f, hasData, base, names);
    PlatformFound(f, hasData, base, names);
    CommandShows(b, cs, LC_BUILD_VERSION, build);
    CommandShows(b, cs, LC_DYSYMTAB, ranges);
    Located(b, LC_BUILD_VERSION, build, 0);
    Located(b, LC_DYSYMTAB, ranges, 2);
    Located(b, LC_DYSYMTAB, ranges, 4);
  }
}
