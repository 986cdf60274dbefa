/**
 Guest paths resolved to host paths: symbolic links are followed inside the root
 directory, at most forty of them, and `..` never leaves it.
 */
module PathResolve {
  import opened Common
  import opened PathNormalize

  const MAX_LINKS: nat := 40
  const MAX_NAMES: nat := 255

  /** What the host says about a path: no link (or nothing there), a link, or a link that cannot be read. */
  datatype Entry = Plain | Link(target: string) | Unreadable

  /** A component, and whether it lies in the store that a later link overwrites. */
  datatype Comp = Comp(text: Name, stored: bool)

  /**
   Everything a resolution depends on.  The store is copied onto itself when a second link
   is followed; `alias` is whatever a component in it then reads as.
   */
  datatype Vfs = Vfs(root: string, fs: string -> Entry, alias: (nat, nat) -> Name, pathMax: nat, hostSize: nat)

  function Host(root: string, names: seq<Name>): string {
    root + Slashed(names)
  }

  // ----- one step -----

  function ReadComp(v: Vfs, depth: nat, j: nat, c: Comp): Name {
    if c.stored then v.alias(depth, j) else c.text
  }

  function Reloaded(v: Vfs, depth: nat, cs: seq<Comp>): (r: seq<Comp>)
    ensures |r| == |cs|
  {
    seq(|cs|, j requires 0 <= j < |cs| => Comp(ReadComp(v, depth, j, cs[j]), true))
  }

  function StoreSize(cs: seq<Comp>): nat
    decreases |cs|
  {
    if cs == [] then 0 else StoreSize(cs[..|cs| - 1]) + |cs[|cs| - 1].text| + 1
  }

  function Unstored(names: seq<Name>): (r: seq<Comp>)
    ensures |r| == |names|
  {
    seq(|names|, j requires 0 <= j < |names| => Comp(names[j], false))
  }

  /** The components left after a link: its own, then those not yet walked. */
  function Expand(v: Vfs, depth: nat, link: string, rest: seq<Comp>): Option<seq<Comp>> {
    var both := Unstored(Split(link)) + rest;
    if |both| > MAX_NAMES || StoreSize(Reloaded(v, depth, both)) > v.pathMax then None else Some(Reloaded(v, depth, both))
  }

  /** Components still to walk, names entered under the root, links followed. */
  datatype Stage = Stage(cs: seq<Comp>, names: seq<Name>, depth: nat)

  predicate Dots(n: Name) {
    n == "." || n == ".."
  }

  function Here(v: Vfs, s: Stage): string
    requires s.cs != []
  {
    Host(v.root, s.names + [s.cs[0].text])
  }

  predicate AtLink(v: Vfs, s: Stage)
    requires s.cs != []
  {
    !Dots(s.cs[0].text) && v.fs(Here(v, s)).Link?
  }

  function LinkText(v: Vfs, target: string): string {
    Cut(target, if v.pathMax == 0 then 0 else v.pathMax - 1)
  }

  /** Follows a link: an absolute one starts from the root again. */
  function Follow(v: Vfs, s: Stage, link: string): (r: Option<Stage>)
    requires s.cs != [] && s.depth <= MAX_LINKS
    ensures r.Some? ==> r.value.depth == s.depth + 1 <= MAX_LINKS
  {
    if s.depth == MAX_LINKS then None
    else match Expand(v, s.depth + 1, link, s.cs[1..])
      case None => None
      case Some(more) => Some(Stage(more, if link != "" && link[0] == '/' then [] else s.names, s.depth + 1))
  }

  function Next(v: Vfs, s: Stage): (r: Option<Stage>)
    requires s.cs != [] && s.depth <= MAX_LINKS
    ensures r.Some? ==> r.value.depth <= MAX_LINKS
    ensures r.Some? ==> s.depth < r.value.depth || (s.depth == r.value.depth && |r.value.cs| < |s.cs|)
  {
    var n := s.cs[0].text;
    if Dots(n) then Some(Stage(s.cs[1..], Enter(s.names, n), s.depth))
    else if |Here(v, s)| >= v.hostSize then None
    else match v.fs(Here(v, s))
      case Unreadable => None
      case Plain => if |Here(v, s)| >= v.pathMax then None else Some(Stage(s.cs[1..], s.names + [n], s.depth))
      case Link(target) => Follow(v, s, LinkText(v, target))
  }

  /** The names under the root that the components lead to. */
  function Walk(v: Vfs, s: Stage): (r: Option<seq<Name>>)
    requires s.depth <= MAX_LINKS
    decreases MAX_LINKS - s.depth, |s.cs|
  {
    if s.cs == [] then Some(s.names)
    else match Next(v, s)
      case None => None
      case Some(t) => Walk(v, t)
  }

  // ----- resolution stays inside -----

  /** Names that never climb, each prefix of which the host says is no link. */
  ghost predicate Kept(v: Vfs, names: seq<Name>) {
    && "." !in names && ".." !in names
    && forall k :: 0 < k <= |names| ==> v.fs(Host(v.root, names[..k])).Plain?
  }

  lemma KeptEnter(v: Vfs, names: seq<Name>, n: Name)
    requires Kept(v, names)
    requires Dots(n) || v.fs(Host(v.root, names + [n])).Plain?
    ensures Kept(v, Enter(names, n))
  {
    var next := Enter(names, n);
    forall k | 0 < k <= |next|
      ensures v.fs(Host(v.root, next[..k])).Plain?
    {
      if k <= |names| {
        assert next[..k] == names[..k];
      } else {
        assert next[..k] == names + [n];
      }
    }
  }

  lemma NextKept(v: Vfs, s: Stage)
    requires s.cs != [] && s.depth <= MAX_LINKS && Kept(v, s.names)
    ensures Next(v, s).Some? ==> Kept(v, Next(v, s).value.names)
  {
    if Dots(s.cs[0].text) || v.fs(Here(v, s)).Plain? {
      KeptEnter(v, s.names, s.cs[0].text);
    }
  }

  /** Whatever the links and whatever the store reads as, a resolution stays under the root. */
  lemma {:induction false} WalkContained(v: Vfs, s: Stage)
    requires s.depth <= MAX_LINKS && Kept(v, s.names)
    ensures Walk(v, s).Some? ==> Kept(v, Walk(v, s).value)
    decreases MAX_LINKS - s.depth, |s.cs|
  {
    if s.cs != [] && Next(v, s).Some? {
      NextKept(v, s);
      WalkContained(v, Next(v, s).value);
    }
  }

  // ----- when the store does not matter -----

  /** How many links a walk meets. */
  function Links(v: Vfs, s: Stage): nat
    requires s.depth <= MAX_LINKS
    decreases MAX_LINKS - s.depth, |s.cs|
  {
    if s.cs == [] then 0
    else
      (if AtLink(v, s) then 1 else 0) +
      (match Next(v, s)
       case None => 0
       case Some(t) => Links(v, t))
  }

  predicate AllUnstored(cs: seq<Comp>) {
    forall j :: 0 <= j < |cs| ==> !cs[j].stored
  }

  lemma ExpandUnstored(v: Vfs, alias: (nat, nat) -> Name, depth: nat, link: string, rest: seq<Comp>)
    requires AllUnstored(rest)
    ensures Expand(v.(alias := alias), depth, link, rest) == Expand(v, depth, link, rest)
  {
    var both := Unstored(Split(link)) + rest;
    assert Reloaded(v.(alias := alias), depth, both) == Reloaded(v, depth, both);
  }

  lemma NextUnaliased(v: Vfs, alias: (nat, nat) -> Name, s: Stage)
    requires s.cs != [] && s.depth <= MAX_LINKS && (AtLink(v, s) ==> AllUnstored(s.cs[1..]))
    ensures Next(v.(alias := alias), s) == Next(v, s)
  {
    if AtLink(v, s) {
      ExpandUnstored(v, alias, s.depth + 1, LinkText(v, v.fs(Here(v, s)).target), s.cs[1..]);
    }
  }

  /** With no link ahead, the store is not read. */
  lemma {:induction false} NoLinkNoAlias(v: Vfs, alias: (nat, nat) -> Name, s: Stage)
    requires s.depth <= MAX_LINKS && Links(v, s) == 0
    ensures Walk(v.(alias := alias), s) == Walk(v, s)
    decreases MAX_LINKS - s.depth, |s.cs|
  {
    if s.cs != [] {
      NextUnaliased(v, alias, s);
      if Next(v, s).Some? {
        NoLinkNoAlias(v, alias, Next(v, s).value);
      }
    }
  }

  /** A path with at most one link on its way has one answer, whatever the store reads as. */
  lemma {:induction false} OneLinkExact(v: Vfs, alias: (nat, nat) -> Name, s: Stage)
    requires s.depth <= MAX_LINKS && AllUnstored(s.cs) && Links(v, s) <= 1
    ensures Walk(v.(alias := alias), s) == Walk(v, s)
    decreases MAX_LINKS - s.depth, |s.cs|
  {
    if s.cs != [] {
      NextUnaliased(v, alias, s);
      if Next(v, s).Some? {
        if AtLink(v, s) {
          NoLinkNoAlias(v, alias, Next(v, s).value);
        } else {
          OneLinkExact(v, alias, Next(v, s).value);
        }
      }
    }
  }

  // ----- no links at all -----

  lemma SlashedGrows(names: seq<Name>, more: seq<Name>)
    ensures |Slashed(names)| <= |Slashed(names + more)|
  {
    SlashedAppend(names, more);
  }

  /** Every directory entered from `names` on the way down is no link. */
  ghost predicate PlainFrom(v: Vfs, names: seq<Name>, cs: seq<Name>) {
    forall k :: 0 < k <= |cs| ==> v.fs(Host(v.root, names + cs[..k])).Plain?
  }

  lemma PlainFromNext(v: Vfs, names: seq<Name>, cs: seq<Name>)
    requires PlainFrom(v, names, cs) && cs != []
    ensures v.fs(Host(v.root, names + [cs[0]])).Plain? && PlainFrom(v, names + [cs[0]], cs[1..])
  {
    var next := names + [cs[0]];
    assert names + cs[..1] == next;
    forall k | 0 < k <= |cs[1..]|
      ensures v.fs(Host(v.root, next + cs[1..][..k])).Plain?
    {
      assert next + cs[1..][..k] == names + cs[..k + 1];
    }
  }

  /** Without links, a walk over clean names is the names themselves, as long as they fit. */
  lemma {:induction false} WalkPlain(v: Vfs, cs: seq<Name>, names: seq<Name>, depth: nat)
    requires depth <= MAX_LINKS && Clean(cs) && PlainFrom(v, names, cs)
    ensures Walk(v, Stage(Unstored(cs), names, depth)) ==
      if cs == [] || (|Host(v.root, names + cs)| < v.hostSize && |Host(v.root, names + cs)| < v.pathMax)
      then Some(names + cs) else None
    decreases |cs|
  {
    if cs == [] {
      assert names + cs == names;
    } else {
      var next := names + [cs[0]];
      assert Unstored(cs)[1..] == Unstored(cs[1..]);
      assert next + cs[1..] == names + cs;
      SlashedGrows(next, cs[1..]);
      PlainFromNext(v, names, cs);
      WalkPlain(v, cs[1..], next, depth);
    }
  }

  // ----- the resolver -----

  /** `names` are the pieces before `p`. */
  ghost predicate Tokenized(f: string, p: nat, names: seq<Name>) {
    p <= |f| && names + Split(f[p..]) == Split(f)
  }

  lemma TakeOver(names: seq<Name>, n: Name, rest: seq<Name>, before: seq<Name>, all: seq<Name>)
    requires names + before == all && before == [n] + rest
    ensures names + [n] + rest == all && |names| < |all|
  {
  }

  lemma EndBehind(f: string, start: nat)
    requires start < |f| && f[start] != '/'
    ensures start < start + NameEnd(f[start..]) <= |f|
  {
    NameEndStep(f, start);
  }

  lemma TokenNext(f: string, p: nat, names: seq<Name>, n: Name, end: nat)
    requires Tokenized(f, p, names) && end <= |f| && Split(f[p..]) == [n] + Split(f[end..])
    ensures Tokenized(f, end, names + [n]) && |names| < |Split(f)|
  {
    TakeOver(names, n, Split(f[end..]), Split(f[p..]), Split(f));
  }

  lemma TokensDone(f: string, p: nat, names: seq<Name>)
    requires Tokenized(f, p, names) && Split(f[p..]) == Split(f[|f|..])
    ensures names == Split(f)
  {
    assert f[|f|..] == "";
  }

  /** The next piece, if there is one. */
  method NextToken(f: string, p: nat) returns (start: nat, end: nat)
    requires p <= |f|
    ensures p <= start <= |f| && (start == |f| ==> Split(f[p..]) == Split(f[|f|..]))
    ensures start < |f| ==>
      start < end <= |f| && NameAt(f, start) == f[start..][..end - start] && Split(f[p..]) == [NameAt(f, start)] + Split(f[end..])
  {
    start := SkipSlashes(f, p);
    end := FindEnd(f, start);
    if start < |f| {
      EndBehind(f, start);
      SplitAt(f, start);
    }
  }

  /** The pieces of a path, unless there are too many. */
  method Tokens(f: string) returns (r: Option<seq<Name>>)
    ensures r == if |Split(f)| > MAX_NAMES then None else Some(Split(f))
  {
    var names: seq<Name> := [];
    var p := 0;
    assert f[0..] == f;
    while p < |f|
      invariant |names| <= MAX_NAMES && Tokenized(f, p, names)
      decreases |f| - p
    {
      var start, end := NextToken(f, p);
      if start == |f| {
        TokensDone(f, p, names);
        return Some(names);
      }
      TokenNext(f, p, names, NameAt(f, start), end);
      if |names| >= MAX_NAMES {
        return None;
      }
      names := names + [f[start..][..end - start]];
      p := end;
    }
    TokensDone(f, p, names);
    r := Some(names);
  }

  /** The place of the last slash, or the length if there is none. */
  method LastSlash(s: string) returns (k: nat)
    ensures k <= |s| && (k < |s| ==> s[k] == '/' && '/' !in s[k + 1..]) && (k == |s| ==> '/' !in s)
  {
    var i := |s|;
    while i > 0
      invariant 0 <= i <= |s| && '/' !in s[i..]
    {
      i := i - 1;
      if s[i] == '/' {
        return i;
      }
      assert s[i..] == [s[i]] + s[i + 1..];
    }
    k := |s|;
  }

  lemma LastSlashIs(s: string, n: Name, k: nat)
    requires k < |s + "/" + n| && (s + "/" + n)[k] == '/' && '/' !in (s + "/" + n)[k + 1..]
    ensures k == |s|
  {
    var t := s + "/" + n;
    assert t[|s|] == '/';
    assert forall j :: |s| < j < |t| ==> t[j] == n[j - |s| - 1];
    assert forall j :: k < j < |t| ==> t[j] == t[k + 1..][j - k - 1];
  }

  /** Leaves a directory, but never the root. */
  method Pop(root: string, resolved: string, ghost names: seq<Name>) returns (r: string)
    requires resolved == Host(root, names)
    ensures r == Host(root, Enter(names, ".."))
  {
    r := resolved;
    if |resolved| > |root| {
      var k := LastSlash(resolved);
      ghost var before := Host(root, names[..|names| - 1]);
      assert resolved == before + "/" + names[|names| - 1];
      assert resolved[|before|] == '/';
      LastSlashIs(before, names[|names| - 1], k);
      if k < |resolved| && k >= |root| {
        r := resolved[..k];
      }
    } else {
      assert names == [];
    }
  }

  lemma {:induction false} StoreGrows(cs: seq<Comp>, j: nat)
    requires j <= |cs|
    ensures StoreSize(cs[..j]) <= StoreSize(cs)
    decreases |cs|
  {
    if j == |cs| {
      assert cs[..j] == cs;
    } else {
      StoreGrows(cs[..|cs| - 1], j);
      assert cs[..|cs| - 1][..j] == cs[..j];
    }
  }

  lemma StoreNext(cs: seq<Comp>, j: nat)
    requires j < |cs|
    ensures cs[..j + 1] == cs[..j] + [cs[j]] && StoreSize(cs[..j + 1]) == StoreSize(cs[..j]) + |cs[j].text| + 1
    ensures StoreSize(cs[..j + 1]) <= StoreSize(cs)
  {
    assert cs[..j + 1][..j] == cs[..j];
    StoreGrows(cs, j + 1);
  }

  /** Copies the components into the store. */
  method Store(v: Vfs, depth: nat, cs: seq<Comp>) returns (r: Option<seq<Comp>>)
    ensures r == if StoreSize(Reloaded(v, depth, cs)) > v.pathMax then None else Some(Reloaded(v, depth, cs))
  {
    ghost var all := Reloaded(v, depth, cs);
    var done: seq<Comp> := [];
    var room := v.pathMax;
    var j := 0;
    while j < |cs|
      invariant 0 <= j <= |cs| && 0 <= room && done == all[..j] && room + StoreSize(done) == v.pathMax
    {
      var text := ReadComp(v, depth, j, cs[j]);
      StoreNext(all, j);
      if |text| + 1 > room {
        return None;
      }
      done := done + [Comp(text, true)];
      room := room - |text| - 1;
      j := j + 1;
    }
    assert all[..|cs|] == all;
    r := Some(done);
  }

  method ExpandLink(v: Vfs, depth: nat, link: string, rest: seq<Comp>) returns (r: Option<seq<Comp>>)
    ensures r == Expand(v, depth, link, rest)
  {
    var own := Tokens(link);
    if own.None? {
      return None;
    }
    var both, j := Unstored(own.value), 0;
    while j < |rest|
      invariant 0 <= j <= |rest| && both == Unstored(Split(link)) + rest[..j] && |both| <= MAX_NAMES
    {
      if |both| >= MAX_NAMES {
        return None;
      }
      both := both + [rest[j]];
      j := j + 1;
    }
    assert rest[..|rest|] == rest;
    r := Store(v, depth, both);
  }

  /** The loop's variables stand for this stage. */
  ghost predicate Standing(v: Vfs, comps: seq<Comp>, i: nat, depth: nat, resolved: string, s: Stage) {
    i <= |comps| && s.cs == comps[i..] && s.depth == depth <= MAX_LINKS && resolved == Host(v.root, s.names)
  }

  /** Follows the link found at component `i`. */
  method StepLink(v: Vfs, comps: seq<Comp>, i: nat, depth: nat, resolved: string, target: string, ghost s: Stage)
    returns (ok: bool, more: seq<Comp>, deeper: nat, at: string)
    requires Standing(v, comps, i, depth, resolved, s) && i < |comps|
    ensures ok == Follow(v, s, LinkText(v, target)).Some?
    ensures ok ==> Standing(v, more, 0, deeper, at, Follow(v, s, LinkText(v, target)).value)
  {
    ok, more, deeper, at := false, [], depth + 1, resolved;
    if deeper > MAX_LINKS {
      return;
    }
    var link := LinkText(v, target);
    if link != "" && link[0] == '/' {
      at := v.root;
    }
    assert comps[i..][1..] == comps[i + 1..];
    var expanded := ExpandLink(v, deeper, link, comps[i + 1..]);
    if expanded.Some? {
      ok, more := true, expanded.value;
      assert more[0..] == more;
    }
  }

  /** One turn of the loop. */
  method Step(v: Vfs, comps: seq<Comp>, i: nat, depth: nat, resolved: string, ghost s: Stage)
    returns (ok: bool, more: seq<Comp>, k: nat, deeper: nat, at: string)
    requires Standing(v, comps, i, depth, resolved, s) && i < |comps|
    ensures ok == Next(v, s).Some?
    ensures ok ==> Standing(v, more, k, deeper, at, Next(v, s).value)
  {
    ok, more, k, deeper, at := true, comps, i + 1, depth, resolved;
    var n := comps[i].text;
    assert comps[i..][1..] == comps[i + 1..];
    if n == "." {
    } else if n == ".." {
      at := Pop(v.root, resolved, s.names);
    } else {
      var host := resolved + "/" + n;
      assert (s.names + [n])[..|s.names|] == s.names;
      assert host == Here(v, s);
      if |host| >= v.hostSize {
        ok := false;
        return;
      }
      match v.fs(host) {
        case Unreadable =>
          ok := false;
        case Link(target) =>
          k := 0;
          ok, more, deeper, at := StepLink(v, comps, i, depth, resolved, target, s);
        case Plain =>
          ok, at := |host| < v.pathMax, host;
      }
    }
  }

  /** The pieces of the normalised guest path. */
  function GuestNames(v: Vfs, guest: string): seq<Name> {
    if v.pathMax == 0 then [] else Split(Cut(Render(Normal(Full("/", guest, v.pathMax))), v.pathMax - 1))
  }

  function GuestStage(v: Vfs, guest: string): Stage {
    Stage(Unstored(GuestNames(v, guest)), [], 0)
  }

  /** The host path of a guest path. */
  function Resolved(v: Vfs, guest: string): Option<string> {
    if |v.root| >= v.pathMax || |GuestNames(v, guest)| > MAX_NAMES then None else Final(v, Walk(v, GuestStage(v, guest)))
  }

  function Final(v: Vfs, out: Option<seq<Name>>): Option<string> {
    if out.None? || |Host(v.root, out.value)| >= v.hostSize then None else Some(Host(v.root, out.value))
  }

  /** Walks the components until none is left; it ends on every file system, cyclic links included. */
  method WalkAll(v: Vfs, names: seq<Name>) returns (ok: bool, resolved: string)
    ensures ok == Walk(v, Stage(Unstored(names), [], 0)).Some?
    ensures ok ==> resolved == Host(v.root, Walk(v, Stage(Unstored(names), [], 0)).value)
  {
    var comps := Unstored(names);
    var i: nat, depth: nat := 0, 0;
    ok, resolved := true, v.root;
    ghost var s := Stage(comps, [], 0);
    ghost var goal := Walk(v, s);
    assert comps[0..] == comps;
    while i < |comps|
      invariant Standing(v, comps, i, depth, resolved, s) && Walk(v, s) == goal
      decreases MAX_LINKS - depth, |comps| - i
    {
      ghost var t := Next(v, s);
      ok, comps, i, depth, resolved := Step(v, comps, i, depth, resolved, s);
      if !ok {
        return;
      }
      s := t.value;
    }
  }

  method GuestTokens(v: Vfs, guest: string) returns (r: Option<seq<Name>>)
    requires 2 <= v.pathMax && Fits(guest, v.pathMax)
    ensures r == if |GuestNames(v, guest)| > MAX_NAMES then None else Some(GuestNames(v, guest))
  {
    var path := NormalizePath("/", guest, v.pathMax, v.pathMax);
    r := Tokens(path);
  }

  method Resolve(v: Vfs, guest: string, mounted: bool) returns (r: Option<string>)
    requires 2 <= v.pathMax && Fits(guest, v.pathMax)
    ensures r == if mounted then None else Resolved(v, guest)
  {
    if mounted {
      return None;
    }
    if |v.root| >= v.pathMax {
      return None;
    }
    var tokens := GuestTokens(v, guest);
    if tokens.None? {
      return None;
    }
    var ok, resolved := WalkAll(v, tokens.value);
    r := if ok && |resolved| < v.hostSize then Some(resolved) else None;
  }

  // ----- what the resolver gives out -----

  ghost predicate Contained(v: Vfs, host: string) {
    exists names :: Kept(v, names) && host == Host(v.root, names)
  }

  lemma FinalContained(v: Vfs, out: Option<seq<Name>>)
    requires out.Some? ==> Kept(v, out.value)
    ensures Final(v, out).Some? ==> Contained(v, Final(v, out).value)
  {
  }

  lemma NothingKept(v: Vfs)
    ensures Kept(v, [])
  {
  }

  /** Every path the resolver gives out lies under the root and passes through no link. */
  lemma ResolvedContained(v: Vfs, guest: string)
    ensures Resolved(v, guest).Some? ==> Contained(v, Resolved(v, guest).value)
  {
    NothingKept(v);
    WalkContained(v, GuestStage(v, guest));
    FinalContained(v, Walk(v, GuestStage(v, guest)));
  }

  lemma GuestNamesNormal(v: Vfs, guest: string)
    requires 2 <= v.pathMax && Fits(guest, v.pathMax)
    ensures GuestNames(v, guest) == Normal(Full("/", guest, v.pathMax))
  {
    var f := Full("/", guest, v.pathMax);
    NormalNoLonger(f);
    FoldClean([], Split(f));
    SplitSlashed(Normal(f));
    assert Normal(f) == [] ==> Split("/") == [] by {
      assert "/"[1..] == "";
    }
  }

  /** Without links in the way, resolution is normalisation under the root, whenever that fits. */
  lemma ResolvedPlain(v: Vfs, guest: string, names: seq<Name>)
    requires 2 <= v.pathMax && Fits(guest, v.pathMax) && names == Normal(Full("/", guest, v.pathMax))
    requires PlainFrom(v, [], names)
    ensures Resolved(v, guest) ==
      if |names| <= MAX_NAMES && |Host(v.root, names)| < v.pathMax && |Host(v.root, names)| < v.hostSize
      then Some(Host(v.root, names)) else None
  {
    GuestNamesNormal(v, guest);
    FoldClean([], Split(Full("/", guest, v.pathMax)));
    WalkPlain(v, names, [], 0);
    assert [] + names == names;
  }

  /** With at most one link on the way, the answer does not depend on the store. */
  lemma ResolvedOneLink(v: Vfs, guest: string, alias: (nat, nat) -> Name)
    requires Links(v, GuestStage(v, guest)) <= 1
    ensures Resolved(v.(alias := alias), guest) == Resolved(v, guest)
  {
    OneLinkExact(v, alias, GuestStage(v, guest));
  }

  // ----- through one link -----

  /** Every directory that `cs` leads into from `names` fits and is no link. */
  ghost predicate Passes(v: Vfs, names: seq<Name>, cs: seq<Name>)
    decreases |cs|
  {
    cs == [] ||
    (Passes(v, Enter(names, cs[0]), cs[1..]) && (cs[0] == "." || cs[0] == ".." || Fitting(v, names + [cs[0]])))
  }

  ghost predicate Fitting(v: Vfs, names: seq<Name>) {
    |Host(v.root, names)| < v.hostSize && |Host(v.root, names)| < v.pathMax && v.fs(Host(v.root, names)).Plain?
  }

  function Texts(cs: seq<Comp>): (r: seq<Name>)
    ensures |r| == |cs|
  {
    seq(|cs|, j requires 0 <= j < |cs| => cs[j].text)
  }

  /** Where nothing is in the way, a walk goes where its pieces lead. */
  lemma {:induction false} WalkPasses(v: Vfs, cs: seq<Comp>, names: seq<Name>, depth: nat)
    requires depth <= MAX_LINKS && Passes(v, names, Texts(cs))
    ensures Walk(v, Stage(cs, names, depth)) == Some(Fold(names, Texts(cs)))
    decreases |cs|
  {
    if cs != [] {
      assert Texts(cs)[1..] == Texts(cs[1..]);
      WalkPasses(v, cs[1..], Enter(names, cs[0].text), depth);
    }
  }

  /** So does the part of a walk before something that is. */
  lemma {:induction false} WalkUpTo(v: Vfs, before: seq<Name>, rest: seq<Comp>, names: seq<Name>, depth: nat)
    requires depth <= MAX_LINKS && Passes(v, names, before)
    ensures Walk(v, Stage(Unstored(before) + rest, names, depth)) == Walk(v, Stage(rest, Fold(names, before), depth))
    decreases |before|
  {
    if before == [] {
      assert Unstored(before) + rest == rest;
    } else {
      assert (Unstored(before) + rest)[1..] == Unstored(before[1..]) + rest;
      WalkUpTo(v, before[1..], rest, Enter(names, before[0]), depth);
    }
  }

  lemma {:induction false} StoreIsSlashed(cs: seq<Comp>)
    ensures StoreSize(cs) == |Slashed(Texts(cs))|
    decreases |cs|
  {
    if cs != [] {
      StoreIsSlashed(cs[..|cs| - 1]);
      assert Texts(cs)[..|cs| - 1] == Texts(cs[..|cs| - 1]);
    }
  }

  /** A first link is replaced by its pieces and those behind it. */
  lemma ExpandFirst(v: Vfs, depth: nat, link: string, after: seq<Name>)
    requires |Split(link) + after| <= MAX_NAMES && |Slashed(Split(link) + after)| <= v.pathMax
    ensures Expand(v, depth, link, Unstored(after)).Some?
    ensures Texts(Expand(v, depth, link, Unstored(after)).value) == Split(link) + after
  {
    var both := Unstored(Split(link)) + Unstored(after);
    var loaded := Reloaded(v, depth, both);
    assert Texts(loaded) == Split(link) + after;
    StoreIsSlashed(loaded);
  }

  /** The path with the link's target in place of the link: from the root for an absolute one, else from its directory. */
  ghost function Detour(before: seq<Name>, target: string, after: seq<Name>): string {
    (if target != "" && target[0] == '/' then "" else Slashed(before)) + "/" + target + Slashed(after)
  }

  lemma {:induction false} SplitBefore(s: string, names: seq<Name>)
    requires "" !in names
    ensures Split(s + Slashed(names)) == Split(s) + names
    decreases |names|
  {
    if names == [] {
      assert s + "" == s;
    } else {
      var most, last := names[..|names| - 1], names[|names| - 1];
      assert s + Slashed(names) == s + Slashed(most) + "/" + last;
      SplitBefore(s, most);
      SplitAppend(s + Slashed(most), last);
    }
  }

  lemma JoinThree(x: seq<Name>, y: seq<Name>, z: seq<Name>)
    ensures x + y + z == x + (y + z)
  {
  }

  lemma DetourPieces(front: string, target: string, after: seq<Name>, joined: string, path: string)
    requires "" !in after && joined == front + "/" + target && path == joined + Slashed(after)
    ensures Split(path) == Split(front) + (Split(target) + after)
  {
    SplitBefore(joined, after);
    SplitJoined(front, target);
    JoinThree(Split(front), Split(target), after);
  }

  lemma NormalOf(path: string, a: seq<Name>, b: seq<Name>)
    requires Split(path) == a + b && Clean(a)
    ensures Normal(path) == Fold(a, b)
  {
    FoldJoined([], a, b);
    FoldOfClean([], a);
    assert [] + a == a;
  }

  lemma DetourFrom(front: string, stack: seq<Name>, target: string, after: seq<Name>, path: string)
    requires Split(front) == stack && Clean(stack) && "" !in after && path == front + "/" + target + Slashed(after)
    ensures Normal(path) == Fold(stack, Split(target) + after)
  {
    DetourPieces(front, target, after, front + "/" + target, path);
    NormalOf(path, stack, Split(target) + after);
  }

  lemma DetourIs(before: seq<Name>, target: string, after: seq<Name>)
    requires Clean(before) && Clean(after)
    ensures Normal(Detour(before, target, after)) ==
      Fold(if target != "" && target[0] == '/' then [] else before, Split(target) + after)
  {
    if target != "" && target[0] == '/' {
      DetourFrom("", [], target, after, Detour(before, target, after));
    } else {
      SplitSlashed(before);
      DetourFrom(Slashed(before), before, target, after, Detour(before, target, after));
    }
  }

  /** The walk from a link whose detour meets no other. */
  lemma WalkDetour(v: Vfs, before: seq<Name>, n: Name, after: seq<Name>, target: string)
    requires n != "." && n != ".." && v.fs(Host(v.root, before + [n])) == Link(target) && |target| < v.pathMax
    requires |Host(v.root, before + [n])| < v.hostSize
    requires |Split(target) + after| <= MAX_NAMES && |Slashed(Split(target) + after)| <= v.pathMax
    requires Passes(v, if target != "" && target[0] == '/' then [] else before, Split(target) + after)
    ensures Walk(v, Stage(Unstored([n] + after), before, 0)) ==
      Some(Fold(if target != "" && target[0] == '/' then [] else before, Split(target) + after))
  {
    var s := Stage(Unstored([n] + after), before, 0);
    assert s.cs[1..] == Unstored(after) && s.cs[0].text == n;
    ExpandFirst(v, 1, target, after);
    WalkPasses(v, Next(v, s).value.cs, Next(v, s).value.names, 1);
  }

  /** With one link on the way, the answer is where the detour leads under the root. */
  lemma ResolvedThroughLink(v: Vfs, guest: string, before: seq<Name>, n: Name, after: seq<Name>, target: string)
    requires 2 <= v.pathMax && Fits(guest, v.pathMax) && |v.root| < v.pathMax
    requires Normal(Full("/", guest, v.pathMax)) == before + ([n] + after) && |before + ([n] + after)| <= MAX_NAMES
    requires Passes(v, [], before) && |Host(v.root, before + [n])| < v.hostSize
    requires v.fs(Host(v.root, before + [n])) == Link(target) && |target| < v.pathMax
    requires |Split(target) + after| <= MAX_NAMES && |Slashed(Split(target) + after)| <= v.pathMax
    requires Passes(v, if target != "" && target[0] == '/' then [] else before, Split(target) + after)
    ensures var out := Normal(Detour(before, target, after));
      Resolved(v, guest) == if |Host(v.root, out)| < v.hostSize then Some(Host(v.root, out)) else None
  {
    GuestNamesNormal(v, guest);
    FoldClean([], Split(Full("/", guest, v.pathMax)));
    CleanParts(before, n, after);
    WalkToLink(v, before, [n] + after);
    WalkDetour(v, before, n, after, target);
    DetourIs(before, target, after);
  }

  lemma WalkToLink(v: Vfs, before: seq<Name>, rest: seq<Name>)
    requires Clean(before) && Passes(v, [], before)
    ensures Walk(v, Stage(Unstored(before + rest), [], 0)) == Walk(v, Stage(Unstored(rest), before, 0))
  {
    FoldOfClean([], before);
    assert [] + before == before;
    assert Unstored(before + rest) == Unstored(before) + Unstored(rest);
    WalkUpTo(v, before, Unstored(rest), [], 0);
  }

  lemma CleanParts(before: seq<Name>, n: Name, after: seq<Name>)
    requires Clean(before + ([n] + after))
    ensures Clean(before) && Clean(after) && n != "" && n != "." && n != ".."
  {
    var all := before + ([n] + after);
    assert forall x :: x in before || x == n || x in after ==> x in all;
  }
}
