/** Guest paths taken lexically: splitting, `.` and `..`, and the normaliser.  Strings hold no terminating zero. */
module PathNormalize {
  type Name = s: string | '/' !in s

  // ----- meaning of a path -----

  function NameEnd(s: string): (k: nat)
    ensures k <= |s| && '/' !in s[..k] && (k == |s| || s[k] == '/')
  {
    if s == "" || s[0] == '/' then 0 else
      var k := NameEnd(s[1..]);
      assert s[..1 + k] == [s[0]] + s[1..][..k];
      1 + k
  }

  /** The non-empty pieces between slashes. */
  function Split(s: string): (r: seq<Name>)
    ensures "" !in r
    decreases |s|
  {
    if s == "" then [] else if s[0] == '/' then Split(s[1..]) else
      var k := NameEnd(s);
      [s[..k]] + Split(s[k..])
  }

  /** One piece against the directories entered so far. */
  function Enter(stack: seq<Name>, n: Name): (r: seq<Name>) {
    if n == "." then stack
    else if n == ".." then (if stack == [] then [] else stack[..|stack| - 1])
    else stack + [n]
  }

  function Fold(stack: seq<Name>, names: seq<Name>): (r: seq<Name>)
    decreases |names|
  {
    if names == [] then stack else Fold(Enter(stack, names[0]), names[1..])
  }

  /** The directories a path goes through once `.` and `..` are taken out. */
  function Normal(s: string): seq<Name> {
    Fold([], Split(s))
  }

  function Slashed(names: seq<Name>): (s: string)
    decreases |names|
  {
    if names == [] then "" else Slashed(names[..|names| - 1]) + "/" + names[|names| - 1]
  }

  function Render(names: seq<Name>): string {
    if names == [] then "/" else Slashed(names)
  }

  /** What is left of a string in a buffer with room for `n` characters. */
  function Cut(s: string, n: nat): (r: string) {
    if |s| <= n then s else s[..n]
  }

  predicate Clean(names: seq<Name>) {
    "" !in names && "." !in names && ".." !in names
  }

  // ----- laws of normalisation -----

  lemma {:induction false} FoldClean(stack: seq<Name>, names: seq<Name>)
    requires Clean(stack) && "" !in names
    ensures Clean(Fold(stack, names))
    decreases |names|
  {
    if names != [] {
      FoldClean(Enter(stack, names[0]), names[1..]);
    }
  }

  lemma {:induction false} FoldOfClean(stack: seq<Name>, names: seq<Name>)
    requires Clean(names)
    ensures Fold(stack, names) == stack + names
    decreases |names|
  {
    if names != [] {
      FoldOfClean(stack + [names[0]], names[1..]);
      assert stack + [names[0]] + names[1..] == stack + names;
    }
  }

  lemma {:induction false} NameEndIs(n: Name, rest: string)
    requires rest == "" || rest[0] == '/'
    ensures NameEnd(n + rest) == |n|
  {
    if n == "" {
      assert n + rest == rest;
    } else {
      assert (n + rest)[1..] == n[1..] + rest;
      NameEndIs(n[1..], rest);
    }
  }

  lemma SplitName(n: Name, rest: string)
    requires n != "" && (rest == "" || rest[0] == '/')
    ensures Split(n + rest) == [n] + Split(rest)
  {
    NameEndIs(n, rest);
    assert (n + rest)[..|n|] == n && (n + rest)[|n|..] == rest;
  }

  lemma {:induction false} SplitAppend(s: string, n: Name)
    requires n != ""
    ensures Split(s + "/" + n) == Split(s) + [n]
    decreases |s|
  {
    var t := s + "/" + n;
    if s == "" {
      assert t[1..] == n + "";
      SplitName(n, "");
    } else if s[0] == '/' {
      SplitAppend(s[1..], n);
      assert t[1..] == s[1..] + "/" + n;
    } else {
      var k := NameEnd(s);
      var rest := s[k..] + "/" + n;
      SplitAppend(s[k..], n);
      assert t == s[..k] + rest by {
        assert s == s[..k] + s[k..];
      }
      SplitName(s[..k], rest);
      assert Split(s) == [s[..k]] + Split(s[k..]);
    }
  }

  lemma {:induction false} SplitSlashed(names: seq<Name>)
    requires "" !in names
    ensures Split(Slashed(names)) == names
    decreases |names|
  {
    if names != [] {
      SplitSlashed(names[..|names| - 1]);
      SplitAppend(Slashed(names[..|names| - 1]), names[|names| - 1]);
    }
  }

  /** Normalising a normal path changes nothing. */
  lemma NormalIdempotent(s: string)
    ensures Normal(Render(Normal(s))) == Normal(s)
  {
    var names := Normal(s);
    FoldClean([], Split(s));
    SplitSlashed(names);
    assert names == [] ==> Split(Render(names)) == [] by {
      assert "/"[1..] == "";
    }
    FoldOfClean([], names);
    assert [] + names == names;
  }

  lemma {:induction false} SlashedAppend(a: seq<Name>, b: seq<Name>)
    ensures Slashed(a + b) == Slashed(a) + Slashed(b)
    decreases |b|
  {
    if b == [] {
      assert a + b == a;
    } else {
      assert (a + b)[..|a + b| - 1] == a + b[..|b| - 1];
      SlashedAppend(a, b[..|b| - 1]);
    }
  }

  lemma {:induction false} FoldNoLonger(stack: seq<Name>, names: seq<Name>)
    ensures |Slashed(Fold(stack, names))| <= |Slashed(stack)| + |Slashed(names)|
    decreases |names|
  {
    if names != [] {
      FoldNoLonger(Enter(stack, names[0]), names[1..]);
      assert names == [names[0]] + names[1..];
      SlashedAppend([names[0]], names[1..]);
      SlashedAppend(stack, [names[0]]);
    }
  }

  lemma {:induction false} SplitNoLonger(s: string)
    ensures |Slashed(Split(s))| <= |s| + (if s == "" || s[0] == '/' then 0 else 1)
    decreases |s|
  {
    if s != "" {
      if s[0] == '/' {
        SplitNoLonger(s[1..]);
      } else {
        var k := NameEnd(s);
        SplitNoLonger(s[k..]);
        SlashedAppend([s[..k]], Split(s[k..]));
        assert [s[..k]][..0] == [];
      }
    }
  }

  /** An absolute path never grows. */
  lemma NormalNoLonger(s: string)
    requires s != "" && s[0] == '/'
    ensures |Render(Normal(s))| <= |s|
  {
    SplitNoLonger(s);
    FoldNoLonger([], Split(s));
  }

  // ----- the normaliser -----

  method SkipSlashes(f: string, p: nat) returns (q: nat)
    requires p <= |f|
    ensures p <= q <= |f| && (q == |f| || f[q] != '/')
    ensures Split(f[p..]) == Split(f[q..])
    ensures p < |f| && f[p] == '/' ==> p < q
  {
    q := p;
    while q < |f| && f[q] == '/'
      invariant p <= q <= |f|
      invariant Split(f[p..]) == Split(f[q..])
      invariant p < |f| && f[p] == '/' && q == p ==> f[q] == '/'
    {
      assert f[q..][1..] == f[q + 1..];
      q := q + 1;
    }
  }

  lemma NameEndStep(f: string, q: nat)
    requires q < |f| && f[q] != '/'
    ensures NameEnd(f[q..]) == 1 + NameEnd(f[q + 1..])
  {
    assert f[q..][1..] == f[q + 1..];
  }

  method FindEnd(f: string, p: nat) returns (q: nat)
    requires p <= |f|
    ensures q == p + NameEnd(f[p..])
  {
    q := p;
    while q < |f| && f[q] != '/'
      invariant p <= q <= |f|
      invariant q + NameEnd(f[q..]) == p + NameEnd(f[p..])
    {
      NameEndStep(f, q);
      q := q + 1;
    }
  }

  /** The piece that starts at `p`. */
  function NameAt(f: string, p: nat): Name
    requires p <= |f|
  {
    f[p..][..NameEnd(f[p..])]
  }

  /** The pieces that start at these places. */
  function Pieces(f: string, starts: seq<nat>): (r: seq<Name>)
    requires forall i :: 0 <= i < |starts| ==> starts[i] <= |f|
    ensures |r| == |starts|
  {
    seq(|starts|, i requires 0 <= i < |starts| => NameAt(f, starts[i]))
  }

  lemma SplitAt(f: string, p: nat)
    requires p < |f| && f[p] != '/'
    ensures Split(f[p..]) == [NameAt(f, p)] + Split(f[p + NameEnd(f[p..])..])
  {
    var k := NameEnd(f[p..]);
    assert f[p..][k..] == f[p + k..];
  }

  ghost predicate Inside(f: string, starts: seq<nat>) {
    forall i :: 0 <= i < |starts| ==> starts[i] <= |f|
  }

  /** The rest of the path, entered from here, gives the whole answer. */
  ghost predicate Collected(f: string, starts: seq<nat>, p: nat) {
    && p <= |f| && (p < |f| ==> f[p] == '/') && 2 * |starts| <= p && Inside(f, starts)
    && Fold(Pieces(f, starts), Split(f[p..])) == Normal(f)
  }

  lemma CollectedStep(f: string, starts: seq<nat>, p: nat, start: nat, after: seq<nat>)
    requires Collected(f, starts, p) && p < start < |f| && f[start] != '/' && Split(f[p..]) == Split(f[start..])
    requires Inside(f, after) && Pieces(f, after) == Enter(Pieces(f, starts), NameAt(f, start)) && |after| <= |starts| + 1
    ensures Collected(f, after, start + NameEnd(f[start..]))
  {
    var end := start + NameEnd(f[start..]);
    SplitAt(f, start);
    assert ([NameAt(f, start)] + Split(f[end..]))[1..] == Split(f[end..]);
    NameEndStep(f, start);
    assert end < |f| ==> f[end] == f[start..][NameEnd(f[start..])];
  }

  /** One piece: `.` is skipped, `..` takes the last place back, any other is recorded. */
  method Take(f: string, starts: array<nat>, depth: nat, start: nat, end: nat) returns (now: nat)
    requires depth < starts.Length && start < |f| && f[start] != '/' && end == start + NameEnd(f[start..])
    requires Inside(f, starts[..depth])
    modifies starts
    ensures now <= depth + 1 && Inside(f, starts[..now])
    ensures Pieces(f, starts[..now]) == Enter(Pieces(f, old(starts[..depth])), NameAt(f, start))
  {
    now := depth;
    ghost var stack := Pieces(f, starts[..depth]);
    ghost var n := NameAt(f, start);
    if end - start == 1 && f[start] == '.' {
      assert n == ".";
    } else if end - start == 2 && f[start] == '.' && f[start + 1] == '.' {
      assert n == "..";
      if depth > 0 {
        now := depth - 1;
        assert Pieces(f, starts[..now]) == stack[..now];
      }
    } else {
      assert |n| == end - start && n[0] == f[start] && (|n| == 2 ==> n[1] == f[start + 1]);
      starts[depth] := start;
      now := depth + 1;
      assert Pieces(f, starts[..now]) == stack + [n];
    }
  }

  lemma CollectedSkip(f: string, starts: seq<nat>, p: nat, start: nat)
    requires Collected(f, starts, p) && p <= start == |f| && Split(f[p..]) == Split(f[start..])
    ensures Collected(f, starts, start)
  {
  }

  lemma CollectedRoom(f: string, starts: seq<nat>, p: nat, start: nat, length: nat)
    requires Collected(f, starts, p) && p < start < |f| <= 2 * length
    ensures |starts| < length && Inside(f, starts)
  {
  }

  /** Records the piece at `start`, or takes one back. */
  method TakePiece(f: string, starts: array<nat>, depth: nat, start: nat) returns (now: nat, next: nat)
    requires depth < starts.Length && start < |f| && f[start] != '/' && Inside(f, starts[..depth])
    modifies starts
    ensures next == start + NameEnd(f[start..]) && now <= depth + 1 && Inside(f, starts[..now])
    ensures Pieces(f, starts[..now]) == Enter(Pieces(f, old(starts[..depth])), NameAt(f, start))
  {
    next := FindEnd(f, start);
    now := Take(f, starts, depth, start, next);
  }

  /** The piece after the slashes that begin at `p`. */
  method CollectPiece(f: string, starts: array<nat>, depth: nat, p: nat, start: nat) returns (now: nat, next: nat)
    requires depth <= starts.Length && p < start < |f| <= 2 * starts.Length && f[start] != '/'
    requires Collected(f, starts[..depth], p) && Split(f[p..]) == Split(f[start..])
    modifies starts
    ensures now <= starts.Length && start <= next <= |f| && Collected(f, starts[..now], next)
  {
    ghost var before := starts[..depth];
    CollectedRoom(f, before, p, start, starts.Length);
    now, next := TakePiece(f, starts, depth, start);
    CollectedStep(f, before, p, start, starts[..now]);
  }

  /** One turn of the scan: over slashes, and a piece if there is one. */
  method CollectNext(f: string, starts: array<nat>, depth: nat, p: nat) returns (now: nat, next: nat)
    requires depth <= starts.Length && p < |f| <= 2 * starts.Length && Collected(f, starts[..depth], p)
    modifies starts
    ensures now <= starts.Length && p < next <= |f| && Collected(f, starts[..now], next)
  {
    var start := SkipSlashes(f, p);
    if start == |f| {
      CollectedSkip(f, starts[..depth], p, start);
      return depth, start;
    }
    now, next := CollectPiece(f, starts, depth, p, start);
  }

  /** Collects the places of the pieces that remain. */
  method Collect(f: string, starts: array<nat>) returns (depth: nat)
    requires f != "" && f[0] == '/' && |f| <= 2 * starts.Length
    modifies starts
    ensures depth <= starts.Length && Inside(f, starts[..depth])
    ensures Pieces(f, starts[..depth]) == Normal(f)
  {
    depth := 0;
    var p := 0;
    assert f[0..] == f;
    while p < |f|
      invariant p <= |f| && depth <= starts.Length && Collected(f, starts[..depth], p)
      decreases |f| - p
    {
      depth, p := CollectNext(f, starts, depth, p);
    }
    CollectedDone(f, starts[..depth], p);
  }

  lemma CollectedDone(f: string, starts: seq<nat>, p: nat)
    requires Collected(f, starts, p) && Split(f[p..]) == Split(f[|f|..])
    ensures Inside(f, starts) && Pieces(f, starts) == Normal(f)
  {
    assert f[|f|..] == "";
  }

  lemma CutAppend(a: string, b: string, n: nat)
    ensures Cut(Cut(a, n) + b, n) == Cut(a + b, n)
  {
    if |a| > n {
      assert (a[..n] + b)[..n] == a[..n] == (a + b)[..n];
    }
  }

  /** Copies the piece that starts at `p`, as far as there is room. */
  method CopyPiece(f: string, p: nat, out: string, room: nat) returns (now: string)
    requires p <= |f| && |out| <= room
    ensures now == Cut(out + NameAt(f, p), room)
  {
    now := out;
    var c := p;
    while c < |f| && f[c] != '/' && |now| < room
      invariant p <= c <= |f| && |now| <= room
      invariant now == out + f[p..c]
      invariant c + NameEnd(f[c..]) == p + NameEnd(f[p..])
    {
      NameEndStep(f, c);
      assert f[p..c + 1] == f[p..c] + [f[c]];
      now := now + [f[c]];
      c := c + 1;
    }
    CopiedPiece(f, p, c, out, room);
  }

  lemma SliceJoin(f: string, p: nat, c: nat, e: nat)
    requires p <= c <= e <= |f|
    ensures f[p..][..e - p] == f[p..c] + f[c..e]
  {
  }

  lemma StringAssoc(a: string, b: string, c: string)
    ensures a + (b + c) == a + b + c
  {
  }

  lemma CopiedPiece(f: string, p: nat, c: nat, out: string, room: nat)
    requires p <= c <= |f| && c + NameEnd(f[c..]) == p + NameEnd(f[p..]) && |out + f[p..c]| <= room
    requires c == |f| || f[c] == '/' || |out + f[p..c]| == room
    ensures out + f[p..c] == Cut(out + NameAt(f, p), room)
  {
    var e := p + NameEnd(f[p..]);
    SliceJoin(f, p, c, e);
    StringAssoc(out, f[p..c], f[c..e]);
    CutExact(out + f[p..c], f[c..e], room);
  }

  lemma CutExact(a: string, b: string, room: nat)
    requires |a| <= room && (b == "" || |a| == room)
    ensures a == Cut(a + b, room)
  {
    assert b == "" ==> a + b == a;
  }

  lemma SlashedPieces(f: string, starts: seq<nat>, i: nat)
    requires Inside(f, starts) && i < |starts|
    ensures Inside(f, starts[..i]) && Inside(f, starts[..i + 1])
    ensures Slashed(Pieces(f, starts[..i + 1])) == Slashed(Pieces(f, starts[..i])) + "/" + NameAt(f, starts[i])
  {
    assert Pieces(f, starts[..i + 1])[..i] == Pieces(f, starts[..i]);
  }

  lemma CutPrefix(a: string, b: string, n: nat)
    requires n <= |a|
    ensures Cut(a, n) == Cut(a + b, n)
  {
  }

  lemma SlashedPrefix(f: string, starts: seq<nat>, i: nat, n: nat)
    requires Inside(f, starts) && i <= |starts| && n <= |Slashed(Pieces(f, starts[..i]))|
    ensures Cut(Slashed(Pieces(f, starts[..i])), n) == Cut(Slashed(Pieces(f, starts)), n)
  {
    var a, b := Pieces(f, starts[..i]), Pieces(f, starts[i..]);
    assert Pieces(f, starts) == a + b;
    SlashedAppend(a, b);
    CutPrefix(Slashed(a), Slashed(b), n);
  }

  /** What is written after `i` pieces. */
  ghost function Sofar(f: string, starts: seq<nat>, i: nat, room: nat): string
    requires Inside(f, starts) && i <= |starts|
  {
    Cut(Slashed(Pieces(f, starts[..i])), room)
  }

  lemma SofarNext(f: string, starts: seq<nat>, i: nat, room: nat)
    requires Inside(f, starts) && i < |starts|
    ensures Sofar(f, starts, i + 1, room) == Cut(Cut(Sofar(f, starts, i, room) + "/", room) + NameAt(f, starts[i]), room)
  {
    SlashedPieces(f, starts, i);
    var sofar := Slashed(Pieces(f, starts[..i]));
    CutAppend(sofar, "/", room);
    CutAppend(sofar + "/", NameAt(f, starts[i]), room);
  }

  lemma SofarDone(f: string, starts: seq<nat>, i: nat, room: nat)
    requires Inside(f, starts) && i <= |starts| && starts != []
    requires i == |starts| || |Sofar(f, starts, i, room)| >= room
    ensures Sofar(f, starts, i, room) == Cut(Render(Pieces(f, starts)), room)
  {
    if i < |starts| {
      SlashedPrefix(f, starts, i, room);
    } else {
      assert starts[..i] == starts;
    }
  }

  /** Writes the pieces back, each after a slash, as far as there is room. */
  method Rebuild(f: string, starts: seq<nat>, room: nat) returns (out: string)
    requires Inside(f, starts)
    ensures out == Cut(Render(Pieces(f, starts)), room)
  {
    if |starts| == 0 {
      return Cut("/", room);
    }
    out := "";
    var i := 0;
    while i < |starts| && |out| < room
      invariant 0 <= i <= |starts| && |out| <= room
      invariant out == Sofar(f, starts, i, room)
    {
      SofarNext(f, starts, i, room);
      out := out + "/";
      out := CopyPiece(f, starts[i], out, room);
      i := i + 1;
    }
    SofarDone(f, starts, i, room);
  }

  /** The path taken from the working directory, in a buffer of `pathMax` characters. */
  function Full(cwd: string, path: string, pathMax: nat): string
    requires pathMax > 0
  {
    if Absolute(path) then path else Cut(cwd + "/" + path, pathMax - 1)
  }

  predicate Absolute(path: string) {
    path != "" && path[0] == '/'
  }

  /** An absolute path must fit the path buffer; a relative one is cut to it. */
  predicate Fits(path: string, pathMax: nat) {
    Absolute(path) ==> |path| < pathMax
  }

  /** A working directory: absolute, or empty. */
  predicate Rooted(cwd: string) {
    cwd == "" || cwd[0] == '/'
  }

  method NormalizePath(cwd: string, path: string, outSize: nat, pathMax: nat) returns (out: string)
    requires 2 <= pathMax && Fits(path, pathMax) && 0 < outSize && Rooted(cwd)
    ensures out == Cut(Render(Normal(Full(cwd, path, pathMax))), outSize - 1)
  {
    var f := Full(cwd, path, pathMax);
    var starts := new nat[pathMax / 2];
    var depth := Collect(f, starts);
    out := Rebuild(f, starts[..depth], outSize - 1);
  }

  lemma {:induction false} RenderAbsolute(names: seq<Name>)
    ensures Render(names) != "" && Render(names)[0] == '/'
    decreases |names|
  {
    if |names| == 1 {
      assert names[..|names| - 1] == [];
      assert Slashed(names) == "" + "/" + names[0];
    } else if |names| > 1 {
      RenderAbsolute(names[..|names| - 1]);
    }
  }

  /** What follows the last slash. */
  function LastName(s: string): (n: Name)
    decreases |s|
  {
    if '/' !in s then s else LastName(s[1..])
  }

  lemma {:induction false} LastNameIs(s: string, n: Name)
    ensures LastName(s + "/" + n) == n
    decreases |s|
  {
    var t := s + "/" + n;
    assert t[|s|] == '/';
    if s == "" {
      assert t[1..] == n;
    } else {
      assert t[1..] == s[1..] + "/" + n;
      LastNameIs(s[1..], n);
    }
  }

  /** A rendered path cut short ends in a piece of a name. */
  lemma {:induction false} CutShape(names: seq<Name>, n: nat) returns (pre: seq<Name>, part: Name)
    requires Clean(names) && 1 <= n <= |Slashed(names)|
    ensures Clean(pre) && Slashed(names)[..n] == Slashed(pre) + "/" + part
    decreases |names|
  {
    var most, last := names[..|names| - 1], names[|names| - 1];
    var k := |Slashed(most)|;
    if n <= k {
      pre, part := CutShape(most, n);
    } else {
      pre, part := most, last[..n - k - 1];
      assert (Slashed(most) + "/" + last)[..n] == Slashed(most) + "/" + last[..n - k - 1];
    }
  }

  lemma {:induction false} SplitTrailing(s: string)
    ensures Split(s + "/") == Split(s)
    decreases |s|
  {
    var t := s + "/";
    if s == "" {
      assert t[1..] == "";
    } else if s[0] == '/' {
      assert t[1..] == s[1..] + "/";
      SplitTrailing(s[1..]);
    } else {
      var k := NameEnd(s);
      assert s == s[..k] + s[k..];
      assert t == s[..k] + (s[k..] + "/");
      SplitName(s[..k], s[k..] + "/");
      SplitTrailing(s[k..]);
    }
  }

  lemma {:induction false} FoldAppend(stack: seq<Name>, names: seq<Name>, n: Name)
    ensures Fold(stack, names + [n]) == Enter(Fold(stack, names), n)
    decreases |names|
  {
    if names == [] {
      assert ([] + [n])[1..] == [];
    } else {
      assert (names + [n])[1..] == names[1..] + [n];
      FoldAppend(Enter(stack, names[0]), names[1..], n);
    }
  }

  lemma NormalWithLast(pre: seq<Name>, part: Name)
    requires Clean(pre)
    ensures Normal(Slashed(pre) + "/" + part) == if part == "" then pre else Enter(pre, part)
  {
    SplitSlashed(pre);
    FoldOfClean([], pre);
    assert [] + pre == pre;
    if part == "" {
      assert Slashed(pre) + "/" + part == Slashed(pre) + "/";
      SplitTrailing(Slashed(pre));
    } else {
      SplitAppend(Slashed(pre), part);
      FoldAppend([], pre, part);
    }
  }

  lemma StableShape(pre: seq<Name>, part: Name)
    requires Clean(pre)
    ensures var t := Slashed(pre) + "/" + part;
      Render(Normal(t)) == t <==> (t == "/" || (part != "" && part != "." && part != ".."))
  {
    var t := Slashed(pre) + "/" + part;
    NormalWithLast(pre, part);
    assert pre != [] ==> |Slashed(pre[..|pre| - 1])| < |Slashed(pre)|;
    if part != "" && part != "." && part != ".." {
      assert (pre + [part])[..|pre|] == pre;
    } else {
      assert |Slashed(Normal(t))| <= |Slashed(pre)| < |t|;
    }
  }

  /** Normalising a whole result again changes nothing. */
  lemma NormalizeTwiceWhole(cwd: string, path: string, outSize: nat, pathMax: nat, once: string)
    requires 2 <= outSize <= pathMax && once == Render(Normal(Full(cwd, path, pathMax))) && |once| < outSize
    ensures Cut(Render(Normal(Full(cwd, once, pathMax))), outSize - 1) == once
  {
    NormalIdempotent(Full(cwd, path, pathMax));
    RenderAbsolute(Normal(Full(cwd, path, pathMax)));
  }

  /** With a buffer as long as the path buffer the result is always whole. */
  lemma FullBufferWhole(cwd: string, path: string, pathMax: nat)
    requires 2 <= pathMax && Fits(path, pathMax) && Rooted(cwd)
    ensures |Render(Normal(Full(cwd, path, pathMax)))| < pathMax
  {
    NormalNoLonger(Full(cwd, path, pathMax));
  }

  /**
   Normalising is idempotent: a result in a buffer as long as the path buffer, normalised
   again from any directory, is itself.
   */
  lemma NormalizeIdempotent(cwd: string, path: string, pathMax: nat, once: string, again: string)
    requires 2 <= pathMax && Fits(path, pathMax) && Rooted(cwd) && Rooted(again)
    requires once == Cut(Render(Normal(Full(cwd, path, pathMax))), pathMax - 1)
    ensures Fits(once, pathMax) && Cut(Render(Normal(Full(again, once, pathMax))), pathMax - 1) == once
  {
    FullBufferWhole(cwd, path, pathMax);
    NormalIdempotent(Full(cwd, path, pathMax));
    RenderAbsolute(Normal(Full(cwd, path, pathMax)));
  }

  /** A shorter buffer can cut a path after a slash, and then it is not. */
  lemma ShortBufferChanges()
    ensures Cut(Render(Normal("/a/b")), 3) == "/a/" && Cut(Render(Normal("/a/")), 3) == "/a"
  {
    var a: Name, b: Name := "a", "b";
    assert "/a/b" == Slashed([a]) + "/" + b by { OneSlashed(a); }
    assert "/a/" == Slashed([a]) + "/" + "" by { OneSlashed(a); }
    NormalWithLast([a], b);
    NormalWithLast([a], "");
    OneSlashed(a);
    assert Render([a, b]) == Slashed([a, b][..1]) + "/" + b;
    assert [a, b][..1] == [a];
  }

  lemma OneSlashed(n: Name)
    ensures Slashed([n]) == "/" + n
  {
    assert [n][..0] == [];
  }

  /**
   For a buffer of any length, normalising a result again changes nothing exactly when the
   buffer did not cut it after a slash, `.` or `..`.
   */
  lemma NormalizeTwice(cwd: string, path: string, outSize: nat, pathMax: nat, once: string)
    requires 2 <= outSize <= pathMax && once == Cut(Render(Normal(Full(cwd, path, pathMax))), outSize - 1)
    ensures Cut(Render(Normal(Full(cwd, once, pathMax))), outSize - 1) == once
      <==> (once == "/" || (LastName(once) != "" && LastName(once) != "." && LastName(once) != ".."))
  {
    var names := Normal(Full(cwd, path, pathMax));
    FoldClean([], Split(Full(cwd, path, pathMax)));
    RenderAbsolute(names);
    assert once[0] == '/';
    NormalNoLonger(once);
    if names == [] {
      StableShape([], "");
      assert once == Slashed([]) + "/" + "";
    } else {
      var pre, part := CutShape(names, |once|);
      assert once == Slashed(names)[..|once|];
      LastNameIs(Slashed(pre), part);
      StableShape(pre, part);
    }
  }

  // ----- what normalising means, piece by piece -----

  /** The pieces of two paths joined by a slash are the pieces of both. */
  lemma {:induction false} SplitJoined(s: string, t: string)
    ensures Split(s + "/" + t) == Split(s) + Split(t)
    decreases |s|
  {
    var all := s + "/" + t;
    if s == "" {
      assert all[1..] == t;
    } else if s[0] == '/' {
      assert all[1..] == s[1..] + "/" + t;
      SplitJoined(s[1..], t);
    } else {
      var k := NameEnd(s);
      var rest := s[k..] + "/" + t;
      SplitJoined(s[k..], t);
      assert s == s[..k] + s[k..] && all == s[..k] + rest;
      SplitName(s[..k], rest);
      assert [s[..k]] + (Split(s[k..]) + Split(t)) == [s[..k]] + Split(s[k..]) + Split(t);
    }
  }

  lemma {:induction false} FoldJoined(stack: seq<Name>, a: seq<Name>, b: seq<Name>)
    ensures Fold(stack, a + b) == Fold(Fold(stack, a), b)
    decreases |a|
  {
    if a == [] {
      assert a + b == b;
    } else {
      assert (a + b)[1..] == a[1..] + b;
      FoldJoined(Enter(stack, a[0]), a[1..], b);
    }
  }

  /** A path behind another goes on from where that one leads. */
  lemma NormalJoined(s: string, t: string)
    ensures Normal(s + "/" + t) == Fold(Normal(s), Split(t))
  {
    SplitJoined(s, t);
    FoldJoined([], Split(s), Split(t));
  }

  lemma NormalThen(s: string, n: Name)
    requires n != ""
    ensures Normal(s + "/" + n) == Enter(Normal(s), n)
  {
    NormalJoined(s, n);
    assert n + "" == n;
    SplitName(n, "");
    assert [n][1..] == [];
  }

  /** Nothing, and slashes, lead nowhere. */
  lemma NormalNothing(s: string)
    ensures Normal("") == [] && Normal(s + "/") == Normal(s)
  {
    NormalJoined(s, "");
    assert s + "/" + "" == s + "/";
  }

  /** A name leads one directory down; `.` stays, and `..` goes up again, but not above the root. */
  lemma NormalPieces(s: string, n: Name)
    requires n != "" && n != "." && n != ".."
    ensures Normal(s + "/" + n) == Normal(s) + [n] && Normal(s + "/" + ".") == Normal(s)
    ensures Normal(s + "/" + n + "/" + "..") == Normal(s)
    ensures Normal(s) == [] ==> Normal(s + "/" + "..") == []
  {
    NormalThen(s, n);
    NormalThen(s, ".");
    NormalThen(s + "/" + n, "..");
    NormalThen(s, "..");
  }

  /** An absolute path does not depend on the working directory; a relative one goes on from it, unless it is cut. */
  lemma NormalFrom(cwd: string, path: string, pathMax: nat)
    requires pathMax > 0
    ensures path != "" && path[0] == '/' ==> Normal(Full(cwd, path, pathMax)) == Normal(path)
    ensures (path == "" || path[0] != '/') && |cwd| + 1 + |path| < pathMax ==>
      Normal(Full(cwd, path, pathMax)) == Normal(cwd + "/" + path) == Fold(Normal(cwd), Split(path))
  {
    NormalJoined(cwd, path);
  }
}
