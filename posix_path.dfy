/**
 * The parts of Node's POSIX `path` module the resolver calls: `resolve`,
 * `dirname` and `extname`. `resolve` is modelled as normalisation of a list
 * of segments: empty and `.` segments are dropped, `..` pops the last
 * segment (never above the root), and an absolute argument restarts from
 * the root. Node falls back to the working directory when no argument is
 * absolute; every caller in this model passes an absolute first argument
 * (the working directory itself, in `Configure`), so the fallback is never
 * reached.
 */
module PosixPath {
  import opened Wrappers
  import opened Strings

  predicate IsAbsolute(p: string)
  {
    |p| > 0 && p[0] == '/'
  }

  /** `s.split('/')`. */
  function SplitSlash(s: string): (r: seq<string>)
    ensures |r| >= 1
    ensures forall k :: 0 <= k < |r| ==> '/' !in r[k]
  {
    if s == [] then [""]
    else if s[0] == '/' then [""] + SplitSlash(s[1..])
    else
      var rest := SplitSlash(s[1..]);
      [[s[0]] + rest[0]] + rest[1..]
  }

  /** `segments.join('/')`. */
  function JoinSlash(segments: seq<string>): string
  {
    if segments == [] then ""
    else if |segments| == 1 then segments[0]
    else segments[0] + "/" + JoinSlash(segments[1..])
  }

  /** Splitting on `/` and joining again gives back the string. */
  lemma {:induction false} JoinSplit(s: string)
    ensures JoinSlash(SplitSlash(s)) == s
    decreases |s|
  {
    if s == [] {
    } else if s[0] == '/' {
      JoinSplit(s[1..]);
      assert s == "/" + s[1..];
    } else {
      JoinSplit(s[1..]);
      var rest := SplitSlash(s[1..]);
      if |rest| == 1 {
        assert s == [s[0]] + rest[0];
      } else {
        assert JoinSlash(rest) == rest[0] + "/" + JoinSlash(rest[1..]);
        assert s == [s[0]] + rest[0] + "/" + JoinSlash(rest[1..]);
      }
    }
  }

  /** Splitting a string with no slash gives that one segment. */
  lemma {:induction false} SplitNoSlash(a: string)
    requires '/' !in a
    ensures SplitSlash(a) == [a]
    decreases |a|
  {
    if a != [] {
      assert '/' !in a[1..];
      SplitNoSlash(a[1..]);
      assert [a[0]] + a[1..] == a;
    }
  }

  /** Splitting `a + "/" + b` where `a` has no slash gives `a` and then the segments of `b`. */
  lemma {:induction false} SplitSlashCons(a: string, b: string)
    requires '/' !in a
    ensures SplitSlash(a + "/" + b) == [a] + SplitSlash(b)
    decreases |a|
  {
    var s := a + "/" + b;
    if a == [] {
      assert s[0] == '/' && s[1..] == b;
    } else {
      assert s[0] == a[0] && s[1..] == a[1..] + "/" + b;
      assert '/' !in a[1..];
      SplitSlashCons(a[1..], b);
      assert [a[0]] + a[1..] == a;
    }
  }

  /** Joining slash-free segments and splitting again gives back the segments. */
  lemma {:induction false} SplitJoin(segments: seq<string>)
    requires |segments| >= 1
    requires forall k :: 0 <= k < |segments| ==> '/' !in segments[k]
    ensures SplitSlash(JoinSlash(segments)) == segments
    decreases |segments|
  {
    if |segments| == 1 {
      SplitNoSlash(segments[0]);
    } else {
      SplitJoin(segments[1..]);
      SplitSlashCons(segments[0], JoinSlash(segments[1..]));
      assert [segments[0]] + segments[1..] == segments;
    }
  }

  lemma SplitJoinNames(segments: seq<string>)
    requires AllNames(segments)
    ensures segments != [] ==> SplitSlash(JoinSlash(segments)) == segments
  {
    if segments != [] {
      SplitJoin(segments);
    }
  }

  /** Joining two non-empty lists of segments puts one slash between them. */
  lemma {:induction false} JoinAppend(a: seq<string>, b: seq<string>)
    requires |a| >= 1 && |b| >= 1
    ensures JoinSlash(a + b) == JoinSlash(a) + "/" + JoinSlash(b)
    decreases |a|
  {
    if |a| == 1 {
      assert (a + b)[1..] == b;
    } else {
      assert (a + b)[1..] == a[1..] + b;
      JoinAppend(a[1..], b);
    }
  }

  /** A segment that survives normalisation. */
  predicate IsName(segment: string)
  {
    segment != "" && segment != "." && segment != ".." && '/' !in segment
  }

  predicate AllNames(segments: seq<string>)
  {
    forall k :: 0 <= k < |segments| ==> IsName(segments[k])
  }

  /** Joining names gives no run of slashes and no slash at either end. */
  lemma {:induction false} JoinNames(segments: seq<string>)
    requires AllNames(segments)
    ensures NoDoubleSlash(JoinSlash(segments))
    ensures |JoinSlash(segments)| > 0 <==> |segments| > 0
    ensures |segments| > 0 ==> JoinSlash(segments)[0] != '/'
    ensures |segments| > 0 ==> JoinSlash(segments)[|JoinSlash(segments)| - 1] != '/'
    decreases |segments|
  {
    if segments == [] {
    } else if |segments| == 1 {
      var a := segments[0];
      forall i: nat | i + 1 < |a| ensures !DoubleSlashAt(a, i) {
        assert a[i] in a;
      }
      assert a[0] in a && a[|a| - 1] in a;
    } else {
      var a, rest := segments[0], segments[1..];
      JoinNames(rest);
      var j := JoinSlash(rest);
      var s := a + "/" + j;
      assert a[0] in a && a[|a| - 1] in a;
      forall i: nat | i + 1 < |s| ensures !DoubleSlashAt(s, i) {
        if i + 1 < |a| {
          assert s[i + 1] == a[i + 1] && a[i + 1] in a;
        } else if i + 1 == |a| {
          assert s[i] == a[i] && a[i] in a;
        } else if i == |a| {
          assert s[i + 1] == j[0];
        } else {
          assert s[i] == j[i - |a| - 1] && s[i + 1] == j[i - |a|];
          assert !DoubleSlashAt(j, i - |a| - 1);
        }
      }
      assert s[|s| - 1] == j[|j| - 1];
    }
  }

  /** One segment of a path applied to the stack of segments built so far. */
  function Step(stack: seq<string>, segment: string): seq<string>
  {
    if segment == "" || segment == "." then stack
    else if segment == ".." then (if stack == [] then [] else stack[..|stack| - 1])
    else stack + [segment]
  }

  /** The segments applied in order. */
  function StepAll(stack: seq<string>, segments: seq<string>): (r: seq<string>)
    requires forall k :: 0 <= k < |segments| ==> '/' !in segments[k]
    ensures AllNames(stack) ==> AllNames(r)
    decreases |segments|
  {
    if segments == [] then stack else StepAll(Step(stack, segments[0]), segments[1..])
  }

  /** The normalised segments of `path.resolve(...args)` with an absolute first argument. */
  function ResolveSegments(args: seq<string>): (r: seq<string>)
    ensures AllNames(r)
  {
    if args == [] then []
    else
      var last := args[|args| - 1];
      StepAll(if IsAbsolute(last) then [] else ResolveSegments(args[..|args| - 1]), SplitSlash(last))
  }

  /** A path as `path.resolve` returns it: `/`, or `/` followed by names joined with `/`. */
  predicate IsNormal(p: string)
  {
    p == "/" || (IsAbsolute(p) && AllNames(SplitSlash(p[1..])))
  }

  /** The path made of these names under the root. */
  function FromNames(segments: seq<string>): (p: string)
    requires AllNames(segments)
    ensures IsNormal(p)
    ensures segments != [] ==> SplitSlash(p[1..]) == segments
  {
    var p := "/" + JoinSlash(segments);
    assert p[1..] == JoinSlash(segments);
    SplitJoinNames(segments);
    p
  }

  /** `path.resolve(...args)`. */
  function Resolve(args: seq<string>): (r: string)
    ensures IsNormal(r)
  {
    FromNames(ResolveSegments(args))
  }

  /** The names of a normal path. */
  function NamesOf(p: string): (r: seq<string>)
    requires IsNormal(p)
    ensures AllNames(r)
    ensures FromNames(r) == p
  {
    if p == "/" then []
    else
      var segments := SplitSlash(p[1..]);
      JoinSplit(p[1..]);
      assert p == "/" + p[1..];
      segments
  }

  /** Names pass through normalisation unchanged. */
  lemma {:induction false} StepAllNames(stack: seq<string>, segments: seq<string>)
    requires AllNames(segments)
    ensures StepAll(stack, segments) == stack + segments
    decreases |segments|
  {
    if segments != [] {
      StepAllNames(stack + [segments[0]], segments[1..]);
      assert stack + [segments[0]] + segments[1..] == stack + segments;
    }
  }

  /** A normal path resolves to its own names. */
  lemma NormalSegments(p: string)
    requires IsNormal(p)
    ensures ResolveSegments([p]) == NamesOf(p)
  {
    assert [p][..0] == [];
    var names := NamesOf(p);
    if p == "/" {
      assert p == "/" + "";
      SplitSlashCons("", "");
      assert SplitSlash(p) == ["", ""];
      assert StepAll([], [""]) == [];
      assert StepAll([], ["", ""]) == StepAll([], [""]);
    } else {
      assert p == "" + "/" + p[1..];
      SplitSlashCons("", p[1..]);
      StepAllNames([], names);
    }
  }

  /** Resolving an already resolved path gives it back. */
  lemma ResolveIdempotent(args: seq<string>)
    ensures Resolve([Resolve(args)]) == Resolve(args)
  {
    var p := Resolve(args);
    NormalSegments(p);
  }

  /** An absolute argument discards everything before it. */
  lemma AbsoluteRestarts(before: seq<string>, abs: string)
    requires IsAbsolute(abs)
    ensures Resolve(before + [abs]) == Resolve([abs])
  {
    assert (before + [abs])[..|before|] == before;
    assert [abs][..0] == [];
  }

  /** Segments with no `..` only ever push names. */
  predicate Downward(segments: seq<string>)
  {
    forall k :: 0 <= k < |segments| ==> segments[k] != ".."
  }

  /** The names a relative, `..`-free path adds under its base. */
  function DownwardNames(segments: seq<string>): (r: seq<string>)
    ensures AllNames(r)
    requires forall k :: 0 <= k < |segments| ==> '/' !in segments[k]
  {
    StepAll([], segments)
  }

  lemma {:induction false} StepAllDownward(stack: seq<string>, segments: seq<string>)
    requires forall k :: 0 <= k < |segments| ==> '/' !in segments[k]
    requires Downward(segments)
    ensures StepAll(stack, segments) == stack + StepAll([], segments)
    decreases |segments|
  {
    if segments != [] {
      var s := segments[0];
      assert s != "..";
      if s == "" || s == "." {
        StepAllDownward(stack, segments[1..]);
      } else {
        assert Step(stack, s) == stack + [s] && Step([], s) == [s];
        StepAllDownward(stack + [s], segments[1..]);
        StepAllDownward([s], segments[1..]);
        assert stack + [s] + StepAll([], segments[1..]) == stack + ([s] + StepAll([], segments[1..]));
      }
    }
  }

  /**
   * Resolving a relative path with no `..` segment against a normal base
   * lands under the base: the base's names followed by the path's names.
   */
  lemma ResolveUnder(base: string, rel: string)
    requires IsNormal(base) && !IsAbsolute(rel) && Downward(SplitSlash(rel))
    ensures ResolveSegments([base, rel]) == NamesOf(base) + DownwardNames(SplitSlash(rel))
  {
    assert [base, rel][..1] == [base];
    NormalSegments(base);
    StepAllDownward(NamesOf(base), SplitSlash(rel));
  }

  lemma SplitCurrentDir()
    ensures SplitSlash("./") == [".", ""]
  {
    var s := "./";
    assert s[0] == '.' && s[1..] == "/";
    var t := s[1..];
    assert t[0] == '/' && t[1..] == "";
    assert SplitSlash(t) == ["", ""];
    assert [s[0]] + "" == ".";
  }

  /** The result of `path.resolve(base, "./", rel)` as the base followed by the new names. */
  lemma ResolveUnderCurrentDir(base: string, rel: string)
    requires IsNormal(base) && !IsAbsolute(rel) && Downward(SplitSlash(rel))
    ensures ResolveSegments([base, "./", rel]) == NamesOf(base) + DownwardNames(SplitSlash(rel))
  {
    var names := NamesOf(base);
    NormalSegments(base);
    SplitCurrentDir();
    assert StepAll(names, [""]) == names;
    assert StepAll(names, [".", ""]) == names;
    var two := [base, "./"];
    assert two[..1] == [base];
    assert ResolveSegments(two) == names;
    var three := [base, "./", rel];
    assert three[..2] == two;
    assert ResolveSegments(three) == StepAll(names, SplitSlash(rel));
    StepAllDownward(names, SplitSlash(rel));
  }

  /** `path.resolve(base, parent, rel)` with two relative, `..`-free arguments: both add their names in turn. */
  lemma ResolveUnderParent(base: string, parent: string, rel: string)
    requires IsNormal(base)
    requires !IsAbsolute(parent) && Downward(SplitSlash(parent))
    requires !IsAbsolute(rel) && Downward(SplitSlash(rel))
    ensures ResolveSegments([base, parent, rel])
         == NamesOf(base) + DownwardNames(SplitSlash(parent)) + DownwardNames(SplitSlash(rel))
  {
    var two := [base, parent];
    var three := [base, parent, rel];
    assert three[..2] == two;
    ResolveUnder(base, parent);
    StepAllDownward(ResolveSegments(two), SplitSlash(rel));
  }

  /** Two lists of names joined are still names. */
  lemma AllNamesConcat(a: seq<string>, b: seq<string>)
    requires AllNames(a) && AllNames(b)
    ensures AllNames(a + b)
  {
    forall k | 0 <= k < |a + b| ensures IsName((a + b)[k]) {
      if k < |a| { assert (a + b)[k] == a[k]; } else { assert (a + b)[k] == b[k - |a|]; }
    }
  }

  /** Resolving under a normal base and a downward parent: the parent's names, then the relative path's. */
  lemma ResolveUnderParentNames(base: string, parent: string, rel: string)
    requires IsNormal(base)
    requires !IsAbsolute(parent) && Downward(SplitSlash(parent))
    requires !IsAbsolute(rel) && Downward(SplitSlash(rel))
    ensures Resolve([base, parent, rel])
         == FromNames(NamesOf(base) + (DownwardNames(SplitSlash(parent)) + DownwardNames(SplitSlash(rel))))
  {
    ResolveUnderParent(base, parent, rel);
    ConcatAssoc(NamesOf(base), DownwardNames(SplitSlash(parent)), DownwardNames(SplitSlash(rel)));
  }

  lemma ConcatAssoc(n: seq<string>, a: seq<string>, b: seq<string>)
    ensures n + a + b == n + (a + b)
  {
  }

  /** A `./`-prefixed join of names is relative, `..`-free, and contributes exactly those names. */
  lemma DotJoinNames(names: seq<string>)
    requires AllNames(names)
    ensures !IsAbsolute("./" + JoinSlash(names))
    ensures Downward(SplitSlash("./" + JoinSlash(names)))
    ensures DownwardNames(SplitSlash("./" + JoinSlash(names))) == names
  {
    var j := JoinSlash(names);
    assert "./" + j == "." + "/" + j;
    assert '/' !in ".";
    SplitSlashCons(".", j);
    var segments := SplitSlash("./" + j);
    if names == [] {
      assert SplitSlash(j) == [""];
      assert segments == [".", ""];
      assert StepAll([], [""]) == [];
    } else {
      SplitJoin(names);
      assert segments == ["."] + names;
      assert segments[1..] == names;
      StepAllNames([], names);
    }
  }

  function Last(segments: seq<string>): string
    requires |segments| >= 1
  {
    segments[|segments| - 1]
  }

  /** Appending slash-free text to a path extends its last segment. */
  lemma {:induction false} LastSplitAppend(a: string, b: string)
    requires '/' !in b
    ensures |SplitSlash(a + b)| == |SplitSlash(a)|
    ensures Last(SplitSlash(a + b)) == Last(SplitSlash(a)) + b
    decreases |a|
  {
    if a == [] {
      assert a + b == b;
      SplitNoSlash(b);
    } else {
      var s := a + b;
      assert s[0] == a[0] && s[1..] == a[1..] + b;
      LastSplitAppend(a[1..], b);
    }
  }

  /** A path that does not end in a slash has a non-empty last segment. */
  lemma LastSegmentNonEmpty(p: string)
    requires |p| > 0 && p[|p| - 1] != '/'
    ensures Last(SplitSlash(p)) != ""
  {
    var init := p[..|p| - 1];
    assert p == init + [p[|p| - 1]];
    LastSplitAppend(init, [p[|p| - 1]]);
  }

  /** `p` with its trailing slashes removed. */
  function TrimTrailingSlashes(p: string): (r: string)
    ensures |r| <= |p| && r == p[..|r|]
    ensures |r| > 0 ==> r[|r| - 1] != '/'
    decreases |p|
  {
    if |p| > 0 && p[|p| - 1] == '/' then TrimTrailingSlashes(p[..|p| - 1]) else p
  }

  /** The index of the last `.` in `b`. */
  function LastDot(b: string): (r: Option<nat>)
    ensures r.Some? ==> r.value < |b| && b[r.value] == '.' && '.' !in b[r.value + 1..]
    ensures r.None? ==> '.' !in b
    decreases |b|
  {
    if b == [] then None
    else if b[|b| - 1] == '.' then Some(|b| - 1)
    else
      var r := LastDot(b[..|b| - 1]);
      assert b == b[..|b| - 1] + [b[|b| - 1]];
      assert r.Some? ==> b[r.value + 1..] == b[..|b| - 1][r.value + 1..] + [b[|b| - 1]];
      r
  }

  lemma {:induction false} LastDotAppend(x: string, y: string)
    requires '.' !in y
    ensures LastDot(x + y) == LastDot(x)
    decreases |y|
  {
    if y != [] {
      var init := y[..|y| - 1];
      assert y[|y| - 1] in y;
      assert (x + y)[|x + y| - 1] == y[|y| - 1] != '.';
      assert (x + y)[..|x + y| - 1] == x + init;
      assert '.' !in init by {
        forall c | c in init ensures c != '.' {
          var k :| 0 <= k < |init| && init[k] == c;
          assert y[k] == c;
        }
      }
      LastDotAppend(x, init);
    } else {
      assert x + y == x;
    }
  }

  /**
   * `path.extname(p)`: the last segment from its last `.` on, and empty when
   * the segment has no dot, starts with its only dot (`.gitignore`) or is `..`.
   */
  function Extname(p: string): (r: string)
    ensures r == "" || (r[0] == '.' && '/' !in r && '.' !in r[1..])
  {
    var base := Last(SplitSlash(TrimTrailingSlashes(p)));
    match LastDot(base)
    case None => ""
    case Some(d) =>
      if d == 0 || base == ".." then ""
      else
        assert forall c :: c in base[d..] ==> c in base;
        assert base[d..][1..] == base[d + 1..];
        base[d..]
  }

  /** An extension appended to a path that does not end in a slash is that path's extension. */
  lemma ExtnameOfAppended(p: string, ext: string)
    requires |p| > 0 && p[|p| - 1] != '/'
    requires |ext| >= 2 && ext[0] == '.' && '.' !in ext[1..] && '/' !in ext
    ensures Extname(p + ext) == ext
  {
    var s := p + ext;
    assert s[|s| - 1] == ext[|ext| - 1] && ext[|ext| - 1] in ext;
    assert TrimTrailingSlashes(s) == s;
    LastSplitAppend(p, ext);
    LastSegmentNonEmpty(p);
    var stem := Last(SplitSlash(p));
    var base := stem + ext;
    assert base == (stem + ['.']) + ext[1..];
    LastDotAppend(stem + ['.'], ext[1..]);
    assert LastDot(stem + ['.']) == Some(|stem|);
    assert base[|stem|..] == ext;
  }

  /**
   * Node's `dirname` scan: from index `i` down to 1, the index of the first
   * slash met after a non-slash character (`matchedSlash` is true while only
   * trailing slashes have been seen), or -1.
   */
  function DirEnd(p: string, i: nat, matchedSlash: bool): (r: int)
    requires i < |p|
    ensures r == -1 || (1 <= r <= i && p[r] == '/')
    decreases i
  {
    if i == 0 then -1
    else if p[i] == '/' then (if !matchedSlash then i else DirEnd(p, i - 1, true))
    else DirEnd(p, i - 1, false)
  }

  /** `path.dirname(p)`. */
  function Dirname(p: string): (r: string)
    ensures r == "." || r == "/" || r == "//" || (|r| < |p| && r == p[..|r|] && p[|r|] == '/')
  {
    if |p| == 0 then "."
    else
      var end := DirEnd(p, |p| - 1, true);
      if end == -1 then (if p[0] == '/' then "/" else ".")
      else if p[0] == '/' && end == 1 then "//"
      else p[..end]
  }

  lemma {:induction false} DirEndOverName(p: string, slash: nat, i: nat, matchedSlash: bool)
    requires 1 <= slash <= i < |p| && p[slash] == '/'
    requires forall j :: slash < j <= i ==> p[j] != '/'
    requires matchedSlash ==> slash < i
    ensures DirEnd(p, i, matchedSlash) == slash
    decreases i
  {
    if i > slash {
      DirEndOverName(p, slash, i - 1, false);
    }
  }

  /** The directory of `dir + "/" + name` is `dir`. */
  lemma DirnameOfChild(dir: string, name: string)
    requires |dir| > 0 && dir != "/"
    requires |name| > 0 && '/' !in name
    ensures Dirname(dir + "/" + name) == dir
  {
    var p := dir + "/" + name;
    forall j | |dir| < j <= |p| - 1 ensures p[j] != '/' {
      assert p[j] == name[j - |dir| - 1];
    }
    DirEndOverName(p, |dir|, |p| - 1, true);
    assert p[..|dir|] == dir;
  }
}
