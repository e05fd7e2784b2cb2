/**
 * The string operations of JavaScript that the resolver relies on:
 * `String.prototype.indexOf`, `includes`, `replace` with a string pattern,
 * and `replace(/\/+/g, '/')`, which collapses runs of slashes.
 */
module Strings {
  import opened Wrappers

  /** `t` occurs in `s` starting at index `i`. */
  predicate OccursAt(s: string, t: string, i: nat)
  {
    i + |t| <= |s| && s[i..i + |t|] == t
  }

  predicate StartsWith(s: string, prefix: string)
  {
    OccursAt(s, prefix, 0)
  }

  /** `s.indexOf(t, from)`: the first occurrence of `t` at or after `from`. */
  function IndexOfFrom(s: string, t: string, from: nat): (r: Option<nat>)
    requires from <= |s|
    ensures r.Some? ==> from <= r.value && OccursAt(s, t, r.value)
    ensures forall j: nat :: from <= j && (r.None? || j < r.value) ==> !OccursAt(s, t, j)
    decreases |s| - from
  {
    if OccursAt(s, t, from) then Some(from)
    else if from == |s| then None
    else IndexOfFrom(s, t, from + 1)
  }

  function IndexOf(s: string, t: string): (r: Option<nat>)
    ensures r.Some? ==> OccursAt(s, t, r.value)
    ensures forall j: nat :: (r.None? || j < r.value) ==> !OccursAt(s, t, j)
  {
    IndexOfFrom(s, t, 0)
  }

  /** `s.includes(t)`: the text occurs at some index. */
  predicate Contains(s: string, t: string)
    ensures Contains(s, t) <==> exists i: nat :: OccursAt(s, t, i)
  {
    IndexOf(s, t).Some?
  }

  lemma StartsWithFirstIndex(s: string, t: string)
    requires StartsWith(s, t)
    ensures IndexOf(s, t) == Some(0)
  {
  }

  /** `s.replace(t, replacement)` with a string pattern: only the first occurrence is replaced. */
  function ReplaceFirst(s: string, t: string, replacement: string): (r: string)
    ensures IndexOf(s, t).None? ==> r == s
    ensures IndexOf(s, t).Some? ==>
      var i := IndexOf(s, t).value;
      |r| == |s| - |t| + |replacement|
      && r[..i] == s[..i]
      && r[i..i + |replacement|] == replacement
      && r[i + |replacement|..] == s[i + |t|..]
  {
    match IndexOf(s, t)
    case None => s
    case Some(i) => s[..i] + replacement + s[i + |t|..]
  }

  /** Slashes at index `i` and `i + 1`. */
  predicate DoubleSlashAt(s: string, i: nat)
    requires i + 1 < |s|
  {
    s[i] == '/' && s[i + 1] == '/'
  }

  /** No two adjacent slashes. */
  predicate NoDoubleSlash(s: string)
  {
    forall i: nat :: i + 1 < |s| ==> !DoubleSlashAt(s, i)
  }

  lemma NoDoubleSlashCons(c: char, t: string)
    requires NoDoubleSlash(t)
    requires c == '/' && |t| > 0 ==> t[0] != '/'
    ensures NoDoubleSlash([c] + t)
  {
    var s := [c] + t;
    forall i: nat | i + 1 < |s| ensures !DoubleSlashAt(s, i) {
      if i > 0 {
        assert s[i] == t[i - 1] && s[i + 1] == t[i];
        assert !DoubleSlashAt(t, i - 1);
      }
    }
  }

  lemma NoDoubleSlashTail(s: string)
    requires NoDoubleSlash(s) && |s| > 0
    ensures NoDoubleSlash(s[1..])
  {
    var t := s[1..];
    forall i: nat | i + 1 < |t| ensures !DoubleSlashAt(t, i) {
      assert !DoubleSlashAt(s, i + 1);
    }
  }

  /**
   * `s.replace(/\/+/g, '/')` read left to right: `afterSlash` says that the
   * character just emitted was a slash, so a further slash is dropped.
   */
  function CollapseFrom(s: string, afterSlash: bool): (r: string)
    ensures NoDoubleSlash(r)
    ensures afterSlash && |r| > 0 ==> r[0] != '/'
    ensures |r| <= |s|
  {
    if s == [] then []
    else if s[0] == '/' && afterSlash then CollapseFrom(s[1..], true)
    else
      var rest := CollapseFrom(s[1..], s[0] == '/');
      NoDoubleSlashCons(s[0], rest);
      [s[0]] + rest
  }

  function CollapseSlashes(s: string): (r: string)
    ensures NoDoubleSlash(r) && |r| <= |s|
  {
    CollapseFrom(s, false)
  }

  /** Collapsing changes nothing when there is no run of slashes to collapse. */
  lemma {:induction false} CollapseFromNoop(s: string, afterSlash: bool)
    requires NoDoubleSlash(s)
    requires afterSlash && |s| > 0 ==> s[0] != '/'
    ensures CollapseFrom(s, afterSlash) == s
    decreases |s|
  {
    if s != [] {
      NoDoubleSlashTail(s);
      if |s| > 1 {
        assert !DoubleSlashAt(s, 0);
      }
      CollapseFromNoop(s[1..], s[0] == '/');
    }
  }

  /** Collapsing slashes is idempotent. */
  lemma CollapseIdempotent(s: string)
    ensures CollapseSlashes(CollapseSlashes(s)) == CollapseSlashes(s)
  {
    CollapseFromNoop(CollapseSlashes(s), false);
  }

  /** One step of collapsing: the first character and the rest. */
  lemma CollapseFromCons(c: char, t: string, afterSlash: bool)
    ensures CollapseFrom([c] + t, afterSlash)
         == if c == '/' && afterSlash then CollapseFrom(t, true) else [c] + CollapseFrom(t, c == '/')
  {
    var s := [c] + t;
    assert s[0] == c && s[1..] == t;
  }

  /** Whether the last character emitted after reading `a` was a slash. */
  function AfterSlash(a: string, afterSlash: bool): bool
  {
    if a == [] then afterSlash else a[|a| - 1] == '/'
  }

  /** Collapsing works left to right: the second part continues from where the first left off. */
  lemma {:induction false} CollapseFromConcat(a: string, b: string, afterSlash: bool)
    ensures CollapseFrom(a + b, afterSlash) == CollapseFrom(a, afterSlash) + CollapseFrom(b, AfterSlash(a, afterSlash))
    decreases |a|
  {
    if a == [] {
      assert a + b == b;
    } else {
      var t := a[1..];
      assert a + b == [a[0]] + (t + b);
      assert a == [a[0]] + t;
      CollapseFromCons(a[0], t + b, afterSlash);
      CollapseFromCons(a[0], t, afterSlash);
      CollapseFromConcat(t, b, a[0] == '/');
      assert AfterSlash(t, a[0] == '/') == AfterSlash(a, afterSlash);
      if !(a[0] == '/' && afterSlash) {
        ConcatAssocChars([a[0]], CollapseFrom(t, a[0] == '/'), CollapseFrom(b, AfterSlash(a, afterSlash)));
      }
    }
  }

  lemma ConcatAssocChars(x: string, y: string, z: string)
    ensures x + (y + z) == x + y + z
  {
  }

  /** A run of two slashes collapses exactly like a single slash, wherever it stands. */
  lemma CollapseRun(a: string, b: string)
    ensures CollapseSlashes(a + "//" + b) == CollapseSlashes(a + "/" + b)
  {
    var g := AfterSlash(a, false);
    assert a + "//" + b == a + ("//" + b);
    assert a + "/" + b == a + ("/" + b);
    CollapseFromConcat(a, "//" + b, false);
    CollapseFromConcat(a, "/" + b, false);
    assert "//" + b == ['/'] + ("/" + b);
    assert "/" + b == ['/'] + b;
    CollapseFromCons('/', "/" + b, g);
    CollapseFromCons('/', b, true);
    CollapseFromCons('/', b, g);
  }

  /** `"./" + rest` is already collapsed when `rest` has no run of slashes and does not start with one. */
  lemma CollapseDotSlash(rest: string)
    requires NoDoubleSlash(rest)
    requires |rest| > 0 ==> rest[0] != '/'
    ensures CollapseSlashes("./" + rest) == "./" + rest
  {
    CollapseFromNoop(rest, true);
    CollapseFromCons('/', rest, false);
    CollapseFromCons('.', ['/'] + rest, false);
    assert ['.'] + (['/'] + rest) == "./" + rest;
  }

  /** `"./" + "/" + rest` collapses to `"./" + rest` when `rest` has no run of slashes to collapse. */
  lemma CollapseDotSlashSlash(rest: string)
    requires NoDoubleSlash(rest)
    requires |rest| > 0 ==> rest[0] != '/'
    ensures CollapseSlashes("./" + ("/" + rest)) == "./" + rest
  {
    var one := ['/'] + rest;
    var two := ['/'] + one;
    var three := ['.'] + two;
    CollapseFromNoop(rest, true);
    CollapseFromCons('/', rest, true);
    CollapseFromCons('/', one, false);
    CollapseFromCons('.', two, false);
    assert CollapseFrom(three, false) == ['.'] + one;
    assert two == "/" + one;
    assert three == "./" + one;
    assert ['.'] + one == "./" + rest;
  }

  /** Replacing the first occurrence of a prefix replaces that prefix. */
  lemma ReplacePrefix(t: string, rest: string, replacement: string)
    ensures ReplaceFirst(t + rest, t, replacement) == replacement + rest
  {
    var s := t + rest;
    assert s[..|t|] == t;
    StartsWithFirstIndex(s, t);
    assert s[|t|..] == rest;
  }
}
