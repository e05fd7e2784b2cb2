/**
 * Glob-to-pattern compilation (`preparePattern`, `preparedPatterns`) and
 * pattern matching (`matchAnyPattern`).
 *
 * A compiled pattern is a `RegExp`, represented by its source text. Its
 * meaning is given by a small matcher for the only constructs compilation
 * produces: literal characters and the capturing wildcard groups `(.*)` and
 * `(.+)`. Every other character of a source text, regular-expression
 * metacharacters included, is read as a literal. The matcher follows
 * JavaScript's search order: the leftmost starting index wins, and each
 * wildcard first takes as much as it can and then gives characters back.
 */
module Patterns {
  import opened Wrappers

  /** A compiled `RegExp`, identified by its source text. */
  datatype Regex = Regex(source: string)

  /** `RawPattern = string | RegExp`. */
  datatype RawPattern = Glob(text: string) | Compiled(regex: Regex)

  predicate IsWildcard(c: char)
  {
    c == '*' || c == '+'
  }

  /** What the replacement `(.$1)` makes of one character. */
  function Piece(c: char): string
  {
    if IsWildcard(c) then ['(', '.', c, ')'] else [c]
  }

  function CountWildcards(glob: string): nat
  {
    if glob == [] then 0 else (if IsWildcard(glob[0]) then 1 else 0) + CountWildcards(glob[1..])
  }

  /** `glob.replace(/([+*])/g, '(.$1)')`: each wildcard grows by three characters. */
  function Compile(glob: string): (r: string)
    ensures |r| == |glob| + 3 * CountWildcards(glob)
  {
    if glob == [] then [] else Piece(glob[0]) + Compile(glob[1..])
  }

  /** Compilation works character by character, in order. */
  lemma {:induction false} CompileConcat(a: string, b: string)
    ensures Compile(a + b) == Compile(a) + Compile(b)
    decreases |a|
  {
    if a != [] {
      assert (a + b)[0] == a[0] && (a + b)[1..] == a[1..] + b;
      CompileConcat(a[1..], b);
    } else {
      assert a + b == b;
    }
  }

  /** A glob without wildcards compiles to itself. */
  lemma {:induction false} CompileLiteral(glob: string)
    requires CountWildcards(glob) == 0
    ensures Compile(glob) == glob
    decreases |glob|
  {
    if glob != [] {
      CompileLiteral(glob[1..]);
      assert [glob[0]] + glob[1..] == glob;
    }
  }

  /** The compiled text never has a wildcard character at index 0 or 1. */
  lemma {:induction false} CompileHead(glob: string)
    ensures |Compile(glob)| > 0 ==> !IsWildcard(Compile(glob)[0])
    ensures |Compile(glob)| > 1 ==> !IsWildcard(Compile(glob)[1])
    decreases |glob|
  {
    if glob != [] && !IsWildcard(glob[0]) {
      CompileHead(glob[1..]);
    }
  }

  /** A pattern token: a literal character, `(.*)` or `(.+)`. */
  datatype Token = Lit(c: char) | AnyStar | AnyPlus

  const StarGroup: string := "(.*)"
  const PlusGroup: string := "(.+)"

  /** The tokens of a pattern's source text. */
  function Parse(source: string): seq<Token>
    decreases |source|
  {
    if source == [] then []
    else if |source| >= 4 && source[..4] == StarGroup then [AnyStar] + Parse(source[4..])
    else if |source| >= 4 && source[..4] == PlusGroup then [AnyPlus] + Parse(source[4..])
    else [Lit(source[0])] + Parse(source[1..])
  }

  /** The tokens a glob stands for: `*` any run, `+` a non-empty run, anything else itself. */
  function GlobTokens(glob: string): seq<Token>
  {
    if glob == [] then []
    else if glob[0] == '*' then [AnyStar] + GlobTokens(glob[1..])
    else if glob[0] == '+' then [AnyPlus] + GlobTokens(glob[1..])
    else [Lit(glob[0])] + GlobTokens(glob[1..])
  }

  /** Reading back a compiled glob gives exactly the glob's tokens. */
  lemma {:induction false} ParseCompile(glob: string)
    ensures Parse(Compile(glob)) == GlobTokens(glob)
    decreases |glob|
  {
    if glob != [] {
      var c := glob[0];
      var rest := Compile(glob[1..]);
      ParseCompile(glob[1..]);
      var src := Piece(c) + rest;
      assert Compile(glob) == src;
      if IsWildcard(c) {
        assert src[..4] == Piece(c) && src[4..] == rest;
        assert StarGroup[2] == '*' && PlusGroup[2] == '+';
      } else {
        CompileHead(glob[1..]);
        assert src[0] == c && src[1..] == rest;
        if |src| >= 4 {
          assert src[2] == rest[1];
          assert src[..4][2] == src[2];
          assert StarGroup[2] == '*' && PlusGroup[2] == '+';
        }
      }
    }
  }

  /** `w` as a whole is matched by the tokens. */
  ghost predicate Matches(tokens: seq<Token>, w: string)
    decreases |tokens|
  {
    if tokens == [] then w == []
    else match tokens[0]
      case Lit(c) => |w| > 0 && w[0] == c && Matches(tokens[1..], w[1..])
      case AnyStar => exists k :: 0 <= k <= |w| && Matches(tokens[1..], w[k..])
      case AnyPlus => exists k :: 1 <= k <= |w| && Matches(tokens[1..], w[k..])
  }

  predicate HasWildcard(tokens: seq<Token>)
  {
    exists k :: 0 <= k < |tokens| && !tokens[k].Lit?
  }

  /** The characters a capture group took: `s[lo..hi]`. */
  datatype Span = Span(lo: nat, hi: nat)

  /** How far a match from a given index reached, and what group 1 captured. */
  datatype Found = Found(end: nat, group: Option<Span>)

  /** A match in a string: where it starts and ends, and what group 1 captured. */
  datatype Match = Match(start: nat, end: nat, group: Option<Span>)

  predicate GroupWithin(group: Option<Span>, lo: nat, hi: nat)
  {
    group.None? || lo <= group.value.lo <= group.value.hi <= hi
  }

  /**
   * The first match, in backtracking order, of the tokens at index `i` of `s`.
   * Group 1 is the first wildcard.
   */
  function MatchFrom(tokens: seq<Token>, s: string, i: nat): (r: Option<Found>)
    requires i <= |s|
    ensures r.Some? ==> i <= r.value.end <= |s| && GroupWithin(r.value.group, i, r.value.end)
    decreases |tokens|, |s| + 1
  {
    if tokens == [] then Some(Found(i, None))
    else match tokens[0]
      case Lit(c) => if i < |s| && s[i] == c then MatchFrom(tokens[1..], s, i + 1) else None
      case AnyStar => Greedy(tokens[1..], s, i, i, |s|)
      case AnyPlus => Greedy(tokens[1..], s, i, i + 1, |s|)
  }

  /**
   * A wildcard starting at `lo` tries to end at `k`, then at `k - 1`, and so
   * on down to `min`; the first end from which `rest` matches wins.
   */
  function Greedy(rest: seq<Token>, s: string, lo: nat, min: nat, k: nat): (r: Option<Found>)
    requires lo <= min && k <= |s|
    ensures r.Some? ==> r.value.group.Some? && r.value.group.value.lo == lo
    ensures r.Some? ==> min <= r.value.group.value.hi <= k && r.value.group.value.hi <= r.value.end <= |s|
    decreases |rest| + 1, k
  {
    if k < min then None
    else match MatchFrom(rest, s, k)
      case Some(f) => Some(Found(f.end, Some(Span(lo, k))))
      case None => if k == min then None else Greedy(rest, s, lo, min, k - 1)
  }

  /** `Greedy` found `rest` matching from the end of the group it reports. */
  lemma {:induction false} GreedyHit(rest: seq<Token>, s: string, lo: nat, min: nat, k: nat)
    requires lo <= min && k <= |s|
    requires Greedy(rest, s, lo, min, k).Some?
    ensures var f := Greedy(rest, s, lo, min, k).value;
      MatchFrom(rest, s, f.group.value.hi).Some? && MatchFrom(rest, s, f.group.value.hi).value.end == f.end
    decreases k
  {
    if MatchFrom(rest, s, k).None? {
      GreedyHit(rest, s, lo, min, k - 1);
    }
  }

  /**
   * `Greedy` is greedy: no end above the one it reports, up to `k`, lets the
   * rest match; and when it reports nothing, no end from `min` to `k` does.
   */
  lemma {:induction false} GreedyLargest(rest: seq<Token>, s: string, lo: nat, min: nat, k: nat)
    requires lo <= min && k <= |s|
    ensures Greedy(rest, s, lo, min, k).Some? ==>
      forall j :: Greedy(rest, s, lo, min, k).value.group.value.hi < j <= k ==> MatchFrom(rest, s, j).None?
    ensures Greedy(rest, s, lo, min, k).None? ==> forall j :: min <= j <= k ==> MatchFrom(rest, s, j).None?
    decreases k
  {
    if min <= k && MatchFrom(rest, s, k).None? && k != min {
      GreedyLargest(rest, s, lo, min, k - 1);
    }
  }

  /** A wildcard token matches `w` when the rest matches what follows the first `k` characters. */
  lemma MatchesWildcard(tokens: seq<Token>, w: string, k: nat)
    requires tokens != [] && !tokens[0].Lit? && k <= |w| && Matches(tokens[1..], w[k..])
    requires tokens[0].AnyPlus? ==> 1 <= k
    ensures Matches(tokens, w)
  {
  }

  /** What `MatchFrom` finds is a match of the tokens. */
  lemma {:induction false} MatchFromSound(tokens: seq<Token>, s: string, i: nat)
    requires i <= |s| && MatchFrom(tokens, s, i).Some?
    ensures Matches(tokens, s[i..MatchFrom(tokens, s, i).value.end])
    decreases |tokens|, 1
  {
    if tokens != [] {
      if tokens[0].Lit? {
        var e := MatchFrom(tokens, s, i).value.end;
        assert MatchFrom(tokens[1..], s, i + 1) == MatchFrom(tokens, s, i);
        MatchFromSound(tokens[1..], s, i + 1);
        assert s[i..e][1..] == s[i + 1..e];
      } else {
        WildcardSound(tokens, s, i);
      }
    }
  }

  /** The wildcard case of `MatchFromSound`: the group's end splits the match. */
  lemma {:induction false} WildcardSound(tokens: seq<Token>, s: string, i: nat)
    requires i <= |s| && tokens != [] && !tokens[0].Lit? && MatchFrom(tokens, s, i).Some?
    ensures Matches(tokens, s[i..MatchFrom(tokens, s, i).value.end])
    decreases |tokens|, 0
  {
    var f := MatchFrom(tokens, s, i).value;
    var w := s[i..f.end];
    var min := if tokens[0].AnyStar? then i else i + 1;
    assert f == Greedy(tokens[1..], s, i, min, |s|).value;
    GreedyHit(tokens[1..], s, i, min, |s|);
    var j := f.group.value.hi;
    MatchFromSound(tokens[1..], s, j);
    assert w[j - i..] == s[j..f.end];
    MatchesWildcard(tokens, w, j - i);
  }

  lemma {:induction false} GreedyComplete(rest: seq<Token>, s: string, lo: nat, min: nat, k: nat, m: nat)
    requires lo <= min <= m <= k <= |s|
    requires MatchFrom(rest, s, m).Some?
    ensures Greedy(rest, s, lo, min, k).Some?
    decreases k
  {
    if MatchFrom(rest, s, k).None? {
      GreedyComplete(rest, s, lo, min, k - 1, m);
    }
  }

  lemma SliceOfSlice(s: string, i: nat, j: nat, k: nat)
    requires i <= j <= |s| && k <= j - i
    ensures s[i..j][k..] == s[i + k..j]
  {
  }

  /** A wildcard token's match of `w` leaves a match of the rest after some first `k` characters. */
  lemma WildcardSplit(tokens: seq<Token>, w: string) returns (k: nat)
    requires tokens != [] && !tokens[0].Lit? && Matches(tokens, w)
    ensures k <= |w| && Matches(tokens[1..], w[k..])
    ensures tokens[0].AnyPlus? ==> 1 <= k
  {
    k :| k <= |w| && (tokens[0].AnyPlus? ==> 1 <= k) && Matches(tokens[1..], w[k..]);
  }

  /** Whenever the tokens match some `s[i..j]`, `MatchFrom` finds a match at `i`. */
  lemma {:induction false} MatchFromComplete(tokens: seq<Token>, s: string, i: nat, j: nat)
    requires i <= j <= |s| && Matches(tokens, s[i..j])
    ensures MatchFrom(tokens, s, i).Some?
    decreases |tokens|, 1
  {
    if tokens != [] {
      if tokens[0].Lit? {
        assert s[i..j][1..] == s[i + 1..j];
        MatchFromComplete(tokens[1..], s, i + 1, j);
      } else {
        WildcardComplete(tokens, s, i, j);
      }
    }
  }

  /** The wildcard case of `MatchFromComplete`: some end of the wildcard lets the rest match. */
  lemma {:induction false} WildcardComplete(tokens: seq<Token>, s: string, i: nat, j: nat)
    requires i <= j <= |s| && tokens != [] && !tokens[0].Lit? && Matches(tokens, s[i..j])
    ensures MatchFrom(tokens, s, i).Some?
    decreases |tokens|, 0
  {
    var w := s[i..j];
    var k := WildcardSplit(tokens, w);
    SliceOfSlice(s, i, j, k);
    MatchFromComplete(tokens[1..], s, i + k, j);
    var min := if tokens[0].AnyStar? then i else i + 1;
    GreedyComplete(tokens[1..], s, i, min, |s|, i + k);
    assert MatchFrom(tokens, s, i) == Greedy(tokens[1..], s, i, min, |s|);
  }

  /** A match reports a group exactly when the tokens hold a wildcard. */
  lemma {:induction false} MatchFromGroup(tokens: seq<Token>, s: string, i: nat)
    requires i <= |s| && MatchFrom(tokens, s, i).Some?
    ensures MatchFrom(tokens, s, i).value.group.Some? <==> HasWildcard(tokens)
    decreases |tokens|
  {
    if tokens != [] {
      if tokens[0].Lit? {
        MatchFromGroup(tokens[1..], s, i + 1);
        if HasWildcard(tokens) {
          var k :| 0 <= k < |tokens| && !tokens[k].Lit?;
          assert tokens[1..][k - 1] == tokens[k];
        }
        if HasWildcard(tokens[1..]) {
          var k :| 0 <= k < |tokens[1..]| && !tokens[1..][k].Lit?;
          assert tokens[k + 1] == tokens[1..][k];
        }
      } else {
        assert !tokens[0].Lit?;
      }
    }
  }

  /** The leftmost match at or after `from`. */
  function ExecFrom(tokens: seq<Token>, s: string, from: nat): (r: Option<Match>)
    requires from <= |s|
    ensures r.Some? ==> from <= r.value.start <= |s| && MatchFrom(tokens, s, r.value.start) == Some(Found(r.value.end, r.value.group))
    ensures forall j :: from <= j <= |s| && (r.None? || j < r.value.start) ==> MatchFrom(tokens, s, j).None?
    decreases |s| - from
  {
    match MatchFrom(tokens, s, from)
    case Some(f) => Some(Match(from, f.end, f.group))
    case None => if from == |s| then None else ExecFrom(tokens, s, from + 1)
  }

  /** `regex.exec(s)` (and `s.match(regex)` for a non-global regex): the leftmost match. */
  function Exec(regex: Regex, s: string): (r: Option<Match>)
    ensures r.Some? ==> r.value.start <= r.value.end <= |s|
    ensures r.Some? ==> GroupWithin(r.value.group, r.value.start, r.value.end)
  {
    ExecFrom(Parse(regex.source), s, 0)
  }

  /** `regex.test(s)`. */
  predicate Test(regex: Regex, s: string)
    ensures Test(regex, s) <==> exists i :: 0 <= i <= |s| && MatchFrom(Parse(regex.source), s, i).Some?
  {
    var r := ExecFrom(Parse(regex.source), s, 0);
    assert r.Some? ==> MatchFrom(Parse(regex.source), s, r.value.start).Some?;
    Exec(regex, s).Some?
  }

  /** The match `Exec` reports matches the pattern, and group 1 is present exactly when the pattern has a wildcard. */
  lemma ExecSound(regex: Regex, s: string)
    requires Exec(regex, s).Some?
    ensures var m := Exec(regex, s).value;
      Matches(Parse(regex.source), s[m.start..m.end]) && (m.group.Some? <==> HasWildcard(Parse(regex.source)))
  {
    var m := Exec(regex, s).value;
    MatchFromSound(Parse(regex.source), s, m.start);
    MatchFromGroup(Parse(regex.source), s, m.start);
  }

  /** No match starts before the one `Exec` reports. */
  lemma ExecLeftmost(regex: Regex, s: string)
    requires Exec(regex, s).Some?
    ensures forall i, j :: 0 <= i < Exec(regex, s).value.start && i <= j <= |s| ==> !Matches(Parse(regex.source), s[i..j])
  {
    forall i, j | 0 <= i < Exec(regex, s).value.start && i <= j <= |s|
      ensures !Matches(Parse(regex.source), s[i..j])
    {
      if Matches(Parse(regex.source), s[i..j]) {
        MatchFromComplete(Parse(regex.source), s, i, j);
      }
    }
  }

  /** `test` holds exactly when the pattern matches some substring. */
  lemma TestMeaning(regex: Regex, s: string)
    ensures Test(regex, s) <==> exists i, j :: 0 <= i <= j <= |s| && Matches(Parse(regex.source), s[i..j])
  {
    var tokens := Parse(regex.source);
    if Test(regex, s) {
      ExecSound(regex, s);
      var m := Exec(regex, s).value;
      assert 0 <= m.start <= m.end <= |s| && Matches(tokens, s[m.start..m.end]);
    } else {
      forall i, j | 0 <= i <= j <= |s| ensures !Matches(tokens, s[i..j]) {
        if Matches(tokens, s[i..j]) {
          MatchFromComplete(tokens, s, i, j);
        }
      }
    }
  }

  /** `preparePattern`: a `RegExp` is kept, a glob is compiled. */
  function PreparePattern(raw: RawPattern): (r: Regex)
    ensures raw.Compiled? ==> r == raw.regex
    ensures raw.Glob? ==> Parse(r.source) == GlobTokens(raw.text)
    ensures raw.Glob? ==> |r.source| == |raw.text| + 3 * CountWildcards(raw.text)
  {
    match raw
    case Compiled(regex) => regex
    case Glob(text) => ParseCompile(text); Regex(Compile(text))
  }

  /** `preparedPatterns`: `preparePattern` on every element, in order. */
  function PreparedPatterns(raws: seq<RawPattern>): (r: seq<Regex>)
    ensures |r| == |raws|
    ensures forall k :: 0 <= k < |raws| ==> r[k] == PreparePattern(raws[k])
  {
    if raws == [] then [] else [PreparePattern(raws[0])] + PreparedPatterns(raws[1..])
  }

  /** `matchAnyPattern`: some pattern matches `str`; never on an empty list. */
  function MatchAnyPattern(str: string, patterns: seq<Regex>): (r: bool)
    ensures r <==> exists k :: 0 <= k < |patterns| && Test(patterns[k], str)
    ensures patterns == [] ==> !r
  {
    if patterns == [] then false
    else if Test(patterns[0], str) then true
    else
      var r := MatchAnyPattern(str, patterns[1..]);
      assert forall k :: 1 <= k < |patterns| ==> patterns[k] == patterns[1..][k - 1];
      r
  }

  /** Tokens of a literal text. */
  function LitTokens(text: string): (r: seq<Token>)
    ensures |r| == |text|
  {
    if text == [] then [] else [Lit(text[0])] + LitTokens(text[1..])
  }

  lemma {:induction false} GlobTokensConcat(a: string, b: string)
    ensures GlobTokens(a + b) == GlobTokens(a) + GlobTokens(b)
    decreases |a|
  {
    if a != [] {
      assert (a + b)[0] == a[0] && (a + b)[1..] == a[1..] + b;
      GlobTokensConcat(a[1..], b);
    } else {
      assert a + b == b;
    }
  }

  lemma {:induction false} GlobTokensLiteral(text: string)
    requires CountWildcards(text) == 0
    ensures GlobTokens(text) == LitTokens(text)
    decreases |text|
  {
    if text != [] {
      GlobTokensLiteral(text[1..]);
    }
  }

  /** Literal tokens consume their text and leave the rest of the match unchanged. */
  lemma {:induction false} MatchFromLits(text: string, rest: seq<Token>, s: string, i: nat)
    requires i + |text| <= |s| && s[i..i + |text|] == text
    ensures MatchFrom(LitTokens(text) + rest, s, i) == MatchFrom(rest, s, i + |text|)
    decreases |text|
  {
    if text != [] {
      var tokens := LitTokens(text) + rest;
      assert tokens[0] == Lit(text[0]) && tokens[1..] == LitTokens(text[1..]) + rest;
      assert s[i] == text[0];
      assert s[i + 1..i + 1 + |text[1..]|] == text[1..];
      MatchFromLits(text[1..], rest, s, i + 1);
    } else {
      assert LitTokens(text) + rest == rest;
    }
  }

  /**
   * A glob `prefix*` (no other wildcard) matches any string that starts with
   * `prefix`, from index 0 to the end, and captures everything after the prefix.
   */
  lemma PrefixGlobMatch(prefix: string, rest: string)
    requires CountWildcards(prefix) == 0
    ensures Exec(PreparePattern(Glob(prefix + "*")), prefix + rest)
         == Some(Match(0, |prefix + rest|, Some(Span(|prefix|, |prefix + rest|))))
  {
    var s := prefix + rest;
    GlobTokensConcat(prefix, "*");
    GlobTokensLiteral(prefix);
    assert GlobTokens("*") == [AnyStar];
    var tokens := LitTokens(prefix) + [AnyStar];
    assert Parse(PreparePattern(Glob(prefix + "*")).source) == tokens;
    assert s[0..|prefix|] == prefix;
    MatchFromLits(prefix, [AnyStar], s, 0);
    assert [AnyStar][1..] == [];
    assert MatchFrom([], s, |s|) == Some(Found(|s|, None));
    assert Greedy([], s, |prefix|, |prefix|, |s|) == Some(Found(|s|, Some(Span(|prefix|, |s|))));
    assert MatchFrom([AnyStar], s, |prefix|) == Some(Found(|s|, Some(Span(|prefix|, |s|))));
  }

  /** Literal tokens match their own text at index 0, with no group. */
  lemma LitTokensMatch(text: string, rest: string)
    ensures MatchFrom(LitTokens(text), text + rest, 0) == Some(Found(|text|, None))
  {
    var s := text + rest;
    assert s[0..|text|] == text;
    MatchFromLits(text, [], s, 0);
    assert LitTokens(text) + [] == LitTokens(text);
  }

  /**
   * A glob without wildcards matches any string that starts with it, over the
   * glob's length, and reports no group.
   */
  lemma LiteralGlobMatch(text: string, rest: string)
    requires CountWildcards(text) == 0
    ensures Exec(PreparePattern(Glob(text)), text + rest) == Some(Match(0, |text|, None))
  {
    GlobTokensLiteral(text);
    LitTokensMatch(text, rest);
  }
}
