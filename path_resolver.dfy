/**
 * The path resolver: configured with a project root and an ordered alias
 * table, it rewrites aliased specifiers, tells packages from paths, joins and
 * normalises paths, relativises them against the root, and infers directory
 * index files and missing extensions from filesystem answers.
 */
module PathResolution {
  import opened Wrappers
  import opened Strings
  import PosixPath
  import opened Patterns
  import opened ConfigManagement
  import opened FileSystems

  datatype ResolveParams = ResolveParams(path: string, parentPath: Option<string>)

  /** An absolute, normalised path and the same path relative to the root. */
  datatype ResolvedPath = ResolvedPath(fullPath: string, relativePath: string)

  /** An alias table as `Object.entries` lists it: key glob and replacement, in order. */
  type RawAliases = seq<(string, string)>

  datatype PathResolveParams = PathResolveParams(targetPath: string, aliases: Option<RawAliases>)

  /** One prepared alias: the compiled key and its replacement. */
  datatype Alias = Alias(pattern: Regex, replacement: string)

  const CurrentDir: string := "./"

  /** The characters of `[@\w\d]`. */
  predicate IsPackageChar(c: char)
  {
    c == '@' || c == '_' || 'a' <= c <= 'z' || 'A' <= c <= 'Z' || '0' <= c <= '9'
  }

  /** How many characters `^[@\w\d]+` can take at the start of `s`. */
  function PackagePrefixLength(s: string): (n: nat)
    ensures n <= |s|
  {
    if s == [] || !IsPackageChar(s[0]) then 0 else 1 + PackagePrefixLength(s[1..])
  }

  /** The index of the first alias whose pattern matches `path` (`Array.find`). */
  function FindAlias(aliases: seq<Alias>, path: string): (r: Option<nat>)
    ensures r.Some? ==> FirstMatchingAlias(aliases, path, r.value)
    ensures r.None? ==> forall k :: 0 <= k < |aliases| ==> !Test(aliases[k].pattern, path)
  {
    if aliases == [] then None
    else if Test(aliases[0].pattern, path) then Some(0)
    else
      var r := FindAlias(aliases[1..], path);
      assert forall k :: 1 <= k < |aliases| ==> aliases[k] == aliases[1..][k - 1];
      if r.None? then None else Some(r.value + 1)
  }

  /** `k` is the first alias, in configured order, whose pattern matches `path`. */
  predicate FirstMatchingAlias(aliases: seq<Alias>, path: string, k: int)
  {
    0 <= k < |aliases| && Test(aliases[k].pattern, path)
    && forall j :: 0 <= j < k ==> !Test(aliases[j].pattern, path)
  }

  /**
   * `path.replace(pattern, replacement + match[1])`: the leftmost match is
   * replaced by the replacement followed by what group 1 captured, or by the
   * text `undefined` when the pattern has no group.
   */
  function Rewrite(path: string, alias: Alias): string
    requires Test(alias.pattern, path)
  {
    var m := Exec(alias.pattern, path).value;
    var captured := if m.group.Some? then path[m.group.value.lo..m.group.value.hi] else "undefined";
    path[..m.start] + alias.replacement + captured + path[m.end..]
  }

  /**
   * What `replace` does with the alias: the text before its leftmost match
   * and after it is kept, and the match becomes the replacement followed by
   * the text group 1 captured, or `undefined` when there is no group.
   */
  lemma RewriteKeepsOutside(path: string, alias: Alias)
    requires Test(alias.pattern, path)
    ensures var m := Exec(alias.pattern, path).value;
            var captured := if m.group.Some? then path[m.group.value.lo..m.group.value.hi] else "undefined";
            var r := Rewrite(path, alias);
            var n := m.start + |alias.replacement|;
            |r| == n + |captured| + (|path| - m.end)
            && r[..m.start] == path[..m.start]
            && r[m.start..n] == alias.replacement
            && r[n..n + |captured|] == captured
            && r[n + |captured|..] == path[m.end..]
  {
    var m := Exec(alias.pattern, path).value;
    var captured := if m.group.Some? then path[m.group.value.lo..m.group.value.hi] else "undefined";
    Concat4(path[..m.start], alias.replacement, captured, path[m.end..]);
  }

  /** The four parts of a concatenation can be read back by position. */
  lemma Concat4(a: string, b: string, c: string, d: string)
    ensures var r := a + b + c + d;
            |r| == |a| + |b| + |c| + |d|
            && r[..|a|] == a
            && r[|a|..|a| + |b|] == b
            && r[|a| + |b|..|a| + |b| + |c|] == c
            && r[|a| + |b| + |c|..] == d
  {
  }

  /** `k` is the first entry whose name contains `index` (`files.find`). */
  predicate FirstIndexEntry(files: seq<string>, k: int)
  {
    0 <= k < |files| && Contains(files[k], "index") && forall j :: 0 <= j < k ==> !Contains(files[j], "index")
  }

  function FindIndexEntry(files: seq<string>): (r: Option<nat>)
    ensures r.Some? ==> FirstIndexEntry(files, r.value)
    ensures r.None? ==> forall k :: 0 <= k < |files| ==> !Contains(files[k], "index")
  {
    if files == [] then None
    else if Contains(files[0], "index") then Some(0)
    else
      var r := FindIndexEntry(files[1..]);
      assert forall k :: 1 <= k < |files| ==> files[k] == files[1..][k - 1];
      if r.None? then None else Some(r.value + 1)
  }

  /** `Promise.allSettled(extensions.map(e => access(fullPath + e)))`: the outcomes in input order. */
  function ProbeAll(fs: FileSystem, fullPath: string, extensions: seq<string>): (r: seq<bool>)
    ensures |r| == |extensions|
    ensures forall k :: 0 <= k < |r| ==> r[k] == fs.Exists(fullPath + extensions[k])
  {
    if extensions == [] then []
    else [fs.Exists(fullPath + extensions[0])] + ProbeAll(fs, fullPath, extensions[1..])
  }

  /** `findIndex(status === 'fulfilled')`. */
  function FindFulfilled(settled: seq<bool>): (r: Option<nat>)
    ensures r.Some? ==> r.value < |settled| && settled[r.value]
    ensures forall k :: 0 <= k < |settled| && (r.None? || k < r.value) ==> !settled[k]
  {
    if settled == [] then None
    else if settled[0] then Some(0)
    else
      var r := FindFulfilled(settled[1..]);
      assert forall k :: 1 <= k < |settled| ==> settled[k] == settled[1..][k - 1];
      if r.None? then None else Some(r.value + 1)
  }

  /** `k` is the first extension, in configured order, whose probe succeeded. */
  predicate FirstProbed(fs: FileSystem, fullPath: string, extensions: seq<string>, k: int)
  {
    0 <= k < |extensions| && fs.Exists(fullPath + extensions[k])
    && forall j :: 0 <= j < k ==> !fs.Exists(fullPath + extensions[j])
  }

  class PathResolver {
    var targetPath: string
    var aliases: seq<Alias>
    const configManager: ConfigManager
    /** Set by `Configure`; the source has no such flag, and reads `undefined` before configuration. */
    ghost var configured: bool

    ghost predicate Configured()
      reads this
    {
      configured && PosixPath.IsNormal(targetPath)
    }

    constructor (configManager: ConfigManager)
      ensures this.configManager == configManager && !configured
    {
      this.configManager := configManager;
      targetPath := "";
      aliases := [];
      configured := false;
    }

    /** `PACKAGE_PATTERN.test(path)`: true exactly when `path` starts with `@`, `_`, a letter or a digit. */
    static function IsPackage(path: string): (r: bool)
      ensures r <==> |path| > 0 && IsPackageChar(path[0])
      ensures r ==> !StartsWith(path, "./") && !StartsWith(path, "../") && !PosixPath.IsAbsolute(path)
    {
      PackagePrefixLength(path) > 0
    }

    /** `_prepareAliases`: one compiled pattern per entry, in `Object.entries` order. */
    static method PrepareAliases(raw: RawAliases) returns (prepared: seq<Alias>)
      ensures |prepared| == |raw|
      ensures forall k :: 0 <= k < |raw| ==> prepared[k] == Alias(PreparePattern(Glob(raw[k].0)), raw[k].1)
      ensures forall k :: 0 <= k < |raw| ==> Parse(prepared[k].pattern.source) == GlobTokens(raw[k].0)
    {
      prepared := [];
      var i := 0;
      while i < |raw|
        invariant 0 <= i <= |raw|
        invariant |prepared| == i
        invariant forall k :: 0 <= k < i ==> prepared[k] == Alias(PreparePattern(Glob(raw[k].0)), raw[k].1)
      {
        var (key, value) := raw[i];
        prepared := prepared + [Alias(PreparePattern(Glob(key)), value)];
        i := i + 1;
      }
    }

    /**
     * `configure`: the root is the target resolved against the working
     * directory `cwd` (`process.cwd()`), and the aliases default to none.
     */
    method Configure(cwd: string, params: PathResolveParams)
      requires PosixPath.IsAbsolute(cwd)
      modifies this
      ensures Configured()
      ensures targetPath == PosixPath.Resolve([cwd, params.targetPath])
      ensures |aliases| == |params.aliases.GetOr([])|
      ensures forall k :: 0 <= k < |aliases| ==>
        aliases[k] == Alias(PreparePattern(Glob(params.aliases.GetOr([])[k].0)), params.aliases.GetOr([])[k].1)
    {
      targetPath := PosixPath.Resolve([cwd, params.targetPath]);
      aliases := PrepareAliases(params.aliases.GetOr([]));
      configured := true;
    }

    /** `_resolveFullPath`: `path.resolve(root, parentPath ?? './', path)`. */
    function ResolveFullPath(params: ResolveParams): (r: string)
      reads this
      requires Configured()
      ensures PosixPath.IsNormal(r)
    {
      PosixPath.Resolve([targetPath, params.parentPath.GetOr(CurrentDir), params.path])
    }

    /** `_toRelativePath`: the first occurrence of the root becomes `./`, then runs of slashes collapse. */
    function ToRelativePath(fullPath: string): (r: string)
      reads this
      requires Configured()
      ensures NoDoubleSlash(r)
      ensures !Contains(fullPath, targetPath) ==> r == CollapseSlashes(fullPath)
    {
      CollapseSlashes(ReplaceFirst(fullPath, targetPath, CurrentDir))
    }

    /** `resolve`: the joined full path and its root-relative form. */
    function Resolve(params: ResolveParams): (r: ResolvedPath)
      reads this
      requires Configured()
      ensures PosixPath.IsNormal(r.fullPath) && NoDoubleSlash(r.relativePath)
      ensures r.fullPath == ResolveFullPath(params) && r.relativePath == ToRelativePath(r.fullPath)
    {
      var fullPath := ResolveFullPath(params);
      ResolvedPath(fullPath, ToRelativePath(fullPath))
    }

    /** `isInternalPath`: the root occurs somewhere in the full path. */
    function IsInternalPath(fullPath: string): (r: bool)
      reads this
      requires Configured()
      ensures r <==> exists i: nat :: OccursAt(fullPath, targetPath, i)
    {
      Contains(fullPath, targetPath)
    }

    /**
     * `resolveIndexFile`: only the first entry whose name contains `index`
     * is considered; it is used when its extension is supported, and
     * otherwise the directory's own relative path is returned.
     */
    function ResolveIndexFile(fs: FileSystem, fullPath: string): (r: string)
      reads this, configManager
      requires Configured() && fs.IsDir(fullPath)
      ensures (forall k :: 0 <= k < |fs.dirs[fullPath]| ==> !Contains(fs.dirs[fullPath][k], "index"))
        ==> r == ToRelativePath(fullPath)
      ensures forall k :: FirstIndexEntry(fs.dirs[fullPath], k) ==>
        r == if PosixPath.Extname(fs.dirs[fullPath][k]) in configManager.SupportedExtensions()
             then Resolve(ResolveParams(fs.dirs[fullPath][k], Some(ToRelativePath(fullPath)))).relativePath
             else ToRelativePath(fullPath)
    {
      var extensions := configManager.SupportedExtensions();
      var files := fs.dirs[fullPath];
      var relativePath := ToRelativePath(fullPath);
      match FindIndexEntry(files)
      case None => relativePath
      case Some(k) =>
        if PosixPath.Extname(files[k]) !in extensions then relativePath
        else Resolve(ResolveParams(files[k], Some(relativePath))).relativePath
    }

    /**
     * `resolveFileExtension`: a path with a supported extension is kept;
     * otherwise the first extension in configured order whose probe
     * succeeded is appended, and the path is kept when none did.
     */
    function ResolveFileExtension(fs: FileSystem, fullPath: string): (r: string)
      reads this, configManager
      requires Configured()
      ensures PosixPath.Extname(ToRelativePath(fullPath)) in configManager.SupportedExtensions()
        ==> r == ToRelativePath(fullPath)
      ensures (forall k :: 0 <= k < |configManager.SupportedExtensions()| ==>
                 !fs.Exists(fullPath + configManager.SupportedExtensions()[k]))
        ==> r == ToRelativePath(fullPath)
      ensures forall k :: FirstProbed(fs, fullPath, configManager.SupportedExtensions(), k) ==>
        r == if PosixPath.Extname(ToRelativePath(fullPath)) in configManager.SupportedExtensions()
             then ToRelativePath(fullPath)
             else ToRelativePath(fullPath) + configManager.SupportedExtensions()[k]
    {
      var extensions := configManager.SupportedExtensions();
      var relativePath := ToRelativePath(fullPath);
      if PosixPath.Extname(relativePath) in extensions then relativePath
      else
        match FindFulfilled(ProbeAll(fs, fullPath, extensions))
        case None => relativePath
        case Some(k) => relativePath + extensions[k]
    }

    /**
     * `resolveAliases`: unchanged when no alias matches; otherwise rewritten
     * by the first matching alias in configured order.
     */
    function ResolveAliases(path: string): (r: string)
      reads this
      requires Configured()
      ensures (forall k :: 0 <= k < |aliases| ==> !Test(aliases[k].pattern, path)) ==> r == path
      ensures forall k :: FirstMatchingAlias(aliases, path, k) ==> r == Rewrite(path, aliases[k])
    {
      match FindAlias(aliases, path)
      case None => path
      case Some(k) => Rewrite(path, aliases[k])
    }
  }

  /** Names appended to a normal root: the root is a prefix, followed by nothing or by a slash and the joined names. */
  lemma AppendNames(root: string, names: seq<string>)
    requires PosixPath.IsNormal(root) && PosixPath.AllNames(names)
    ensures PosixPath.AllNames(PosixPath.NamesOf(root) + names)
    ensures var full := PosixPath.FromNames(PosixPath.NamesOf(root) + names);
            var j := PosixPath.JoinSlash(names);
            if root == "/" then full == root + j
            else if names == [] then full == root
            else full == root + "/" + j
  {
    var rootNames := PosixPath.NamesOf(root);
    var all := rootNames + names;
    assert PosixPath.AllNames(all) by {
      forall k | 0 <= k < |all| ensures PosixPath.IsName(all[k]) {
        if k < |rootNames| { assert all[k] == rootNames[k]; } else { assert all[k] == names[k - |rootNames|]; }
      }
    }
    assert root == "/" + PosixPath.JoinSlash(rootNames);
    if rootNames == [] {
      assert all == names;
    } else {
      assert root != "/";
      if names == [] {
        assert all == rootNames;
      } else {
        PosixPath.JoinAppend(rootNames, names);
      }
    }
  }

  /** Replacing the root directly followed by `rest` gives `./` followed by `rest`. */
  lemma RelativeOfRootJoined(root: string, rest: string)
    requires NoDoubleSlash(rest) && (|rest| > 0 ==> rest[0] != '/')
    ensures CollapseSlashes(ReplaceFirst(root + rest, root, CurrentDir)) == CurrentDir + rest
  {
    ReplacePrefix(root, rest, CurrentDir);
    CollapseDotSlash(rest);
  }

  /** Replacing the root followed by a slash and `rest` gives `./` followed by `rest`: the double slash collapses. */
  lemma RelativeOfRootSlashed(root: string, rest: string)
    requires NoDoubleSlash(rest) && (|rest| > 0 ==> rest[0] != '/')
    ensures CollapseSlashes(ReplaceFirst(root + ("/" + rest), root, CurrentDir)) == CurrentDir + rest
  {
    ReplacePrefix(root, "/" + rest, CurrentDir);
    CollapseDotSlashSlash(rest);
  }

  /** The relative form of a path made of names under a normal root is `./` followed by those names. */
  lemma RelativeUnderRoot(root: string, names: seq<string>)
    requires PosixPath.IsNormal(root) && PosixPath.AllNames(names)
    ensures PosixPath.AllNames(PosixPath.NamesOf(root) + names)
    ensures var full := PosixPath.FromNames(PosixPath.NamesOf(root) + names);
            StartsWith(full, root)
            && CollapseSlashes(ReplaceFirst(full, root, CurrentDir)) == CurrentDir + PosixPath.JoinSlash(names)
  {
    AppendNames(root, names);
    var full := PosixPath.FromNames(PosixPath.NamesOf(root) + names);
    var j := PosixPath.JoinSlash(names);
    PosixPath.JoinNames(names);
    if root == "/" {
      RelativeOfRootJoined(root, j);
      assert full[..|root|] == root;
    } else if names == [] {
      assert full == root + j;
      RelativeOfRootJoined(root, j);
      assert full[..|root|] == root;
    } else {
      assert full == root + ("/" + j);
      RelativeOfRootSlashed(root, j);
      assert full[..|root|] == root;
    }
  }

  /**
   * A path made of names under the root is internal, and its relative form
   * is `./` followed by those names.
   */
  lemma RelativeOfInside(pr: PathResolver, names: seq<string>)
    requires pr.Configured() && PosixPath.AllNames(names)
    ensures PosixPath.AllNames(PosixPath.NamesOf(pr.targetPath) + names)
    ensures pr.IsInternalPath(PosixPath.FromNames(PosixPath.NamesOf(pr.targetPath) + names))
    ensures pr.ToRelativePath(PosixPath.FromNames(PosixPath.NamesOf(pr.targetPath) + names))
         == CurrentDir + PosixPath.JoinSlash(names)
  {
    RelativeUnderRoot(pr.targetPath, names);
    var full := PosixPath.FromNames(PosixPath.NamesOf(pr.targetPath) + names);
    assert OccursAt(full, pr.targetPath, 0);
  }

  /**
   * `resolve` of a relative specifier with no `..` segment and no parent:
   * the specifier's names land under the root, the result is internal, and
   * its relative form is `./` followed by those names.
   */
  lemma ResolveInsideRoot(pr: PathResolver, specifier: string)
    requires pr.Configured()
    requires !PosixPath.IsAbsolute(specifier) && PosixPath.Downward(PosixPath.SplitSlash(specifier))
    ensures var names := PosixPath.DownwardNames(PosixPath.SplitSlash(specifier));
            var r := pr.Resolve(ResolveParams(specifier, None));
            PosixPath.AllNames(PosixPath.NamesOf(pr.targetPath) + names)
            && r.fullPath == PosixPath.FromNames(PosixPath.NamesOf(pr.targetPath) + names)
            && pr.IsInternalPath(r.fullPath)
            && r.relativePath == CurrentDir + PosixPath.JoinSlash(names)
  {
    PosixPath.ResolveUnderCurrentDir(pr.targetPath, specifier);
    RelativeOfInside(pr, PosixPath.DownwardNames(PosixPath.SplitSlash(specifier)));
  }

  /**
   * `resolve` of a specifier under a relative parent (as `_extractSources`
   * passes the importing file's directory): the parent's names, then the
   * specifier's names, under the root.
   */
  lemma ResolveUnderParentDir(pr: PathResolver, parent: string, specifier: string)
    requires pr.Configured()
    requires !PosixPath.IsAbsolute(parent) && PosixPath.Downward(PosixPath.SplitSlash(parent))
    requires !PosixPath.IsAbsolute(specifier) && PosixPath.Downward(PosixPath.SplitSlash(specifier))
    ensures var names := PosixPath.DownwardNames(PosixPath.SplitSlash(parent))
                       + PosixPath.DownwardNames(PosixPath.SplitSlash(specifier));
            var r := pr.Resolve(ResolveParams(specifier, Some(parent)));
            PosixPath.AllNames(PosixPath.NamesOf(pr.targetPath) + names)
            && r.fullPath == PosixPath.FromNames(PosixPath.NamesOf(pr.targetPath) + names)
            && pr.IsInternalPath(r.fullPath)
            && r.relativePath == CurrentDir + PosixPath.JoinSlash(names)
  {
    var a := PosixPath.DownwardNames(PosixPath.SplitSlash(parent));
    var b := PosixPath.DownwardNames(PosixPath.SplitSlash(specifier));
    PosixPath.AllNamesConcat(a, b);
    PosixPath.ResolveUnderParentNames(pr.targetPath, parent, specifier);
    RelativeOfInside(pr, a + b);
  }

  /**
   * An absolute specifier ignores both the root and the parent: an already
   * normal one resolves to itself.
   */
  lemma AbsoluteSpecifierIgnoresRoot(pr: PathResolver, specifier: string, parent: Option<string>)
    requires pr.Configured() && PosixPath.IsAbsolute(specifier)
    ensures pr.Resolve(ResolveParams(specifier, parent)).fullPath == PosixPath.Resolve([specifier])
    ensures PosixPath.IsNormal(specifier) ==> pr.Resolve(ResolveParams(specifier, parent)).fullPath == specifier
  {
    var before := [pr.targetPath, parent.GetOr(CurrentDir)];
    assert before + [specifier] == [pr.targetPath, parent.GetOr(CurrentDir), specifier];
    PosixPath.AbsoluteRestarts(before, specifier);
    if PosixPath.IsNormal(specifier) {
      PosixPath.NormalSegments(specifier);
    }
  }

  /** A whole-path match whose group 1 starts at `lo` rewrites to the replacement followed by the rest. */
  lemma RewriteWholeMatch(path: string, alias: Alias, lo: nat)
    requires lo <= |path|
    requires Exec(alias.pattern, path) == Some(Match(0, |path|, Some(Span(lo, |path|))))
    ensures Rewrite(path, alias) == alias.replacement + path[lo..]
  {
    assert path[..0] == [] && path[|path|..] == [] && path[lo..|path|] == path[lo..];
  }

  /** A match of the first `n` characters without group 1 rewrites them to the replacement and `undefined`. */
  lemma RewriteUngroupedMatch(path: string, alias: Alias, n: nat)
    requires n <= |path|
    requires Exec(alias.pattern, path) == Some(Match(0, n, None))
    ensures Rewrite(path, alias) == alias.replacement + "undefined" + path[n..]
  {
    assert path[..0] == [];
  }

  /** Rewriting by a `prefix*` alias keeps what follows the prefix. */
  lemma RewritePrefix(prefix: string, replacement: string, rest: string)
    requires CountWildcards(prefix) == 0
    ensures Test(PreparePattern(Glob(prefix + "*")), prefix + rest)
    ensures Rewrite(prefix + rest, Alias(PreparePattern(Glob(prefix + "*")), replacement)) == replacement + rest
  {
    var path := prefix + rest;
    PrefixGlobMatch(prefix, rest);
    RewriteWholeMatch(path, Alias(PreparePattern(Glob(prefix + "*")), replacement), |prefix|);
    assert path[|prefix|..] == rest;
  }

  /** An alias whose key is `prefix*`, first in the table, maps `prefix + rest` to `replacement + rest`. */
  lemma AliasPrefixRewrite(pr: PathResolver, prefix: string, replacement: string, rest: string)
    requires pr.Configured() && CountWildcards(prefix) == 0
    requires |pr.aliases| > 0 && pr.aliases[0] == Alias(PreparePattern(Glob(prefix + "*")), replacement)
    ensures pr.ResolveAliases(prefix + rest) == replacement + rest
  {
    RewritePrefix(prefix, replacement, rest);
    assert FirstMatchingAlias(pr.aliases, prefix + rest, 0);
  }

  /**
   * An alias key without a wildcard has no group 1, so the matched text is
   * replaced by the replacement followed by the text `undefined`.
   */
  lemma AliasWithoutWildcard(pr: PathResolver, key: string, replacement: string, rest: string)
    requires pr.Configured() && CountWildcards(key) == 0
    requires |pr.aliases| > 0 && pr.aliases[0] == Alias(PreparePattern(Glob(key)), replacement)
    ensures pr.ResolveAliases(key + rest) == replacement + "undefined" + rest
  {
    var path := key + rest;
    LiteralGlobMatch(key, rest);
    RewriteUngroupedMatch(path, pr.aliases[0], |key|);
    assert FirstMatchingAlias(pr.aliases, path, 0);
    assert path[|key|..] == rest;
  }

  /** A well-formed extension: a dot followed by at least one character, with no further dot or slash. */
  predicate IsExtension(e: string)
  {
    |e| >= 2 && e[0] == '.' && '.' !in e[1..] && '/' !in e
  }

  /**
   * `resolveFileExtension` on a path whose relative form ends in a name: when
   * the configured extensions are well formed and some probe succeeds, the
   * result carries a supported extension.
   */
  lemma InferredExtensionSupported(pr: PathResolver, fs: FileSystem, fullPath: string, k: nat)
    requires pr.Configured()
    requires var rel := pr.ToRelativePath(fullPath); |rel| > 0 && rel[|rel| - 1] != '/'
    requires forall e :: e in pr.configManager.SupportedExtensions() ==> IsExtension(e)
    requires FirstProbed(fs, fullPath, pr.configManager.SupportedExtensions(), k)
    ensures PosixPath.Extname(pr.ResolveFileExtension(fs, fullPath)) in pr.configManager.SupportedExtensions()
  {
    var extensions := pr.configManager.SupportedExtensions();
    var rel := pr.ToRelativePath(fullPath);
    if PosixPath.Extname(rel) !in extensions {
      assert IsExtension(extensions[k]);
      PosixPath.ExtnameOfAppended(rel, extensions[k]);
    }
  }

  /**
   * `resolveIndexFile` on a directory under the root whose first `index`
   * entry is a plain name with a supported extension: the entry joined under
   * the directory, as a relative path.
   */
  lemma IndexFileUnderDirectory(pr: PathResolver, fs: FileSystem, dirNames: seq<string>, k: nat)
    requires pr.Configured() && PosixPath.AllNames(dirNames)
    requires PosixPath.AllNames(PosixPath.NamesOf(pr.targetPath) + dirNames)
    requires fs.IsDir(PosixPath.FromNames(PosixPath.NamesOf(pr.targetPath) + dirNames))
    requires var files := fs.dirs[PosixPath.FromNames(PosixPath.NamesOf(pr.targetPath) + dirNames)];
             FirstIndexEntry(files, k) && PosixPath.IsName(files[k])
             && PosixPath.Extname(files[k]) in pr.configManager.SupportedExtensions()
    ensures var fullPath := PosixPath.FromNames(PosixPath.NamesOf(pr.targetPath) + dirNames);
            pr.ResolveIndexFile(fs, fullPath) == CurrentDir + PosixPath.JoinSlash(dirNames + [fs.dirs[fullPath][k]])
  {
    var fullPath := PosixPath.FromNames(PosixPath.NamesOf(pr.targetPath) + dirNames);
    RelativeOfInside(pr, dirNames);
    EntryUnderDirectory(pr, dirNames, fs.dirs[fullPath][k]);
  }

  /** A name resolved against the relative form of a directory under the root is that directory's names plus the name. */
  lemma EntryUnderDirectory(pr: PathResolver, dirNames: seq<string>, entry: string)
    requires pr.Configured() && PosixPath.AllNames(dirNames) && PosixPath.IsName(entry)
    ensures pr.Resolve(ResolveParams(entry, Some(CurrentDir + PosixPath.JoinSlash(dirNames)))).relativePath
         == CurrentDir + PosixPath.JoinSlash(dirNames + [entry])
  {
    var dirRel := CurrentDir + PosixPath.JoinSlash(dirNames);
    PosixPath.DotJoinNames(dirNames);
    PosixPath.SplitNoSlash(entry);
    assert PosixPath.Downward(PosixPath.SplitSlash(entry));
    assert PosixPath.StepAll([], [entry]) == [entry];
    ResolveUnderParentDir(pr, dirRel, entry);
  }
}
