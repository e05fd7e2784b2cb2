/**
 * The dependency-graph store: a registry from path to node whose upsert
 * fixes a node's kind at first creation and grows its dependency list by
 * order-preserving set union, and the extraction of an importing file's
 * dependencies from its parsed declarations.
 */
module GraphNodes {
  import opened Wrappers
  import PosixPath
  import opened PathResolution
  import opened FileSystems

  datatype NodeType = External | Internal | Resource | Package

  /** A graph node; `kind` stands for the source's `type` field. */
  datatype Node = Node(path: string, kind: NodeType, dependsOn: seq<string>)

  /** A dependency as `_extractSources` reports it: where it points and what it is. */
  datatype Source = Source(path: string, kind: NodeType)

  /** The `type` of a top-level statement of a parsed file; every other statement type is `OtherStatement`. */
  datatype StatementType =
    | ImportDeclaration
    | ExportAllDeclaration
    | ExportDefaultDeclaration
    | ExportNamedDeclaration
    | OtherStatement

  /** A statement's `source` field: absent, `null`, or a string literal. */
  datatype SourceField = NoSource | NullSource | StringSource(value: string)

  datatype Statement = Statement(kind: StatementType, source: SourceField)

  /** A parsed file: `parsed.program.body`. */
  datatype File = File(body: seq<Statement>)

  /** `neededTypes.includes(statement.type)`. */
  predicate IsNeededLeave(statement: Statement)
    ensures IsNeededLeave(statement) <==> !statement.kind.OtherStatement?
  {
    statement.kind in {ImportDeclaration, ExportAllDeclaration, ExportDefaultDeclaration, ExportNamedDeclaration}
  }

  /** The filter's test: a needed statement type that has a non-null `source`. */
  predicate HasSource(statement: Statement)
  {
    IsNeededLeave(statement) && statement.source.StringSource?
  }

  type Declaration = s: Statement | HasSource(s) witness Statement(ImportDeclaration, StringSource(""))

  function FilterStatements(body: seq<Statement>): (r: seq<Declaration>)
    ensures |r| <= |body|
    ensures forall s :: s in r <==> s in body && HasSource(s)
  {
    if body == [] then []
    else
      var rest := FilterStatements(body[1..]);
      assert forall s :: s in body <==> s == body[0] || s in body[1..];
      if HasSource(body[0]) then (var d: Declaration := body[0]; [d] + rest) else rest
  }

  /** `_filterImportExportNodes`: the statements with a source, in file order. */
  function FilterImportExportNodes(parsed: File): (r: seq<Declaration>)
    ensures forall s :: s in r <==> s in parsed.body && HasSource(s)
  {
    FilterStatements(parsed.body)
  }

  /** The filter keeps order: filtering a concatenation concatenates the filtered parts. */
  lemma {:induction false} FilterStatementsConcat(a: seq<Statement>, b: seq<Statement>)
    ensures FilterStatements(a + b) == FilterStatements(a) + FilterStatements(b)
    decreases |a|
  {
    if a != [] {
      assert (a + b)[0] == a[0] && (a + b)[1..] == a[1..] + b;
      FilterStatementsConcat(a[1..], b);
    } else {
      assert a + b == b;
    }
  }

  /** One statement is kept exactly when it has a source. */
  lemma FilterStatementsSingle(s: Statement)
    ensures FilterStatements([s]) == if HasSource(s) then [s] else []
  {
    assert [s][1..] == [];
  }

  // ---------------------------------------------------------------------
  // Order-preserving set union: `Array.from(new Set(list))`
  // ---------------------------------------------------------------------

  predicate Distinct(s: seq<string>)
  {
    forall i, j :: 0 <= i < j < |s| ==> s[i] != s[j]
  }

  /** Adding one element to a `Set`: appended when new, ignored when present. */
  function AppendNew(acc: seq<string>, x: string): seq<string>
  {
    if x in acc then acc else acc + [x]
  }

  /** Adding the elements of `xs` one by one, as `new Set` does in insertion order. */
  function AddAll(acc: seq<string>, xs: seq<string>): (r: seq<string>)
    ensures |acc| <= |r| && r[..|acc|] == acc
    ensures forall y :: y in r <==> y in acc || y in xs
    ensures Distinct(acc) ==> Distinct(r)
    decreases |xs|
  {
    if xs == [] then acc
    else
      var next := AppendNew(acc, xs[0]);
      assert forall y :: y in xs <==> y == xs[0] || y in xs[1..];
      var r := AddAll(next, xs[1..]);
      assert r[..|acc|] == r[..|next|][..|acc|];
      r
  }

  /** `Array.from(new Set(s))`: the distinct elements of `s`. */
  function Dedup(s: seq<string>): (r: seq<string>)
    ensures Distinct(r)
    ensures forall y :: y in r <==> y in s
  {
    AddAll([], s)
  }

  /** The index of the first occurrence of `y` in `xs`. */
  function IndexIn(xs: seq<string>, y: string): (r: nat)
    requires y in xs
    ensures r < |xs| && xs[r] == y && y !in xs[..r]
  {
    if xs[0] == y then 0
    else
      assert y in xs[1..];
      var r := IndexIn(xs[1..], y);
      assert xs[..r + 1] == [xs[0]] + xs[1..][..r];
      r + 1
  }

  /** The elements `AddAll` appends were not in `acc` and come from `xs`. */
  lemma AddAllFresh(acc: seq<string>, xs: seq<string>)
    requires Distinct(acc)
    ensures var r := AddAll(acc, xs);
            forall i :: |acc| <= i < |r| ==> r[i] in xs && r[i] !in acc
  {
    var r := AddAll(acc, xs);
    forall i | |acc| <= i < |r| ensures r[i] in xs && r[i] !in acc {
      forall k | 0 <= k < |acc| ensures acc[k] != r[i] {
        assert r[k] == acc[k];
      }
    }
  }

  lemma IndexInTail(xs: seq<string>, y: string)
    requires y in xs && y != xs[0]
    ensures y in xs[1..] && IndexIn(xs, y) == 1 + IndexIn(xs[1..], y)
  {
  }

  /** Two elements of the tail, neither the head, keep their relative order in the whole list. */
  lemma IndexInShift(xs: seq<string>, a: string, b: string)
    requires |xs| > 0 && a in xs[1..] && b in xs[1..] && a != xs[0] && b != xs[0]
    requires IndexIn(xs[1..], a) < IndexIn(xs[1..], b)
    ensures IndexIn(xs, a) < IndexIn(xs, b)
  {
    IndexInTail(xs, a);
    IndexInTail(xs, b);
  }

  /** The elements `AddAll` appends are in order of first occurrence in `xs`. */
  lemma {:induction false} AddAllOrder(acc: seq<string>, xs: seq<string>)
    requires Distinct(acc)
    ensures var r := AddAll(acc, xs);
            forall i, j :: |acc| <= i < j < |r| ==> r[i] in xs && r[j] in xs && IndexIn(xs, r[i]) < IndexIn(xs, r[j])
    decreases |xs|
  {
    var r := AddAll(acc, xs);
    AddAllFresh(acc, xs);
    if xs != [] {
      var x := xs[0];
      var t := xs[1..];
      var next := AppendNew(acc, x);
      assert r == AddAll(next, t);
      AddAllOrder(next, t);
      AddAllFresh(next, t);
      if x in acc {
        forall i, j | |acc| <= i < j < |r|
          ensures IndexIn(xs, r[i]) < IndexIn(xs, r[j])
        {
          IndexInShift(xs, r[i], r[j]);
        }
      } else {
        assert r[..|next|] == next;
        assert r[|acc|] == x;
        forall i, j | |acc| <= i < j < |r|
          ensures IndexIn(xs, r[i]) < IndexIn(xs, r[j])
        {
          if i == |acc| {
            assert r[j] != x;
            IndexInTail(xs, r[j]);
          } else {
            IndexInShift(xs, r[i], r[j]);
          }
        }
      }
    }
  }

  lemma {:induction false} AddAllConcat(acc: seq<string>, a: seq<string>, b: seq<string>)
    ensures AddAll(acc, a + b) == AddAll(AddAll(acc, a), b)
    decreases |a|
  {
    if a == [] {
      assert a + b == b;
    } else {
      assert (a + b)[0] == a[0] && (a + b)[1..] == a[1..] + b;
      AddAllConcat(AppendNew(acc, a[0]), a[1..], b);
    }
  }

  lemma {:induction false} AddAllDistinct(acc: seq<string>, a: seq<string>)
    requires Distinct(acc + a)
    ensures AddAll(acc, a) == acc + a
    decreases |a|
  {
    if a != [] {
      var s := acc + a;
      assert s[|acc|] == a[0];
      assert a[0] !in acc by {
        forall k | 0 <= k < |acc| ensures acc[k] != a[0] { assert s[k] == acc[k]; }
      }
      assert (acc + [a[0]]) + a[1..] == s;
      AddAllDistinct(acc + [a[0]], a[1..]);
    } else {
      assert acc + a == acc;
    }
  }

  lemma {:induction false} AddAllPresent(acc: seq<string>, xs: seq<string>)
    requires forall y :: y in xs ==> y in acc
    ensures AddAll(acc, xs) == acc
    decreases |xs|
  {
    if xs != [] {
      assert xs[0] in acc;
      assert forall y :: y in xs[1..] ==> y in xs;
      AddAllPresent(acc, xs[1..]);
    }
  }

  /**
   * The union of a duplicate-free list with more entries is the old list
   * followed by the entries it lacked, in order of first occurrence.
   */
  lemma UnionAppends(existing: seq<string>, incoming: seq<string>)
    requires Distinct(existing)
    ensures Dedup(existing + incoming) == AddAll(existing, incoming)
  {
    AddAllConcat([], existing, incoming);
    assert [] + existing == existing;
    AddAllDistinct([], existing);
  }

  // ---------------------------------------------------------------------
  // The registry as a value
  // ---------------------------------------------------------------------

  /** Each node is filed under its own path and lists no dependency twice. */
  predicate ValidGraph(m: map<string, Node>)
  {
    forall p :: p in m ==> m[p].path == p && Distinct(m[p].dependsOn)
  }

  /**
   * `_addNode` as a map update: the existing node, or a new one of the given
   * kind with no dependencies, then a non-empty incoming list merged in by
   * `Array.from(new Set(old.concat(incoming)))`.
   */
  function Upsert(m: map<string, Node>, params: Node): (r: map<string, Node>)
    ensures r.Keys == m.Keys + {params.path}
    ensures forall q :: q in m && q != params.path ==> r[q] == m[q]
    ensures ValidGraph(m) ==> ValidGraph(r)
  {
    var node := if params.path in m then m[params.path] else Node(params.path, params.kind, []);
    var merged := if |params.dependsOn| > 0 then node.(dependsOn := Dedup(node.dependsOn + params.dependsOn)) else node;
    m[params.path := merged]
  }

  /** A path not yet present gets one node of the given kind whose dependencies are the incoming ones, deduplicated. */
  lemma UpsertCreates(m: map<string, Node>, params: Node)
    requires params.path !in m
    ensures Upsert(m, params)[params.path] == Node(params.path, params.kind, Dedup(params.dependsOn))
  {
    assert [] + params.dependsOn == params.dependsOn;
  }

  /**
   * A path already present keeps its kind (the first writer wins), and its
   * dependency list grows by the incoming entries it lacked, in order of
   * first occurrence, without duplicates.
   */
  lemma UpsertMerges(m: map<string, Node>, params: Node)
    requires ValidGraph(m) && params.path in m
    ensures var n := Upsert(m, params)[params.path];
            n.path == params.path && n.kind == m[params.path].kind
            && n.dependsOn == AddAll(m[params.path].dependsOn, params.dependsOn)
  {
    if |params.dependsOn| > 0 {
      UnionAppends(m[params.path].dependsOn, params.dependsOn);
    }
  }

  /** An empty incoming list leaves an existing node, and the whole registry, unchanged. */
  lemma UpsertEmptyNoop(m: map<string, Node>, params: Node)
    requires params.path in m && params.dependsOn == []
    ensures Upsert(m, params) == m
  {
  }

  /** Repeating an upsert changes nothing. */
  lemma UpsertIdempotent(m: map<string, Node>, params: Node)
    requires ValidGraph(m)
    ensures Upsert(Upsert(m, params), params) == Upsert(m, params)
  {
    var once := Upsert(m, params);
    var n := once[params.path];
    if |params.dependsOn| > 0 {
      UnionAppends(n.dependsOn, params.dependsOn);
      AddAllPresent(n.dependsOn, params.dependsOn);
    }
    UpsertFixed(once, params);
  }

  /** An upsert whose merge gives back the node already filed changes nothing. */
  lemma UpsertFixed(m: map<string, Node>, params: Node)
    requires params.path in m
    requires |params.dependsOn| > 0 ==> Dedup(m[params.path].dependsOn + params.dependsOn) == m[params.path].dependsOn
    ensures Upsert(m, params) == m
  {
  }

  /**
   * Which kind a path ends up with depends on which upsert came first: two
   * placeholder registrations of one new path with different kinds give
   * different registries in the two orders.
   */
  lemma UpsertOrderMatters(m: map<string, Node>, path: string, first: NodeType, second: NodeType)
    requires path !in m && first != second
    ensures Upsert(Upsert(m, Node(path, first, [])), Node(path, second, []))[path].kind == first
    ensures Upsert(Upsert(m, Node(path, second, [])), Node(path, first, []))[path].kind == second
  {
  }

  /** Registering each source as a placeholder node with no dependencies, in order. */
  function RegisterAll(m: map<string, Node>, sources: seq<Source>): (r: map<string, Node>)
    ensures ValidGraph(m) ==> ValidGraph(r)
    ensures forall q :: q in m ==> q in r && r[q] == m[q]
    ensures forall k :: 0 <= k < |sources| ==> sources[k].path in r
    ensures forall q :: q in r ==> q in m || q in Paths(sources)
  {
    if sources == [] then m
    else
      var init := sources[..|sources| - 1];
      var last := sources[|sources| - 1];
      var before := RegisterAll(m, init);
      assert forall k :: 0 <= k < |init| ==> init[k] == sources[k];
      PathsAppend(init, last);
      assert sources == init + [last];
      UpsertPlaceholder(before, last);
      Upsert(before, Node(last.path, last.kind, []))
  }

  /** A placeholder upsert leaves a present path alone and files a new one with no dependencies. */
  lemma UpsertPlaceholder(m: map<string, Node>, s: Source)
    ensures Upsert(m, Node(s.path, s.kind, [])) == if s.path in m then m else m[s.path := Node(s.path, s.kind, [])]
  {
  }

  /** The paths of the sources, in order. */
  function Paths(sources: seq<Source>): (r: seq<string>)
    ensures |r| == |sources|
    ensures forall k :: 0 <= k < |sources| ==> r[k] == sources[k].path
  {
    if sources == [] then [] else [sources[0].path] + Paths(sources[1..])
  }

  lemma PathsAppend(sources: seq<Source>, s: Source)
    ensures Paths(sources + [s]) == Paths(sources) + [s.path]
  {
  }

  /** Registering one more source is one more placeholder upsert, and one more path. */
  lemma RegisterStep(m: map<string, Node>, sources: seq<Source>, i: nat)
    requires i < |sources|
    ensures RegisterAll(m, sources[..i + 1]) == Upsert(RegisterAll(m, sources[..i]), Node(sources[i].path, sources[i].kind, []))
    ensures Paths(sources[..i + 1]) == Paths(sources[..i]) + [sources[i].path]
  {
    var prefix := sources[..i + 1];
    assert prefix[..i] == sources[..i] && prefix[i] == sources[i];
    assert prefix == sources[..i] + [sources[i]];
    PathsAppend(sources[..i], sources[i]);
  }

  /** A path new to the registry takes the kind of the first source that names it. */
  lemma {:induction false} RegisterAllFirstKind(m: map<string, Node>, sources: seq<Source>, k: nat)
    requires k < |sources| && sources[k].path !in m
    requires forall j :: 0 <= j < k ==> sources[j].path != sources[k].path
    ensures RegisterAll(m, sources)[sources[k].path] == Node(sources[k].path, sources[k].kind, [])
    decreases |sources|
  {
    var init := sources[..|sources| - 1];
    var last := sources[|sources| - 1];
    var before := RegisterAll(m, init);
    if k == |sources| - 1 {
      assert last.path !in before;
    } else {
      assert init[k] == sources[k];
      RegisterAllFirstKind(m, init, k);
    }
  }

  // ---------------------------------------------------------------------
  // Classification of one declaration
  // ---------------------------------------------------------------------

  /**
   * The per-declaration step of `_extractSources`: a package keeps its
   * alias-rewritten specifier; a target outside the root keeps the original
   * specifier; a target inside the root is a directory (index inference) or
   * a file (extension inference). A rewritten specifier is resolved against
   * the root, any other against the importing file's directory.
   */
  function ClassifySource(pr: PathResolver, fs: FileSystem, declaration: Declaration, parentPath: string): (r: Source)
    reads pr, pr.configManager
    requires pr.Configured()
    ensures r.kind != Resource
    ensures r.kind == Package <==> PathResolver.IsPackage(pr.ResolveAliases(declaration.source.value))
    ensures r.kind == Package ==> r.path == pr.ResolveAliases(declaration.source.value)
    ensures r.kind == External ==> r.path == declaration.source.value
    ensures !PathResolver.IsPackage(pr.ResolveAliases(declaration.source.value)) ==>
      (r.kind == External <==> !pr.IsInternalPath(Target(pr, declaration.source.value, parentPath)))
    ensures r.kind == Internal ==>
      var full := Target(pr, declaration.source.value, parentPath);
      r.path == if fs.IsDir(full) then pr.ResolveIndexFile(fs, full) else pr.ResolveFileExtension(fs, full)
  {
    var path := declaration.source.value;
    var aliasResolvedPath := pr.ResolveAliases(path);
    if PathResolver.IsPackage(aliasResolvedPath) then Source(aliasResolvedPath, Package)
    else
      var fullPath := Target(pr, path, parentPath);
      if !pr.IsInternalPath(fullPath) then Source(path, External)
      else if fs.IsDir(fullPath) then Source(pr.ResolveIndexFile(fs, fullPath), Internal)
      else Source(pr.ResolveFileExtension(fs, fullPath), Internal)
  }

  /**
   * The full path `_extractSources` resolves a specifier to: an
   * alias-rewritten specifier against the root alone, any other against the
   * importing file's directory under the root.
   */
  function Target(pr: PathResolver, specifier: string, parentPath: string): (r: string)
    reads pr
    requires pr.Configured()
    ensures PosixPath.IsNormal(r)
  {
    var aliasResolvedPath := pr.ResolveAliases(specifier);
    var wasAlias := aliasResolvedPath != specifier;
    pr.Resolve(ResolveParams(aliasResolvedPath, if wasAlias then None else Some(parentPath))).fullPath
  }


  /** `_extractSources`: one source per declaration, in declaration order. */
  function ExtractSources(pr: PathResolver, fs: FileSystem, declarations: seq<Declaration>, parentPath: string): (r: seq<Source>)
    reads pr, pr.configManager
    requires pr.Configured()
    ensures |r| == |declarations|
    ensures forall k :: 0 <= k < |r| ==> r[k] == ClassifySource(pr, fs, declarations[k], parentPath)
  {
    seq(|declarations|, k requires 0 <= k < |declarations| && pr.Configured() reads pr, pr.configManager =>
      ClassifySource(pr, fs, declarations[k], parentPath))
  }

  /** A specifier that an alias rewrote is classified the same whatever the importing file's directory. */
  lemma AliasedIgnoresParent(pr: PathResolver, fs: FileSystem, declaration: Declaration, parent1: string, parent2: string)
    requires pr.Configured()
    requires pr.ResolveAliases(declaration.source.value) != declaration.source.value
    ensures ClassifySource(pr, fs, declaration, parent1) == ClassifySource(pr, fs, declaration, parent2)
  {
  }

  /**
   * A relative specifier with no `..` segment and no alias, imported from a
   * directory given relative to the root, is internal.
   */
  lemma RelativeImportIsInternal(pr: PathResolver, fs: FileSystem, declaration: Declaration, parentPath: string)
    requires pr.Configured()
    requires pr.ResolveAliases(declaration.source.value) == declaration.source.value
    requires !PathResolver.IsPackage(declaration.source.value)
    requires !PosixPath.IsAbsolute(declaration.source.value)
    requires PosixPath.Downward(PosixPath.SplitSlash(declaration.source.value))
    requires !PosixPath.IsAbsolute(parentPath) && PosixPath.Downward(PosixPath.SplitSlash(parentPath))
    ensures ClassifySource(pr, fs, declaration, parentPath).kind == Internal
  {
    ResolveUnderParentDir(pr, parentPath, declaration.source.value);
  }

  /** The names a relative specifier reaches from a relative parent directory, under the root. */
  function ImportedNames(parentPath: string, specifier: string): (r: seq<string>)
    ensures PosixPath.AllNames(r)
  {
    var a := PosixPath.DownwardNames(PosixPath.SplitSlash(parentPath));
    var b := PosixPath.DownwardNames(PosixPath.SplitSlash(specifier));
    assert PosixPath.AllNames(a + b) by {
      forall k | 0 <= k < |a + b| ensures PosixPath.IsName((a + b)[k]) {
        if k < |a| { assert (a + b)[k] == a[k]; } else { assert (a + b)[k] == b[k - |a|]; }
      }
    }
    a + b
  }

  /**
   * A relative import without an extension that names no directory: the
   * first extension in configured order whose probe succeeded is appended,
   * whatever order the probes would finish in.
   */
  lemma ImportWithoutExtension(pr: PathResolver, fs: FileSystem, declaration: Declaration, parentPath: string, k: nat)
    requires pr.Configured()
    requires pr.ResolveAliases(declaration.source.value) == declaration.source.value
    requires !PathResolver.IsPackage(declaration.source.value)
    requires !PosixPath.IsAbsolute(declaration.source.value)
    requires PosixPath.Downward(PosixPath.SplitSlash(declaration.source.value))
    requires !PosixPath.IsAbsolute(parentPath) && PosixPath.Downward(PosixPath.SplitSlash(parentPath))
    requires PosixPath.AllNames(PosixPath.NamesOf(pr.targetPath) + ImportedNames(parentPath, declaration.source.value))
    requires var full := PosixPath.FromNames(PosixPath.NamesOf(pr.targetPath) + ImportedNames(parentPath, declaration.source.value));
             !fs.IsDir(full) && FirstProbed(fs, full, pr.configManager.SupportedExtensions(), k)
    requires PosixPath.Extname(CurrentDir + PosixPath.JoinSlash(ImportedNames(parentPath, declaration.source.value)))
             !in pr.configManager.SupportedExtensions()
    ensures ClassifySource(pr, fs, declaration, parentPath)
         == Source(CurrentDir + PosixPath.JoinSlash(ImportedNames(parentPath, declaration.source.value))
                   + pr.configManager.SupportedExtensions()[k], Internal)
  {
    ResolveUnderParentDir(pr, parentPath, declaration.source.value);
  }

  /**
   * A relative import that names a directory whose first `index` entry is a
   * plain name with a supported extension: that entry under the directory.
   */
  lemma ImportOfDirectory(pr: PathResolver, fs: FileSystem, declaration: Declaration, parentPath: string, k: nat)
    requires pr.Configured()
    requires pr.ResolveAliases(declaration.source.value) == declaration.source.value
    requires !PathResolver.IsPackage(declaration.source.value)
    requires !PosixPath.IsAbsolute(declaration.source.value)
    requires PosixPath.Downward(PosixPath.SplitSlash(declaration.source.value))
    requires !PosixPath.IsAbsolute(parentPath) && PosixPath.Downward(PosixPath.SplitSlash(parentPath))
    requires PosixPath.AllNames(PosixPath.NamesOf(pr.targetPath) + ImportedNames(parentPath, declaration.source.value))
    requires var full := PosixPath.FromNames(PosixPath.NamesOf(pr.targetPath) + ImportedNames(parentPath, declaration.source.value));
             fs.IsDir(full) && FirstIndexEntry(fs.dirs[full], k) && PosixPath.IsName(fs.dirs[full][k])
             && PosixPath.Extname(fs.dirs[full][k]) in pr.configManager.SupportedExtensions()
    ensures var full := PosixPath.FromNames(PosixPath.NamesOf(pr.targetPath) + ImportedNames(parentPath, declaration.source.value));
            ClassifySource(pr, fs, declaration, parentPath)
            == Source(CurrentDir + PosixPath.JoinSlash(ImportedNames(parentPath, declaration.source.value) + [fs.dirs[full][k]]), Internal)
  {
    ResolveUnderParentDir(pr, parentPath, declaration.source.value);
    IndexFileUnderDirectory(pr, fs, ImportedNames(parentPath, declaration.source.value), k);
  }

  /** An absolute specifier outside the root, not rewritten by an alias, is external and keeps its text. */
  lemma AbsoluteOutsideIsExternal(pr: PathResolver, fs: FileSystem, declaration: Declaration, parentPath: string)
    requires pr.Configured()
    requires pr.ResolveAliases(declaration.source.value) == declaration.source.value
    requires PosixPath.IsNormal(declaration.source.value)
    requires !pr.IsInternalPath(declaration.source.value)
    ensures ClassifySource(pr, fs, declaration, parentPath) == Source(declaration.source.value, External)
  {
    AbsoluteSpecifierIgnoresRoot(pr, declaration.source.value, Some(parentPath));
  }

  // ---------------------------------------------------------------------
  // The registry object
  // ---------------------------------------------------------------------

  class Nodes {
    var nodes: map<string, Node>

    ghost predicate Valid()
      reads this
    {
      ValidGraph(nodes)
    }

    constructor ()
      ensures Valid() && nodes == map[]
    {
      nodes := map[];
    }

    /** `_nodeExists`. */
    function NodeExists(path: string): (r: bool)
      reads this
      ensures r <==> path in nodes
    {
      path in nodes
    }

    /** `_addNode`: the upsert, returning the node now filed under the path. */
    method AddNode(params: Node) returns (node: Node)
      requires Valid()
      modifies this
      ensures Valid()
      ensures nodes == Upsert(old(nodes), params)
      ensures node == nodes[params.path]
    {
      ghost var before := nodes;
      if params.path in nodes {
        node := nodes[params.path];
      } else {
        node := Node(params.path, params.kind, []);
        nodes := nodes[params.path := node];
      }
      if |params.dependsOn| > 0 {
        node := node.(dependsOn := Dedup(node.dependsOn + params.dependsOn));
        nodes := nodes[params.path := node];
      }
      assert nodes == Upsert(before, params);
    }

    /** `_appendNodeDependencies`: the union of an existing node's dependencies with more. */
    method AppendNodeDependencies(path: string, dependencies: seq<string>)
      requires Valid() && path in nodes
      modifies this
      ensures Valid()
      ensures nodes == old(nodes)[path := old(nodes)[path].(dependsOn := Dedup(old(nodes)[path].dependsOn + dependencies))]
      ensures nodes[path].dependsOn == AddAll(old(nodes)[path].dependsOn, dependencies)
    {
      var node := nodes[path];
      UnionAppends(node.dependsOn, dependencies);
      nodes := nodes[path := node.(dependsOn := Dedup(node.dependsOn + dependencies))];
    }

    /** `addNodeFromResource`: a `resource` node with no dependencies. */
    method AddNodeFromResource(path: string) returns (node: Node)
      requires Valid()
      modifies this
      ensures Valid()
      ensures nodes == Upsert(old(nodes), Node(path, Resource, []))
      ensures node == nodes[path]
    {
      node := AddNode(Node(path, Resource, []));
    }

    /**
     * `addNodeFromAST`: every source of the file is registered as a
     * placeholder, in declaration order, then the file itself is upserted as
     * `internal` depending on the sources' paths. `fs` stands for the
     * filesystem answers the resolver asks for.
     */
    method AddNodeFromAST(pr: PathResolver, fs: FileSystem, parsed: File, filePath: string) returns (node: Node)
      requires Valid() && pr.Configured()
      modifies this
      ensures Valid()
      ensures var sources := old(ExtractSources(pr, fs, FilterImportExportNodes(parsed), PosixPath.Dirname(filePath)));
              nodes == Upsert(RegisterAll(old(nodes), sources), Node(filePath, Internal, Paths(sources)))
      ensures node == nodes[filePath]
    {
      var declarations := FilterImportExportNodes(parsed);
      var sources := ExtractSources(pr, fs, declarations, PosixPath.Dirname(filePath));
      var dependsOn := RegisterSources(sources);
      node := AddNode(Node(filePath, Internal, dependsOn));
    }

    /**
     * The fan-out of `addNodeFromAST`: each source registered as a
     * placeholder in order, collecting the sources' paths.
     */
    method RegisterSources(sources: seq<Source>) returns (dependsOn: seq<string>)
      requires Valid()
      modifies this
      ensures Valid()
      ensures nodes == RegisterAll(old(nodes), sources)
      ensures dependsOn == Paths(sources)
    {
      dependsOn := [];
      var i := 0;
      while i < |sources|
        invariant 0 <= i <= |sources|
        invariant Valid()
        invariant nodes == RegisterAll(old(nodes), sources[..i])
        invariant dependsOn == Paths(sources[..i])
      {
        var source := sources[i];
        RegisterStep(old(nodes), sources, i);
        var _ := AddNode(Node(source.path, source.kind, []));
        dependsOn := dependsOn + [source.path];
        i := i + 1;
      }
      assert sources[..i] == sources;
    }
  }

  /**
   * After `addNodeFromAST` every dependency the file lists is a node of the
   * registry, and the file's node records each of them.
   */
  lemma AddNodeFromASTClosed(m: map<string, Node>, sources: seq<Source>, filePath: string)
    requires ValidGraph(m)
    ensures var r := Upsert(RegisterAll(m, sources), Node(filePath, Internal, Paths(sources)));
            filePath in r && forall k :: 0 <= k < |sources| ==> sources[k].path in r && sources[k].path in r[filePath].dependsOn
  {
    var before := RegisterAll(m, sources);
    var r := Upsert(before, Node(filePath, Internal, Paths(sources)));
    forall k | 0 <= k < |sources| ensures sources[k].path in r[filePath].dependsOn {
      assert Paths(sources)[k] == sources[k].path;
      if filePath in before {
        UpsertMerges(before, Node(filePath, Internal, Paths(sources)));
      } else {
        UpsertCreates(before, Node(filePath, Internal, Paths(sources)));
      }
    }
  }
}
