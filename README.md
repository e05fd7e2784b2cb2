# Import graph virtualizer: a verified model of the graph engine

This project models the core of the import-graph virtualizer in Dafny and proves properties of that model. The virtualizer walks a TypeScript/JavaScript project and records, for every file, the modules it imports. The core has four parts:

- **Graph store** (`Nodes`): a registry from path to node (`path`, `type`, `dependsOn`). Its upsert fixes a node's type at first creation. Later upserts grow the dependency list by order-preserving set union, and an empty incoming list changes nothing. `addNodeFromAST` does three things, in this order:
  - it keeps the import/export declarations that carry a source;
  - it classifies each declaration's specifier as `package`, `external` or `internal`, and registers it as a placeholder;
  - it upserts the file itself as `internal`.
- **Path resolver** (`PathResolver`): configured with a project root and an ordered alias table. It provides:
  - alias rewriting, first match wins;
  - the bare-package test;
  - joining and normalising paths, as Node's `path.resolve` does;
  - the root-relative form, with runs of slashes collapsed;
  - the internal test (the root occurs in the path);
  - directory-index inference;
  - missing-extension inference (the first configured extension whose probe succeeded).
- **Pattern compiler** (`preparePattern`, `preparedPatterns`, `matchAnyPattern`): turns each `*` and `+` of a glob into `(.*)` and `(.+)`, and tests strings against compiled patterns.
- **Configuration holder** (`ConfigManager`): two fields replaced together by `setConfig` and read by getters.

The modules follow the program's structure.

| file | module | what it holds |
|---|---|---|
| `wrappers.dfy` | `Wrappers` | `Option` (the source's `undefined`, `-1` and `??`) |
| `strings.dfy` | `Strings` | `indexOf`, `includes`, `replace` with a string pattern, and `replace(/\/+/g, '/')` |
| `posix_path.dfy` | `PosixPath` | POSIX `path.resolve`, `path.extname` and `path.dirname`, modelled as segment-list normalisation and index scans |
| `file_system.dfy` | `FileSystems` | the filesystem answers the code asks for, as an input value: the paths `access` accepts and each directory's `readdir` listing |
| `patterns.dfy` | `Patterns` | glob compilation, and a backtracking matcher for the patterns that compilation produces |
| `config_manage.dfy` | `ConfigManagement` | class `ConfigManager` |
| `path_resolver.dfy` | `PathResolution` | class `PathResolver`, with lemmas relating its rules to one another |
| `nodes.dfy` | `GraphNodes` | the declaration filter, the upsert as a map function, classification, and class `Nodes` |

State changes follow the source:

- `Nodes.nodes` is a `map` that `AddNode` reassigns.
- `Configure` assigns the resolver's `targetPath` and `aliases`.
- `PrepareAliases` fills its result in a loop.
- `SetConfig` overwrites the manager's fields.

The resolver's rules read that state as functions. `addNodeFromAST` is a method whose result is stated through `Upsert` and `RegisterAll`.

In these cases the model follows the code:

- **Internal paths.** A path counts as internal when the root occurs anywhere in it, as a substring, and not only when it lies under the root.
- **`_toRelativePath`** replaces the first occurrence of the root, wherever that is.
- **Aliases without a wildcard.** An alias key with no `*` or `+` has no capture group. `resolveAliases` then appends the text `undefined`: the replacement is concatenated with `match[1]`, which is `undefined` (`AliasWithoutWildcard`).
- **Bare packages.** A specifier counts as a package only when its first character is `@`, `_`, an ASCII letter or a digit. It is not enough that it lacks a path marker: an empty specifier or one starting with `~` or `#` is not a package.
- **Directory index.** Only the first directory entry whose name contains `index` is considered. If its extension is not supported, the directory's own relative path is returned, even when a later entry would qualify.
- **Unconfigured resolver.** The code performs no configuration check. The model makes configuration a precondition (`Configured()`).
- **First writer wins.** A node's type never changes after creation, so the final registry depends on the order of the upserts (`UpsertOrderMatters`). For example, a `.json` file first reached as an import of an internal file is registered as `internal`. It stays `internal` when the traversal later registers it as a resource.

## Model

| member | source | states |
|---|---|---|
| Strings.IndexOf | src/path-resolver.ts:75 | `indexOf`: a reported index is an occurrence, and no occurrence comes before it; when none is reported there is no occurrence at all |
| Strings.Contains | src/path-resolver.ts:75 | `includes` holds exactly when the searched text occurs at some index |
| Strings.ReplaceFirst | src/path-resolver.ts:146 | `replace` with a string pattern: unchanged when the pattern does not occur; otherwise the text before its first occurrence is kept, the occurrence becomes the replacement, and the text after it is kept |
| Strings.CollapseSlashes | src/path-resolver.ts:147 | `replace(/\/+/g, '/')` leaves no two adjacent slashes and never lengthens the text |
| Strings.CollapseFromConcat | src/path-resolver.ts:147 | collapsing works left to right: a concatenation collapses as its first part, then its second part continued from whether the first ended in a slash |
| Strings.CollapseRun | src/path-resolver.ts:147 | a run of two slashes anywhere collapses exactly like a single slash |
| Strings.CollapseFrom | src/path-resolver.ts:147 | collapsing runs of slashes leaves no two adjacent slashes and never lengthens the text |
| Strings.CollapseFromNoop | src/path-resolver.ts:147 | a text with no run of slashes is left unchanged |
| Strings.CollapseIdempotent | src/path-resolver.ts:147 | collapsing twice gives the same result as collapsing once |
| Strings.ReplacePrefix | src/path-resolver.ts:146 | replacing the first occurrence of a text that is a prefix replaces that prefix |
| Strings.CollapseDotSlash | src/path-resolver.ts:144-148 | `./` followed by a slash-clean name list is already collapsed |
| Strings.CollapseDotSlashSlash | src/path-resolver.ts:144-148 | `./` + `/` + a slash-clean rest collapses to `./` + rest, which is what the root's replacement leaves for a path under the root |
| PosixPath.SplitSlash | src/path-resolver.ts:137-141 | splitting at slashes gives at least one segment, none of which contains a slash |
| PosixPath.JoinSplit | src/path-resolver.ts:137-141 | joining the segments of a split with slashes gives back the text |
| PosixPath.SplitJoin | src/path-resolver.ts:137-141 | splitting a join of slash-free segments gives back the segments |
| PosixPath.JoinNames | src/path-resolver.ts:144-148 | a join of names has no run of slashes and no slash at either end, and is empty only for no names |
| PosixPath.StepAll | src/path-resolver.ts:137-141 | normalising segments onto a stack of names (dropping empty and `.`, popping on `..`) keeps a stack of names |
| PosixPath.ResolveSegments | src/path-resolver.ts:61 | `path.resolve`'s segment list: normalised from the last absolute argument on, and made only of names |
| PosixPath.FromNames | src/path-resolver.ts:137-141 | the absolute path of a list of names is normal, and splitting it gives back the names |
| PosixPath.Resolve | src/path-resolver.ts:61 | `path.resolve` always yields a normal absolute path |
| PosixPath.NamesOf | src/path-resolver.ts:137-141 | every normal path is the path of its names |
| PosixPath.NormalSegments | src/path-resolver.ts:137-141 | resolving a normal path yields exactly its own names |
| PosixPath.ResolveIdempotent | src/path-resolver.ts:137-141 | resolving a resolved path changes nothing |
| PosixPath.AbsoluteRestarts | src/path-resolver.ts:137-141 | an absolute last argument discards everything before it |
| PosixPath.StepAllDownward | src/path-resolver.ts:137-141 | segments with no `..` only append to the stack |
| PosixPath.ResolveUnder | src/path-resolver.ts:137-141 | a relative `..`-free path resolved against a normal base adds its names under the base |
| PosixPath.ResolveUnderCurrentDir | src/path-resolver.ts:137-141 | `path.resolve(base, './', rel)` is the base's names followed by the names of `rel` |
| PosixPath.ResolveUnderParent | src/path-resolver.ts:137-141 | `path.resolve(base, parent, rel)` with relative `..`-free arguments is the base's names, then the parent's, then the specifier's |
| PosixPath.DotJoinNames | src/path-resolver.ts:96 | a `./`-prefixed join of names is relative, has no `..` segment, and contributes exactly those names |
| PosixPath.LastDot | src/path-resolver.ts:90 | the last dot of a name, or none when it has no dot |
| PosixPath.LastDotAppend | src/path-resolver.ts:105 | appending dot-free text keeps the last dot where it was |
| PosixPath.Extname | src/path-resolver.ts:90 | `path.extname` is empty, or a dot followed by text with no slash and no further dot |
| PosixPath.ExtnameOfAppended | src/path-resolver.ts:121 | appending a well-formed extension to a path that ends in a name makes it that path's extension |
| PosixPath.Dirname | src/nodes.ts:77 | `path.dirname` is `.`, `/`, `//`, or a proper prefix of the path that is followed by a slash |
| PosixPath.DirnameOfChild | src/nodes.ts:77 | the directory of `dir/name` is `dir` |
| Patterns.Compile | src/patterns.ts:6 | the compiled text is 3 characters longer for every `*` and `+` |
| Patterns.CompileConcat | src/patterns.ts:6 | compilation works character by character, in order |
| Patterns.CompileLiteral | src/patterns.ts:6 | a glob without `*` or `+` compiles to itself |
| Patterns.ParseCompile | src/patterns.ts:6 | reading a compiled glob back gives exactly the glob's tokens: each `*` becomes a `(.*)` group, each `+` a `(.+)` group, and every other character itself, in order |
| Patterns.MatchFrom | src/patterns.ts:14 | a match found from an index ends inside the string, and the group lies within the match |
| Patterns.Greedy | src/patterns.ts:14 | a wildcard's group starts where the wildcard does and ends no earlier than its minimum length allows |
| Patterns.GreedyHit | src/patterns.ts:14 | the rest of the pattern matches from where the reported group ends |
| Patterns.GreedyLargest | src/patterns.ts:14 | the wildcard is greedy: no later end, up to the end of the string, lets the rest match; when it reports nothing, no end at all does |
| Patterns.MatchFromSound | src/patterns.ts:14 | what the backtracking matcher finds is a match of the pattern |
| Patterns.MatchFromComplete | src/patterns.ts:14 | whenever the pattern matches some substring starting at an index, the matcher finds a match there |
| Patterns.MatchFromGroup | src/patterns.ts:14 | group 1 is reported exactly when the pattern has a wildcard |
| Patterns.ExecFrom | src/patterns.ts:14 | the reported match is the leftmost start with a match, and there is none when no start has one |
| Patterns.Exec | src/path-resolver.ts:131 | `exec`/`match`: the match and its group lie within the string |
| Patterns.ExecSound | src/path-resolver.ts:131 | the reported match matches the pattern, with group 1 present exactly when the pattern has a wildcard |
| Patterns.ExecLeftmost | src/path-resolver.ts:131 | no match starts before the reported one |
| Patterns.Test | src/patterns.ts:14 | `test` holds exactly when the matcher succeeds from some start index |
| Patterns.TestMeaning | src/patterns.ts:14 | `test` holds exactly when the pattern matches some substring |
| Patterns.PreparePattern | src/patterns.ts:3-6 | a `RegExp` is returned unchanged; a string becomes the pattern of its glob tokens, 3 characters longer per wildcard |
| Patterns.PreparedPatterns | src/patterns.ts:8-10 | the same length, with `preparePattern` applied elementwise in order |
| Patterns.MatchAnyPattern | src/patterns.ts:12-14 | true exactly when some pattern's `test` holds, and so false on an empty list |
| Patterns.PrefixGlobMatch | src/patterns.ts:6 | a compiled `prefix*` matches `prefix + rest` from index 0 to the end, with group 1 capturing `rest` |
| Patterns.LiteralGlobMatch | src/patterns.ts:6 | a compiled wildcard-free glob matches its own text at index 0, with no group |
| ConfigManagement.ConfigManager.constructor | src/config-manage.ts:9-11 | a fresh manager has no ignore patterns and no supported extensions |
| ConfigManagement.ConfigManager.IgnorePatterns | src/config-manage.ts:13-15 | the getter returns the stored patterns and changes nothing |
| ConfigManagement.ConfigManager.SupportedExtensions | src/config-manage.ts:17-19 | the getter returns the stored extensions and changes nothing |
| ConfigManagement.ConfigManager.SetConfig | src/config-manage.ts:21-24 | afterwards both getters return exactly the values passed |
| FileSystems.FileSystem.IsDir | src/files.ts:3-7 | `isDir` holds only of paths that exist, so `access` succeeds on any directory; a failed `stat` reads as not a directory |
| PathResolution.FindAlias | src/path-resolver.ts:125 | `find`: the first alias whose pattern tests true, or none when no alias does |
| PathResolution.FindIndexEntry | src/path-resolver.ts:82 | `find`: the first listing entry whose name contains `index`, or none when no entry does |
| PathResolution.ProbeAll | src/path-resolver.ts:109-111 | one probe outcome per extension, in configured order, each saying whether `fullPath + extension` exists |
| PathResolution.FindFulfilled | src/path-resolver.ts:113-115 | `findIndex`: the smallest index whose probe succeeded, or none when none did |
| PathResolution.PathResolver.constructor | src/path-resolver.ts:56-58 | keeps the given configuration manager; the resolver starts unconfigured |
| PathResolution.PathResolver.IsPackage | src/path-resolver.ts:32-44 | true exactly when the specifier starts with `@`, `_`, an ASCII letter or a digit, so `./x`, `../x` and `/x` are never packages |
| PathResolution.PathResolver.PrepareAliases | src/path-resolver.ts:46-54 | one compiled alias per entry, in entry order, each reading back as its key's glob tokens |
| PathResolution.PathResolver.Configure | src/path-resolver.ts:60-63 | given an absolute working directory, the root becomes the target resolved against the working directory, and the aliases are the prepared table (none when absent) |
| PathResolution.PathResolver.ResolveFullPath | src/path-resolver.ts:136-142 | the joined path is normal and absolute |
| PathResolution.PathResolver.ToRelativePath | src/path-resolver.ts:144-148 | the relative form has no run of slashes; a path that does not contain the root only has its slashes collapsed |
| PathResolution.PathResolver.Resolve | src/path-resolver.ts:65-72 | `fullPath` is the normal join of root, parent (default `./`) and path; `relativePath` is its relative form, with no run of slashes |
| PathResolution.PathResolver.IsInternalPath | src/path-resolver.ts:74-76 | true exactly when the root occurs in the path at some index |
| PathResolution.PathResolver.ResolveIndexFile | src/path-resolver.ts:78-98 | only the first entry containing `index` counts: it is resolved under the directory when its extension is supported; otherwise, or without such an entry, the directory's relative path is returned |
| PathResolution.PathResolver.ResolveFileExtension | src/path-resolver.ts:100-122 | a supported extension keeps the relative path; otherwise the first extension in configured order whose probe succeeded is appended, and the relative path is kept when none did |
| PathResolution.PathResolver.ResolveAliases | src/path-resolver.ts:124-134 | unchanged when no alias matches; otherwise rewritten by the first matching alias in configured order |
| PathResolution.AppendNames | src/path-resolver.ts:137-141 | names appended under a normal root give the root followed by a slash and the joined names (or the root alone) |
| PathResolution.RelativeUnderRoot | src/path-resolver.ts:144-148 | a path under the root starts with the root, and its relative form is `./` followed by its names under the root |
| PathResolution.RelativeOfInside | src/path-resolver.ts:144-148 | a path under the root is internal (the substring test of `isInternalPath`, lines 74-76), and its relative form is `./` followed by the names below the root |
| PathResolution.ResolveInsideRoot | src/path-resolver.ts:65-72 | a relative `..`-free specifier without a parent lands under the root, is internal, and has relative path `./` + its names |
| PathResolution.ResolveUnderParentDir | src/path-resolver.ts:65-72 | with a relative `..`-free parent, the parent's names then the specifier's land under the root, and the result is internal |
| PathResolution.AbsoluteSpecifierIgnoresRoot | src/path-resolver.ts:136-142 | an absolute specifier ignores root and parent; a normal one resolves to itself |
| PathResolution.RewriteKeepsOutside | src/path-resolver.ts:131-133 | the text before the alias's leftmost match and after it is kept; the match becomes the replacement followed by the text group 1 captured, or `undefined` when there is no group |
| PathResolution.RewritePrefix | src/path-resolver.ts:131-133 | rewriting `prefix + rest` by a `prefix*` alias gives `replacement + rest` |
| PathResolution.AliasPrefixRewrite | src/path-resolver.ts:124-134 | with a `prefix*` alias first in the table, `prefix + rest` resolves to `replacement + rest` |
| PathResolution.AliasWithoutWildcard | src/path-resolver.ts:131-133 | with a wildcard-free alias key first in the table, the matched key becomes `replacement` followed by the text `undefined` |
| PathResolution.InferredExtensionSupported | src/path-resolver.ts:100-122 | when some probe succeeds and the extensions are well formed, the inferred path's extension is a supported one |
| PathResolution.IndexFileUnderDirectory | src/path-resolver.ts:78-98 | for a directory under the root whose first `index` entry is a supported name, the result is `./` + the directory's names + that entry |
| GraphNodes.FilterStatements | src/nodes.ts:101-109 | keeps exactly the statements of a needed type with a non-null source |
| GraphNodes.IsNeededLeave | src/nodes.ts:36-40 | a statement type is needed exactly when it is one of the four declaration types, never any other statement |
| GraphNodes.FilterImportExportNodes | src/nodes.ts:98-110 | a statement is kept exactly when it is an Import, ExportAll, ExportDefault or ExportNamed declaration (the `neededTypes` list, lines 25-30) with a string source |
| GraphNodes.FilterStatementsConcat | src/nodes.ts:101 | the filter keeps order: filtering a concatenation concatenates the filtered parts |
| GraphNodes.FilterStatementsSingle | src/nodes.ts:102-108 | a single statement is kept exactly when it has a source |
| GraphNodes.AddAll | src/nodes.ts:196-198 | inserting into a `Set` in order keeps the old list as a prefix, holds exactly the old and new elements, and stays duplicate-free |
| GraphNodes.Dedup | src/nodes.ts:196-198 | `Array.from(new Set(list))` (also at lines 177-179) is duplicate-free and has exactly the list's elements |
| GraphNodes.AddAllFresh | src/nodes.ts:196-198 | the appended entries are new ones taken from the incoming list |
| GraphNodes.AddAllOrder | src/nodes.ts:196-198 | the appended entries come in order of first occurrence in the incoming list |
| GraphNodes.AddAllConcat | src/nodes.ts:196 | inserting a concatenation inserts its parts in turn |
| GraphNodes.AddAllDistinct | src/nodes.ts:196 | inserting duplicate-free new entries appends them as they are |
| GraphNodes.AddAllPresent | src/nodes.ts:196 | re-adding entries already present is a no-op |
| GraphNodes.UnionAppends | src/nodes.ts:196-198 | the union of a duplicate-free list with more entries is the old list followed by the entries it lacked |
| GraphNodes.Upsert | src/nodes.ts:182-202 | only the upserted path is added or changed, every other node is kept, and the registry invariant is preserved |
| GraphNodes.UpsertCreates | src/nodes.ts:185-193 | a new path gets exactly one node, of the given type, with the incoming dependencies deduplicated |
| GraphNodes.UpsertMerges | src/nodes.ts:185-199 | an existing node keeps its type (first writer wins), and its dependencies become the old list followed by the incoming entries it lacked |
| GraphNodes.UpsertEmptyNoop | src/nodes.ts:195 | an empty incoming list leaves an existing node and the registry unchanged |
| GraphNodes.UpsertIdempotent | src/nodes.ts:182-202 | repeating an upsert changes nothing |
| GraphNodes.UpsertOrderMatters | src/nodes.ts:185-193 | two placeholder registrations of a new path with different types leave the first one's type, so the order decides |
| GraphNodes.RegisterAll | src/nodes.ts:80-85 | registering placeholders keeps every existing node, adds every source's path and nothing else, and preserves the invariant |
| GraphNodes.Paths | src/nodes.ts:83 | the sources' paths, in order |
| GraphNodes.RegisterAllFirstKind | src/nodes.ts:80-85 | a path new to the registry gets the type of the first source naming it, and no dependencies |
| GraphNodes.ClassifySource | src/nodes.ts:117-166 | never `resource`; `package` exactly when the alias-rewritten specifier is a package, which is then kept; otherwise `external` exactly when the resolved target is not internal, keeping the original specifier; an `internal` source is the directory's index file when the target is a directory and the target with its inferred extension otherwise |
| GraphNodes.Target | src/nodes.ts:129-134 | the resolved target is a normal absolute path: an alias-rewritten specifier is resolved against the root alone, any other against the importing file's directory |
| GraphNodes.ExtractSources | src/nodes.ts:112-168 | one source per declaration, in declaration order, each classified |
| GraphNodes.AliasedIgnoresParent | src/nodes.ts:129-134 | a specifier rewritten by an alias is classified the same whatever the importing file's directory |
| GraphNodes.RelativeImportIsInternal | src/nodes.ts:129-165 | an unaliased relative `..`-free specifier from a relative directory is internal |
| GraphNodes.ImportedNames | src/nodes.ts:131-134 | the names a relative import reaches from a relative directory are names |
| GraphNodes.ImportWithoutExtension | src/nodes.ts:158-165 | such an import that names no directory gets `./` + its names + the first configured extension whose probe succeeded, whichever probe finishes first |
| GraphNodes.ImportOfDirectory | src/nodes.ts:145-156 | such an import that names a directory with a supported `index` entry gets that entry under the directory |
| GraphNodes.AbsoluteOutsideIsExternal | src/nodes.ts:136-143 | an unaliased normal absolute specifier that does not contain the root is external and keeps its text |
| GraphNodes.Nodes.constructor | src/nodes.ts:61-63 | a new registry is empty |
| GraphNodes.Nodes.NodeExists | src/nodes.ts:170-172 | true exactly when the path has a node |
| GraphNodes.Nodes.AddNode | src/nodes.ts:182-202 | the registry becomes the upsert of the old one, the invariant is kept, and the returned node is the one now filed under the path |
| GraphNodes.Nodes.AppendNodeDependencies | src/nodes.ts:174-180 | the node's dependencies become the union of the old and new lists, which is the old list followed by the new entries it lacked; nothing else changes |
| GraphNodes.Nodes.AddNodeFromResource | src/nodes.ts:65-71 | an upsert of a `resource` node with no dependencies |
| GraphNodes.Nodes.RegisterSources | src/nodes.ts:80-85 | each source is registered as a placeholder in order, and the collected dependencies are the sources' paths |
| GraphNodes.Nodes.AddNodeFromAST | src/nodes.ts:73-92 | the sources of the file's filtered declarations, classified against the file's directory, are registered in order; then the file is upserted as `internal` depending on their paths |
| GraphNodes.AddNodeFromASTClosed | src/nodes.ts:80-91 | afterwards the file and every source have nodes, and the file's node lists every source's path |

## Left out

- Regular expressions: only literal characters and the `(.*)`/`(.+)` groups that compilation produces are modelled. Other metacharacters in alias keys and ignore patterns (`.`, `?`, `[`, `^` and the rest) are read as literals, and a caller-supplied `RegExp` means what its source text means under that reading.
- Line terminators: JavaScript's `.` does not match them, while the model's wildcard matches every character.
- Replacement patterns: the `$&`, `$1` and `$$` patterns of `String.prototype.replace` in alias replacement values are not interpreted. The replacement text is inserted verbatim.
- `Object.entries` puts integer-like keys first. The alias table is taken as the sequence of entries in the order `Object.entries` yields them.
- The registry is a plain object. Keys such as `__proto__` or `constructor` behave differently there. The model uses a map.
- Nodes.AddNode: the source returns the live node object, which later merges keep mutating. The model returns the node's value at that moment.
- `toJSON` returns the registry itself. It is the `nodes` field, and serialisation is not modelled.
- Concurrency: the `Promise.all` and `Promise.allSettled` fan-outs preserve input order. They are modelled as sequential passes over the lists. Each callback in `addNodeFromAST` registers its node before its first suspension, so the registration order is declaration order.
- GraphNodes.Nodes.AddNodeFromAST: the source suspends at its `await`s (src/nodes.ts:75 and :80), where the upserts of other files' calls can interleave. The method's contract, stated against the registry on entry, describes a run in which nothing else happens in between.
- GraphNodes.Nodes.AppendNodeDependencies requires the path to have a node. The source throws a `TypeError` when it has none (src/nodes.ts:175-177); that error path is not modelled, and nothing in the core calls the method.
- Inputs in place of I/O and globals:
  - The filesystem is the `FileSystem` input: `access`, `stat(...).isDirectory()` and `readdir`.
  - Any failed `access` counts as "does not exist".
  - The working directory (`process.cwd()`) is the `cwd` parameter of `Configure`.
  - The module-level singletons (`configManager`, `pathResolver`, `nodes`) are explicit objects and parameters.
  - The Babel parser's output is the `File` input, with statement types reduced to the four that matter plus one "other".
- PathResolution.PathResolver.ResolveIndexFile requires the path to be a directory, because `readdir` throws on anything else and the caller only passes directories.
- PosixPath.Resolve does not prepend the working directory when no argument is absolute. `Configure` requires an absolute `cwd`, as `process.cwd()` always is, so every call in the model passes an absolute first argument (the root or `cwd`).
- `src/index.ts` (the traversal, file reading, output writing and the ignore filter's use), `src/lib.ts` and the rest of `src/files.ts` are not part of this model. `isDir` of `src/files.ts` is `FileSystem.IsDir`, and the other filesystem answers enter as the `FileSystem` input too.
- Strings are sequences of characters. Surrogate pairs and Unicode-aware matching are not modelled, and `\w` in the package test is the ASCII word class.
