# Definition lock and download model

A Dafny model of the decision logic of the `mia definition` command
(`mia/commands/definition.py`). The command manages an Android device
definition built from app repositories. The model covers:

- the check that a definition name is well formed;
- the resolution of each repository's declared apps against the repository
  index, on the "latest" path and on the "exact" path;
- the assembly of the lock data: one entry per apps key, holding the
  resolved records;
- the cache location and URL of each repository index, and fetching the
  index only when it is not cached yet;
- the download of every locked package into the definition's `user-apps`
  folder, recorded as a sequence of fetch requests.

Modules:

| file | module | what it holds |
|---|---|---|
| `wrappers.dfy` | `Wrappers` | `Option` |
| `paths.dfy` | `Paths` | POSIX `os.path.join` for two components |
| `definition_name.dfy` | `DefinitionName` | the name pattern, both as written and as intended |
| `repository_index.dfy` | `RepositoryIndex` | the parsed index, and the three XPath queries as functions over it |
| `lock_resolver.dfy` | `LockResolver` | resolution of one declaration and of a list; the loop that builds a fresh list; the loop as written, which deletes during iteration |
| `dictionary.dfy` | `Dictionary` | a Python dict as an insertion-ordered list of items |
| `lock_manifest.dfy` | `LockManifest` | the per-repository step and the loop that builds the lock data |
| `host.dfy` | `Host` | a `Host` class whose fields are the directories, the files and the fetch requests; the index cache and the package downloads |

The model builds on a few choices:

- **Queries.** An XPath query is evaluated as a node-set in document order,
  which is a sequence; the Python `[0]` on a query result takes its first item.
- **Resolution as a parameter.** The list-level definitions and lemmas of
  `LockResolver` take the per-declaration resolution as a function value.
  They hold for any such function. The program's resolution is
  `Resolver(ctx)`, which applies `ResolveOne`.
- **Parsed indexes.** The parsed indexes are a parameter, a map from apps key
  to index. A key with no index stands for a cache file that could not be
  read.
- **Findings.** Three places were found where the code and its
  evident intent disagree; they are listed under "Findings". For each one
  there are two members:
  - one that models the code as written, and exhibits the input that shows
    the disagreement;
  - one with the intended behaviour, which the rest of the model uses.

## Model

| member | source | states |
|---|---|---|
| `DefinitionName.DefinitionNameAcceptedIff` | mia/commands/definition.py:21-22 | a name is valid iff it has at least two characters, starts with `a`-`z`, and every later character is `a`-`z`, `0`-`9` or `-` (both directions) |
| `DefinitionName.PatternAcceptsTrailingNewline` | mia/commands/definition.py:47 | `re.search` with `^...$` accepts exactly the valid names plus the valid names followed by one newline |
| `DefinitionName.TrailingNewlineAccepted` | mia/commands/definition.py:47 | the check as written accepts `"ab\n"`, which is not a valid name |
| `DefinitionName.NameCharRun` | mia/commands/definition.py:47 | the greedy `[a-z0-9-]+` run from a position stops at the end or at the first character outside the class, and every character it covers is in the class |
| `Paths.PathJoin` | mia/commands/definition.py:206-207 | the result ends with the second part; an absolute second part replaces the first; otherwise the result starts with the first part |
| `Paths.JoinRelativeInjective` | mia/commands/definition.py:206-207 | two relative names joined onto the same directory give the same path iff the names are equal |
| `RepositoryIndex.ConcatMapFirst` | mia/commands/definition.py:232 | a location-path result is non-empty iff some node contributes, and its first item comes from the first contributing node |
| `RepositoryIndex.WrittenPositionSelectsNothing` | mia/commands/definition.py:230-232 | `package[0]` selects no package node in any index, so the query as written returns nothing |
| `RepositoryIndex.LatestLookup` | mia/commands/definition.py:230-232 | the first-package query finds a name iff some application with the id has a package; the name is the first package of the first such application |
| `RepositoryIndex.MarketVerCodeLookup` | mia/commands/definition.py:234-236 | the market-code query finds a code iff some application with the id has one; the code is that of the first such application |
| `RepositoryIndex.PackageVersionLookup` | mia/commands/definition.py:239-241 | within one application, the version filter finds a name iff a package has the code; the name is that of the first such package |
| `RepositoryIndex.ExactStepOffers` | mia/commands/definition.py:239-241 | one application contributes to the exact-version query iff it has the id and a package with the code |
| `RepositoryIndex.ExactLookup` | mia/commands/definition.py:239-241 | the exact-version query finds a name iff some application with the id has a package with the code (both directions) |
| `RepositoryIndex.ExactFirstMatch` | mia/commands/definition.py:239-241 | the first name found is that of the first package with the code, in the first application that offers it |
| `LockResolver.ResolveOne` | mia/commands/definition.py:228-255 | a resolved record keeps the declared name; its URL is the base URL, `/` and the package name; on the exact path it keeps the declared code |
| `LockResolver.StrategyChoice` | mia/commands/definition.py:228 | a `latest` declaration resolves the same with or without the flag; with the flag, a pinned declaration resolves (and to the same package name) exactly when its `latest` form does, so the pinned code plays no part in the lookup (it remains the record's code only when no application with the id has a `marketvercode`); when the exact path is taken, the position used by the latest query does not matter |
| `LockResolver.ExactPathResolution` | mia/commands/definition.py:239-253 | on the exact path a declaration resolves iff some application with its name has a package with its code; the record is exactly (name, declared code, first such package, base URL + `/` + package) |
| `LockResolver.LatestPathResolution` | mia/commands/definition.py:230-255 | on the latest path, reading the first package: the declaration resolves iff an application with its name has a package; the package is the first of the first such application; the code becomes the first market code if there is one, and stays as declared otherwise |
| `LockResolver.LatestPathAsWrittenNeverResolves` | mia/commands/definition.py:230 | with position 0, as written, every declaration on the latest path is dropped |
| `LockResolver.ResolveAll` | mia/commands/definition.py:227-257 | for any per-declaration resolution: no more records than declarations; every record comes from some declaration; no resolvable declaration is lost |
| `LockResolver.ResolvedRecords` | mia/commands/definition.py:244-253 | every record of the program's resolution comes from a declaration with the same name that resolves to it, and its URL is the base URL, `/` and its package name |
| `LockResolver.ResolveAllAppend` | mia/commands/definition.py:244-249 | resolving a concatenation is the concatenation of the resolutions: order is kept, and a dropped declaration does not disturb the others |
| `LockResolver.ResolveAllExtend` | mia/commands/definition.py:244-249 | one more declaration adds exactly its own record at the end when it resolves, and nothing when it does not: each declaration contributes at most one record |
| `LockResolver.OrderPreservedAroundMiss` | mia/commands/definition.py:244-249 | for [A, B, C] with only B unresolvable, the result is the records of A then C |
| `LockResolver.ResolveApps` | mia/commands/definition.py:227-257 | the loop that builds a fresh list returns exactly the filter-then-map resolution of the declarations with `ResolveOne` |
| `LockResolver.ResolveAppsInPlace` | mia/commands/definition.py:227-257 | the loop as written, which overwrites entries and deletes misses during iteration, returns the list the iterator semantics give |
| `LockResolver.InPlaceAgreesWithoutMisses` | mia/commands/definition.py:227-257 | when every remaining declaration resolves, the loop as written, from any position on, overwrites each with exactly the records of the fresh-list resolution |
| `LockResolver.InPlaceAgreesWhenAllResolve` | mia/commands/definition.py:227-257 | when every declaration resolves, the loop as written returns exactly the records of the fresh-list resolution |
| `LockResolver.InPlaceDeletionSkipsNext` | mia/commands/definition.py:227-249 | for [A, B, C] with only B unresolvable, the loop as written returns [A's record, C unresolved], while the intended result is [A's record, C's record] |
| `LockResolver.InPlaceDeletionKeepsMiss` | mia/commands/definition.py:227-249 | with two unresolvable declarations, the loop as written keeps the second one, although it has no package |
| `Dictionary.Get` | mia/commands/definition.py:180 | a lookup finds a value iff the key is present |
| `Dictionary.Put` | mia/commands/definition.py:180 | assigning to an existing key keeps the key order; a new key goes last |
| `Dictionary.PutGet` | mia/commands/definition.py:180 | after the assignment the key maps to the new value, and every other key to its old value |
| `Dictionary.PutKeepsKeysDistinct` | mia/commands/definition.py:180 | the assignment never duplicates a key |
| `LockManifest.FoldLockFails` | mia/commands/definition.py:177-180 | the loop over the repositories fails iff one of its steps fails |
| `LockManifest.FoldLockGroups` | mia/commands/definition.py:177-180 | after the loop, the keys are the old keys and the step keys; a key no step writes keeps its value; a step key holds the records of the last step that writes it; keys stay distinct |
| `LockManifest.FoldLockKeyOrder` | mia/commands/definition.py:177-180 | with distinct new keys, the keys end up in step order after the existing ones |
| `LockManifest.AssembleLockFails` | mia/commands/definition.py:177-180 | building the lock data fails iff some repository's apps key is missing from the settings or its resolution fails |
| `LockManifest.LockHasOneGroupPerRepository` | mia/commands/definition.py:177-180 | with distinct apps keys, the lock data has exactly the repositories' keys, in the repositories' order, and each maps to its repository's resolved records |
| `LockManifest.SharedKeyLastWins` | mia/commands/definition.py:177-180 | a key shared by several repositories holds the records of the last repository with that key |
| `LockManifest.GetAppsLockInfo` | mia/commands/definition.py:202-257 | one repository's step: the resolved records when its index is available; an empty list when there is no index and nothing is declared; an error otherwise |
| `LockManifest.BuildLockData` | mia/commands/definition.py:177-180 | the loop returns exactly the assembled lock data, stopping at the first failing repository |
| `Host.IndexLocations` | mia/commands/definition.py:206-211 | the index is cached at `<root>/resources/<apps_key>.index.xml` and fetched from `<base_url>/index.xml` |
| `Host.IndexCachePathInjective` | mia/commands/definition.py:206-207 | two repositories share a cache file iff they share their (relative) apps key |
| `Host.PackageDestination` | mia/commands/definition.py:268-277 | a package is fetched from its URL into `<definition>/user-apps/<package_name>` |
| `Host.DownloadPlanAppend` | mia/commands/definition.py:272-277 | the downloads of two parts of the lock data are those of the first part followed by those of the second |
| `Host.DownloadPlanLength` | mia/commands/definition.py:272-277 | there is exactly one download per record |
| `Host.DownloadPlanCoversRecords` | mia/commands/definition.py:272-277 | every record of every group is downloaded, and every download belongs to some record |
| `Host.TwoGroupsTwoDownloads` | mia/commands/definition.py:272-277 | two groups of one record each give exactly two downloads, in group order |
| `Host.Host.Retrieve` | mia/commands/definition.py:277 | a download appends one request and creates its destination file |
| `Host.Host.MakeDirectory` | mia/commands/definition.py:270 | creating a directory succeeds iff it did not exist; afterwards it exists |
| `Host.Host.EnsureIndex` | mia/commands/definition.py:206-214 | the index is fetched iff its cache file does not exist; either way the file exists afterwards, at the cache path |
| `Host.Host.DownloadGroup` | mia/commands/definition.py:274-277 | a group's records are downloaded in order, and their destinations now exist |
| `Host.Host.DownloadGroups` | mia/commands/definition.py:272-277 | the groups are downloaded group by group, in lock order: the requests are exactly the download plan, and the directories are untouched |
| `Host.Host.DownloadApps` | mia/commands/definition.py:260-277 | the folder is created only when missing, so the directory creation never fails, even on a second run against an existing folder; the requests are exactly the download plan of the lock data; every destination now exists |

## Left out

- Writing the lock file with `yaml.dump` and reading it back (l.182-195 and the read in `download_apps`) is not modelled. `Host.Host.DownloadApps` takes the lock data directly. When the data is read back from YAML, its groups come in sorted key order, because `yaml.dump` sorts keys by default; the model downloads in whatever group order it is given.
- The handler of that write catches only `yaml.YAMLError`, so a failing `open` propagates and `fd` may be unbound. This is not modelled.
- Network access through `urlretrieve` is recorded as a `Fetch` request in `Host.requests`. Nothing is downloaded, and a failed download is not modelled.
- Parsing the index with `lxml` is not modelled. The parsed index is an abstract `Index` value, given per apps key. XPath evaluation is replaced by functions over that value.
  - The ids and codes are compared by equality. An id containing `'` would break the interpolated XPath string; the model does not capture this.
- The declared and market version codes are integers, or the sentinel `latest`. The model does not capture:
  - other text codes;
  - the difference between the text `marketvercode` node stored by the code and an integer.
- `FileNotFoundError` when reading the index (l.223-224) only prints. The loop that follows then fails on the undefined document, unless the app list is empty. The model represents this as a missing index: `None` for a non-empty list, an empty list otherwise.
- LockManifest.GetAppsLockInfo:
  - returns a fresh list instead of the settings' list mutated in place;
  - therefore the aliasing between repositories that share an apps key is not modelled. A later repository with that key then sees the earlier repository's already-resolved list.
- LockManifest.GetAppsLockInfo: the index download that the source performs at the start of the same function is the separate `Host.Host.EnsureIndex`.
- The interactive prompts (`input_ask`, `input_confirm`), the messages printed, and `sys.exit` are not modelled. The name check is a predicate; rejection is its negation.
- The `MiaHandler` singleton is not modelled. The force-latest flag, the root and definition paths, the settings and the parsed indexes are parameters.
- `create_definition`, `configure_definition` and `download_os` are not modelled. They only copy files, prompt, or print instructions.
- The helpers in `mia.helpers.android` and `mia.helpers.utils` are not part of this model.

## Findings

| source | as written | input that shows it | evidently intended | confidence | as-written member | corrected member |
|---|---|---|---|---|---|---|
| mia/commands/definition.py:230 | `package[0]` is an XPath position, and positions start at 1, so the latest-path query never selects a package | any index and any declaration on the latest path, e.g. app `a` with one package: dropped | read the first package node, `package[1]` | not executed | `LockResolver.LatestPathAsWrittenNeverResolves` | `LockResolver.LatestPathResolution` |
| mia/commands/definition.py:227-249 | `del repo_apps[key]` inside `enumerate(repo_apps)` shifts the list, so the iteration skips the entry after a miss | declarations [A, B, C], where only B has no match: C stays in the list without a package | drop the miss and go on with the next declaration, keeping order | not executed | `LockResolver.InPlaceDeletionSkipsNext` | `LockResolver.ResolveApps` |
| mia/commands/definition.py:47 | `$` in `re.search` also matches before a final newline | the name `"ab\n"` is accepted | accept only names made entirely of the allowed characters | not executed | `DefinitionName.TrailingNewlineAccepted` | `DefinitionName.DefinitionNameAcceptedIff` |
