# bru in Dafny

bru is a dependency manager for C/C++ modules built with gyp. A project's
`*.bru` file pins the modules it needs. bru works in four steps:
- it resolves the transitive dependency graph against a library of formulas;
- it fetches and unpacks every resolved module under `./bru_modules`;
- it copies each module's gyp file next to the sources, with glob
  expressions expanded and a common include injected;
- on `bru test`, it finds, runs and summarises the modules' test targets.

This project models the core of `bru.py` and proves properties of that model.
It is split into one Dafny module per part of the program:

| file | module | models |
|---|---|---|
| `wrappers.dfy` | `Wrappers` | `Option` and `Result` (an exception is a `Failure`) |
| `errors.dfy` | `Errors` | one constructor per exception bru.py raises |
| `dicts.dfy` | `Dicts` | Python's insertion-ordered `dict` as a sequence of pairs |
| `manifests.dfy` | `Manifests` | formulas, gyp targets, JSON documents, `os.path.join` |
| `resolver.dfy` | `Resolver` | `resolve_conflicts`: the freeze-first worklist resolver |
| `rewriter.dfy` | `Rewriter` | `map_dependency`, `verify_resolved_dependencies`, `compute_sources`, `copy_gyp` |
| `sorting.dfy` | `Sorting` | Python's `sorted` on strings, as `compute_sources` uses it |
| `acquirer.dfy` | `Acquirer` | `unpack_dependency`, `unpack_module`, `get_dependency` with its make-command marker |
| `installing.dfy` | `Installing` | `get_single_bru_file`, `parse_module_at_version`, `add_dependencies_to_bru`, `add_dependencies_to_gyp` |
| `tester.dfy` | `Tester` | `get_test_targets`, `locate_executable`, `exec_test`, `collect_tests`, `cmd_test` |

The model takes the same form as the code:
- **Loops are methods with loop invariants.** This covers `resolve_conflicts`,
  `compute_sources`, the target loop of `copy_gyp`, the include injection, the
  loops of `add_dependencies_to_*`, the locator loop of `unpack_module`, and
  the run, count and grouping loops of `cmd_test`. Each method's `ensures`
  ties its result to a specification function of its inputs. The properties
  of those functions are proved as lemmas.
- **The working tree is a class.** `Acquirer.WorkingTree` holds the set of
  paths that exist and a log of the fetches and builds performed. The
  methods of `unpack_module` and `get_dependency` update these fields.
- **Pure code stays pure.** Parsing, the regular expression, path candidates
  and the classification of a test run are functions.

The environment is a set of parameters:
- the library of formulas is a `Catalog` map, and the library's gyp file is a
  `Document`;
- a glob is a `Listing` function;
- the existing files are a set of paths;
- `os.system` is a `Runner`, and a child process is a `Process` that returns
  its exit code and elapsed time.

`collect_tests` and the run loop are written over a `Loader` and an
`Executor`. These function parameters stand for loading a module's test
targets and running one test. `cmd_test` instantiates them as `GypLoader`
and `TestExecutor`.

`verify_resolved_dependencies` returns the dependency list mapped to
resolved versions, but `copy_gyp` (bru.py:256) discards that list. The
rewritten gyp file therefore keeps every target's `dependencies` exactly as
the library wrote them, and the check only raises for a formula without `module` or `version`, a
target without `target_name`, or an unresolved module (bru.py:157-161).
"Fill in resolved versions", as the comment at bru.py:160 puts it, is
therefore not what reaches the file. The model follows the code: `Rewriter.RewriteTargetSpec` proves
that the dependencies are unchanged.

## Model

| member | source | states |
|---|---|---|
| Dicts.Put | bru.py:397-401 | `d[k] = v`: an existing key keeps its place in the order, and a new key is appended last |
| Dicts.GetPut | bru.py:397-401 | after `d[k] = v`, `d[k]` reads `v` and every other key reads as before |
| Dicts.PutKeepsUniqueKeys | bru.py:397-401 | assignment never duplicates a key |
| Resolver.ResolveConflicts | bru.py:296-337 | the worklist is the seeds from bru.json followed by the dependencies of the frozen modules, in freeze order, and no demand is processed before it was appended; the result is the first demand for each module, in first-resolution order; the warnings are exactly the conflicting demands; a module whose formula is missing fails the run at the first demand for it, with that module and version |
| Resolver.FirstOccurrencesSpec | bru.py:310-327 | `recursive_deps` holds exactly the earliest demand of every module and names no module twice |
| Resolver.FirstOfIsEarliest | bru.py:310-311 | the frozen entry of a module is its earliest demand; no entry means the module was never demanded |
| Resolver.ConflictsSpec | bru.py:310-316 | a warning is printed exactly for a demand whose version differs from the frozen one; it names the first requester and then this one |
| Resolver.FirstOfRequests | bru.py:303-304 | among the seeds, the first demand for a module carries the bru.json value of that module |
| Resolver.RootPinsWin | bru.py:302-304 | in a completed run, every module pinned in bru.json is resolved at the pinned version, with bru.json as requester |
| Resolver.ResolutionClosed | bru.py:330-334 | in a completed run, every module that a resolved formula depends on is resolved too |
| Rewriter.CrossModuleRefSpec | bru.py:171-176 | the matcher returns a module exactly when `re.match("^../([^/]+)/([^/]+)\.gyp:(.+)", dep)` matches with that module as group 1 |
| Rewriter.MapDependency | bru.py:164-184 | a dependency that does not match the regex is returned unchanged; a match returns the resolved version of its module; an unresolved module raises, naming that module, the requesting module and version, and the target |
| Rewriter.MapDependencies | bru.py:185 | either every dependency maps, position by position, or the result is the failure of the first dependency that does not map |
| Rewriter.VerifySucceedsIffResolved | bru.py:145-185 | the check passes exactly when every cross-module reference of the target names a resolved module |
| Rewriter.ComputeSources | bru.py:187-210 | the loop returns the specification `ExpandSources`: the first entry with an Ant prefix or an empty glob raises, and otherwise all entries are expanded and sorted |
| Rewriter.FirstSourceErrorSpec | bru.py:198-205 | no error occurs exactly when no entry is an Ant expression or a glob with no match; otherwise the earliest such entry decides the error |
| Rewriter.ExpandSourcesSpec | bru.py:197-210 | the result is sorted and a permutation of the plain entries plus all glob matches; it succeeds exactly when no entry is an Ant expression or an unmatched glob |
| Rewriter.ExpandedHasNoWildcards | bru.py:201-209 | when no glob match contains `*`, no wildcard is left in the expanded list, nor in the sorted list compute_sources returns |
| Sorting.Sort | bru.py:210 | `sorted` returns an ordered permutation of its input |
| Sorting.SortedUnique | bru.py:210 | two sorted arrangements of the same strings are equal, so the sorted list is determined |
| Rewriter.RewriteOne | bru.py:235-270 | one pass of the target loop: the dependency check, then `sources` and `sources!` expanded when present |
| Rewriter.RewriteTargetSpec | bru.py:235-270 | a rewritten target keeps its name, dependencies, test and every property bru.py does not read; its cross-module references are all resolved; each source list is a sorted permutation of its plain entries and glob matches |
| Rewriter.RewriteTargetsSpec | bru.py:235-270 | the loop fails exactly when some target fails, and otherwise rewrites every target in place, one for one |
| Rewriter.InjectIncludes | bru.py:281-288 | building the new OrderedDict gives the manifest with `includes` first when it had none, and the manifest unchanged otherwise |
| Rewriter.IncludesInjectedSpec | bru.py:281-288 | `includes` comes first and holds `../../bru_common.gypi`; every other key keeps its value and its order; the manifest stays a dictionary |
| Rewriter.CopyGyp | bru.py:212-294 | copy_gyp yields the specification `CopyGypSpec`, including the errors for a missing `module`, an unresolved module and missing targets |
| Rewriter.CopyGypSpecWrites | bru.py:212-294 | the gyp file goes to `bru_modules/<m>/<m>.gyp`, with `includes` injected, every other key kept, and `targets` rewritten one for one; the side-car `bru-version.json` holds only the resolved version |
| Acquirer.UnpackDependency | bru.py:59-97 | version-control schemes clone, `file:` with a path untars from the library, and http(s) or ftp download and untar; all of them unpack into `<root>/<module>/<version>`; an empty `file:` path and any other scheme raise |
| Acquirer.Locators | bru.py:105-109 | a single url becomes a one-element list, and a list stays as it is |
| Acquirer.PlanFetchesSpec | bru.py:112-113 | the locators are unpacked one by one, in order, up to the first failure; the run fails exactly when some locator fails, with that locator's error |
| Acquirer.PlanDestinations | bru.py:63 | every fetch of a formula unpacks into `./bru_modules/<module>/<version>` |
| Acquirer.WorkingTree.FetchAll | bru.py:111-113 | the loop performs exactly the planned fetches and returns the plan's failure; the paths on disk and the build log are unchanged |
| Acquirer.WorkingTree.UnpackModule | bru.py:99-115 | missing `module`/`version` and missing `url` raise before any fetch; otherwise the planned fetches are performed and the result is `./bru_modules/<module>/<module>`; no path or build changes |
| Acquirer.MakeStepSpec | bru.py:128-143 | with `make_command.done` present nothing runs and nothing changes; otherwise a host platform with a command runs exactly that command, in the module directory; a nonzero status fails with that status and a zero status succeeds; the marker appears exactly when that command exited 0; nothing else on disk changes; a host platform with no command fails without running anything |
| Acquirer.MakeStepIdempotent | bru.py:128-143 | after a successful step, a second step runs nothing and changes nothing |
| Acquirer.AsWrittenRebuilds | bru.py:143 | as written, a build that exits 0 raises NameError and writes no marker, so the next step runs `make` again; the corrected step succeeds |
| Acquirer.WorkingTree.RunMakeCommand | bru.py:128-143 | the method performs the corrected make step on the tree: result, paths and build log as `MakeStep` gives them |
| Acquirer.WorkingTree.GetDependency | bru.py:117-143 | a missing formula raises and changes nothing; otherwise the formula is unpacked; a failed unpack raises; without a make_command nothing is built; otherwise the make step runs in `./bru_modules/<module>/<version>` |
| Installing.GetSingleBruFile | bru.py:339-347 | no match gives None, one match gives its path joined with the directory, and several matches raise with the list of matches |
| Installing.SplitSpec | bru.py:366 | `split('@')` returns one more piece than there are separators; no piece contains a separator; joining the pieces gives the input back |
| Installing.SplitJoin | bru.py:366 | splitting undoes joining pieces that contain no separator |
| Installing.ParseModuleAtVersion | bru.py:362-371 | text without `@` is a module without a version; more than one `@` raises; the parsed parts contain no `@` |
| Installing.ParseFormat | bru.py:362-371 | parsing `module` or `module@version` gives back the installable it was formatted from |
| Installing.FormatParse | bru.py:362-371 | formatting the result of a successful parse gives the original text |
| Installing.PutEach | bru.py:400-401 | the loop assigns `deps[module] = version` for each installable in turn |
| Installing.AddDependenciesToBru | bru.py:395-402 | a missing `dependencies` key starts from `{}` appended at the end; a value that is not a dependency map is an error once an installable is assigned into it, and with no installables the document is returned as it was; the result is the .bru document with the updated map |
| Installing.PutAllGet | bru.py:400-401 | for each module, the last installable that names it decides its version; modules not named keep their entry |
| Installing.PutAllPrefix | bru.py:400-401 | the existing modules keep their order and positions |
| Installing.PutAllKeysPresent | bru.py:400-401 | every installable's module is a key afterwards |
| Installing.PutAllKeysOnly | bru.py:400-401 | every new key is the module of some installable |
| Installing.PutAllUnique | bru.py:400-401 | the dependencies stay a dictionary |
| Installing.AppendMissingSpec | bru.py:420-425 | the old list stays a prefix; every installable's expression is present; nothing else is added; no expression is added twice |
| Installing.AppendMissingIdempotent | bru.py:420-425 | installing the same modules again leaves the list unchanged |
| Installing.AddDependenciesToGyp | bru.py:404-426 | the loop yields `GypWithDependencies`, with an empty target list given one first target |
| Installing.GypWithDependenciesSpec | bru.py:404-426 | only the first target's dependencies change, and they are the old list (empty for a new first target) with each missing `bru_modules/<m>/<m>.gyp:*` appended; every other key and target stays as it was |
| Installing.AsWrittenFailsWithoutTargets | bru.py:414-415 | as written, a gyp file without targets raises IndexError even for `['zlib']`; the corrected version records the dependency in a new first target |
| Installing.AsWrittenAgreesWithTargets | bru.py:414-416 | when the gyp file has a target, the code as written and the corrected version agree |
| Tester.WithTestsMembers | bru.py:537-540 | exactly the targets with a `test` property are yielded |
| Tester.WithTestsAppend | bru.py:538-540 | the filter works piecewise, so the targets keep their relative order |
| Tester.TestTargetsSpec | bru.py:525-540 | get_test_targets raises exactly when `targets` is unusable, and otherwise yields exactly the targets with a `test` |
| Tester.FirstExistingSpec | bru.py:570-573 | the probe finds nothing exactly when no candidate exists, and otherwise returns the earliest existing candidate |
| Tester.LocateExecutableSpec | bru.py:558-573 | locate_executable returns None exactly when none of the eight candidate paths exists, and otherwise the first one that does |
| Tester.LocatePrefersRelease | bru.py:564-572 | when a Release build exists, it is found even if a Debug build exists too |
| Tester.TestInvocation | bru.py:595-601 | the child's argv is the absolute executable path followed by `args` (default none); its working directory is the gyp directory joined with `cwd` (default `./`); its stdin is `stdin` |
| Tester.ExecTestSpec | bru.py:575-618 | no `target_name` raises; no executable gives notrun with duration -1; an executable without `test` raises; otherwise the test runs with its invocation, succeeds exactly when the exit code is 0, and takes the reported time |
| Tester.GypLoaderYieldsTests | bru.py:627-629 | everything loaded from a module's gyp file is a target with a `test` |
| Tester.CollectItems | bru.py:620-631 | every yielded triple is a test target of a requested module, with that module's directory as gypdir (the converse is `Tester.CollectComplete`) |
| Tester.CollectComplete | bru.py:620-631 | when the generator runs to the end, every test target of every requested module is yielded, with that module's directory as gypdir: with `CollectItems`, an item is yielded if and only if it is a requested module's test target |
| Tester.CollectLoaded | bru.py:625-629 | the generator runs to the end exactly when every requested gyp file loads, and otherwise stops with the error of the first one that does not |
| Tester.CollectModules | bru.py:625-631 | when the generator runs to the end, a module yields a triple exactly when it is requested and has a test target |
| Tester.BuiltFrom | bru.py:658-665 | did_all_builds_complete is true exactly when every yielded target has a name and an executable and the generator ends without error; it raises only KeyError on `target_name` or the generator's error |
| Tester.ExecAllSpec | bru.py:672-675 | without an exception there is one run per yielded test, and each is exec_test of that test |
| Tester.RunTests | bru.py:670-676 | the loop performs exactly the runs of `ExecAll` and, without an exception, counts each one against its module |
| Tester.InitialCounts | bru.py:671 | the loop builds the count dictionary with every requested module at zero |
| Tester.ZeroCountsSpec | bru.py:671 | every requested module starts at zero, nothing else is counted, and no module appears twice |
| Tester.TallyZero | bru.py:676 | a module's count stays zero exactly when it started at zero and no test belongs to it |
| Tester.ZeroesSpec | bru.py:680-682 | the comprehension lists a module exactly when its count is zero |
| Tester.ModulesWithZero | bru.py:680-682 | the loop lists exactly the modules whose count is zero, in dictionary order |
| Tester.ModulesWithoutTests | bru.py:671-682 | when the generator runs to the end, a module is listed without tests exactly when it is requested and its gyp file has no test target |
| Tester.PartitionMembers | bru.py:685-691 | the corrected groups hold exactly the runs with their result |
| Tester.PartitionSizes | bru.py:685-691 | together, the three corrected groups account for all runs |
| Tester.GroupRuns | bru.py:685-691 | the grouping loop builds the three corrected groups |
| Tester.LastGroupAtMost | bru.py:686-688 | as written, a group never over-counts, and it is empty exactly when the corrected one is |
| Tester.GroupByDropsEarlierBlocks | bru.py:686-688 | for the results fail, pass, fail, the code as written counts one failure where the corrected grouping counts two |
| Tester.VerdictSpec | bru.py:709-721 | cmd_test raises exactly when some run failed or did not run; otherwise it reports every run as successful |
| Tester.SummarySpec | bru.py:670-721 | when collection and runs complete: one run per collected test, each classified by exec_test; the modules without tests are exactly the requested ones whose gyp file has no test target; the verdict is as in VerdictSpec |
| Tester.CmdTest | bru.py:633-721 | the method's outcome, runs and modules without tests are those of `TestCommand`. That function chooses the requested or discovered modules, runs the implicit make when a build is missing, and propagates the collection, build and run errors before it summarises; its verdict uses the corrected grouping `Partition`, not the `groupby` of bru.py:686-691 (see Findings) |

## Left out

- Reading and writing files is not modelled: `brulib.jsonc` load and save, comment loss, JSON syntax. A document is an ordered dictionary of typed values, and a written file is a `Written` record.
- `Manifests.Target`, `Manifests.Value`: a property or top-level value that bru.py never reads (a target's `type`, `include_dirs`, `direct_dependent_settings` or `conditions`, a file's `variables` or `target_defaults`) is carried through unchanged as its JSON text, in `Target.extra` or as `Value.Other`. Inside a target these properties keep their order among themselves but are held after the five properties bru.py reads, so the interleaving of a target's keys is not captured.
- A JSON value of another shape than the one bru.py indexes into becomes `Malformed`. The model does not know Python's error for such a value.
- `Manifests.Value`, `Installing.AddDependenciesToBru`: a .bru file's dependency versions must be strings or null. A map holding another value, such as `{"zlib": 1}`, is `Malformed` in the model, although Python's `deps[m] = v` (bru.py:401) accepts it.
- `Rewriter.CopyGyp`, `Rewriter.InjectIncludes`: require the library's gyp file to have unique keys. Every parsed JSON object does, since the load step is not modelled.
- `Tester.ZeroesSpec`: requires unique keys, which every Python dict has. The dictionaries the model builds are proved to keep them.
- Fetching is not modelled: `brulib.clone.atomic_clone_repo`, `untar_once` and `wget_and_untar_once` are recorded as `Fetch` values. Their effect on disk (the unpacked files) is outside the model.
- `os.makedirs(module_dir)` before the scheme dispatch (bru.py:64) is not modelled, because directories are not tracked in the set of paths.
- `urllib.parse.urlparse` is not modelled: each locator carries its scheme and netloc as given.
- `get_library().get_module_dir`, `get_user_home_dir` and `platform.system` are parameters.
- `Chdir` is modelled as the directory recorded in the `Command`. The exit status of `os.system` is an unbounded integer returned by the `Runner`.
- Loading a formula or the library's gyp file is not modelled: formulas come from the `Catalog` map, and the gyp template is a parameter of `CopyGyp`.
- Globbing is not modelled. `compute_sources`' `glob.glob` plus `relpath` is a `Listing` function that returns the matches relative to the module directory. `get_single_bru_file`'s glob is given as its list of matches. `cmd_test`'s discovery of the installed modules (the glob over `bru_modules/**/*.gyp` and the `os.path.dirname`/`os.path.split` step to a module name, bru.py:651-654) is not modelled: the discovered modules are given as a list of module names.
- `cmd_make` (bru.py:723) is not part of this model. Its outcome is the `remade` parameter: the paths after the build, or None when it raised.
- `cmd_test` loads the gyp files twice, in `did_all_builds_complete` and in the run loop. The model loads them once, because `cmd_make` only runs gyp and the toolchain on the project's own gyp file and does not write the modules' gyp files.
- `Tester.CmdTest`: `testables.append` mutates the caller's list when none are given. The model returns a new list, so this aliasing is not captured.
- `Tester.ExecTest`: processes are the `Process` oracle. Timing is the elapsed milliseconds it reports, writing stdin and its UTF-8 encoding are left out, and `os.path.abspath` is a join with the working directory, without normalisation.
- The module of a test run is passed in, where bru.py assigns it after exec_test returns (bru.py:674). The record is the same.
- Printing is not modelled: progress messages, the summary lines, and the `sorted` order in which modules without tests are printed. `resolve_conflicts`' warnings are returned as a list of `Conflict` values.
- Resolver.ResolveConflicts: a version matcher is compared as an exact version string, as the code does (bru.py:307).
- Rewriter.CrossModuleRef: returns only group 1 of the regex. Groups 2 and 3 are checked to match but are not returned, since bru.py does not use them.
- `Rewriter.RewriteTarget`: the mapped dependency list is computed and discarded, as in bru.py:256.
- `Manifests.Join`: follows `posixpath.join` for two components only. Windows path rules are not modelled.
- `cmd_install`, `install_from_bru_file`, `parse_existing_module_at_version`, `get_or_create_single_bru_file`, `create_gyp_file`, `cmd_make` and the msvs/gyp helpers are outside the modelled core.

## Findings

| source | as written | input that shows it | evidently intended | confidence | as-written member | corrected member |
|---|---|---|---|---|---|---|
| bru.py:143 | `touch(make_done_file)`, but `touch` is not defined anywhere, so a build that exits 0 raises NameError and writes no marker | a formula with `make_command` `{"Linux": "make"}` on Linux where `make` exits 0: the first install raises, and the next one runs `make` again | create the `make_command.done` marker, so that a module is built once | high (not executed) | Acquirer.MakeStepAsWritten, Acquirer.AsWrittenRebuilds | Acquirer.MakeStep, Acquirer.MakeStepIdempotent |
| bru.py:414-415 | `targets[0] = {}` on an empty list raises IndexError | a gyp file with no `targets` key, or with `"targets": []`, and the installable `zlib` | append an empty first target (`targets.append({})`) and record the dependency in it | high (not executed) | Installing.GypWithDependenciesAsWritten, Installing.AsWrittenFailsWithoutTargets | Installing.GypWithDependencies, Installing.AddDependenciesToGyp |
| bru.py:686-688 | `itertools.groupby` over the unsorted runs, with each block assigned to `testgroups[result]`, so only the last consecutive block of each result survives | runs whose results are fail, pass, fail: 1 failure is reported instead of 2 | partition the runs by result | high (not executed) | Tester.LastGroup, Tester.GroupByDropsEarlierBlocks | Tester.Partition, Tester.PartitionMembers, Tester.VerdictSpec |
