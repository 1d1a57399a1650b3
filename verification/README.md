# xvm version resolution, modelled in Dafny

This project models the version-resolution engine of `xvm`, the version manager bundled with xlings. It covers:

- **The version registry** (`versiondb.rs`). This is an insertion-ordered map from target to an insertion-ordered map from version to a `VData` record. It supports lookups, upsert, single-version removal that cascades to the target, substring search, and `match_first_version`. That operation keeps the versions that agree with a query at every dot-position both have, then picks the greatest under `cmp_versions`.
- **Workspaces** (`workspace.rs`). A workspace is an ordered target-to-version map with `name`, `active` and `inherit`. It supports overwrite, swap-remove, merge (the other side wins) and substring search.
- **Workspace selection** in `helper.rs`, and **program loading** with fallback to the global workspace in `lib.rs`.
- **The `Program` of `shims.rs`**. This covers:
  - placeholder expansion;
  - the routing of `PATH`, library-path and other variables into separate accumulators, and how `vdata`/`set_vdata` pack and unpack them;
  - how `run` picks its executable: the alias wrapper, or the first existing of `base/name`, `base/bin/name` (`.exe`/`.bat` on Windows);
  - the child's `PATH`, library path and extended variables;
  - the shim and link file operations.
- **The command handlers** `xvm add`, `xvm remove` and `xvm use` of `handler.rs`. They are modelled as transitions of a state made of the registry, the global workspace and the file system.
- **The shim executable** (`shim/main.rs`): its argv rewrite and exit code.

Everything is a pure function over immutable values:
- Ordered maps are sequences of pairs with distinct keys. `insert` keeps an existing key's position, and `remove` is `swap_remove`, which moves the last entry into the hole.
- The operating system (`cfg!(target_os)`), the inherited environment, the file system (a map from existing paths to directory / file / link), the workspace and bin/lib directories, and the child's spawn outcome are all parameters.
- A `panic!`, `expect` or `unwrap` on a path the source reaches becomes a `Failure` value.

Points where the model follows the code rather than the obvious intent:
- `match_first_version` compares with `zip`, so a registered `3.12` also agrees with the query `3.12.1` (`Versions.ShorterRegisteredAgrees`).
- `cmp_versions` silently drops components that do not parse as `u32`, so `1.x.2` ties `1.2`. `Versions.CmpVersionsEqual` states ties in terms of the parsed components.
- `get_path_env` appends the workspace bin (and, on Windows, lib) directory and then overwrites the result. The child's `PATH` therefore never contains them (`Launcher.PathEnv`).
- `VData` has both `icon` (read by the registry) and `bindings` (read and written by `Program`), because the two parts of the tool disagree on the record.
- Loading a record written by `vdata` feeds the path into `PATH` twice (`Programs.ReloadRepeatsPath`).
- The shim names its target by `file_stem`, so a target whose name contains a dot loses its last dot-suffix (`ShimMain.DottedTargetLosesSuffix`).

## Model

| member | source | states |
|---|---|---|
| Text.ParseU32 | core/xvm/xvmlib/versiondb.rs:130-131 | `parse::<u32>` yields a value below 2^32, and fails on the empty string and on any character that is neither a digit nor `+` |
| Text.ParseDecimal | core/xvm/xvmlib/versiondb.rs:130-131 | parsing the decimal rendering of any `u32` gives the number back |
| Text.JoinSplit | core/xvm/xvmlib/versiondb.rs:91-96 | `split('.')` loses nothing: joining the pieces with the separator restores the string |
| Text.SplitWhitespaceKeepsText | core/xvm/xvmlib/shims.rs:202 | the words of `split_whitespace`, concatenated, are exactly the string's non-whitespace characters in order |
| Text.ReplaceAbsent | core/xvm/xvmlib/shims.rs:14-17 | `replace` leaves a string without the pattern unchanged |
| Text.ReplaceAll | core/xvm/xvmlib/shims.rs:14-17 | `replace` with a same-length replacement keeps the length, and replacing the pattern by itself changes nothing |
| Text.ReplaceMiddle | core/xvm/xvmlib/shims.rs:14-17 | when the text before an occurrence cannot start the pattern, that text is kept, the occurrence is replaced, and replacement continues after it |
| IndexMaps.SwapRemove | core/xvm/xvmlib/workspace.rs:86-88 | `IndexMap::remove` drops the key, keeps every other binding, and fills the hole with the last entry |
| IndexMaps.Insert | core/xvm/xvmlib/versiondb.rs:67-72 | `IndexMap::insert` binds the key to the value and leaves every other key as it was; a present key keeps its position and a new key goes last |
| IndexMaps.InsertAllLast | core/xvm/xvmlib/shims.rs:157-161 | collecting pairs into an `IndexMap` binds each key to the last value given for it |
| Versions.ParsedComponents | core/xvm/xvmlib/versiondb.rs:130-131 | `filter_map(parse)` keeps at most one number per component, each below 2^32 |
| Versions.LexCompare | core/xvm/xvmlib/versiondb.rs:133-140 | the component loop answers `Equal` exactly when the two number sequences are identical |
| Versions.LexCompareIsLexLess | core/xvm/xvmlib/versiondb.rs:133-140 | the loop answers `Less` exactly when the first differing component is smaller or the first sequence is a proper prefix |
| Versions.LexCompareFlip | core/xvm/xvmlib/versiondb.rs:133-140 | swapping the sequences reverses the answer |
| Versions.LexCompareTransitive | core/xvm/xvmlib/versiondb.rs:133-140 | "not greater" is transitive |
| Versions.CmpVersionsReflexive | core/xvm/xvmlib/versiondb.rs:129-141 | every version compares `Equal` to itself |
| Versions.CmpVersionsFlip | core/xvm/xvmlib/versiondb.rs:129-141 | `cmp_versions(b, a)` is the reverse of `cmp_versions(a, b)` |
| Versions.CmpVersionsTransitive | core/xvm/xvmlib/versiondb.rs:129-141 | "not greater" under `cmp_versions` is transitive |
| Versions.CmpVersionsEqual | core/xvm/xvmlib/versiondb.rs:129-141 | two versions tie exactly when their parsed components coincide |
| Versions.CmpVersions | core/xvm/xvmlib/versiondb.rs:129-141 | `Equal` exactly when the parsed components coincide, `Less` exactly when the components of `a` come first in the lexicographic order written out (first smaller component, or a proper prefix), `Greater` exactly when those of `b` do |
| Versions.NumericNotLexical | core/xvm/xvmlib/versiondb.rs:129-141 | components compare as numbers: `1.10.0` is greater than `1.9.0` |
| Versions.LongerWins | core/xvm/xvmlib/versiondb.rs:140 | on an equal common prefix the longer version wins: `1.2` is less than `1.2.0` |
| Versions.ShorterRegisteredAgrees | core/xvm/xvmlib/versiondb.rs:91-98 | the `zip` filter lets a registered `3.12` match `3.12.1` and a registered `3.12.7` match `3.12`, but rejects `3.11.9` for `3.12` |
| VersionRegistry.IsEmpty | core/xvm/xvmlib/versiondb.rs:47-49 | `is_empty` is exactly the negation of `has_target` |
| VersionRegistry.HasTarget | core/xvm/xvmlib/versiondb.rs:55-57 | true exactly when some entry of the registry has the name, which is when its version map can be read |
| VersionRegistry.HasVersion | core/xvm/xvmlib/versiondb.rs:51-53 | a registered version implies a registered target |
| VersionRegistry.GetVData | core/xvm/xvmlib/versiondb.rs:63-65 | a record is found exactly for a registered (target, version) pair |
| VersionRegistry.GetAllVersion | core/xvm/xvmlib/versiondb.rs:59-61 | `None` exactly for an unknown target; otherwise it lists exactly the registered versions |
| VersionRegistry.GetFirstVersion | core/xvm/xvmlib/versiondb.rs:84-86 | the head of the version list; `None` exactly for an unknown target once no target is left empty |
| VersionRegistry.SetVData | core/xvm/xvmlib/versiondb.rs:67-72 | the target exists afterwards, the pair maps to the new record, and every other pair and target is unchanged |
| VersionRegistry.FirstAddIsFirst | core/xvm/xvmlib/versiondb.rs:84-86 | the version that creates a target is its first version |
| VersionRegistry.RemoveVData | core/xvm/xvmlib/versiondb.rs:109-117 | the version is gone; the target survives exactly when another version remains; an unknown target is a no-op; everything else is unchanged |
| VersionRegistry.RemoveFirstPromotesLast | core/xvm/xvmlib/versiondb.rs:109-117 | removing the first version makes the last (not the second) version first |
| VersionRegistry.RemoveAllVData | core/xvm/xvmlib/versiondb.rs:119-121 | the target is gone and every other target is unchanged |
| VersionRegistry.MatchBy | core/xvm/xvmlib/versiondb.rs:75-81 | every listed target contains the pattern and carries its version list, and every such target is listed |
| VersionRegistry.MatchByOrdered | core/xvm/xvmlib/versiondb.rs:75-81 | `match_by` lists targets in registry order |
| VersionRegistry.BestMatch | core/xvm/xvmlib/versiondb.rs:94-103 | filter plus descending stable sort plus `first` gives the earliest agreeing version that no agreeing version exceeds, or `None` when none agrees |
| VersionRegistry.MatchFirstVersion | core/xvm/xvmlib/versiondb.rs:89-107 | a result is a registered, agreeing version maximal under `cmp_versions`; `None` exactly when no registered version agrees (an unknown target included) |
| VersionRegistry.MatchFirstVersionExample | core/xvm/xvmlib/versiondb.rs:89-107 | with `1.2.0`, `1.2.9`, `1.3.0` registered, the query `1.2` gives `1.2.9` |
| Workspaces.New | core/xvm/xvmlib/workspace.rs:27-35 | a new workspace has the given name, is active and inheriting, and selects nothing |
| Workspaces.SetVersion | core/xvm/xvmlib/workspace.rs:58-60 | the target selects the version, in place if it was already selected; every other selection and the metadata are unchanged |
| Workspaces.Remove | core/xvm/xvmlib/workspace.rs:86-88 | the target's selection is gone, every other selection stays, and removing an absent target changes nothing |
| Workspaces.SetName | core/xvm/xvmlib/workspace.rs:66-68 | only the name changes |
| Workspaces.SetActive | core/xvm/xvmlib/workspace.rs:74-76 | only the active flag changes |
| Workspaces.SetInherit | core/xvm/xvmlib/workspace.rs:82-84 | only the inherit flag changes |
| Workspaces.Merge | core/xvm/xvmlib/workspace.rs:90-94 | the other workspace wins on its keys; other keys and the metadata stay; existing keys keep their order; merging an empty workspace is the identity |
| Workspaces.MergeIdempotent | core/xvm/xvmlib/workspace.rs:90-94 | merging the same workspace twice equals merging it once |
| Workspaces.MatchBy | core/xvm/xvmlib/workspace.rs:96-98 | exactly the selections whose target contains the pattern |
| Workspaces.MatchByOrdered | core/xvm/xvmlib/workspace.rs:96-98 | the matches come in workspace order |
| Workspaces.MatchByEmptyIsAll | core/xvm/xvmlib/workspace.rs:96-103 | `match_by("")` is `all_versions` |
| Programs.ExpandXlingsVars | core/xvm/xvmlib/shims.rs:10-18 | a value without any of the three placeholders is returned unchanged |
| Programs.ExpandHome | core/xvm/xvmlib/shims.rs:10-18 | `${XLINGS_HOME}` becomes the value of `XLINGS_HOME` |
| Programs.ExpandCascades | core/xvm/xvmlib/shims.rs:14-17 | the replacements run in order, so a home value reading `${XLINGS_DATA}` is expanded again |
| Programs.ExpandHomeIn | core/xvm/xvmlib/shims.rs:10-18 | `${XLINGS_HOME}` anywhere in a value with no other `$` becomes the value of `XLINGS_HOME`, and the text around it is kept |
| Programs.ExpandDataIn | core/xvm/xvmlib/shims.rs:10-18 | the same for `${XLINGS_DATA}` and `XLINGS_DATA` |
| Programs.ExpandSubosIn | core/xvm/xvmlib/shims.rs:10-18 | the same for `${XLINGS_SUBOS}` and `XLINGS_SUBOS` |
| Programs.ExpandValues | core/xvm/xvmlib/shims.rs:172-176 | keys are kept and each value is expanded, position by position |
| Programs.NewProgram | core/xvm/xvmlib/shims.rs:55-69 | a new program carries the name and version and nothing else |
| Programs.SetType | core/xvm/xvmlib/shims.rs:79-81 | only the type changes |
| Programs.SetFilename | core/xvm/xvmlib/shims.rs:83-85 | only the file name changes |
| Programs.SetAlias | core/xvm/xvmlib/shims.rs:87-89 | only the alias changes |
| Programs.AddEnv | core/xvm/xvmlib/shims.rs:91-108 | `PATH` extends the path accumulator, the two library variables extend the library accumulator, and anything else is appended to the plain list; nothing else changes, and no routed variable ever enters the plain list |
| Programs.AddEnvs | core/xvm/xvmlib/shims.rs:110-114 | only the accumulators and the plain list change, and the list only grows |
| Programs.AddEnvsAccumulates | core/xvm/xvmlib/shims.rs:91-114 | from a new program, the accumulators are the separator-joined `PATH` and library values and the plain list is the other pairs, all in call order |
| Programs.AddEnvsPlain | core/xvm/xvmlib/shims.rs:91-114 | on any program, the pairs that are not routed are appended to its plain list in call order |
| Programs.AddEnvsLibrary | core/xvm/xvmlib/shims.rs:91-114 | on any program, the library values extend its library accumulator in call order, with a separator in front only when the accumulator was already set |
| Programs.AddEnvsPath | core/xvm/xvmlib/shims.rs:91-114 | on any program, when no `PATH` value is empty, the `PATH` values extend its path accumulator in call order, with a separator in front only when it was non-empty |
| Programs.AddBinding | core/xvm/xvmlib/shims.rs:116-121 | the binding is set, in place if present; other bindings are unchanged |
| Programs.SetPath | core/xvm/xvmlib/shims.rs:127-130 | the path is stored and also appended to the `PATH` accumulator |
| Programs.AddArg | core/xvm/xvmlib/shims.rs:132-134 | the argument list grows by one, keeps the old arguments in front and ends with the new one; no other field changes |
| Programs.AddArgs | core/xvm/xvmlib/shims.rs:136-140 | the old arguments stay in front and the new ones follow in order; no other field changes |
| Programs.AddArgsOneByOne | core/xvm/xvmlib/shims.rs:132-140 | adding a list of arguments is adding them one at a time |
| Programs.ToVData | core/xvm/xvmlib/shims.rs:142-168 | the record has a `PATH` entry exactly when the accumulator is non-empty, and the library entry under `LD_LIBRARY_PATH` on Linux or `DYLD_LIBRARY_PATH` elsewhere; other variables keep their last value; the other platform's library variable is never stored; `envs` and `bindings` are `None` exactly when empty |
| Programs.SetVData | core/xvm/xvmlib/shims.rs:170-185 | the path is the expanded record path, the alias is overwritten, and bindings are replaced only when present; the expanded plain variables are appended to the plain list; the expanded library values extend the library accumulator |
| Programs.LoadFresh | core/xvm/xvmlib/shims.rs:170-185 | loaded into a new program, a record gives a `PATH` accumulator of its expanded path followed by its expanded `PATH` values (when none is empty), a library accumulator of its library values, and a plain list of the other variables, all in stored order |
| Programs.ReloadRepeatsPath | core/xvm/xvmlib/shims.rs:142-185 | reloading a record that `vdata` wrote puts the path into `PATH` twice |
| Launcher.ParentOfJoin | core/xvm/xvmlib/shims.rs:254-257 | the parent of `dir/name` is `dir` |
| Launcher.Parent | core/xvm/xvmlib/shims.rs:254-255 | a parent, when there is one, is strictly shorter than the path |
| Launcher.BaseDir | core/xvm/xvmlib/shims.rs:208-212 | a relative path is taken under the workspace directory; an absolute path is used as is |
| Launcher.Candidates | core/xvm/xvmlib/shims.rs:217-235 | every probed name directly under the base, then every one under `base/bin` |
| Launcher.FirstExisting | core/xvm/xvmlib/shims.rs:236 | the first existing candidate, or `None` exactly when none exists |
| Launcher.ResolveExecutable | core/xvm/xvmlib/shims.rs:193-248 | an alias goes through the wrapper with its words and no probing; an empty path runs by name; otherwise the first existing candidate, and `NotFound` exactly when none exists |
| Launcher.AliasWrapper | core/xvm/xvmlib/shims.rs:196-201 | the launcher name starts with `xvm-alias` |
| Launcher.DirectBeforeBin | core/xvm/xvmlib/shims.rs:231-236 | `path/name` is preferred over `path/bin/name` |
| Launcher.PathEnv | core/xvm/xvmlib/shims.rs:366-397 | the program's `PATH` accumulator alone when nothing is inherited, the inherited `PATH` alone when the accumulator is empty |
| Launcher.PathEnvEntries | core/xvm/xvmlib/shims.rs:385-394 | with both non-empty, the child's search list is the program's entries followed by the inherited ones |
| Launcher.ChildPath | core/xvm/xvmlib/shims.rs:254-268 | the executable's directory leads the child's `PATH` exactly when it differs from the stored path |
| Launcher.DirectAddsNothing | core/xvm/xvmlib/shims.rs:254-268 | an executable found directly under the stored path adds nothing to `PATH` |
| Launcher.BinLeads | core/xvm/xvmlib/shims.rs:254-268 | an executable found under `path/bin` puts `path/bin` first |
| Launcher.LibraryPathEnv | core/xvm/xvmlib/shims.rs:399-428 | `("XVM_ENV_NULL", "")` exactly when nothing was accumulated or the OS is neither Linux nor macOS; otherwise the OS's library variable |
| Launcher.LibraryPathOrder | core/xvm/xvmlib/shims.rs:399-428 | the library search order is the accumulated directories, then the workspace lib directory, then the inherited directories |
| Launcher.ExtendedEnvs | core/xvm/xvmlib/shims.rs:592-604 | keys, order and length are kept; a variable set in the environment (even to "") gets the separator and the inherited value appended |
| Launcher.ExitCode | core/xvm/xvmlib/shims.rs:283-316 | the child's code, else 1 |
| Launcher.PlanRun | core/xvm/xvmlib/shims.rs:193-281 | no launch exactly when there is neither an alias nor an empty path and no candidate exists; an alias runs the wrapper with the alias words before the arguments; a found executable is the command; the child `PATH` is the one `ChildPath` gives for the resolution; the library and extended variables are those computed above |
| Launcher.Run | core/xvm/xvmlib/shims.rs:187-319 | 1 without spawning when nothing was found, else the child's exit code |
| ShimFiles.ShimFile | core/xvm/xvmlib/shims.rs:566-573 | the shim's path begins with `dir/target` |
| ShimFiles.ShimFileInjective | core/xvm/xvmlib/shims.rs:566-573 | different targets get different shim files |
| ShimFiles.TryCreate | core/xvm/xvmlib/shims.rs:523-535 | the shim exists afterwards; an existing shim is left alone; only the shim and its directory can change |
| ShimFiles.TryCreateIdempotent | core/xvm/xvmlib/shims.rs:523-535 | creating twice is creating once |
| ShimFiles.Delete | core/xvm/xvmlib/shims.rs:537-542 | the shim is gone afterwards, deleting an absent shim changes nothing, and no other path changes |
| ShimFiles.CreateThenDelete | core/xvm/xvmlib/shims.rs:523-542 | creating then deleting a missing shim leaves every path but the directory as it was |
| ShimFiles.LinkTo | core/xvm/xvmlib/shims.rs:322-362 | a program without an alias fails; an existing link is kept unless `recover` is set, in which case it is replaced; only the directory and the link can change |
| ShimFiles.LinkToIdempotent | core/xvm/xvmlib/shims.rs:322-362 | linking twice is linking once |
| Helper.GetWorkspace | core/xvm/src/helper.rs:6-21 | the local workspace if its file exists and is active, the global one if the file is missing or inactive, an error if the file does not load; always one of the two, unmerged |
| Helper.NoOverlay | core/xvm/src/helper.rs:6-17 | the chosen local workspace is not overlaid with the global selections |
| XvmLib.ResolvedVersion | core/xvm/xvmlib/lib.rs:53-56 | the workspace's selection, else the global workspace's |
| XvmLib.LoadProgram | core/xvm/xvmlib/lib.rs:37-45 | an inactive global workspace fails; otherwise loading resolves against the global workspace |
| XvmLib.LoadProgramFromWorkspace | core/xvm/xvmlib/lib.rs:47-65 | an inactive workspace delegates to `load_program`; a missing selection or a missing record fails; a loaded program carries the target and the resolved version, which is registered |
| XvmLib.InactiveFallsBackToGlobal | core/xvm/xvmlib/lib.rs:47-51 | an inactive workspace resolves exactly as the global workspace does |
| XvmLib.LocalSelectionWins | core/xvm/xvmlib/lib.rs:53-56 | an active workspace's own selection is the version loaded |
| Handler.ParseEnvArg | core/xvm/src/handler.rs:42-45 | an argument without `=` fails; otherwise both pieces are `=`-free |
| Handler.ParseEnvArgPieces | core/xvm/src/handler.rs:42-45 | `K=v` gives `(K, v)` and `K=a=b` keeps only `a` |
| Handler.ParseEnvArgs | core/xvm/src/handler.rs:37-48 | all arguments parse, or the command fails exactly when one lacks `=` |
| Handler.AddProgram | core/xvm/src/handler.rs:27-48 | the program carries the target, version, path and alias given; its plain list is the variables that are not routed; its library accumulator joins the library values; when no `PATH` value is empty, its `PATH` accumulator joins the path (if non-empty) and then the `PATH` values |
| Handler.XvmAdd | core/xvm/src/handler.rs:14-65 | fails exactly on an `--env` argument without `=`; otherwise the registry holds the pair with the record `vdata` makes of the described program (its path, alias and, per variable, the last value given), and nothing else changes there; the global selection is set only for a new target, and the global workspace keeps its name, `active` and `inherit` flags; the shim exists and no other path except the bin directory changes |
| Handler.SecondAddKeepsDefault | core/xvm/src/handler.rs:52-57 | with well-formed `--env` arguments, both adds succeed and adding another version of a known target leaves the global workspace untouched |
| Handler.AddRegisters | core/xvm/src/handler.rs:14-65 | with well-formed `--env` arguments the add succeeds and registers the pair |
| Handler.AddKnownKeepsDefault | core/xvm/src/handler.rs:52-57 | adding to a known target succeeds with well-formed arguments and leaves the global workspace untouched |
| Handler.XvmRemove | core/xvm/src/handler.rs:67-96 | all versions or the one version are gone; once the target has left the registry its global selection and shim are gone; while it remains, both are untouched; the global workspace keeps its name, `active` and `inherit` flags; no path other than the shim changes |
| Handler.RemoveKeepsTargetWithOtherVersions | core/xvm/src/handler.rs:86-93 | removing one of several versions keeps the target, its selection and its shim |
| Handler.AddThenRemove | core/xvm/src/handler.rs:14-96 | with well-formed `--env` arguments, adding a new target and removing that version again leaves no registry entry, no selection and no shim |
| Handler.XvmUse | core/xvm/src/handler.rs:98-128 | an unknown target, or an unregistered version with no match, exits 1; otherwise the registered version, or else `match_first_version`'s, is selected, and the workspace is written exactly when its selection changes; it keeps its name, `active` and `inherit` flags, and a target already selected keeps its slot |
| Handler.UseTwiceWritesOnce | core/xvm/src/handler.rs:120-123 | repeating `use` writes nothing |
| ShimMain.FileName | core/xvm/shim/main.rs:9-13 | `file_name` is a non-empty component other than `.` and `..` without a separator |
| ShimMain.FileNameOfJoin | core/xvm/shim/main.rs:9-13 | the file name of `dir/name` is `name` |
| ShimMain.Stem | core/xvm/shim/main.rs:9-13 | the stem is a prefix of the name and the whole name when it has no dot |
| ShimMain.StemDropsExtension | core/xvm/shim/main.rs:9-13 | the stem of `base.ext` is `base` |
| ShimMain.FileStem | core/xvm/shim/main.rs:9-13 | no file name gives the empty string; otherwise the stem is a prefix of the file name without any `/`, and the whole name when it has no dot |
| ShimMain.ShimCommand | core/xvm/shim/main.rs:15-22 | `xvm run <stem of argv[0]> --args`, then `argv[1..]` unchanged and in order |
| ShimMain.ShimExit | core/xvm/shim/main.rs:28-35 | the child's code, 1 when it has none, and 1 when it could not be spawned |
| ShimMain.ShimRunsItsTarget | core/xvm/shim/main.rs:8-22 | the shim `try_create` makes for a dot-free target runs `xvm run <target>`, on Windows too |
| ShimMain.DottedTargetLosesSuffix | core/xvm/shim/main.rs:9-13 | the shim for `python3.12` runs `xvm run python3` |

## Left out

- Process spawning, stdio inheritance and real exit statuses are not modelled: the child's outcome is a parameter. The Linux dynamic-loader fallback (`run_via_system_loader`, `system_loader_paths`) is left out too, because it is operating-system interaction.
- `fs::canonicalize` of the base directory is left out; the base is used as computed.
- Paths are `/`-separated. Windows drive prefixes and backslashes are not modelled, and neither is `Path`'s dropping of inner and trailing `.` components (so `Launcher.Parent` of `a/.` is `a`, where `Path::parent` gives the empty path; the launcher never builds such a path).
- Existence checks count every recorded path. A dangling symbolic link is not distinguished.
- I/O failures are not modelled. The `unwrap` panics of `create_dir_all`, `hard_link`/`copy` and `remove_file` are absent, and so are symlink errors, which the source only prints. `create_dir_all` adds only the directory itself, not its ancestors.
- YAML loading and saving (`config.rs`, `save_to_local`, `Workspace::from`, `VersionDB::new`/`from`) are opaque persistence. A failing save is not modelled.
- `init`, `create_shim_script_file` and `shim_script_file` set up the `OnceLock` globals and write the `xvm-alias` script. The workspace, bin and lib directories and the shim binary are parameters instead. `init` is taken to have run, so the workspace directory is always set. A `run` before `init` panics in `get_path_env`, which unwraps the bin directory; that panic is not modelled.
- `print_info`, console output and `helper::prompt` are left out. The prompt's answer is not consulted by `xvm_remove` anyway.
- The binding resolver is left out: the shown code only stores the bindings map.
- `load_workspace` and `load_workspace_and_merge` are not part of this model. `xvm use` takes the loaded workspace as a parameter.
- `xvm run`, `xvm current`, `xvm list` and `xvm workspace` are not modelled. Neither are the clap wiring in `cmdprocessor.rs`, `desktop.rs`, `baseinfo.rs`, the demo `main.rs` and the C++ entry point.
- `Program::name`/`version`/`get_bindings` and `Workspace::version`/`name`/`active`/`inherit`/`all_versions` are plain field reads; the model reads the fields directly.
- Programs.AddEnvsAccumulates: stated only when every `PATH` value is non-empty. Otherwise `add_env` swallows the separator after a leading empty value, so the accumulator is not a plain join.
- Programs.AddEnvsPath: requires every `PATH` value to be non-empty, for the same reason.
- Programs.LoadFresh: states the `PATH` accumulator only when every stored `PATH` value is non-empty after expansion, for the same reason.
- Handler.AddProgram: states the `PATH` accumulator only when every `PATH` value given is non-empty, for the same reason.
- Programs.ToVData: requires that no routed variable sits in the plain list. `Programs.AddEnv` and `Programs.NewProgram` establish that invariant for every program built through its methods.
- VersionRegistry.MatchFirstVersion: the tie rule (the first registered version among equals wins) is stated in `VersionRegistry.BestMatch`, not in this contract.
