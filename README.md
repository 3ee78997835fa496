# storehouse: recursive directory creation and storage configurations

This project is a Dafny model of two small parts of the storehouse storage
abstraction layer, with proofs about the model.

- `storage::mkdir_p` (storage/util.cpp) creates a directory and every
  missing ancestor. It copies the path into a `PATH_MAX` buffer and fails
  with `ENAMETOOLONG` when the path does not fit. It then moves a cursor from
  index 1 to the terminator. At each slash it cuts the buffer with a NUL,
  calls `mkdir` on the prefix and puts the slash back. Last, it calls `mkdir`
  on the whole path. `EEXIST` counts as success. Any other failure returns
  -1 at once.
- `StorageConfig::make_gcs_config` and `StorageConfig::make_posix_config`
  (storehouse/storage_config.cpp) are the factories of a closed variant of
  backend configurations. They only capture their arguments.

Files:

- `mkdir_spec.dfy` (module `MkdirSpec`) is the specification. It defines the
  `mkdir(2)` oracle and one walk step (`Attempt`). It also defines the list of
  paths handed to `mkdir` (`SlashPrefixes`, `Targets`) and the whole outcome
  (`MkdirPOutcome`): the status, `errno`, the set of existing names and the calls
  made, in order.
- `mkdir_lemmas.dfy` (module `MkdirLemmas`) proves the properties of that
  specification.
- `storage_util.dfy` (module `StorageUtil`) is the imperative model. The
  filesystem is a class holding the set of existing names, plus a fixed table of paths
  whose `mkdir` fails. `mkdir_p` works on a `char` array buffer and is proved
  equal to `MkdirPOutcome`.
- `storage_config.dfy` (module `StorageConfigs`) holds the configuration
  datatype and its factories.

A slash at index 0 yields no prefix, because the cursor starts at index 1.
The root is still reached in two cases: `mkdir_p("/")` calls `mkdir("/")` as
its final call, and `mkdir_p("//a")` cuts at index 1 and calls `mkdir("/")`. A
trailing slash yields one extra call, on the path without it and then on the
path with it. When `mkdir_p` returns 0, `errno` may still be `EEXIST` from a
prefix that already existed.

## Model

| member | source | states |
|---|---|---|
| `StorageUtil.MkdirP` | storage/util.cpp:27-63 | the status, `errno`, final directory set and the sequence of `mkdir` calls are exactly those of `MkdirPOutcome` for the directory set before the call |
| `StorageUtil.FileSystem.Mkdir` | storage/util.cpp:48-51 | `mkdir` returns 0 and adds the directory when it is new and not refused; it returns -1 with EEXIST when the directory exists, or -1 with the refusal's error; a success leaves `errno` as it was; the call is recorded |
| `StorageUtil.StrCpy` | storage/util.cpp:40 | the buffer starts with the path followed by its terminator |
| `StorageUtil.CutAndMkdir` | storage/util.cpp:44-54 | cutting the buffer at a slash and calling `mkdir` on it is exactly one `Attempt` on the prefix before the slash; when the run goes on, the buffer is as it was |
| `StorageUtil.WalkSlashes` | storage/util.cpp:42-55 | the loop makes exactly the calls of the walk over the slash prefixes and ends in its state; when it did not stop early, the buffer again holds the original path and terminator |
| `StorageUtil.BufferReads` | storage/util.cpp:44-57 | the buffer cut at a slash reads as exactly the prefix before it; with every slash restored it reads as exactly the original path |
| `StorageUtil.MkdirIsAttempt` | storage/util.cpp:48-51 | the answer of one `mkdir` call (0, EEXIST, or another error) is one step of the walk: only a non-EEXIST failure stops it |
| `MkdirSpec.MkdirOutcomeOf` | storage/util.cpp:48-51 | a `mkdir` call answers EEXIST exactly when the name exists, creates exactly when the name neither exists nor is refused, and a refusal carries the code of the refused path |
| `MkdirSpec.Attempt` | storage/util.cpp:48-51 | a run that has returned is left as it is; otherwise one call on the path is appended, the run stops exactly when that call is refused, and at most that path is added to the names |
| `MkdirSpec.Walk` | storage/util.cpp:43-57 | a run that has returned is left as it is; names are never removed; the earlier calls stay at the front and at most one call is added per path |
| `MkdirSpec.SlashPrefixes` | storage/util.cpp:43-46 | the cursor meets at most one slash per index it passes, so there are at most `n` prefixes before index `n` |
| `MkdirSpec.Targets` | storage/util.cpp:43-57 | at least one path and at most one per character plus the final call are handed to `mkdir`, and the last one is the whole path |
| `MkdirSpec.MkdirPOutcome` | storage/util.cpp:27-63 | a path that does not fit the buffer ends the run with ENAMETOOLONG before any call; no name is ever removed; at most one call per character plus one is made |
| `MkdirLemmas.NameTooLongMakesNoCall` | storage/util.cpp:36-39 | a path longer than `PATH_MAX - 1` gives -1 with ENAMETOOLONG, no `mkdir` call and an unchanged directory set |
| `MkdirLemmas.SlashPrefixesAt` | storage/util.cpp:43-46 | `path[..i]` is in the list of prefixes the walk attempts before the final call exactly when `1 <= i` and `path[i]` is a slash; no such prefix is empty; they come shortest first |
| `MkdirLemmas.TargetsArePrefixes` | storage/util.cpp:43-57 | every path handed to `mkdir` is a non-empty prefix of the argument ending just before a slash; the list is in strictly increasing length, and the whole path comes last |
| `MkdirLemmas.WalkSlashStep` | storage/util.cpp:43-55 | advancing the cursor over a slash adds one `mkdir` attempt on the prefix before it; any other character adds nothing |
| `MkdirLemmas.WalkAbortIsFinal` | storage/util.cpp:48-51 | once a walk has returned -1, no later path is attempted and nothing changes |
| `MkdirLemmas.WalkCompletes` | storage/util.cpp:43-62 | when no path is refused, every path is handed to `mkdir` in order, every path exists afterwards, nothing else is added, and `errno` is unchanged or EEXIST |
| `MkdirLemmas.WalkStops` | storage/util.cpp:48-51 | when the first refused path is the k-th, the calls are exactly the first k+1 paths, only the first k were added, and `errno` is the refusal's error |
| `MkdirLemmas.WalkAbortsIff` | storage/util.cpp:43-62 | a walk returns -1 if and only if some path is refused when its turn comes |
| `MkdirLemmas.WalkOverExisting` | storage/util.cpp:57-60 | a walk over directories that already exist answers every call with EEXIST, succeeds and changes no directory |
| `MkdirLemmas.MkdirPSucceedsIff` | storage/util.cpp:43-62 | `mkdir_p` returns 0 if and only if no prefix is refused; then it called `mkdir` on every prefix and last on the path, all of them exist afterwards, and `errno` is 0 or EEXIST |
| `MkdirLemmas.MkdirPStopsAtFirstRefusal` | storage/util.cpp:48-51 | on -1 after the length check, the calls stop at the first refused prefix with no deeper prefix tried; only the prefixes before it were created, and `errno` is its error |
| `MkdirLemmas.MkdirPOnlyCreatesPrefixes` | storage/util.cpp:43-57 | no directory is removed; every directory added and every path handed to `mkdir` is a non-empty prefix of the argument |
| `MkdirLemmas.MkdirPIdempotent` | storage/util.cpp:57-60 | after a run that returned 0, a second run returns 0, makes the same calls, leaves `errno` at EEXIST and does not change the directory set |
| `MkdirLemmas.NestedExample` | storage/util.cpp:27-63 | with `/a` present, `mkdir_p("/a/b/c")` returns 0, calls `mkdir` on `/a`, `/a/b` and `/a/b/c`, creates only the last two, and a second run returns 0 |
| `StorageConfigs.MakeGcsConfig` | storehouse/storage_config.cpp:22-32 | the result is a GCS configuration whose certificates path, key and bucket read back as the arguments |
| `StorageConfigs.MakePosixConfig` | storehouse/storage_config.cpp:34-40 | the result is a POSIX configuration whose data directory reads back as the argument |
| `StorageConfigs.MakeGcsConfigInjective` | storehouse/storage_config.cpp:28-30 | two GCS configurations are equal if and only if their three arguments are |
| `StorageConfigs.MakePosixConfigInjective` | storehouse/storage_config.cpp:38 | two POSIX configurations are equal if and only if their directories are |
| `StorageConfigs.FactoriesDisjoint` | storehouse/storage_config.cpp:22-40 | the GCS factory never yields the configuration the POSIX factory yields |
| `StorageConfigs.EveryConfigIsMade` | storehouse/storage_config.cpp:22-40 | every configuration is what one of the two factories makes from its own fields |

## Left out

- `temp_file` (storage/util.cpp:65-70) wraps `mkstemp` and `fdopen`. Name uniqueness comes from the operating system, and the code has no error handling to state.
- The S3 configuration and its factory `make_s3_config`. The scripting-language binding refers to it, but its definition is not part of this model.
- The scripting-language binding in storehouse/storehouse_python.cpp. It holds lock release, exception translation and object ownership glue, with no logic of its own.
- The `mode` argument and permission bits of `mkdir(2)`.
- The real semantics of `mkdir(2)`: parent directories, `ENOENT`, symbolic links, `.` and `..`, repeated or trailing slashes. Each path is an opaque string. A fixed table says which paths fail with an error other than EEXIST. That table cannot change during a run, so no other process acts on the filesystem meanwhile.
- What kind of entry a name is. The set of existing names stands for every name `mkdir(2)` answers EEXIST for, directory or not. EEXIST from a regular file therefore counts as success, as it does in the code, and a return of 0 does not mean that the path is a directory.
- `PATH_MAX` is a parameter of at least 1 rather than a platform constant, so the unsigned wrap-around of `sizeof(_path) - 1` never arises.
- The empty path. The loop would start past the terminator and read uninitialised buffer memory, so the source's behaviour is undefined. Every operation requires a path of at least one character.
- Paths containing a NUL character. A C string cannot hold one, so `StorageUtil.MkdirP` requires a path without NUL.
- Pointer arithmetic. The cursor `p` is an index into the buffer.
