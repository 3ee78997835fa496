/** A model of recursive directory creation (`storage::mkdir_p`) over an
    abstract filesystem: the set of names that exist, and a fixed table
    of paths whose `mkdir(2)` fails with an error other than "already exists".

    This module holds the specification side: what one `mkdir` call does, the
    list of paths `mkdir_p` hands to `mkdir`, and the outcome of the whole walk
    as a pure function. The imperative walk over the C buffer is in module
    `StorageUtil`; the properties of the specification are in module `MkdirLemmas`. */
module MkdirSpec {

  /** The values of the global `errno` that `mkdir_p` can leave behind.
      `OtherError` stands for any failure of `mkdir(2)` that is not EEXIST
      (EACCES, ENOENT, EROFS, ...), identified by an abstract code. */
  datatype Errno = NoError | AlreadyExists | NameTooLong | OtherError(code: nat)

  /** What a single `mkdir(2)` call does on the abstract filesystem. */
  datatype MkdirOutcome = Created | Existed | Refused(code: nat)

  /** The oracle for `mkdir(path)`: an existing name answers EEXIST, a path
      listed in `failures` fails with its code, anything else is created. */
  function MkdirOutcomeOf(dirs: set<string>, failures: map<string, nat>, path: string): (o: MkdirOutcome)
    ensures o == Existed <==> path in dirs
    ensures o == Created <==> path !in dirs && path !in failures
    ensures o.Refused? ==> path in failures && o.code == failures[path]
  {
    if path in dirs then Existed
    else if path in failures then Refused(failures[path])
    else Created
  }

  /** The state of a `mkdir_p` run after some `mkdir` calls: whether it has
      returned -1, the current `errno`, the directory set, and the paths passed
      to `mkdir` so far, in call order. */
  datatype Progress = Progress(aborted: bool, errno: Errno, dirs: set<string>, calls: seq<string>)

  /** The state of a run before its first `mkdir` call (`errno = 0`). */
  function Start(dirs: set<string>): Progress
  {
    Progress(false, NoError, dirs, [])
  }

  /** One step of the walk: call `mkdir(path)` unless the run has already
      returned. EEXIST is not an error, but it does leave `errno` set; a
      successful call leaves `errno` untouched; any other failure ends the run. */
  function Attempt(s: Progress, failures: map<string, nat>, path: string): (r: Progress)
    ensures s.aborted ==> r == s
    ensures !s.aborted ==> r.calls == s.calls + [path]
    ensures !s.aborted ==> (r.aborted <==> MkdirOutcomeOf(s.dirs, failures, path).Refused?)
    ensures s.dirs <= r.dirs <= s.dirs + {path}
  {
    if s.aborted then s
    else match MkdirOutcomeOf(s.dirs, failures, path)
      case Created => s.(dirs := s.dirs + {path}, calls := s.calls + [path])
      case Existed => s.(errno := AlreadyExists, calls := s.calls + [path])
      case Refused(c) => s.(aborted := true, errno := OtherError(c), calls := s.calls + [path])
  }

  /** The walk over a list of paths, left to right (defined from the last path
      back, which is the order in which a loop extends it). */
  function Walk(s: Progress, failures: map<string, nat>, paths: seq<string>): (r: Progress)
    ensures s.aborted ==> r == s
    ensures s.dirs <= r.dirs
    ensures s.calls <= r.calls && |r.calls| <= |s.calls| + |paths|
    decreases |paths|
  {
    if paths == [] then s
    else Attempt(Walk(s, failures, paths[..|paths| - 1]), failures, paths[|paths| - 1])
  }

  /** The prefixes `path[..i]` for every index `1 <= i < n` holding a slash, in
      increasing order of `i`: the paths the loop of `mkdir_p` truncates the
      buffer to before it reaches index `n`. */
  function SlashPrefixes(path: string, n: nat): (r: seq<string>)
    requires n <= |path|
    ensures |r| <= n
  {
    if n <= 1 then []
    else SlashPrefixes(path, n - 1) + (if path[n - 1] == '/' then [path[..n - 1]] else [])
  }

  /** Every path `mkdir_p(path)` may pass to `mkdir`, in call order: each slash
      prefix, then the whole path. */
  function Targets(path: string): (r: seq<string>)
    ensures 1 <= |r| <= |path| + 1 && r[|r| - 1] == path
  {
    SlashPrefixes(path, |path|) + [path]
  }

  /** The outcome of `mkdir_p(path)` on a filesystem whose directories are
      `dirs`, with `pathMax` the size of its buffer (`PATH_MAX`). A path that
      does not fit with its terminator fails with ENAMETOOLONG before any call. */
  function MkdirPOutcome(dirs: set<string>, failures: map<string, nat>, path: string, pathMax: nat): (r: Progress)
    requires pathMax >= 1
    requires |path| >= 1
    ensures |path| > pathMax - 1 ==> r.aborted && r.errno == NameTooLong && r.calls == []
    ensures dirs <= r.dirs
    ensures |r.calls| <= |path| + 1
  {
    if |path| > pathMax - 1 then Progress(true, NameTooLong, dirs, [])
    else Walk(Start(dirs), failures, Targets(path))
  }

  /** The integer `mkdir_p` returns for a given outcome. */
  function Status(o: Progress): int
  {
    if o.aborted then -1 else 0
  }

  /** The C string held by a character buffer: everything before its first NUL. */
  function CString(buf: seq<char>): string
  {
    if buf == [] || buf[0] == '\0' then [] else [buf[0]] + CString(buf[1..])
  }
}
