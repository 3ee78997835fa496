/** `storage::mkdir_p` (storage/util.cpp) as the imperative walk it is: the path
    is copied into a fixed buffer of `PATH_MAX` characters, a cursor moves along
    it, each slash is overwritten with a NUL while `mkdir` is called on the
    truncated string and then put back, and `mkdir` is called on the whole path
    last. `mkdir(2)` and the global `errno` are modelled by `FileSystem`. */
module StorageUtil {
  import opened MkdirSpec
  import opened MkdirLemmas

  /** The names that exist (directories, or anything else `mkdir(2)` answers
      EEXIST for), and the paths whose `mkdir(2)` fails with an
      error other than EEXIST (with that error's code). `calls` records every
      path passed to `mkdir`, in order. */
  class FileSystem {
    var dirs: set<string>
    const failures: map<string, nat>
    ghost var calls: seq<string>

    constructor (dirs: set<string>, failures: map<string, nat>)
      ensures this.dirs == dirs && this.failures == failures && calls == []
    {
      this.dirs := dirs;
      this.failures := failures;
      calls := [];
    }

    /** `mkdir(path)`: 0 when the directory is created; -1 with `errno` set to
        EEXIST when it exists, or to its error when it is refused. A successful
        call leaves `errno` as it was. */
    method Mkdir(path: string, errno: Errno) returns (rc: int, errnoAfter: Errno)
      modifies this`dirs, this`calls
      ensures calls == old(calls) + [path]
      ensures match MkdirOutcomeOf(old(dirs), failures, path)
        case Created => rc == 0 && dirs == old(dirs) + {path} && errnoAfter == errno
        case Existed => rc == -1 && dirs == old(dirs) && errnoAfter == AlreadyExists
        case Refused(c) => rc == -1 && dirs == old(dirs) && errnoAfter == OtherError(c)
    {
      calls := calls + [path];
      if path in dirs {
        rc, errnoAfter := -1, AlreadyExists;
      } else if path in failures {
        rc, errnoAfter := -1, OtherError(failures[path]);
      } else {
        dirs := dirs + {path};
        rc, errnoAfter := 0, errno;
      }
    }
  }

  /** A NUL written after a NUL-free string ends the C string there, whatever
      the buffer holds beyond it. */
  lemma {:induction false} CStringStopsAtNul(s: string, rest: seq<char>)
    requires '\0' !in s
    ensures CString(s + ['\0'] + rest) == s
    decreases |s|
  {
    if s == [] {
      assert (s + ['\0'] + rest)[0] == '\0';
    } else {
      CStringStopsAtNul(s[1..], rest);
      assert (s + ['\0'] + rest)[1..] == s[1..] + ['\0'] + rest;
    }
  }

  /** A buffer holding `path` and its terminator reads as `path`; truncated at
      index `p` it reads as the prefix `path[..p]`. */
  lemma BufferReads(buf: seq<char>, path: string, p: nat)
    requires '\0' !in path && p < |path| < |buf|
    requires buf[..|path| + 1] == path + ['\0']
    ensures CString(buf) == path
    ensures CString(buf[p := '\0']) == path[..p]
  {
    assert buf == path + ['\0'] + buf[|path| + 1..];
    CStringStopsAtNul(path, buf[|path| + 1..]);
    assert buf[p := '\0'] == path[..p] + ['\0'] + buf[p := '\0'][p + 1..];
    CStringStopsAtNul(path[..p], buf[p := '\0'][p + 1..]);
  }

  /** The outcome a `Mkdir` call reports is one `Attempt` of the walk. */
  lemma MkdirIsAttempt(w: Progress, failures: map<string, nat>, path: string,
                       rc: int, errno: Errno, dirs: set<string>)
    requires !w.aborted
    requires match MkdirOutcomeOf(w.dirs, failures, path)
      case Created => rc == 0 && dirs == w.dirs + {path} && errno == w.errno
      case Existed => rc == -1 && dirs == w.dirs && errno == AlreadyExists
      case Refused(c) => rc == -1 && dirs == w.dirs && errno == OtherError(c)
    ensures Attempt(w, failures, path)
         == Progress(rc != 0 && errno != AlreadyExists, errno, dirs, w.calls + [path])
  {
  }

  /** `strcpy(buf, path)`: the characters of `path` and then its terminator
      are written to the front of `buf`. */
  method StrCpy(buf: array<char>, path: string)
    requires |path| < buf.Length
    modifies buf
    ensures buf[..|path| + 1] == path + ['\0']
  {
    var j := 0;
    while j < |path|
      invariant 0 <= j <= |path|
      invariant buf[..j] == path[..j]
    {
      buf[j] := path[j];
      j := j + 1;
    }
    buf[j] := '\0';
  }

  /** One slash of the loop of `mkdir_p`: the buffer is cut at index `p`,
      `mkdir` is called on what it then holds, and, unless that failed with an
      error other than EEXIST, the slash is put back. */
  method CutAndMkdir(fs: FileSystem, buf: array<char>, path: string, p: nat, errno0: Errno)
    returns (stopped: bool, errno: Errno)
    requires '\0' !in path && 1 <= p < |path| < buf.Length && path[p] == '/'
    requires buf[..|path| + 1] == path + ['\0']
    modifies buf, fs`dirs, fs`calls
    ensures Attempt(Progress(false, errno0, old(fs.dirs), old(fs.calls)), fs.failures, path[..p])
         == Progress(stopped, errno, fs.dirs, fs.calls)
    ensures !stopped ==> buf[..] == old(buf[..])
  {
    ghost var w := Progress(false, errno0, fs.dirs, fs.calls);
    BufferReads(buf[..], path, p);
    buf[p] := '\0';
    var rc;
    rc, errno := fs.Mkdir(CString(buf[..]), errno0);
    MkdirIsAttempt(w, fs.failures, path[..p], rc, errno, fs.dirs);
    if rc != 0 && errno != AlreadyExists {
      return true, errno;
    }
    buf[p] := '/';
    stopped := false;
  }

  /** The loop of `mkdir_p`: a cursor runs over `buf` from index 1 to the
      terminator, and each slash it meets goes through `CutAndMkdir`. A failure
      other than EEXIST stops the loop at once, with the buffer still cut. */
  method WalkSlashes(fs: FileSystem, buf: array<char>, path: string, errno0: Errno)
    returns (stopped: bool, errno: Errno)
    requires '\0' !in path && 1 <= |path| < buf.Length
    requires buf[..|path| + 1] == path + ['\0']
    modifies buf, fs`dirs, fs`calls
    ensures Walk(Progress(false, errno0, old(fs.dirs), old(fs.calls)), fs.failures, SlashPrefixes(path, |path|))
         == Progress(stopped, errno, fs.dirs, fs.calls)
    ensures !stopped ==> buf[..|path| + 1] == path + ['\0']
  {
    ghost var start := Progress(false, errno0, fs.dirs, fs.calls);
    errno := errno0;
    var p := 1;
    while buf[p] != '\0'
      invariant 1 <= p <= |path|
      invariant buf[..|path| + 1] == path + ['\0']
      invariant Walk(start, fs.failures, SlashPrefixes(path, p)) == Progress(false, errno, fs.dirs, fs.calls)
      decreases |path| - p
    {
      WalkSlashStep(start, fs.failures, path, p);
      if buf[p] == '/' {
        stopped, errno := CutAndMkdir(fs, buf, path, p, errno);
        if stopped {
          WalkAbortBeforeEnd(start, fs.failures, path, p + 1);
          return;
        }
      }
      p := p + 1;
    }
    stopped := false;
  }

  /** `mkdir_p(path, mode)` with a buffer of `pathMax` characters. It returns
      the status and `errno` that the specification `MkdirPOutcome` gives, the
      filesystem ends as that outcome says, and the `mkdir` calls made are
      exactly that outcome's calls, in order. */
  method MkdirP(fs: FileSystem, path: string, pathMax: nat) returns (status: int, errno: Errno)
    requires pathMax >= 1
    requires |path| >= 1
    requires '\0' !in path
    modifies fs`dirs, fs`calls
    ensures status == Status(MkdirPOutcome(old(fs.dirs), fs.failures, path, pathMax))
    ensures errno == MkdirPOutcome(old(fs.dirs), fs.failures, path, pathMax).errno
    ensures fs.dirs == MkdirPOutcome(old(fs.dirs), fs.failures, path, pathMax).dirs
    ensures fs.calls == old(fs.calls) + MkdirPOutcome(old(fs.dirs), fs.failures, path, pathMax).calls
  {
    var len := |path|;
    errno := NoError;
    if len > pathMax - 1 {
      errno := NameTooLong;
      return -1, errno;
    }

    var buf := new char[pathMax];
    StrCpy(buf, path);

    ghost var start := Progress(false, NoError, fs.dirs, fs.calls);
    WalkFromCalls(fs.failures, Targets(path), fs.dirs, fs.calls);
    WalkTargets(start, fs.failures, path);
    var stopped;
    stopped, errno := WalkSlashes(fs, buf, path, errno);
    if stopped {
      return -1, errno;
    }

    BufferReads(buf[..], path, 0);
    ghost var w := Progress(false, errno, fs.dirs, fs.calls);
    var rc;
    rc, errno := fs.Mkdir(CString(buf[..]), errno);
    MkdirIsAttempt(w, fs.failures, path, rc, errno, fs.dirs);
    if rc != 0 {
      if errno != AlreadyExists {
        return -1, errno;
      }
    }
    return 0, errno;
  }
}
