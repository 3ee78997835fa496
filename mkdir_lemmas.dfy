/** Properties of the specification of `storage::mkdir_p`: which paths it hands
    to `mkdir`, in what order, when it stops, what it leaves behind, and that a
    second run after a successful one changes nothing. */
module MkdirLemmas {
  import opened MkdirSpec

  /** The paths in a list, as a set. */
  function Elems(paths: seq<string>): set<string>
  {
    set p | p in paths
  }

  /** Whether `mkdir(paths[k])` is refused when a walk that has not stopped
      reaches it: the path is listed as failing, did not exist at the start,
      and was not created by an earlier call of the same walk. */
  predicate Blocked(dirs: set<string>, failures: map<string, nat>, paths: seq<string>, k: nat)
    requires k < |paths|
  {
    paths[k] in failures && paths[k] !in dirs && paths[k] !in paths[..k]
  }

  /** `paths[k]` is the first path of the walk that is refused. */
  predicate FirstBlocked(dirs: set<string>, failures: map<string, nat>, paths: seq<string>, k: nat)
  {
    k < |paths| && Blocked(dirs, failures, paths, k)
    && forall j :: 0 <= j < k ==> !Blocked(dirs, failures, paths, j)
  }

  /** Extending the walk by one path is one more `mkdir` attempt. */
  lemma WalkSnoc(s: Progress, failures: map<string, nat>, paths: seq<string>, path: string)
    ensures Walk(s, failures, paths + [path]) == Attempt(Walk(s, failures, paths), failures, path)
  {
    assert (paths + [path])[..|paths|] == paths;
  }

  /** Early abort: once a walk has returned -1, no later path is attempted and
      nothing else changes. */
  lemma {:induction false} WalkAbortIsFinal(s: Progress, failures: map<string, nat>, paths: seq<string>, k: nat)
    requires k <= |paths|
    requires Walk(s, failures, paths[..k]).aborted
    ensures Walk(s, failures, paths) == Walk(s, failures, paths[..k])
    decreases |paths| - k
  {
    if k < |paths| {
      var init := paths[..|paths| - 1];
      assert init[..k] == paths[..k];
      WalkAbortIsFinal(s, failures, init, k);
    } else {
      assert paths[..k] == paths;
    }
  }

  /** Every refused path has a first refused path at or before it. */
  lemma {:induction false} FirstRefusal(dirs: set<string>, failures: map<string, nat>, paths: seq<string>, k: nat)
    returns (first: nat)
    requires k < |paths| && Blocked(dirs, failures, paths, k)
    ensures first <= k && FirstBlocked(dirs, failures, paths, first)
    decreases k
  {
    if j :| 0 <= j < k && Blocked(dirs, failures, paths, j) {
      first := FirstRefusal(dirs, failures, paths, j);
    } else {
      first := k;
    }
  }

  /** Refusals among the first paths of a list do not depend on what follows. */
  lemma BlockedInPrefix(dirs: set<string>, failures: map<string, nat>, paths: seq<string>, n: nat, j: nat)
    requires j < n <= |paths|
    ensures Blocked(dirs, failures, paths[..n], j) == Blocked(dirs, failures, paths, j)
  {
    assert paths[..n][..j] == paths[..j];
  }

  /** A walk in which no path is refused calls `mkdir` on every path in order,
      and every path exists afterwards. */
  lemma {:induction false} WalkCompletes(s: Progress, failures: map<string, nat>, paths: seq<string>)
    requires !s.aborted
    requires forall k :: 0 <= k < |paths| ==> !Blocked(s.dirs, failures, paths, k)
    ensures !Walk(s, failures, paths).aborted
    ensures Walk(s, failures, paths).calls == s.calls + paths
    ensures Walk(s, failures, paths).dirs == s.dirs + Elems(paths)
    ensures Walk(s, failures, paths).errno in {s.errno, AlreadyExists}
    decreases |paths|
  {
    if paths == [] {
      assert Elems(paths) == {};
    } else {
      var n := |paths| - 1;
      var init, x := paths[..n], paths[n];
      forall j | 0 <= j < n ensures !Blocked(s.dirs, failures, init, j) {
        BlockedInPrefix(s.dirs, failures, paths, n, j);
      }
      WalkCompletes(s, failures, init);
      assert paths == init + [x];
      assert Elems(paths) == Elems(init) + {x};
      assert !Blocked(s.dirs, failures, paths, n);
      assert paths[..n] == init;
    }
  }

  /** A walk whose first refused path is `paths[k]` calls `mkdir` on the paths
      up to and including that one and no further, creates the ones before it,
      and leaves that call's error in `errno`. */
  lemma WalkStops(s: Progress, failures: map<string, nat>, paths: seq<string>, k: nat)
    requires !s.aborted
    requires FirstBlocked(s.dirs, failures, paths, k)
    ensures Walk(s, failures, paths).aborted
    ensures Walk(s, failures, paths).calls == s.calls + paths[..k + 1]
    ensures Walk(s, failures, paths).dirs == s.dirs + Elems(paths[..k])
    ensures Walk(s, failures, paths).errno == OtherError(failures[paths[k]])
  {
    var init := paths[..k];
    forall j | 0 <= j < k ensures !Blocked(s.dirs, failures, init, j) {
      BlockedInPrefix(s.dirs, failures, paths, k, j);
    }
    WalkCompletes(s, failures, init);
    WalkSnoc(s, failures, init, paths[k]);
    assert paths[..k + 1] == init + [paths[k]];
    WalkAbortIsFinal(s, failures, paths, k + 1);
  }

  /** A walk returns -1 exactly when some path is refused. */
  lemma WalkAbortsIff(s: Progress, failures: map<string, nat>, paths: seq<string>)
    requires !s.aborted
    ensures Walk(s, failures, paths).aborted
        <==> exists k :: 0 <= k < |paths| && Blocked(s.dirs, failures, paths, k)
  {
    if k :| 0 <= k < |paths| && Blocked(s.dirs, failures, paths, k) {
      var first := FirstRefusal(s.dirs, failures, paths, k);
      WalkStops(s, failures, paths, first);
    } else {
      WalkCompletes(s, failures, paths);
    }
  }

  /** A walk over directories that all exist already makes every call, each
      answered with EEXIST, and changes no directory. */
  lemma {:induction false} WalkOverExisting(s: Progress, failures: map<string, nat>, paths: seq<string>)
    requires !s.aborted
    requires forall p :: p in paths ==> p in s.dirs
    ensures Walk(s, failures, paths)
         == s.(errno := if paths == [] then s.errno else AlreadyExists, calls := s.calls + paths)
    decreases |paths|
  {
    if paths != [] {
      var init := paths[..|paths| - 1];
      WalkOverExisting(s, failures, init);
      assert init + [paths[|paths| - 1]] == paths;
    }
  }

  /** The slash prefixes: `path[..i]` is one exactly when `1 <= i < n` and
      `path[i]` is a slash (so a leading slash never yields one, and none is
      empty), and they come shortest first. */
  lemma {:induction false} SlashPrefixesAt(path: string, n: nat)
    requires n <= |path|
    ensures forall i :: 1 <= i < n && path[i] == '/' ==> path[..i] in SlashPrefixes(path, n)
    ensures forall t :: t in SlashPrefixes(path, n) ==> 1 <= |t| < n && path[|t|] == '/' && t == path[..|t|]
    ensures forall a, b :: 0 <= a < b < |SlashPrefixes(path, n)|
              ==> |SlashPrefixes(path, n)[a]| < |SlashPrefixes(path, n)[b]|
    decreases n
  {
    if n > 1 {
      SlashPrefixesAt(path, n - 1);
    }
  }

  /** One step of the cursor: at a slash the walk makes one more attempt, on
      the prefix before it; at any other character it does nothing. */
  lemma WalkSlashStep(s: Progress, failures: map<string, nat>, path: string, p: nat)
    requires 1 <= p < |path|
    ensures Walk(s, failures, SlashPrefixes(path, p + 1))
         == if path[p] == '/' then Attempt(Walk(s, failures, SlashPrefixes(path, p)), failures, path[..p])
            else Walk(s, failures, SlashPrefixes(path, p))
  {
    if path[p] == '/' {
      WalkSnoc(s, failures, SlashPrefixes(path, p), path[..p]);
    } else {
      assert SlashPrefixes(path, p + 1) == SlashPrefixes(path, p);
    }
  }

  /** A walk that has stopped at a slash prefix is the walk over all of them. */
  lemma WalkAbortBeforeEnd(s: Progress, failures: map<string, nat>, path: string, p: nat)
    requires 1 <= p <= |path|
    requires Walk(s, failures, SlashPrefixes(path, p)).aborted
    ensures Walk(s, failures, SlashPrefixes(path, |path|)) == Walk(s, failures, SlashPrefixes(path, p))
  {
    SlashPrefixesGrow(path, p, |path|);
    var done := SlashPrefixes(path, p);
    WalkAbortIsFinal(s, failures, SlashPrefixes(path, |path|), |done|);
  }

  /** The `mkdir_p` walk is the slash prefixes' walk plus one attempt on the
      whole path. */
  lemma WalkTargets(s: Progress, failures: map<string, nat>, path: string)
    ensures Walk(s, failures, Targets(path))
         == Attempt(Walk(s, failures, SlashPrefixes(path, |path|)), failures, path)
  {
    WalkSnoc(s, failures, SlashPrefixes(path, |path|), path);
  }

  /** A walk started after earlier calls makes the same calls after them and
      otherwise ends the same. */
  lemma {:induction false} WalkFromCalls(failures: map<string, nat>, paths: seq<string>,
                                         dirs: set<string>, earlier: seq<string>)
    ensures Walk(Progress(false, NoError, dirs, earlier), failures, paths)
         == var r := Walk(Start(dirs), failures, paths); r.(calls := earlier + r.calls)
    decreases |paths|
  {
    if paths != [] {
      WalkFromCalls(failures, paths[..|paths| - 1], dirs, earlier);
    }
  }

  /** The slash prefixes met before index `n` are the first ones met before any
      later index `m`: the walk only ever extends its list. */
  lemma {:induction false} SlashPrefixesGrow(path: string, n: nat, m: nat)
    requires n <= m <= |path|
    ensures |SlashPrefixes(path, n)| <= |SlashPrefixes(path, m)|
    ensures SlashPrefixes(path, m)[..|SlashPrefixes(path, n)|] == SlashPrefixes(path, n)
    decreases m - n
  {
    if n < m {
      SlashPrefixesGrow(path, n, m - 1);
      var a, b := SlashPrefixes(path, n), SlashPrefixes(path, m - 1);
      assert SlashPrefixes(path, m)[..|b|] == b;
      assert b[..|a|] == a;
    }
  }

  /** What `mkdir_p(path)` hands to `mkdir`: non-empty prefixes of the path,
      shortest first, one per slash after index 0, the whole path last. */
  lemma TargetsArePrefixes(path: string)
    requires |path| >= 1
    ensures Targets(path)[|Targets(path)| - 1] == path
    ensures forall t :: t in Targets(path) ==> 1 <= |t| && t <= path
    ensures forall t :: t in Targets(path) ==> |t| == |path| || path[|t|] == '/'
    ensures forall i :: 1 <= i < |path| && path[i] == '/' ==> path[..i] in Targets(path)
    ensures forall a, b :: 0 <= a < b < |Targets(path)| ==> |Targets(path)[a]| < |Targets(path)[b]|
  {
    SlashPrefixesAt(path, |path|);
    var ts := SlashPrefixes(path, |path|);
    forall t | t in Targets(path) ensures 1 <= |t| && t <= path {
      if t != path {
        assert t in ts;
      }
    }
    forall a, b | 0 <= a < b < |Targets(path)| ensures |Targets(path)[a]| < |Targets(path)[b]| {
      assert Targets(path)[a] == ts[a];
      if b < |ts| {
        assert Targets(path)[b] == ts[b];
      } else {
        assert ts[a] in ts;
      }
    }
  }

  /** A path too long for the buffer fails with ENAMETOOLONG before any `mkdir`
      call, and the filesystem is unchanged. */
  lemma NameTooLongMakesNoCall(dirs: set<string>, failures: map<string, nat>, path: string, pathMax: nat)
    requires pathMax >= 1 && |path| >= 1
    requires |path| > pathMax - 1
    ensures Status(MkdirPOutcome(dirs, failures, path, pathMax)) == -1
    ensures MkdirPOutcome(dirs, failures, path, pathMax).errno == NameTooLong
    ensures MkdirPOutcome(dirs, failures, path, pathMax).dirs == dirs
    ensures MkdirPOutcome(dirs, failures, path, pathMax).calls == []
  {
  }

  /** `mkdir_p` returns 0 exactly when no prefix of the walk is refused; then it
      called `mkdir` on every prefix and, last, on the path itself, every one of
      them exists afterwards, and `errno` is 0 or EEXIST. */
  lemma MkdirPSucceedsIff(dirs: set<string>, failures: map<string, nat>, path: string, pathMax: nat)
    requires pathMax >= 1 && 1 <= |path| <= pathMax - 1
    ensures Status(MkdirPOutcome(dirs, failures, path, pathMax)) == 0
        <==> forall k :: 0 <= k < |Targets(path)| ==> !Blocked(dirs, failures, Targets(path), k)
    ensures Status(MkdirPOutcome(dirs, failures, path, pathMax)) == 0 ==>
              var o := MkdirPOutcome(dirs, failures, path, pathMax);
              o.calls == Targets(path) && o.calls[|o.calls| - 1] == path
              && (forall t :: t in Targets(path) ==> t in o.dirs)
              && o.errno in {NoError, AlreadyExists}
  {
    WalkAbortsIff(Start(dirs), failures, Targets(path));
    if Status(MkdirPOutcome(dirs, failures, path, pathMax)) == 0 {
      WalkCompletes(Start(dirs), failures, Targets(path));
    }
  }

  /** On failure after the length check, `mkdir_p` stopped at the first refused
      prefix: it called `mkdir` on the prefixes up to that one and no deeper,
      created only the ones before it, and `errno` is that call's error. */
  lemma MkdirPStopsAtFirstRefusal(dirs: set<string>, failures: map<string, nat>, path: string, pathMax: nat)
    returns (k: nat)
    requires pathMax >= 1 && 1 <= |path| <= pathMax - 1
    requires Status(MkdirPOutcome(dirs, failures, path, pathMax)) == -1
    ensures FirstBlocked(dirs, failures, Targets(path), k)
    ensures MkdirPOutcome(dirs, failures, path, pathMax).calls == Targets(path)[..k + 1]
    ensures MkdirPOutcome(dirs, failures, path, pathMax).dirs == dirs + Elems(Targets(path)[..k])
    ensures MkdirPOutcome(dirs, failures, path, pathMax).errno == OtherError(failures[Targets(path)[k]])
  {
    var ts := Targets(path);
    WalkAbortsIff(Start(dirs), failures, ts);
    var j :| 0 <= j < |ts| && Blocked(dirs, failures, ts, j);
    k := FirstRefusal(dirs, failures, ts, j);
    WalkStops(Start(dirs), failures, ts, k);
  }

  /** `mkdir_p` never removes a directory, and the only directories it adds or
      calls `mkdir` on are non-empty prefixes of its argument. */
  lemma MkdirPOnlyCreatesPrefixes(dirs: set<string>, failures: map<string, nat>, path: string, pathMax: nat)
    requires pathMax >= 1 && |path| >= 1
    ensures dirs <= MkdirPOutcome(dirs, failures, path, pathMax).dirs
    ensures forall d :: d in MkdirPOutcome(dirs, failures, path, pathMax).dirs && d !in dirs
              ==> 1 <= |d| && d <= path
    ensures forall c :: c in MkdirPOutcome(dirs, failures, path, pathMax).calls
              ==> 1 <= |c| && c <= path
  {
    var o := MkdirPOutcome(dirs, failures, path, pathMax);
    if |path| <= pathMax - 1 {
      var ts := Targets(path);
      TargetsArePrefixes(path);
      if o.aborted {
        var k := MkdirPStopsAtFirstRefusal(dirs, failures, path, pathMax);
        assert forall c :: c in ts[..k + 1] ==> c in ts;
        assert forall d :: d in Elems(ts[..k]) ==> d in ts;
      } else {
        MkdirPSucceedsIff(dirs, failures, path, pathMax);
        WalkCompletes(Start(dirs), failures, ts);
      }
    }
  }

  /** Idempotence: running `mkdir_p` again on the directory set a successful
      run left behind succeeds, makes the same calls, each answered with
      EEXIST, and changes nothing. */
  lemma MkdirPIdempotent(dirs: set<string>, failures: map<string, nat>, path: string, pathMax: nat)
    requires pathMax >= 1 && |path| >= 1
    requires Status(MkdirPOutcome(dirs, failures, path, pathMax)) == 0
    ensures var once := MkdirPOutcome(dirs, failures, path, pathMax);
            var twice := MkdirPOutcome(once.dirs, failures, path, pathMax);
            Status(twice) == 0 && twice.dirs == once.dirs
            && twice.calls == once.calls && twice.errno == AlreadyExists
  {
    var once := MkdirPOutcome(dirs, failures, path, pathMax);
    MkdirPSucceedsIff(dirs, failures, path, pathMax);
    WalkOverExisting(Start(once.dirs), failures, Targets(path));
  }

  /** The nested example: with `/a` present and nothing refused, `mkdir_p("/a/b/c")`
      succeeds, creating only `/a/b` and `/a/b/c`; a second run succeeds too. */
  lemma NestedExample()
    ensures var once := MkdirPOutcome({"/a"}, map[], "/a/b/c", 4096);
            Status(once) == 0 && once.dirs == {"/a", "/a/b", "/a/b/c"}
            && once.calls == ["/a", "/a/b", "/a/b/c"]
            && Status(MkdirPOutcome(once.dirs, map[], "/a/b/c", 4096)) == 0
  {
    var path, fails := "/a/b/c", map[];
    var ts := ["/a", "/a/b", "/a/b/c"];
    assert Targets(path) == ts by {
      assert path[1] != '/' && path[2] == '/' && path[3] != '/' && path[4] == '/';
      assert path[..2] == "/a" && path[..4] == "/a/b";
      assert SlashPrefixes(path, 2) == [];
      assert SlashPrefixes(path, 3) == ["/a"];
      assert SlashPrefixes(path, 4) == ["/a"];
      assert SlashPrefixes(path, 5) == ["/a", "/a/b"];
    }
    WalkCompletes(Start({"/a"}), fails, ts);
    assert Elems(ts) == {"/a", "/a/b", "/a/b/c"};
    MkdirPIdempotent({"/a"}, fails, path, 4096);
  }
}
