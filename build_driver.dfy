/**
 * The incremental build script: source discovery, per-file compiler command
 * lines, object paths, and the driver that compares preprocessor fingerprints
 * with the table saved by the previous run, launches compile jobs, persists the
 * new table and links.  Running a process, hashing and the file system are
 * oracles: `preprocess` gives the digest of a file's preprocessed output (None
 * when the preprocessor fails, which raises in the script) and `status` the
 * exit status of its compile job.
 */
module BuildDriver {
  import opened Wrappers

  type Digest = string
  type Sums = map<string, Digest>

  const CFlags: seq<string> := ["-g", "-Wall", "-Wno-missing-braces", "-Werror", "-pedantic", "-I.", "-IViolet", "-ferror-limit=3", "-O2"]
  const CppFlags: seq<string> := ["-std=c++11"]
  const SourceDirs: seq<string> := ["Violet", "Lodepng"]
  const Libs: seq<string> := ["-lGL", "-lGLU", "GLFW/libglfw3.a", "glbinding/libglbinding.a", "-lX11", "-lXxf86vm", "-lpthread", "-lXrandr", "-lXi", "-lXinerama", "-lXcursor", "-rdynamic"]
  const Executable: string := "violet"

  predicate EndsWith(s: string, suffix: string) {
    |suffix| <= |s| && s[|s| - |suffix|..] == suffix
  }

  predicate IsSource(fname: string) {
    EndsWith(fname, ".cpp") || EndsWith(fname, ".c")
  }

  /** Path joining for a relative second component, as the host path library does it. */
  function Join(dir: string, name: string): (r: string)
    ensures EndsWith(r, name)
  {
    if |name| > 0 && name[0] == '/' then name
    else if dir == [] || dir[|dir| - 1] == '/' then dir + name
    else dir + "/" + name
  }

  /** One directory visited by the tree walk: its path and the file names in it. */
  datatype WalkEntry = WalkEntry(path: string, fnames: seq<string>)

  /** The files of one walked directory whose names end in `.cpp` or `.c`, joined to the directory, in listing order. */
  function SourcesIn(path: string, fnames: seq<string>): (r: seq<string>)
    ensures forall k :: 0 <= k < |r| ==> IsSource(r[k])
    ensures forall f :: f in fnames && IsSource(f) ==> Join(path, f) in r
    decreases |fnames|
  {
    if fnames == [] then []
    else
      var last := fnames[|fnames| - 1];
      assert forall f :: f in fnames ==> f in fnames[..|fnames| - 1] || f == last;
      JoinKeepsSuffix(path, last);
      SourcesIn(path, fnames[..|fnames| - 1]) + (if IsSource(last) then [Join(path, last)] else [])
  }

  /** The positions of the `.cpp` and `.c` names in a listing, in increasing order. */
  function SourcePositions(fnames: seq<string>): (ix: seq<nat>)
    ensures forall k :: 0 <= k < |ix| ==> ix[k] < |fnames| && IsSource(fnames[ix[k]])
    ensures forall k, l :: 0 <= k < l < |ix| ==> ix[k] < ix[l]
    ensures forall j :: 0 <= j < |fnames| && IsSource(fnames[j]) ==> j in ix
    decreases |fnames|
  {
    if fnames == [] then []
    else
      var n := |fnames| - 1;
      var init := fnames[..n];
      var rest := SourcePositions(init);
      assert forall k :: 0 <= k < |rest| ==> fnames[rest[k]] == init[rest[k]];
      assert forall j :: 0 <= j < n ==> fnames[j] == init[j];
      if IsSource(fnames[n]) then rest + [n] else rest
  }

  /**
   * The comprehension's contents and order: the kept names are exactly the
   * source names of the listing, each joined to the directory, in listing
   * order.
   */
  lemma {:induction false} SourcesInPositions(path: string, fnames: seq<string>)
    ensures var r, ix := SourcesIn(path, fnames), SourcePositions(fnames);
      |r| == |ix| && forall k :: 0 <= k < |ix| ==> r[k] == Join(path, fnames[ix[k]])
    decreases |fnames|
  {
    if fnames != [] {
      var n := |fnames| - 1;
      var init, last := fnames[..n], fnames[n];
      SourcesInPositions(path, init);
      var r0, ix0 := SourcesIn(path, init), SourcePositions(init);
      var r, ix := SourcesIn(path, fnames), SourcePositions(fnames);
      assert r == r0 + (if IsSource(last) then [Join(path, last)] else []);
      assert ix == ix0 + (if IsSource(last) then [n] else []);
      forall k | 0 <= k < |ix|
        ensures r[k] == Join(path, fnames[ix[k]])
      {
        if k < |ix0| {
          assert r[k] == r0[k] && ix[k] == ix0[k];
          assert fnames[ix0[k]] == init[ix0[k]];
        }
      }
    }
  }

  /** Every name `SourcesIn` keeps is a listed source name joined to the directory. */
  lemma SourcesInOnlySources(path: string, fnames: seq<string>, k: nat)
    requires k < |SourcesIn(path, fnames)|
    ensures exists j :: 0 <= j < |fnames| && IsSource(fnames[j]) && SourcesIn(path, fnames)[k] == Join(path, fnames[j])
  {
    SourcesInPositions(path, fnames);
    var ix := SourcePositions(fnames);
  }

  /** Every file of the walk whose name ends in `.cpp` or `.c`, joined to its directory. */
  function MakeDir(walk: seq<WalkEntry>): (r: seq<string>)
    ensures forall k :: 0 <= k < |r| ==> IsSource(r[k])
    ensures forall e, f :: e in walk && f in e.fnames && IsSource(f) ==> Join(e.path, f) in r
  {
    if walk == [] then [] else SourcesIn(walk[0].path, walk[0].fnames) + MakeDir(walk[1..])
  }

  /** Every discovered file is a source name listed in some walked directory, joined to that directory. */
  lemma {:induction false} MakeDirOnlySources(walk: seq<WalkEntry>, k: nat)
    requires k < |MakeDir(walk)|
    ensures exists i, j ::
      0 <= i < |walk| && 0 <= j < |walk[i].fnames| && IsSource(walk[i].fnames[j])
      && MakeDir(walk)[k] == Join(walk[i].path, walk[i].fnames[j])
    decreases |walk|
  {
    var first := SourcesIn(walk[0].path, walk[0].fnames);
    if k < |first| {
      SourcesInOnlySources(walk[0].path, walk[0].fnames, k);
      var j :| 0 <= j < |walk[0].fnames| && IsSource(walk[0].fnames[j]) && first[k] == Join(walk[0].path, walk[0].fnames[j]);
      assert MakeDir(walk)[k] == first[k];
    } else {
      MakeDirOnlySources(walk[1..], k - |first|);
      var i, j :| 0 <= i < |walk[1..]| && 0 <= j < |walk[1..][i].fnames| && IsSource(walk[1..][i].fnames[j])
        && MakeDir(walk[1..])[k - |first|] == Join(walk[1..][i].path, walk[1..][i].fnames[j]);
      assert walk[i + 1] == walk[1..][i];
      assert MakeDir(walk)[k] == MakeDir(walk[1..])[k - |first|];
    }
  }

  /** The walk's order is kept: the directories' sources follow one another as the walk visits them. */
  lemma {:induction false} MakeDirAppend(a: seq<WalkEntry>, b: seq<WalkEntry>)
    ensures MakeDir(a + b) == MakeDir(a) + MakeDir(b)
    decreases |a|
  {
    if a == [] {
      assert a + b == b;
    } else {
      assert (a + b)[1..] == a[1..] + b;
      MakeDirAppend(a[1..], b);
    }
  }

  lemma JoinKeepsSuffix(dir: string, name: string)
    ensures IsSource(name) ==> IsSource(Join(dir, name))
  {
    var r := Join(dir, name);
    if EndsWith(name, ".cpp") {
      assert r[|r| - 4..] == name[|name| - 4..];
    }
    if EndsWith(name, ".c") {
      assert r[|r| - 2..] == name[|name| - 2..];
    }
  }

  /** The sources of every source directory, in directory order. */
  function Discover(walkOf: string -> seq<WalkEntry>): seq<string> {
    MakeDir(walkOf(SourceDirs[0])) + MakeDir(walkOf(SourceDirs[1]))
  }

  function Flags(fname: string): seq<string> {
    if EndsWith(fname, ".cpp") then CFlags + CppFlags else CFlags
  }

  function Cxx(fname: string): string {
    if EndsWith(fname, ".c") then "clang" else "clang++"
  }

  function Command(fname: string): seq<string> {
    [Cxx(fname), fname] + Flags(fname)
  }

  /** C++ sources get the C++ driver and the language-standard flag; C sources get neither. */
  lemma CommandByLanguage(fname: string)
    ensures EndsWith(fname, ".cpp") ==>
      Command(fname)[0] == "clang++" && Command(fname)[1] == fname && Command(fname)[2..] == CFlags + ["-std=c++11"]
    ensures EndsWith(fname, ".c") ==>
      Command(fname)[0] == "clang" && Command(fname)[1] == fname && Command(fname)[2..] == CFlags
    ensures Cxx("") == "clang++"
  {
    if EndsWith(fname, ".cpp") {
      assert fname[|fname| - 2..] == fname[|fname| - 4..][2..];
    }
    if EndsWith(fname, ".c") {
      assert fname[|fname| - 1] == 'c';
    }
  }

  /** Non-overlapping, left-to-right replacement of every occurrence of `pat`. */
  function ReplaceAll(s: string, pat: string, rep: string): string
    requires |pat| > 0
    decreases |s|
  {
    if |s| < |pat| then s
    else if s[..|pat|] == pat then rep + ReplaceAll(s[|pat|..], pat, rep)
    else [s[0]] + ReplaceAll(s[1..], pat, rep)
  }

  function Obj(fname: string): string {
    Join("obj", ReplaceAll(ReplaceAll(fname, ".cpp", ".o"), ".c", ".o"))
  }

  /** A prefix that holds no character starting the pattern passes through unchanged. */
  lemma {:induction false} ReplaceAllSkipsPrefix(stem: string, t: string, pat: string, rep: string)
    requires |pat| > 0
    requires forall k :: 0 <= k < |stem| ==> stem[k] != pat[0]
    ensures ReplaceAll(stem + t, pat, rep) == stem + ReplaceAll(t, pat, rep)
    decreases |stem|
  {
    if stem == [] {
      assert stem + t == t;
    } else {
      var s := stem + t;
      if |s| < |pat| {
        ReplaceAllShort(t, pat, rep);
      } else {
        assert s[..|pat|][0] == stem[0];
        assert s[..|pat|] != pat;
        assert ReplaceAll(s, pat, rep) == [s[0]] + ReplaceAll(s[1..], pat, rep);
        assert s[1..] == stem[1..] + t;
        ReplaceAllSkipsPrefix(stem[1..], t, pat, rep);
        assert [stem[0]] + stem[1..] == stem;
      }
    }
  }

  lemma ReplaceAllShort(t: string, pat: string, rep: string)
    requires |pat| > 0 && |t| < |pat|
    ensures ReplaceAll(t, pat, rep) == t
  {
  }

  /**
   * For a path whose only dot is that of its extension, both `.cpp` and `.c`
   * sources land on `obj/<path>.o`; so a C and a C++ file with the same stem
   * share one object file.
   */
  lemma ObjOfSource(stem: string)
    requires forall k :: 0 <= k < |stem| ==> stem[k] != '.'
    requires |stem| > 0 && stem[0] != '/'
    ensures Obj(stem + ".cpp") == "obj/" + stem + ".o"
    ensures Obj(stem + ".c") == "obj/" + stem + ".o"
  {
    ReplaceAllShort("", ".cpp", ".o");
    ReplaceAllShort("", ".c", ".o");
    ReplaceAllShort("o", ".c", ".o");
    ReplaceAllSkipsPrefix(stem, ".cpp", ".cpp", ".o");
    assert ReplaceAll(".cpp", ".cpp", ".o") == ".o";
    ReplaceAllSkipsPrefix(stem, ".o", ".c", ".o");
    assert ReplaceAll(".o", ".c", ".o") == ".o";
    var o := stem + ".o";
    assert ReplaceAll(ReplaceAll(stem + ".cpp", ".cpp", ".o"), ".c", ".o") == o;
    assert o[0] == stem[0];
    assert Join("obj", o) == "obj/" + stem + ".o";
    ReplaceAllSkipsPrefix(stem, ".c", ".cpp", ".o");
    ReplaceAllShort(".c", ".cpp", ".o");
    ReplaceAllSkipsPrefix(stem, ".c", ".c", ".o");
    assert ReplaceAll(".c", ".c", ".o") == ".o";
    assert ReplaceAll(ReplaceAll(stem + ".c", ".cpp", ".o"), ".c", ".o") == o;
  }

  /** A file is recompiled iff the old table has no entry for it or a different one. */
  predicate Scheduled(oldSums: Sums, fname: string, digest: Digest) {
    fname !in oldSums || oldSums[fname] != digest
  }

  predicate AllPreprocess(sources: seq<string>, preprocess: string -> Option<Digest>) {
    forall k :: 0 <= k < |sources| ==> preprocess(sources[k]).Some?
  }

  /** Index of the first source whose preprocessing fails, |sources| if none does. */
  function FirstPreprocessFailure(sources: seq<string>, preprocess: string -> Option<Digest>): (n: nat)
    ensures n <= |sources|
    ensures forall k :: 0 <= k < n ==> preprocess(sources[k]).Some?
    ensures n < |sources| ==> preprocess(sources[n]).None?
  {
    if sources == [] then 0
    else if preprocess(sources[0]).None? then 0
    else 1 + FirstPreprocessFailure(sources[1..], preprocess)
  }

  /** The set of files for which a compile job is launched. */
  function Jobs(oldSums: Sums, sources: seq<string>, preprocess: string -> Option<Digest>): set<string> {
    set f | f in sources && preprocess(f).Some? && Scheduled(oldSums, f, preprocess(f).value)
  }

  /** The compile command lines launched, in source order. */
  function Launched(oldSums: Sums, sources: seq<string>, preprocess: string -> Option<Digest>): seq<seq<string>>
    decreases |sources|
  {
    if sources == [] then []
    else
      var f := sources[|sources| - 1];
      var before := Launched(oldSums, sources[..|sources| - 1], preprocess);
      if preprocess(f).Some? && Scheduled(oldSums, f, preprocess(f).value)
      then before + [Command(f) + ["-c", "-o", Obj(f)]]
      else before
  }

  /** The table persisted after every job has finished: successful or skipped files keep their new digest. */
  function NextSums(oldSums: Sums, sources: seq<string>, preprocess: string -> Option<Digest>, status: string -> int): Sums
    requires AllPreprocess(sources, preprocess)
  {
    map f | f in sources && (f !in Jobs(oldSums, sources, preprocess) || status(f) == 0) :: preprocess(f).value
  }

  function LinkCommand(sources: seq<string>): seq<string> {
    [Cxx(""), "-o", Executable] + seq(|sources|, k requires 0 <= k < |sources| => Obj(sources[k])) + CFlags + Libs
  }

  /** How the script ends. The link's own exit status is not looked at. */
  datatype Outcome =
    | PreprocessRaised(fname: string)
    | CompileFailed
    | Linked(link: seq<string>)

  /** The digest table as the loop fills it, one source at a time. */
  function Digests(sources: seq<string>, preprocess: string -> Option<Digest>): Sums
    requires AllPreprocess(sources, preprocess)
    decreases |sources|
  {
    if sources == [] then map[]
    else
      var f := sources[|sources| - 1];
      Digests(sources[..|sources| - 1], preprocess)[f := preprocess(f).value]
  }

  /** The job table as the loop fills it: one exit status per launched file. */
  function JobStatus(oldSums: Sums, sources: seq<string>, preprocess: string -> Option<Digest>, status: string -> int): map<string, int>
    requires AllPreprocess(sources, preprocess)
    decreases |sources|
  {
    if sources == [] then map[]
    else
      var f := sources[|sources| - 1];
      var before := JobStatus(oldSums, sources[..|sources| - 1], preprocess, status);
      if Scheduled(oldSums, f, preprocess(f).value) then before[f := status(f)] else before
  }

  lemma {:induction false} DigestsHoldEverySource(sources: seq<string>, preprocess: string -> Option<Digest>)
    requires AllPreprocess(sources, preprocess)
    ensures forall f :: f in Digests(sources, preprocess) <==> f in sources
    ensures forall f :: f in Digests(sources, preprocess) ==> Digests(sources, preprocess)[f] == preprocess(f).value
    decreases |sources|
  {
    if sources != [] {
      var init := sources[..|sources| - 1];
      DigestsHoldEverySource(init, preprocess);
      assert sources == init + [sources[|sources| - 1]];
    }
  }

  lemma {:induction false} JobStatusHoldsJobs(oldSums: Sums, sources: seq<string>, preprocess: string -> Option<Digest>, status: string -> int)
    requires AllPreprocess(sources, preprocess)
    ensures JobStatus(oldSums, sources, preprocess, status).Keys == Jobs(oldSums, sources, preprocess)
    ensures forall f :: f in JobStatus(oldSums, sources, preprocess, status) ==> JobStatus(oldSums, sources, preprocess, status)[f] == status(f)
    decreases |sources|
  {
    if sources != [] {
      var init := sources[..|sources| - 1];
      JobStatusHoldsJobs(oldSums, init, preprocess, status);
      assert sources == init + [sources[|sources| - 1]];
    }
  }

  /** Filtering the loop's tables as the script does yields `NextSums`. */
  lemma FilterGivesNextSums(oldSums: Sums, sources: seq<string>, preprocess: string -> Option<Digest>, status: string -> int)
    requires AllPreprocess(sources, preprocess)
    ensures var sums := Digests(sources, preprocess);
      var procs := JobStatus(oldSums, sources, preprocess, status);
      (map f | f in sums && (f !in procs || procs[f] == 0) :: sums[f]) == NextSums(oldSums, sources, preprocess, status)
  {
    DigestsHoldEverySource(sources, preprocess);
    JobStatusHoldsJobs(oldSums, sources, preprocess, status);
  }

  /** How one more source extends each of the tables the driver loop keeps. */
  lemma LoopStep(oldSums: Sums, sources: seq<string>, preprocess: string -> Option<Digest>, status: string -> int, i: nat)
    requires i < |sources| && AllPreprocess(sources[..i], preprocess) && preprocess(sources[i]).Some?
    ensures AllPreprocess(sources[..i + 1], preprocess)
    ensures var f, d := sources[i], preprocess(sources[i]).value;
      && Digests(sources[..i + 1], preprocess) == Digests(sources[..i], preprocess)[f := d]
      && JobStatus(oldSums, sources[..i + 1], preprocess, status) ==
         (if Scheduled(oldSums, f, d) then JobStatus(oldSums, sources[..i], preprocess, status)[f := status(f)]
          else JobStatus(oldSums, sources[..i], preprocess, status))
      && Launched(oldSums, sources[..i + 1], preprocess) ==
         (if Scheduled(oldSums, f, d) then Launched(oldSums, sources[..i], preprocess) + [Command(f) + ["-c", "-o", Obj(f)]]
          else Launched(oldSums, sources[..i], preprocess))
  {
    var done, next := sources[..i], sources[..i + 1];
    assert next[..|next| - 1] == done && next[|next| - 1] == sources[i];
    forall k | 0 <= k < |next|
      ensures preprocess(next[k]).Some?
    {
      if k < i {
        assert next[k] == done[k];
      }
    }
  }

  /**
   * One run of the script. `saved` is the table file as read (None when absent);
   * `persisted` is the table file when the script ends.
   */
  method RunBuild(saved: Option<Sums>, sources: seq<string>, preprocess: string -> Option<Digest>, status: string -> int)
    returns (outcome: Outcome, persisted: Sums, launched: seq<seq<string>>)
    ensures var n := FirstPreprocessFailure(sources, preprocess);
      if n < |sources| then
        && outcome == PreprocessRaised(sources[n])
        && persisted == (if saved.Some? then saved.value else map[])
        && launched == Launched(persisted, sources[..n], preprocess)
      else
        && var oldSums := if saved.Some? then saved.value else map[];
        && persisted == NextSums(oldSums, sources, preprocess, status)
        && launched == Launched(oldSums, sources, preprocess)
        && (outcome == CompileFailed <==> exists f :: f in Jobs(oldSums, sources, preprocess) && status(f) != 0)
        && (outcome != CompileFailed ==> outcome == Linked(LinkCommand(sources)))
  {
    var oldSums: Sums := if saved.Some? then saved.value else map[];
    var n, sums, procs;
    n, sums, procs, launched := Preprocess(oldSums, sources, preprocess, status);
    if n < |sources| {
      outcome := PreprocessRaised(sources[n]);
      persisted := oldSums;
      return;
    }
    assert sources[..n] == sources;
    outcome, persisted := Conclude(oldSums, sources, preprocess, status, sums, procs);
  }

  /**
   * The script after every job has finished: keep the digests of the files
   * that were skipped or compiled cleanly, then stop on a failed job or link.
   */
  method Conclude(oldSums: Sums, sources: seq<string>, preprocess: string -> Option<Digest>, status: string -> int,
                  sums: Sums, procs: map<string, int>)
    returns (outcome: Outcome, persisted: Sums)
    requires AllPreprocess(sources, preprocess)
    requires sums == Digests(sources, preprocess) && procs == JobStatus(oldSums, sources, preprocess, status)
    ensures persisted == NextSums(oldSums, sources, preprocess, status)
    ensures outcome == CompileFailed <==> exists f :: f in Jobs(oldSums, sources, preprocess) && status(f) != 0
    ensures outcome != CompileFailed ==> outcome == Linked(LinkCommand(sources))
  {
    FilterGivesNextSums(oldSums, sources, preprocess, status);
    JobStatusHoldsJobs(oldSums, sources, preprocess, status);
    persisted := map f | f in sums && (f !in procs || procs[f] == 0) :: sums[f];
    var failed := exists f :: f in procs && procs[f] != 0;
    if failed {
      outcome := CompileFailed;
      return;
    }
    outcome := Linked(LinkCommand(sources));
  }

  /**
   * The script's loop over the sources: preprocess each, record its digest,
   * and compile it when it is scheduled, until a preprocessing step raises.
   * It gives the index of that source (or the source count), the digests,
   * the compile statuses, and the compile commands launched.
   */
  method Preprocess(oldSums: Sums, sources: seq<string>, preprocess: string -> Option<Digest>, status: string -> int)
    returns (n: nat, sums: Sums, procs: map<string, int>, launched: seq<seq<string>>)
    ensures n == FirstPreprocessFailure(sources, preprocess) && n <= |sources|
    ensures launched == Launched(oldSums, sources[..n], preprocess)
    ensures n == |sources| ==>
      && AllPreprocess(sources, preprocess)
      && sums == Digests(sources, preprocess)
      && procs == JobStatus(oldSums, sources, preprocess, status)
  {
    sums, procs, launched := map[], map[], [];
    n := 0;
    while n < |sources|
      invariant 0 <= n <= |sources|
      invariant AllPreprocess(sources[..n], preprocess)
      invariant sums == Digests(sources[..n], preprocess)
      invariant procs == JobStatus(oldSums, sources[..n], preprocess, status)
      invariant launched == Launched(oldSums, sources[..n], preprocess)
    {
      var fname := sources[n];
      var digest := preprocess(fname);
      if digest.None? {
        FirstFailureAt(sources, preprocess, n);
        return;
      }
      LoopStep(oldSums, sources, preprocess, status, n);
      sums := sums[fname := digest.value];
      if Scheduled(oldSums, fname, digest.value) {
        launched := launched + [Command(fname) + ["-c", "-o", Obj(fname)]];
        procs := procs[fname := status(fname)];
      }
      n := n + 1;
    }
    assert sources[..n] == sources;
    FirstFailureAt(sources, preprocess, |sources|);
  }

  lemma {:induction false} FirstFailureAt(sources: seq<string>, preprocess: string -> Option<Digest>, i: nat)
    requires i <= |sources|
    requires AllPreprocess(sources[..i], preprocess)
    requires i < |sources| ==> preprocess(sources[i]).None?
    ensures FirstPreprocessFailure(sources, preprocess) == i
    decreases i
  {
    if i > 0 {
      FirstFailureAt(sources[1..], preprocess, i - 1);
    }
  }

  /**
   * A run in which every job succeeded leaves a table under which the same
   * sources, unchanged, schedule nothing.
   */
  lemma NoWorkAfterSuccess(oldSums: Sums, sources: seq<string>, preprocess: string -> Option<Digest>, status: string -> int)
    requires AllPreprocess(sources, preprocess)
    requires forall f :: f in Jobs(oldSums, sources, preprocess) ==> status(f) == 0
    ensures Jobs(NextSums(oldSums, sources, preprocess, status), sources, preprocess) == {}
  {
    var next := NextSums(oldSums, sources, preprocess, status);
    forall f | f in sources
      ensures !Scheduled(next, f, preprocess(f).value)
    {
      var k :| 0 <= k < |sources| && sources[k] == f;
      assert preprocess(sources[k]).Some?;
      assert f in next;
    }
  }

  /** A file whose compile job failed is absent from the new table, so it is compiled again next time. */
  lemma FailedJobRetried(oldSums: Sums, sources: seq<string>, preprocess: string -> Option<Digest>, status: string -> int, f: string)
    requires AllPreprocess(sources, preprocess)
    requires f in Jobs(oldSums, sources, preprocess) && status(f) != 0
    ensures f !in NextSums(oldSums, sources, preprocess, status)
    ensures f in Jobs(NextSums(oldSums, sources, preprocess, status), sources, preprocess)
  {
  }

  /** Files no longer discovered disappear from the table; unchanged files keep their entry. */
  lemma TableTracksSources(oldSums: Sums, sources: seq<string>, preprocess: string -> Option<Digest>, status: string -> int, f: string)
    requires AllPreprocess(sources, preprocess)
    ensures f !in sources ==> f !in NextSums(oldSums, sources, preprocess, status)
    ensures f in sources && f in oldSums && oldSums[f] == preprocess(f).value ==>
      f in NextSums(oldSums, sources, preprocess, status) && NextSums(oldSums, sources, preprocess, status)[f] == oldSums[f]
  {
  }
}
