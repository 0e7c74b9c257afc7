/**
 * What create_file, iterate and execute do to the program's state
 * (main.cpp:556-734), stated as functions: the overwrite latch, the user's
 * remaining input and the destination files, threaded from one source file
 * to the next.
 */
module Run {
  import opened Common
  import opened Options
  import opened Discovery
  import opened Rewrite
  import opened Overwrite

  /** The part of the world create_file changes: the latch, the lines still to be typed, the files. */
  datatype RunState = RunState(latch: bool, input: seq<string>, files: map<string, Bytes>)

  /** The settings create_file reads. */
  datatype Config = Config(prefix: Bytes, notice: Bytes, replace: bool)

  /** create_file's result and the state after it. */
  datatype Created = Created(created: bool, state: RunState)

  /** srcPath: the file name after the source directory and a backslash (none for an empty directory). */
  function SourcePath(d: DirectoryArgument, fname: string): (p: string)
    ensures d.src == "" ==> p == fname
    ensures d.src != "" ==> p == d.src + "\\" + fname
  {
    (if d.src == "" then "" else d.src + "\\") + fname
  }

  /** dstPath: the destination directory, a backslash and the file name. */
  function DestinationPath(d: DirectoryArgument, fname: string): (p: string)
    ensures p == d.dst + "\\" + fname
  {
    d.dst + "\\" + fname
  }

  /** The pattern iterate searches for: every file of src with the extension. */
  function FilePattern(d: DirectoryArgument, ext: string): (p: string)
    ensures d.src == "" ==> p == "*." + ext
    ensures d.src != "" ==> p == d.src + "\\*." + ext
  {
    (if d.src == "" then "" else d.src + "\\") + "*." + ext
  }

  /** Different file names in one directory have different destinations (and different sources). */
  lemma {:induction false} PathsInjective(d: DirectoryArgument, f: string, g: string)
    requires f != g
    ensures DestinationPath(d, f) != DestinationPath(d, g)
    ensures SourcePath(d, f) != SourcePath(d, g)
  {
    var p := DestinationPath(d, f);
    var q := DestinationPath(d, g);
    assert p[|d.dst| + 1..] == f && q[|d.dst| + 1..] == g;
    var pre := if d.src == "" then "" else d.src + "\\";
    assert SourcePath(d, f)[|pre|..] == f && SourcePath(d, g)[|pre|..] == g;
  }

  /**
   * A file f of a discovered subdirectory (relative path t below d) is read
   * from, and written to, the paths of t's tail joined with f below d itself:
   * the destination tree mirrors the source tree.
   */
  lemma {:induction false} PathsMirror(d: DirectoryArgument, t: string, f: string)
    requires |t| > 1 && t[0] == '\\'
    ensures SourcePath(Place(d, t), f) == SourcePath(d, t[1..] + "\\" + f)
    ensures DestinationPath(Place(d, t), f) == DestinationPath(d, t[1..] + "\\" + f)
  {
    assert t == "\\" + t[1..];
  }

  /**
   * target_directories lists the directory iterate searches and create_file
   * reads from: its pattern is the source path of "*".
   */
  lemma {:induction false} SearchIsSourcePath(d: DirectoryArgument)
    ensures SearchString(d) == SourcePath(d, "*")
  {
  }

  /** iterate searches for the source path of "*." + ext, where create_file then reads. */
  lemma {:induction false} PatternIsSourcePath(d: DirectoryArgument, ext: string)
    ensures FilePattern(d, ext) == SourcePath(d, "*." + ext)
  {
  }

  /**
   * create_file for one source file: None when it waits forever for an
   * answer; otherwise whether it created the destination, and the new state.
   */
  function CreateOutcome(st: RunState, cfg: Config, d: DirectoryArgument, fname: string, src: SourceFile): Option<Created>
  {
    var dst := DestinationPath(d, fname);
    match Check(st.latch, dst in st.files, st.input)
    case Waits => None
    case Refuse(n) => Some(Created(false, st.(input := st.input[n..])))
    case Proceed(latch, n) =>
      Some(Created(true, RunState(latch, st.input[n..], st.files[dst := Rewritten(src, cfg.prefix, cfg.notice, cfg.replace)])))
  }

  /** The entries iterate hands to create_file: neither hidden nor directories. */
  predicate IsTargetFile(e: Entry)
  {
    !e.isHidden && !e.isDir
  }

  /** The number of entries create_file is called for. */
  function TargetCount(es: seq<Entry>): nat
  {
    if es == [] then 0 else (if IsTargetFile(es[0]) then 1 else 0) + TargetCount(es[1..])
  }

  /** The count iterate returns and the state after it. */
  datatype Iterated = Iterated(count: nat, state: RunState)

  /**
   * iterate over the listing es of one pattern: create_file for each target
   * file in turn, counting the files created; None when some question is
   * never answered.
   */
  function IterateOutcome(st: RunState, cfg: Config, d: DirectoryArgument, es: seq<Entry>,
                          sources: string -> SourceFile): Option<Iterated>
    decreases |es|
  {
    if es == [] then Some(Iterated(0, st))
    else if !IsTargetFile(es[0]) then IterateOutcome(st, cfg, d, es[1..], sources)
    else
      var name := es[0].name;
      match CreateOutcome(st, cfg, d, name, sources(SourcePath(d, name)))
      case None => None
      case Some(c) =>
        match IterateOutcome(c.state, cfg, d, es[1..], sources)
        case None => None
        case Some(it) => Some(Iterated((if c.created then 1 else 0) + it.count, it.state))
  }

  /**
   * iterate creates at most one file per target file, never clears the latch
   * and never loses a destination file.
   */
  lemma {:induction false} IterateMonotone(st: RunState, cfg: Config, d: DirectoryArgument, es: seq<Entry>,
                                           sources: string -> SourceFile)
    requires IterateOutcome(st, cfg, d, es, sources).Some?
    ensures IterateOutcome(st, cfg, d, es, sources).value.count <= TargetCount(es)
    ensures st.latch ==> IterateOutcome(st, cfg, d, es, sources).value.state.latch
    ensures st.files.Keys <= IterateOutcome(st, cfg, d, es, sources).value.state.files.Keys
    decreases |es|
  {
    if es != [] {
      if IsTargetFile(es[0]) {
        var name := es[0].name;
        var c := CreateOutcome(st, cfg, d, name, sources(SourcePath(d, name))).value;
        IterateMonotone(c.state, cfg, d, es[1..], sources);
      } else {
        IterateMonotone(st, cfg, d, es[1..], sources);
      }
    }
  }

  /** A method's count n and the state st it leaves are those of outcome r; None on both sides when it waits. */
  predicate Reports(r: Option<Iterated>, n: Option<nat>, st: RunState)
  {
    (n.None? <==> r.None?) && (r.Some? ==> n == Some(r.value.count) && st == r.value.state)
  }

  /** n files created before an iteration that goes on as r. */
  function Plus(n: nat, r: Option<Iterated>): Option<Iterated>
  {
    match r
    case None => None
    case Some(it) => Some(Iterated(n + it.count, it.state))
  }

  /** One step of iterate, seen from the count so far. */
  lemma {:induction false} PlusStep(n: nat, st: RunState, cfg: Config, d: DirectoryArgument, es: seq<Entry>,
                 sources: string -> SourceFile)
    requires es != []
    ensures !IsTargetFile(es[0]) ==>
              Plus(n, IterateOutcome(st, cfg, d, es, sources)) == Plus(n, IterateOutcome(st, cfg, d, es[1..], sources))
    ensures IsTargetFile(es[0]) ==>
              match CreateOutcome(st, cfg, d, es[0].name, sources(SourcePath(d, es[0].name)))
              case None => IterateOutcome(st, cfg, d, es, sources) == None
              case Some(c) => Plus(n, IterateOutcome(st, cfg, d, es, sources)) ==
                              Plus(n + (if c.created then 1 else 0), IterateOutcome(c.state, cfg, d, es[1..], sources))
  {
  }

  // ---------------------------------------------------------------------------
  // Properties

  /** create_file returns false only when the user says no, and then changes no file and keeps the latch clear. */
  lemma {:induction false} CreateRefused(st: RunState, cfg: Config, d: DirectoryArgument, fname: string, src: SourceFile)
    requires CreateOutcome(st, cfg, d, fname, src).Some?
    ensures var c := CreateOutcome(st, cfg, d, fname, src).value;
            !c.created <==> !st.latch && DestinationPath(d, fname) in st.files
                            && Ask(st.input).Some? && !Ask(st.input).value.yes
    ensures var c := CreateOutcome(st, cfg, d, fname, src).value;
            !c.created ==> c.state.files == st.files && !c.state.latch
  {
  }

  /** A created destination holds the rewritten source; no other file changes. */
  lemma {:induction false} CreateWrites(st: RunState, cfg: Config, d: DirectoryArgument, fname: string, src: SourceFile)
    requires CreateOutcome(st, cfg, d, fname, src).Some?
    requires CreateOutcome(st, cfg, d, fname, src).value.created
    ensures var c := CreateOutcome(st, cfg, d, fname, src).value;
            && c.state.files[DestinationPath(d, fname)] == Rewritten(src, cfg.prefix, cfg.notice, cfg.replace)
            && (forall p :: p in st.files && p != DestinationPath(d, fname) ==> p in c.state.files && c.state.files[p] == st.files[p])
  {
  }

  /** With the latch set, every target file is created, none is asked about, and no input is read. */
  lemma {:induction false} LatchedCreatesAll(st: RunState, cfg: Config, d: DirectoryArgument, es: seq<Entry>,
                                             sources: string -> SourceFile)
    requires st.latch
    ensures IterateOutcome(st, cfg, d, es, sources).Some?
    ensures IterateOutcome(st, cfg, d, es, sources).value.count == TargetCount(es)
    ensures IterateOutcome(st, cfg, d, es, sources).value.state.input == st.input
    ensures IterateOutcome(st, cfg, d, es, sources).value.state.latch
    decreases |es|
  {
    if es != [] {
      if IsTargetFile(es[0]) {
        var name := es[0].name;
        var c := CreateOutcome(st, cfg, d, name, sources(SourcePath(d, name))).value;
        assert c.created && c.state.latch && c.state.input == st.input;
        LatchedCreatesAll(c.state, cfg, d, es[1..], sources);
      } else {
        LatchedCreatesAll(st, cfg, d, es[1..], sources);
      }
    }
  }

  /** A listing without target files (FindFirstFileW found nothing, or only directories and hidden files) gives 0. */
  lemma {:induction false} NoTargetsNoFiles(st: RunState, cfg: Config, d: DirectoryArgument, es: seq<Entry>,
                                            sources: string -> SourceFile)
    requires forall k :: 0 <= k < |es| ==> !IsTargetFile(es[k])
    ensures IterateOutcome(st, cfg, d, es, sources) == Some(Iterated(0, st))
    decreases |es|
  {
    if es != [] {
      NoTargetsNoFiles(st, cfg, d, es[1..], sources);
    }
  }

  /** Iterating never changes a file other than the destinations of the listed target files. */
  lemma {:induction false} OnlyDestinationsChange(st: RunState, cfg: Config, d: DirectoryArgument, es: seq<Entry>,
                                                  sources: string -> SourceFile, p: string)
    requires IterateOutcome(st, cfg, d, es, sources).Some?
    requires p in st.files
    requires forall k :: 0 <= k < |es| && IsTargetFile(es[k]) ==> DestinationPath(d, es[k].name) != p
    ensures p in IterateOutcome(st, cfg, d, es, sources).value.state.files
    ensures IterateOutcome(st, cfg, d, es, sources).value.state.files[p] == st.files[p]
    decreases |es|
  {
    if es != [] {
      if IsTargetFile(es[0]) {
        var name := es[0].name;
        var c := CreateOutcome(st, cfg, d, name, sources(SourcePath(d, name))).value;
        OnlyDestinationsChange(c.state, cfg, d, es[1..], sources, p);
      } else {
        OnlyDestinationsChange(st, cfg, d, es[1..], sources, p);
      }
    }
  }

  /** An empty source still counts as created: the destination is left with zero bytes. */
  lemma {:induction false} EmptySourceCreated(st: RunState, cfg: Config, d: DirectoryArgument, fname: string, src: SourceFile)
    requires |src.lines| == 0
    requires st.latch || DestinationPath(d, fname) !in st.files
    ensures CreateOutcome(st, cfg, d, fname, src) ==
            Some(Created(true, st.(files := st.files[DestinationPath(d, fname) := []])))
  {
  }

  /**
   * Two target files whose destinations both exist: a yes to the first
   * question creates both and asks nothing more; a no to it skips the first
   * and asks again about the second.
   */
  lemma {:induction false} TwoConflicts(st: RunState, cfg: Config, d: DirectoryArgument, e1: Entry, e2: Entry,
                                        sources: string -> SourceFile, answer: string, more: seq<string>)
    requires IsTargetFile(e1) && IsTargetFile(e2) && !st.latch
    requires DestinationPath(d, e1.name) in st.files && DestinationPath(d, e2.name) in st.files
    requires answer == "y" || answer == "n"
    requires st.input == [answer] + more
    ensures answer == "y" ==>
              && IterateOutcome(st, cfg, d, [e1, e2], sources).Some?
              && IterateOutcome(st, cfg, d, [e1, e2], sources).value.count == 2
              && IterateOutcome(st, cfg, d, [e1, e2], sources).value.state.input == more
    ensures answer == "n" ==>
              IterateOutcome(st, cfg, d, [e1, e2], sources) ==
              Plus(0, IterateOutcome(st.(input := more), cfg, d, [e2], sources))
  {
    var es := [e1, e2];
    assert es[1..] == [e2];
    assert Classify(st.input[0]) != Invalid;
    assert FirstAnswer(st.input) == 0;
    if answer == "y" {
      var c := CreateOutcome(st, cfg, d, e1.name, sources(SourcePath(d, e1.name))).value;
      assert st.input[1..] == more;
      assert c.created && c.state.latch && c.state.input == more;
      LatchedCreatesAll(c.state, cfg, d, [e2], sources);
      assert TargetCount([e2]) == 1 by {
        assert [e2][1..] == [];
      }
    } else {
      assert st.input[1..] == more;
      var c := CreateOutcome(st, cfg, d, e1.name, sources(SourcePath(d, e1.name))).value;
      assert !c.created && c.state == st.(input := more);
    }
  }

  // ---------------------------------------------------------------------------
  // execute: every configured directory with every extension

  /** The (directory, extension) pairs execute hands to iterate, in its loop order. */
  function Jobs(ds: seq<DirectoryArgument>, exts: seq<string>): seq<(DirectoryArgument, string)>
  {
    if ds == [] then [] else Pairs(ds[0], exts) + Jobs(ds[1..], exts)
  }

  /** One directory with each extension in turn. */
  function Pairs(d: DirectoryArgument, exts: seq<string>): seq<(DirectoryArgument, string)>
  {
    if exts == [] then [] else [(d, exts[0])] + Pairs(d, exts[1..])
  }

  /** The pairs from extension j on: (d, exts[j]) first, then those after it. */
  lemma {:induction false} PairsFrom(d: DirectoryArgument, exts: seq<string>, j: nat)
    requires j < |exts|
    ensures Pairs(d, exts[j..]) == [(d, exts[j])] + Pairs(d, exts[j + 1..])
  {
    assert exts[j..][0] == exts[j] && exts[j..][1..] == exts[j + 1..];
  }

  /** The pairs from directory i on: those of ds[i], then those of the directories after it. */
  lemma {:induction false} JobsFrom(ds: seq<DirectoryArgument>, exts: seq<string>, i: nat)
    requires i < |ds|
    ensures Jobs(ds[i..], exts) == Pairs(ds[i], exts) + Jobs(ds[i + 1..], exts)
  {
    assert ds[i..][0] == ds[i] && ds[i..][1..] == ds[i + 1..];
  }

  /**
   * The loops of execute: iterate for each pair, the counts added up; None
   * when some question is never answered.
   */
  function RunJobs(st: RunState, cfg: Config, jobs: seq<(DirectoryArgument, string)>,
                   find: string -> seq<Entry>, sources: string -> SourceFile): Option<Iterated>
    decreases |jobs|
  {
    if jobs == [] then Some(Iterated(0, st))
    else
      var (d, ext) := jobs[0];
      match IterateOutcome(st, cfg, d, find(FilePattern(d, ext)), sources)
      case None => None
      case Some(it) => Plus(it.count, RunJobs(it.state, cfg, jobs[1..], find, sources))
  }

  /** Over all the pairs the latch never reverts and no destination file disappears. */
  lemma {:induction false} RunJobsMonotone(st: RunState, cfg: Config, jobs: seq<(DirectoryArgument, string)>,
                                           find: string -> seq<Entry>, sources: string -> SourceFile)
    requires RunJobs(st, cfg, jobs, find, sources).Some?
    ensures st.latch ==> RunJobs(st, cfg, jobs, find, sources).value.state.latch
    ensures st.files.Keys <= RunJobs(st, cfg, jobs, find, sources).value.state.files.Keys
    decreases |jobs|
  {
    if jobs != [] {
      var (d, ext) := jobs[0];
      var it := IterateOutcome(st, cfg, d, find(FilePattern(d, ext)), sources).value;
      IterateMonotone(st, cfg, d, find(FilePattern(d, ext)), sources);
      RunJobsMonotone(it.state, cfg, jobs[1..], find, sources);
    }
  }

  /** What execute still reports: count files so far, then the pairs in jobs run from st. */
  predicate Pending(total: Option<Iterated>, count: nat, st: RunState, cfg: Config,
                    jobs: seq<(DirectoryArgument, string)>, find: string -> seq<Entry>, sources: string -> SourceFile)
  {
    total == Plus(count, RunJobs(st, cfg, jobs, find, sources))
  }

  /**
   * One pass of execute's inner loop: iterate for pair (d, ext) returned n and
   * left state st'; the total still to come is what the remaining pairs add.
   */
  lemma {:induction false} RunJobsStep(total: Option<Iterated>, count: nat, st: RunState, cfg: Config,
                                       d: DirectoryArgument, ext: string, rest: seq<(DirectoryArgument, string)>,
                                       find: string -> seq<Entry>, sources: string -> SourceFile,
                                       n: Option<nat>, st': RunState)
    requires Pending(total, count, st, cfg, [(d, ext)] + rest, find, sources)
    requires Reports(IterateOutcome(st, cfg, d, find(FilePattern(d, ext)), sources), n, st')
    ensures n.None? ==> total == None
    ensures n.Some? ==> Pending(total, count + n.value, st', cfg, rest, find, sources)
  {
    var jobs := [(d, ext)] + rest;
    assert jobs[0] == (d, ext) && jobs[1..] == rest;
  }

  /**
   * One pass of execute's outer loop: the pairs of directory d ran as
   * ExecuteDirectory reports, and the later directories' pairs follow.
   */
  lemma {:induction false} RunDirectoryStep(total: Option<Iterated>, count: nat, st: RunState, cfg: Config,
                                            first: seq<(DirectoryArgument, string)>,
                                            rest: seq<(DirectoryArgument, string)>,
                                            find: string -> seq<Entry>, sources: string -> SourceFile,
                                            n: Option<nat>, st': RunState)
    requires Pending(total, count, st, cfg, first + rest, find, sources)
    requires Reports(RunJobs(st, cfg, first, find, sources), n, st')
    ensures n.None? ==> total == None
    ensures n.Some? ==> Pending(total, count + n.value, st', cfg, rest, find, sources)
  {
    RunJobsAppend(st, cfg, first, rest, find, sources);
  }

  /** Running the pairs of a, then those of b. */
  function Then(r: Option<Iterated>, cfg: Config, b: seq<(DirectoryArgument, string)>,
                find: string -> seq<Entry>, sources: string -> SourceFile): Option<Iterated>
  {
    match r
    case None => None
    case Some(it) => Plus(it.count, RunJobs(it.state, cfg, b, find, sources))
  }

  /** The loops of execute can be split anywhere: the pairs of a, then those of b. */
  lemma {:induction false} RunJobsAppend(st: RunState, cfg: Config, a: seq<(DirectoryArgument, string)>,
                                         b: seq<(DirectoryArgument, string)>,
                                         find: string -> seq<Entry>, sources: string -> SourceFile)
    ensures RunJobs(st, cfg, a + b, find, sources) == Then(RunJobs(st, cfg, a, find, sources), cfg, b, find, sources)
    decreases |a|
  {
    if a == [] {
      assert a + b == b;
      match RunJobs(st, cfg, b, find, sources)
      case None =>
      case Some(it) =>
    } else {
      assert (a + b)[0] == a[0] && (a + b)[1..] == a[1..] + b;
      var (d, ext) := a[0];
      match IterateOutcome(st, cfg, d, find(FilePattern(d, ext)), sources)
      case None =>
      case Some(it) =>
        RunJobsAppend(it.state, cfg, a[1..], b, find, sources);
    }
  }

  /** The number of target files over all the listings of the pairs. */
  function TotalTargets(jobs: seq<(DirectoryArgument, string)>, find: string -> seq<Entry>): nat
  {
    if jobs == [] then 0 else TargetCount(find(FilePattern(jobs[0].0, jobs[0].1))) + TotalTargets(jobs[1..], find)
  }

  /** Once the latch is set every target file of every pair is created and nothing is asked. */
  lemma {:induction false} LatchedRunCreatesAll(st: RunState, cfg: Config, jobs: seq<(DirectoryArgument, string)>,
                                                find: string -> seq<Entry>, sources: string -> SourceFile)
    requires st.latch
    ensures RunJobs(st, cfg, jobs, find, sources).Some?
    ensures RunJobs(st, cfg, jobs, find, sources).value.count == TotalTargets(jobs, find)
    ensures RunJobs(st, cfg, jobs, find, sources).value.state.input == st.input
    decreases |jobs|
  {
    if jobs != [] {
      var (d, ext) := jobs[0];
      LatchedCreatesAll(st, cfg, d, find(FilePattern(d, ext)), sources);
      var it := IterateOutcome(st, cfg, d, find(FilePattern(d, ext)), sources).value;
      LatchedRunCreatesAll(it.state, cfg, jobs[1..], find, sources);
    }
  }

  /** The created-file count never exceeds the number of target files found. */
  lemma {:induction false} RunCountBounded(st: RunState, cfg: Config, jobs: seq<(DirectoryArgument, string)>,
                                           find: string -> seq<Entry>, sources: string -> SourceFile)
    requires RunJobs(st, cfg, jobs, find, sources).Some?
    ensures RunJobs(st, cfg, jobs, find, sources).value.count <= TotalTargets(jobs, find)
    decreases |jobs|
  {
    if jobs != [] {
      var (d, ext) := jobs[0];
      var it := IterateOutcome(st, cfg, d, find(FilePattern(d, ext)), sources).value;
      IterateMonotone(st, cfg, d, find(FilePattern(d, ext)), sources);
      RunCountBounded(it.state, cfg, jobs[1..], find, sources);
    }
  }

  /** No extension configured, or no directory: execute creates nothing. */
  lemma {:induction false} NoJobsNoFiles(st: RunState, cfg: Config, ds: seq<DirectoryArgument>,
                                         find: string -> seq<Entry>, sources: string -> SourceFile)
    ensures Jobs(ds, []) == []
    ensures RunJobs(st, cfg, Jobs(ds, []), find, sources) == Some(Iterated(0, st))
    decreases |ds|
  {
    if ds != [] {
      NoJobsNoFiles(st, cfg, ds[1..], find, sources);
    }
  }
}
