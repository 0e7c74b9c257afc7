/**
 * The directory walk of program::instance::target_directories
 * (main.cpp:499-554) and the merge of its results into mDirectories
 * (main.cpp:460-478), stated as functions.  The file system is a finite tree
 * of entries: what FindFirstFileW/FindNextFileW report for one search
 * pattern is a listing, and the listing of a subdirectory is the children of
 * its entry.
 */
module Discovery {
  import opened Common
  import opened Options

  /** One result of FindFirstFileW/FindNextFileW; `children` is the listing of the entry's own directory. */
  datatype Entry = Entry(name: string, isDir: bool, isHidden: bool, children: seq<Entry>)

  /** The pattern target_directories searches for: every entry of src. */
  function SearchString(d: DirectoryArgument): (pattern: string)
    ensures |pattern| > 0 && pattern[|pattern| - 1] == '*'
    ensures StartsWith(pattern, d.src)
    ensures d.src == "" ==> pattern == "*"
    ensures d.src != "" ==> pattern == d.src + "\\*"
  {
    d.src + (if d.src == "" then "*" else "\\*")
  }

  /** The current and parent directory entries. */
  predicate IsDotEntry(name: string)
  {
    name == "." || name == ".."
  }

  /** The walk enters an entry when it is a directory, not hidden, and not "." or "..". */
  predicate Descends(e: Entry)
  {
    e.isDir && !e.isHidden && !IsDotEntry(e.name)
  }

  /** The mapping for subdirectory `name` of d: a backslash and the name on both sides (none on an empty src). */
  function ChildOf(d: DirectoryArgument, name: string): DirectoryArgument
  {
    DirectoryArgument((if d.src == "" then "" else d.src + "\\") + name, d.dst + "\\" + name)
  }

  /**
   * The mappings target_directories appends for the listing es of directory d:
   * each entry it descends into, followed at once by everything below it.
   */
  function Discover(d: DirectoryArgument, es: seq<Entry>): seq<DirectoryArgument>
    decreases es
  {
    if es == [] then []
    else
      var e := es[0];
      (if Descends(e) then [ChildOf(d, e.name)] + Discover(ChildOf(d, e.name), e.children) else [])
      + Discover(d, es[1..])
  }

  /** What target_directories adds: nothing without /recurse. */
  function Targets(recurse: bool, d: DirectoryArgument, es: seq<Entry>): seq<DirectoryArgument>
  {
    if recurse then Discover(d, es) else []
  }

  // ---------------------------------------------------------------------------
  // An independent description of the walk: relative paths in pre-order

  /** Entries the file system reports always have a name. */
  predicate NamedTree(es: seq<Entry>)
    decreases es
  {
    forall k :: 0 <= k < |es| ==> es[k].name != "" && NamedTree(es[k].children)
  }

  /**
   * The paths, relative to the listed directory and each starting with a
   * backslash, of the directories the walk enters, in pre-order.
   */
  function RelativePaths(es: seq<Entry>): seq<string>
    decreases es
  {
    if es == [] then []
    else
      var e := es[0];
      (if Descends(e) then ["\\" + e.name] + Prefixed("\\" + e.name, RelativePaths(e.children)) else [])
      + RelativePaths(es[1..])
  }

  /** The mapping for relative path t below d: t after src (without its backslash when src is empty), t after dst. */
  function Place(d: DirectoryArgument, t: string): DirectoryArgument
    requires |t| > 0
  {
    DirectoryArgument(if d.src == "" then t[1..] else d.src + t, d.dst + t)
  }

  /** Every relative path starts with a backslash and a non-empty name. */
  predicate Relative(ts: seq<string>)
  {
    forall k :: 0 <= k < |ts| ==> |ts[k]| > 1 && ts[k][0] == '\\'
  }

  function PlaceAll(d: DirectoryArgument, ts: seq<string>): (r: seq<DirectoryArgument>)
    requires Relative(ts)
    ensures |r| == |ts|
    ensures forall k :: 0 <= k < |ts| ==> r[k] == Place(d, ts[k])
  {
    if ts == [] then [] else [Place(d, ts[0])] + PlaceAll(d, ts[1..])
  }

  lemma {:induction false} RelativePathsRelative(es: seq<Entry>)
    requires NamedTree(es)
    ensures Relative(RelativePaths(es))
    decreases es
  {
    if es != [] {
      var e := es[0];
      RelativePathsRelative(e.children);
      RelativePathsRelative(es[1..]);
    }
  }

  /** Placing below a child is placing below the parent with the child's name in front. */
  lemma {:induction false} PlaceBelowChild(d: DirectoryArgument, n: string, t: string)
    requires n != "" && |t| > 0
    ensures Place(ChildOf(d, n), t) == Place(d, "\\" + n + t)
  {
    var c := ChildOf(d, n);
    AppendAssoc(d.dst + "\\", n, t);
    AppendAssoc(d.dst, "\\", n);
    AppendAssoc(d.dst, "\\" + n, t);
    if d.src == "" {
      assert c.src == n;
      DropAppend("\\" + n, t, 1);
      assert ("\\" + n)[1..] == n;
    } else {
      AppendAssoc(d.src + "\\", n, t);
      AppendAssoc(d.src, "\\", n);
      AppendAssoc(d.src, "\\" + n, t);
    }
  }

  /** The relative paths of an entry the walk enters: its own, then those below it. */
  function EnteredPaths(e: Entry): seq<string>
  {
    ["\\" + e.name] + Prefixed("\\" + e.name, RelativePaths(e.children))
  }

  lemma {:induction false} EnteredRelative(e: Entry)
    requires e.name != "" && Relative(RelativePaths(e.children))
    ensures Relative(EnteredPaths(e))
  {
    var p := "\\" + e.name;
    var below := RelativePaths(e.children);
    var paths := EnteredPaths(e);
    forall k | 0 <= k < |paths|
      ensures |paths[k]| > 1 && paths[k][0] == '\\'
    {
      if k > 0 {
        assert paths[k] == p + below[k - 1];
      }
    }
  }

  /** One entered directory: its mapping and those below it are placed under its parent. */
  lemma {:induction false} EnteredMirrors(d: DirectoryArgument, e: Entry)
    requires e.name != "" && Relative(RelativePaths(e.children))
    requires Discover(ChildOf(d, e.name), e.children) == PlaceAll(ChildOf(d, e.name), RelativePaths(e.children))
    ensures Relative(EnteredPaths(e))
    ensures [ChildOf(d, e.name)] + Discover(ChildOf(d, e.name), e.children) == PlaceAll(d, EnteredPaths(e))
  {
    EnteredRelative(e);
    var c := ChildOf(d, e.name);
    var below := RelativePaths(e.children);
    var paths := EnteredPaths(e);
    var placed := PlaceAll(c, below);
    var rhs := PlaceAll(d, paths);
    assert |rhs| == 1 + |placed|;
    forall k | 0 <= k < |placed|
      ensures placed[k] == rhs[k + 1]
    {
      PlaceBelowChild(d, e.name, below[k]);
      assert paths[k + 1] == "\\" + e.name + below[k];
    }
    assert rhs[0] == c;
    assert rhs == [c] + placed;
  }

  /**
   * The walk builds mirrored paths: the k-th mapping it appends is src and dst
   * each extended by the k-th relative path of the pre-order.
   */
  lemma {:induction false} DiscoverMirrors(d: DirectoryArgument, es: seq<Entry>)
    requires NamedTree(es)
    ensures Relative(RelativePaths(es))
    ensures Discover(d, es) == PlaceAll(d, RelativePaths(es))
    decreases es
  {
    RelativePathsRelative(es);
    if es != [] {
      var e := es[0];
      assert NamedTree(es[1..]) by {
        assert forall k :: 0 <= k < |es| - 1 ==> es[1..][k] == es[k + 1];
      }
      DiscoverMirrors(d, es[1..]);
      if Descends(e) {
        DiscoverMirrors(ChildOf(d, e.name), e.children);
        EnteredMirrors(d, e);
        assert RelativePaths(es) == EnteredPaths(e) + RelativePaths(es[1..]);
        PlaceAllAppend(d, EnteredPaths(e), RelativePaths(es[1..]));
      }
    }
  }

  lemma {:induction false} PlaceAllAppend(d: DirectoryArgument, a: seq<string>, b: seq<string>)
    requires Relative(a) && Relative(b)
    ensures Relative(a + b)
    ensures PlaceAll(d, a + b) == PlaceAll(d, a) + PlaceAll(d, b)
  {
  }

  /** A listing with no directory to enter adds nothing. */
  lemma {:induction false} NothingToEnter(d: DirectoryArgument, es: seq<Entry>)
    requires forall k :: 0 <= k < |es| ==> !Descends(es[k])
    ensures Discover(d, es) == []
    decreases es
  {
    if es != [] {
      NothingToEnter(d, es[1..]);
    }
  }

  /** One step of the walk's loop: the prefix of the listing grows by entry es[i]. */
  lemma {:induction false} DiscoverNext(d: DirectoryArgument, es: seq<Entry>, i: nat)
    requires i < |es|
    ensures Discover(d, es[..i + 1]) == Discover(d, es[..i])
      + (if Descends(es[i]) then [ChildOf(d, es[i].name)] + Discover(ChildOf(d, es[i].name), es[i].children) else [])
  {
    DiscoverAppend(d, es[..i], [es[i]]);
    assert es[..i + 1] == es[..i] + [es[i]];
    assert [es[i]][1..] == [];
  }

  lemma {:induction false} DiscoverAppend(d: DirectoryArgument, a: seq<Entry>, b: seq<Entry>)
    ensures Discover(d, a + b) == Discover(d, a) + Discover(d, b)
    decreases |a|
  {
    if a != [] {
      assert (a + b)[0] == a[0];
      assert (a + b)[1..] == a[1..] + b;
      DiscoverAppend(d, a[1..], b);
    } else {
      assert a + b == b;
    }
  }

  // ---------------------------------------------------------------------------
  // The merge

  /** Some mapping of ds has source s. */
  predicate SourceIn(s: string, ds: seq<DirectoryArgument>)
  {
    exists k :: 0 <= k < |ds| && ds[k].src == s
  }

  /** One pass of the merge loop: n is appended unless a mapping already present has its src. */
  function MergeOne(ds: seq<DirectoryArgument>, n: DirectoryArgument): seq<DirectoryArgument>
  {
    if SourceIn(n.src, ds) then ds else ds + [n]
  }

  /**
   * The merge loop over the discovered mappings ns.  The configured entries
   * stay in place and in order (and are not de-duplicated among themselves);
   * every appended mapping comes from ns and its src is new at its position.
   */
  function MergeAll(ds: seq<DirectoryArgument>, ns: seq<DirectoryArgument>): (r: seq<DirectoryArgument>)
    ensures StartsWith(r, ds)
    ensures forall k :: |ds| <= k < |r| ==> r[k] in ns && !SourceIn(r[k].src, r[..k])
    decreases |ns|
  {
    if ns == [] then ds
    else
      var ds' := MergeOne(ds, ns[0]);
      assert StartsWith(ds', ds);
      assert forall k :: |ds| <= k < |ds'| ==> ds'[k] == ns[0] && !SourceIn(ds'[k].src, ds'[..k]) by {
        if !SourceIn(ns[0].src, ds) {
          assert ds'[..|ds|] == ds;
        }
      }
      var r := MergeAll(ds', ns[1..]);
      assert r[..|ds'|] == ds';
      assert forall k :: |ds| <= k < |ds'| ==> r[..k] == ds'[..k];
      r
  }

  /** After the merge every discovered source is targeted. */
  lemma {:induction false} MergeCovers(ds: seq<DirectoryArgument>, ns: seq<DirectoryArgument>)
    ensures forall j :: 0 <= j < |ns| ==> SourceIn(ns[j].src, MergeAll(ds, ns))
    ensures forall k :: 0 <= k < |ds| ==> SourceIn(ds[k].src, MergeAll(ds, ns))
    decreases |ns|
  {
    var r := MergeAll(ds, ns);
    if ns != [] {
      var ds' := MergeOne(ds, ns[0]);
      MergeCovers(ds', ns[1..]);
      assert r == MergeAll(ds', ns[1..]);
      if !SourceIn(ns[0].src, ds) {
        assert ds'[|ds|] == ns[0];
      }
      forall j | 0 <= j < |ns|
        ensures SourceIn(ns[j].src, r)
      {
        if j > 0 {
          assert ns[j] == ns[1..][j - 1];
        } else {
          var k :| 0 <= k < |ds'| && ds'[k].src == ns[0].src;
          assert r[k] == ds'[k];
        }
      }
      forall k | 0 <= k < |ds|
        ensures SourceIn(ds[k].src, r)
      {
        assert r[k] == ds'[k];
      }
    }
  }

  /** The appended sources are distinct from one another and from every configured source. */
  lemma {:induction false} AppendedSourcesDistinct(ds: seq<DirectoryArgument>, ns: seq<DirectoryArgument>, a: nat, b: nat)
    requires |ds| <= b < |MergeAll(ds, ns)|
    requires a < b
    ensures MergeAll(ds, ns)[a].src != MergeAll(ds, ns)[b].src
  {
    var r := MergeAll(ds, ns);
    assert r[..b][a] == r[a];
  }

  /**
   * The discovered mappings that are new where they stand: no configured
   * mapping and no earlier discovered one has their src.  They keep the order
   * of discovery.
   */
  function Fresh(ds: seq<DirectoryArgument>, ns: seq<DirectoryArgument>): seq<DirectoryArgument>
    decreases |ns|
  {
    if ns == [] then []
    else
      var init, last := ns[..|ns| - 1], ns[|ns| - 1];
      Fresh(ds, init) + (if SourceIn(last.src, ds) || SourceIn(last.src, init) then [] else [last])
  }

  /** Merging one more discovered mapping is one more pass of the merge loop. */
  lemma {:induction false} MergeAllSnoc(ds: seq<DirectoryArgument>, a: seq<DirectoryArgument>, n: DirectoryArgument)
    ensures MergeAll(ds, a + [n]) == MergeOne(MergeAll(ds, a), n)
    decreases |a|
  {
    if a == [] {
      assert a + [n] == [n] && [n][1..] == [];
    } else {
      assert (a + [n])[0] == a[0] && (a + [n])[1..] == a[1..] + [n];
      MergeAllSnoc(MergeOne(ds, a[0]), a[1..], n);
    }
  }

  /** After the merge a src is present exactly when it is configured or discovered. */
  lemma {:induction false} MergeSources(ds: seq<DirectoryArgument>, ns: seq<DirectoryArgument>, s: string)
    ensures SourceIn(s, MergeAll(ds, ns)) <==> SourceIn(s, ds) || SourceIn(s, ns)
  {
    var r := MergeAll(ds, ns);
    MergeCovers(ds, ns);
    if SourceIn(s, r) {
      var k :| 0 <= k < |r| && r[k].src == s;
      if k < |ds| {
        assert r[..|ds|] == ds && r[..|ds|][k] == r[k];
      } else {
        assert r[k] in ns;
        var j :| 0 <= j < |ns| && ns[j] == r[k];
      }
    }
    if SourceIn(s, ds) {
      var k :| 0 <= k < |ds| && ds[k].src == s;
    }
    if SourceIn(s, ns) {
      var j :| 0 <= j < |ns| && ns[j].src == s;
    }
  }

  /** The merge keeps the configured mappings and appends exactly the fresh discovered ones, in order. */
  lemma {:induction false} MergeIsFresh(ds: seq<DirectoryArgument>, ns: seq<DirectoryArgument>)
    ensures MergeAll(ds, ns) == ds + Fresh(ds, ns)
    decreases |ns|
  {
    if ns == [] {
      assert ds + [] == ds;
    } else {
      var init, last := ns[..|ns| - 1], ns[|ns| - 1];
      var tail := if SourceIn(last.src, ds) || SourceIn(last.src, init) then [] else [last];
      calc {
        MergeAll(ds, ns);
        { assert ns == init + [last]; MergeAllSnoc(ds, init, last); }
        MergeOne(MergeAll(ds, init), last);
        { MergeSources(ds, init, last.src); }
        MergeAll(ds, init) + tail;
        { MergeIsFresh(ds, init); }
        ds + Fresh(ds, init) + tail;
        { AppendAssoc(ds, Fresh(ds, init), tail); }
        ds + Fresh(ds, ns);
      }
    }
  }

  /** Two discovered mappings with one src: the first one is kept. */
  lemma {:induction false} FirstMappingWins(s: string, x: string, y: string)
    ensures MergeAll([], [DirectoryArgument(s, x), DirectoryArgument(s, y)]) == [DirectoryArgument(s, x)]
  {
    var ns := [DirectoryArgument(s, x), DirectoryArgument(s, y)];
    MergeIsFresh([], ns);
    assert ns[..1] == [ns[0]] && [ns[0]][..0] == [];
    assert SourceIn(s, ns[..1]);
  }

  /** Without /recurse the merge leaves the configured directories as they are. */
  lemma {:induction false} MergeNothing(ds: seq<DirectoryArgument>)
    ensures MergeAll(ds, []) == ds
  {
  }

  // ---------------------------------------------------------------------------
  // The whole discovery step of init

  /** The mappings target_directories collects for each configured directory in turn. */
  function DiscoverAll(recurse: bool, ds: seq<DirectoryArgument>, find: string -> seq<Entry>): seq<DirectoryArgument>
  {
    if ds == [] then []
    else Targets(recurse, ds[0], find(SearchString(ds[0]))) + DiscoverAll(recurse, ds[1..], find)
  }

  /** Walking one more configured directory appends its mappings. */
  lemma {:induction false} DiscoverAllAppend(recurse: bool, ds: seq<DirectoryArgument>, d: DirectoryArgument,
                                             find: string -> seq<Entry>)
    ensures DiscoverAll(recurse, ds + [d], find) == DiscoverAll(recurse, ds, find) + Targets(recurse, d, find(SearchString(d)))
    decreases |ds|
  {
    if ds == [] {
      assert [d][1..] == [];
    } else {
      assert (ds + [d])[1..] == ds[1..] + [d];
      DiscoverAllAppend(recurse, ds[1..], d, find);
    }
  }

  /** mDirectories at the end of init. */
  function TargetedDirectories(recurse: bool, ds: seq<DirectoryArgument>, find: string -> seq<Entry>): seq<DirectoryArgument>
  {
    MergeAll(ds, DiscoverAll(recurse, ds, find))
  }

  /** Without /recurse nothing is discovered and mDirectories is what the command line gave. */
  lemma {:induction false} NoRecurseNoDiscovery(ds: seq<DirectoryArgument>, find: string -> seq<Entry>)
    ensures DiscoverAll(false, ds, find) == []
    ensures TargetedDirectories(false, ds, find) == ds
    decreases |ds|
  {
    if ds != [] {
      NoRecurseNoDiscovery(ds[1..], find);
    }
  }
}
