/**
 * What a sector scan reports, stated against the walk and the previous
 * record: which entries give which event, that each path gets at most one
 * forward event, that each deletion is reported exactly once, the phase order
 * of the change list, the ignore set, and that a rescan of an unchanged tree
 * reports nothing.
 */
module ScanFacts {
  import opened Paths
  import opened State
  import opened Scan

  /** The walk yields a non-skipped file at `p` whose time is `m`. */
  ghost predicate WalkedFile(root: seq<string>, walk: seq<Entry>, p: string, m: Mtime)
  {
    exists i :: 0 <= i < |walk| && !Skipped(root, walk[i]) && walk[i].kind == File(m) && RelOf(walk[i]) == p
  }

  /** The walk yields a non-skipped directory at `p`. */
  ghost predicate WalkedDir(root: seq<string>, walk: seq<Entry>, p: string)
  {
    exists i :: 0 <= i < |walk| && !Skipped(root, walk[i]) && walk[i].kind == Dir && RelOf(walk[i]) == p
  }

  function Init(walk: seq<Entry>): seq<Entry>
    requires walk != []
  {
    walk[..|walk| - 1]
  }

  function Last(walk: seq<Entry>): Entry
    requires walk != []
  {
    walk[|walk| - 1]
  }

  lemma WalkedFileSplit(root: seq<string>, walk: seq<Entry>, p: string, m: Mtime)
    requires walk != []
    ensures WalkedFile(root, walk, p, m) <==>
      WalkedFile(root, Init(walk), p, m)
      || (!Skipped(root, Last(walk)) && Last(walk).kind == File(m) && RelOf(Last(walk)) == p)
  {
    var pre := Init(walk);
    if WalkedFile(root, walk, p, m) {
      var i :| 0 <= i < |walk| && !Skipped(root, walk[i]) && walk[i].kind == File(m) && RelOf(walk[i]) == p;
      if i < |pre| {
        assert pre[i] == walk[i];
      }
    }
    if WalkedFile(root, pre, p, m) {
      var i :| 0 <= i < |pre| && !Skipped(root, pre[i]) && pre[i].kind == File(m) && RelOf(pre[i]) == p;
      assert walk[i] == pre[i];
    }
  }

  lemma WalkedDirSplit(root: seq<string>, walk: seq<Entry>, p: string)
    requires walk != []
    ensures WalkedDir(root, walk, p) <==>
      WalkedDir(root, Init(walk), p)
      || (!Skipped(root, Last(walk)) && Last(walk).kind == Dir && RelOf(Last(walk)) == p)
  {
    var pre := Init(walk);
    if WalkedDir(root, walk, p) {
      var i :| 0 <= i < |walk| && !Skipped(root, walk[i]) && walk[i].kind == Dir && RelOf(walk[i]) == p;
      if i < |pre| {
        assert pre[i] == walk[i];
      }
    }
    if WalkedDir(root, pre, p) {
      var i :| 0 <= i < |pre| && !Skipped(root, pre[i]) && pre[i].kind == Dir && RelOf(pre[i]) == p;
      assert walk[i] == pre[i];
    }
  }

  // ---------------------------------------------------------------------------
  // The forward pass
  // ---------------------------------------------------------------------------

  /** The forward pass reports no deletion. */
  lemma {:induction false} ForwardHasNoDeletions(root: seq<string>, walk: seq<Entry>, oldFiles: map<string, Mtime>, oldDirs: set<string>)
    ensures forall k :: 0 <= k < |Forward(root, walk, oldFiles, oldDirs)| ==> Phase(Forward(root, walk, oldFiles, oldDirs)[k]) == 0
  {
    if walk != [] {
      ForwardHasNoDeletions(root, Init(walk), oldFiles, oldDirs);
    }
  }

  /**
   * NEW FILE at `p` is reported exactly when the walk yields a non-skipped
   * file at `p` and the old map has no key `p`.
   */
  lemma {:induction false} NewFileReported(root: seq<string>, walk: seq<Entry>, oldFiles: map<string, Mtime>, oldDirs: set<string>, p: string)
    ensures NewFile(p) in Forward(root, walk, oldFiles, oldDirs) <==>
      p !in oldFiles && exists m :: WalkedFile(root, walk, p, m)
  {
    if walk != [] {
      NewFileReported(root, Init(walk), oldFiles, oldDirs, p);
      var e := Last(walk);
      if e.kind.File? {
        WalkedFileSplit(root, walk, p, e.kind.mtime);
      }
      forall m | WalkedFile(root, walk, p, m)
        ensures WalkedFile(root, Init(walk), p, m) || (!Skipped(root, e) && e.kind == File(m) && RelOf(e) == p)
      {
        WalkedFileSplit(root, walk, p, m);
      }
      forall m | WalkedFile(root, Init(walk), p, m)
        ensures WalkedFile(root, walk, p, m)
      {
        WalkedFileSplit(root, walk, p, m);
      }
    }
  }

  /**
   * MODIFIED at `p` is reported exactly when the old map has key `p` and the
   * walk yields a non-skipped file at `p` whose time differs from the stored one.
   */
  lemma {:induction false} ModifiedReported(root: seq<string>, walk: seq<Entry>, oldFiles: map<string, Mtime>, oldDirs: set<string>, p: string)
    ensures Modified(p) in Forward(root, walk, oldFiles, oldDirs) <==>
      p in oldFiles && exists m :: m != oldFiles[p] && WalkedFile(root, walk, p, m)
  {
    if walk != [] {
      ModifiedReported(root, Init(walk), oldFiles, oldDirs, p);
      var e := Last(walk);
      if e.kind.File? {
        WalkedFileSplit(root, walk, p, e.kind.mtime);
      }
      forall m | WalkedFile(root, walk, p, m)
        ensures WalkedFile(root, Init(walk), p, m) || (!Skipped(root, e) && e.kind == File(m) && RelOf(e) == p)
      {
        WalkedFileSplit(root, walk, p, m);
      }
      forall m | WalkedFile(root, Init(walk), p, m)
        ensures WalkedFile(root, walk, p, m)
      {
        WalkedFileSplit(root, walk, p, m);
      }
    }
  }

  /** NEW DIR at `p` is reported exactly when the walk yields a non-skipped
      directory at `p` that the old set lacks. */
  lemma {:induction false} NewDirReported(root: seq<string>, walk: seq<Entry>, oldFiles: map<string, Mtime>, oldDirs: set<string>, p: string)
    ensures NewDir(p) in Forward(root, walk, oldFiles, oldDirs) <==>
      p !in oldDirs && WalkedDir(root, walk, p)
  {
    if walk != [] {
      NewDirReported(root, Init(walk), oldFiles, oldDirs, p);
      WalkedDirSplit(root, walk, p);
      var head, ev := Forward(root, Init(walk), oldFiles, oldDirs), EntryEvents(root, Last(walk), oldFiles, oldDirs);
      assert Forward(root, walk, oldFiles, oldDirs) == head + ev;
      assert NewDir(p) in ev <==> !Skipped(root, Last(walk)) && Last(walk).kind == Dir && RelOf(Last(walk)) == p && p !in oldDirs;
    }
  }

  /** Every forward event is about the path of a non-skipped entry of the walk. */
  lemma {:induction false} ForwardPathsWalked(root: seq<string>, walk: seq<Entry>, oldFiles: map<string, Mtime>, oldDirs: set<string>, k: nat)
    requires k < |Forward(root, walk, oldFiles, oldDirs)|
    ensures exists i :: 0 <= i < |walk| && !Skipped(root, walk[i]) && RelOf(walk[i]) == Forward(root, walk, oldFiles, oldDirs)[k].path
  {
    var pre := Init(walk);
    var fwd := Forward(root, walk, oldFiles, oldDirs);
    var head := Forward(root, pre, oldFiles, oldDirs);
    var ev := EntryEvents(root, Last(walk), oldFiles, oldDirs);
    assert fwd == head + ev;
    if k < |head| {
      assert fwd[k] == head[k];
      ForwardPathsWalked(root, pre, oldFiles, oldDirs, k);
      var i :| 0 <= i < |pre| && !Skipped(root, pre[i]) && RelOf(pre[i]) == head[k].path;
      assert walk[i] == pre[i];
    } else {
      assert fwd[k] == ev[k - |head|];
      assert !Skipped(root, Last(walk)) && RelOf(Last(walk)) == ev[k - |head|].path;
      assert walk[|walk| - 1] == Last(walk);
    }
  }

  /** With every path walked once, no two forward events share a path: each
      walked path is reported at most once. */
  lemma {:induction false} ForwardPathsUnique(root: seq<string>, walk: seq<Entry>, oldFiles: map<string, Mtime>, oldDirs: set<string>)
    requires UniquePaths(walk)
    ensures forall k1, k2 :: 0 <= k1 < k2 < |Forward(root, walk, oldFiles, oldDirs)| ==>
      Forward(root, walk, oldFiles, oldDirs)[k1].path != Forward(root, walk, oldFiles, oldDirs)[k2].path
  {
    if walk != [] {
      var pre := Init(walk);
      var e := Last(walk);
      assert UniquePaths(pre) by {
        forall i, j | 0 <= i < j < |pre| ensures RelOf(pre[i]) != RelOf(pre[j]) {
          assert pre[i] == walk[i] && pre[j] == walk[j];
        }
      }
      ForwardPathsUnique(root, pre, oldFiles, oldDirs);
      var head := Forward(root, pre, oldFiles, oldDirs);
      var fwd := Forward(root, walk, oldFiles, oldDirs);
      forall k1, k2 | 0 <= k1 < k2 < |fwd|
        ensures fwd[k1].path != fwd[k2].path
      {
        if k2 >= |head| {
          assert |EntryEvents(root, e, oldFiles, oldDirs)| <= 1;
          assert k1 < |head|;
          assert fwd[k2].path == RelOf(e);
          ForwardPathsWalked(root, pre, oldFiles, oldDirs, k1);
          var i :| 0 <= i < |pre| && !Skipped(root, pre[i]) && RelOf(pre[i]) == head[k1].path;
          assert pre[i] == walk[i];
        }
      }
    }
  }

  // ---------------------------------------------------------------------------
  // The recorded file map and directory set
  // ---------------------------------------------------------------------------

  /** Each entry of the walk adds at most one forward event, one file and one
      directory. */
  lemma {:induction false} WalkSizes(root: seq<string>, walk: seq<Entry>, oldFiles: map<string, Mtime>, oldDirs: set<string>)
    ensures |Forward(root, walk, oldFiles, oldDirs)| <= |walk|
    ensures |WalkFiles(root, walk)| <= |walk|
    ensures |WalkDirs(root, walk)| <= |walk|
    ensures forall i :: 0 <= i < |walk| ==> |EntryEvents(root, walk[i], oldFiles, oldDirs)| <= 1
  {
    if walk != [] {
      WalkSizes(root, Init(walk), oldFiles, oldDirs);
      var m := WalkFiles(root, Init(walk));
      var e := Last(walk);
      if !Skipped(root, e) && e.kind.File? {
        assert m[RelOf(e) := e.kind.mtime].Keys == m.Keys + {RelOf(e)};
      }
    }
  }

  /** The walked file map has a key exactly at the non-skipped files of the walk. */
  lemma {:induction false} WalkFilesKeys(root: seq<string>, walk: seq<Entry>, p: string)
    ensures p in WalkFiles(root, walk) <==> exists m :: WalkedFile(root, walk, p, m)
  {
    if walk != [] {
      WalkFilesKeys(root, Init(walk), p);
      var e := Last(walk);
      if e.kind.File? {
        WalkedFileSplit(root, walk, p, e.kind.mtime);
      }
      forall m | WalkedFile(root, walk, p, m)
        ensures WalkedFile(root, Init(walk), p, m) || (!Skipped(root, e) && e.kind == File(m) && RelOf(e) == p)
      {
        WalkedFileSplit(root, walk, p, m);
      }
      forall m | WalkedFile(root, Init(walk), p, m)
        ensures WalkedFile(root, walk, p, m)
      {
        WalkedFileSplit(root, walk, p, m);
      }
    }
  }

  /** With every path walked once, the walked file map holds each non-skipped
      file's observed time. */
  lemma {:induction false} WalkFilesTimes(root: seq<string>, walk: seq<Entry>, i: nat)
    requires UniquePaths(walk)
    requires i < |walk| && !Skipped(root, walk[i]) && walk[i].kind.File?
    ensures RelOf(walk[i]) in WalkFiles(root, walk)
    ensures WalkFiles(root, walk)[RelOf(walk[i])] == walk[i].kind.mtime
  {
    var pre := Init(walk);
    if i < |pre| {
      assert UniquePaths(pre) by {
        forall a, b | 0 <= a < b < |pre| ensures RelOf(pre[a]) != RelOf(pre[b]) {
          assert pre[a] == walk[a] && pre[b] == walk[b];
        }
      }
      assert pre[i] == walk[i];
      WalkFilesTimes(root, pre, i);
      assert RelOf(walk[i]) != RelOf(walk[|walk| - 1]);
    }
  }

  /** The walked directory set is exactly the non-skipped directories of the walk. */
  lemma {:induction false} WalkDirsMembers(root: seq<string>, walk: seq<Entry>, p: string)
    ensures p in WalkDirs(root, walk) <==> WalkedDir(root, walk, p)
  {
    if walk != [] {
      WalkDirsMembers(root, Init(walk), p);
      WalkedDirSplit(root, walk, p);
    }
  }

  /** An entry with an ignored component anywhere in its relative path, at
      any depth, is skipped. */
  lemma BeneathIgnoredIsSkipped(root: seq<string>, e: Entry, k: nat)
    requires k < |e.rel| && e.rel[k] in IgnoreDirs
    ensures Skipped(root, e)
  {
    assert (root + e.rel)[|root| + k] == e.rel[k];
  }

  /** A skipped entry is in neither the recorded files nor the recorded
      directories, and no forward event names it: another entry with the same
      path text has the same components, so it is skipped too. */
  lemma IgnoredExcluded(root: seq<string>, walk: seq<Entry>, oldFiles: map<string, Mtime>, oldDirs: set<string>, i: nat)
    requires PlainPaths(walk)
    requires i < |walk| && Skipped(root, walk[i])
    ensures RelOf(walk[i]) !in WalkFiles(root, walk)
    ensures RelOf(walk[i]) !in WalkDirs(root, walk)
    ensures forall k :: 0 <= k < |Forward(root, walk, oldFiles, oldDirs)| ==>
      Forward(root, walk, oldFiles, oldDirs)[k].path != RelOf(walk[i])
  {
    var p := RelOf(walk[i]);
    forall j | 0 <= j < |walk| && RelOf(walk[j]) == p
      ensures Skipped(root, walk[j])
    {
      JoinPathInjective(walk[j].rel, walk[i].rel);
    }
    WalkFilesKeys(root, walk, p);
    WalkDirsMembers(root, walk, p);
    forall k | 0 <= k < |Forward(root, walk, oldFiles, oldDirs)|
      ensures Forward(root, walk, oldFiles, oldDirs)[k].path != p
    {
      ForwardPathsWalked(root, walk, oldFiles, oldDirs, k);
    }
  }

  // ---------------------------------------------------------------------------
  // The whole change list
  // ---------------------------------------------------------------------------

  lemma PartsCount(changes: seq<Change>, fwd: seq<Change>, df: set<Change>, dd: set<Change>, c: Change)
    requires InParts(changes, fwd, df, dd)
    ensures multiset(changes)[c] == multiset(fwd)[c] + multiset(df)[c] + multiset(dd)[c]
  {
    var a, b := |fwd|, |fwd| + |df|;
    assert changes == changes[..a] + changes[a..b] + changes[b..];
  }

  lemma PartsInPhaseOrder(changes: seq<Change>, fwd: seq<Change>, df: set<Change>, dd: set<Change>)
    requires InParts(changes, fwd, df, dd)
    requires forall k :: 0 <= k < |fwd| ==> Phase(fwd[k]) == 0
    requires forall c :: c in df ==> Phase(c) == 1
    requires forall c :: c in dd ==> Phase(c) == 2
    ensures forall i, j :: 0 <= i < j < |changes| ==> Phase(changes[i]) <= Phase(changes[j])
  {
    var a, b := |fwd|, |fwd| + |df|;
    forall k | 0 <= k < |changes|
      ensures Phase(changes[k]) == if k < a then 0 else if k < b then 1 else 2
    {
      if k < a {
        assert changes[k] == changes[..a][k];
      } else if k < b {
        assert changes[k] in multiset(changes[a..b]) by { assert changes[k] == changes[a..b][k - a]; }
      } else {
        assert changes[k] in multiset(changes[b..]) by { assert changes[k] == changes[b..][k - b]; }
      }
    }
  }

  /** New and modified events come first, then deleted files, then deleted directories. */
  lemma ChangesInPhaseOrder(root: seq<string>, walk: seq<Entry>, prev: SectorState, changes: seq<Change>)
    requires IsDiff(root, walk, prev, changes)
    ensures forall i, j :: 0 <= i < j < |changes| ==> Phase(changes[i]) <= Phase(changes[j])
  {
    ForwardHasNoDeletions(root, walk, OldFiles(prev), OldDirs(prev));
    PartsInPhaseOrder(changes, Forward(root, walk, OldFiles(prev), OldDirs(prev)),
                      DeletedFiles(OldFiles(prev).Keys, WalkFiles(root, walk)), DeletedDirs(OldDirs(prev), WalkDirs(root, walk)));
  }

  /** Each old file missing from the walk is reported deleted exactly once;
      no other path is reported as a deleted file. */
  lemma DeletedFileOnce(root: seq<string>, walk: seq<Entry>, prev: SectorState, changes: seq<Change>, f: string)
    requires IsDiff(root, walk, prev, changes)
    ensures multiset(changes)[DeletedFile(f)] ==
      if f in OldFiles(prev) && f !in WalkFiles(root, walk) then 1 else 0
  {
    var fwd := Forward(root, walk, OldFiles(prev), OldDirs(prev));
    var df := DeletedFiles(OldFiles(prev).Keys, WalkFiles(root, walk));
    var dd := DeletedDirs(OldDirs(prev), WalkDirs(root, walk));
    PartsCount(changes, fwd, df, dd, DeletedFile(f));
    ForwardHasNoDeletions(root, walk, OldFiles(prev), OldDirs(prev));
    assert DeletedFile(f) !in fwd;
    assert DeletedFile(f) !in dd;
  }

  /** Each old directory missing from the walk is reported deleted exactly
      once; no other path is reported as a deleted directory. */
  lemma DeletedDirOnce(root: seq<string>, walk: seq<Entry>, prev: SectorState, changes: seq<Change>, d: string)
    requires IsDiff(root, walk, prev, changes)
    ensures multiset(changes)[DeletedDir(d)] ==
      if d in OldDirs(prev) && d !in WalkDirs(root, walk) then 1 else 0
  {
    var fwd := Forward(root, walk, OldFiles(prev), OldDirs(prev));
    var df := DeletedFiles(OldFiles(prev).Keys, WalkFiles(root, walk));
    var dd := DeletedDirs(OldDirs(prev), WalkDirs(root, walk));
    PartsCount(changes, fwd, df, dd, DeletedDir(d));
    ForwardHasNoDeletions(root, walk, OldFiles(prev), OldDirs(prev));
    assert DeletedDir(d) !in fwd;
    assert DeletedDir(d) !in df;
  }

  /** A walk that agrees entry by entry with the old record reports nothing new. */
  lemma {:induction false} ForwardEmptyWhenAgreeing(root: seq<string>, walk: seq<Entry>, oldFiles: map<string, Mtime>, oldDirs: set<string>)
    requires forall i :: 0 <= i < |walk| && !Skipped(root, walk[i]) && walk[i].kind.File? ==>
      RelOf(walk[i]) in oldFiles && oldFiles[RelOf(walk[i])] == walk[i].kind.mtime
    requires forall i :: 0 <= i < |walk| && !Skipped(root, walk[i]) && walk[i].kind.Dir? ==>
      RelOf(walk[i]) in oldDirs
    ensures Forward(root, walk, oldFiles, oldDirs) == []
  {
    if walk != [] {
      var pre := Init(walk);
      forall i | 0 <= i < |pre| ensures pre[i] == walk[i] { }
      ForwardEmptyWhenAgreeing(root, pre, oldFiles, oldDirs);
    }
  }

  /**
   * A walk whose files and times are exactly the old file map and whose
   * directories are exactly the old directory set produces an empty change list.
   */
  lemma NoChangesWhenUnchanged(root: seq<string>, walk: seq<Entry>, prev: SectorState, changes: seq<Change>)
    requires UniquePaths(walk)
    requires OldFiles(prev) == WalkFiles(root, walk)
    requires OldDirs(prev) == WalkDirs(root, walk)
    requires IsDiff(root, walk, prev, changes)
    ensures changes == []
  {
    forall i | 0 <= i < |walk| && !Skipped(root, walk[i]) && walk[i].kind.File?
      ensures RelOf(walk[i]) in OldFiles(prev) && OldFiles(prev)[RelOf(walk[i])] == walk[i].kind.mtime
    {
      WalkFilesTimes(root, walk, i);
    }
    forall i | 0 <= i < |walk| && !Skipped(root, walk[i]) && walk[i].kind.Dir?
      ensures RelOf(walk[i]) in OldDirs(prev)
    {
      WalkDirsMembers(root, walk, RelOf(walk[i]));
    }
    ForwardEmptyWhenAgreeing(root, walk, OldFiles(prev), OldDirs(prev));
    assert DeletedFiles(OldFiles(prev).Keys, WalkFiles(root, walk)) == {};
    assert DeletedDirs(OldDirs(prev), WalkDirs(root, walk)) == {};
  }

  /** Scanning an unchanged tree against the record its previous scan
      produced reports no changes. */
  lemma RescanReportsNothing(root: seq<string>, walk: seq<Entry>, prev: SectorState, changes: seq<Change>)
    requires UniquePaths(walk)
    requires ScannedFrom(root, walk, prev)
    requires IsDiff(root, walk, prev, changes)
    ensures changes == []
  {
    assert OldDirs(prev) == WalkDirs(root, walk);
    NoChangesWhenUnchanged(root, walk, prev, changes);
  }

  // ---------------------------------------------------------------------------
  // Worked scenarios
  // ---------------------------------------------------------------------------

  const ExampleRoot: seq<string> := ["/", "srv", "pytech"]

  /** A first file in an empty record is reported as one NEW FILE. */
  lemma FirstFileIsNew(changes: seq<Change>)
    requires IsDiff(ExampleRoot, [Entry(["a", "b.txt"], File(100.0))], EmptyRecord, changes)
    ensures changes == [NewFile("a/b.txt")]
  {
    var walk := [Entry(["a", "b.txt"], File(100.0))];
    assert !Skipped(ExampleRoot, walk[0]);
    assert Init(walk) == [];
    assert RelOf(walk[0]) == "a/b.txt";
    assert OldDirs(EmptyRecord) == {};
    assert Forward(ExampleRoot, walk, map[], {}) == [NewFile("a/b.txt")];
    assert DeletedFiles(OldFiles(EmptyRecord).Keys, WalkFiles(ExampleRoot, walk)) == {};
    assert DeletedDirs(OldDirs(EmptyRecord), WalkDirs(ExampleRoot, walk)) == {};
  }

  /** Run 2 of the scenario below: `src/main` now at time 150, and the new
      `src/util` with `src/util/helper` at time 200. */
  const RunTwoWalk: seq<Entry> :=
    [Entry(["src"], Dir), Entry(["src", "main"], File(150.0)),
     Entry(["src", "util"], Dir), Entry(["src", "util", "helper"], File(200.0))]

  /** What run 1 recorded: `src`, and `src/main` at time 100. */
  const RunOneRecord: SectorState := SectorState(Some(map["src/main" := 100.0]), Some(["src"]))

  lemma RunTwoPaths()
    ensures forall i :: 0 <= i < |RunTwoWalk| ==> !Skipped(ExampleRoot, RunTwoWalk[i])
    ensures RelOf(RunTwoWalk[0]) == "src"
    ensures RelOf(RunTwoWalk[1]) == "src/main"
    ensures RelOf(RunTwoWalk[2]) == "src/util"
    ensures RelOf(RunTwoWalk[3]) == "src/util/helper"
  {
    var walk := RunTwoWalk;
    forall i | 0 <= i < 4 ensures !Skipped(ExampleRoot, walk[i]) { }
    assert walk[1].rel[1..] == ["main"];
    assert walk[2].rel[1..] == ["util"];
    assert walk[3].rel[1..] == ["util", "helper"];
    assert walk[3].rel[1..][1..] == ["helper"];
  }

  lemma RunTwoRecorded()
    ensures WalkFiles(ExampleRoot, RunTwoWalk) == map["src/main" := 150.0, "src/util/helper" := 200.0]
    ensures WalkDirs(ExampleRoot, RunTwoWalk) == {"src", "src/util"}
  {
    var walk := RunTwoWalk;
    RunTwoPaths();
    var w1, w2, w3 := walk[..1], walk[..2], walk[..3];
    assert Init(walk) == w3 && Init(w3) == w2 && Init(w2) == w1 && Init(w1) == [];
    assert Last(walk) == walk[3] && Last(w3) == walk[2] && Last(w2) == walk[1] && Last(w1) == walk[0];
    assert WalkFiles(ExampleRoot, w1) == map[];
    assert WalkFiles(ExampleRoot, w2) == map["src/main" := 150.0];
    assert WalkFiles(ExampleRoot, w3) == map["src/main" := 150.0];
    assert WalkDirs(ExampleRoot, w1) == {"src"};
    assert WalkDirs(ExampleRoot, w2) == {"src"};
    assert WalkDirs(ExampleRoot, w3) == {"src", "src/util"};
  }

  lemma RunTwoForward()
    ensures Forward(ExampleRoot, RunTwoWalk, OldFiles(RunOneRecord), OldDirs(RunOneRecord))
      == [Modified("src/main"), NewDir("src/util"), NewFile("src/util/helper")]
  {
    var walk := RunTwoWalk;
    RunTwoPaths();
    var oldFiles, oldDirs := OldFiles(RunOneRecord), OldDirs(RunOneRecord);
    assert oldDirs == {"src"};
    var w1, w2, w3 := walk[..1], walk[..2], walk[..3];
    assert Init(walk) == w3 && Init(w3) == w2 && Init(w2) == w1 && Init(w1) == [];
    assert Last(walk) == walk[3] && Last(w3) == walk[2] && Last(w2) == walk[1] && Last(w1) == walk[0];
    assert Forward(ExampleRoot, w1, oldFiles, oldDirs) == [];
    assert Forward(ExampleRoot, w2, oldFiles, oldDirs) == [Modified("src/main")];
    assert Forward(ExampleRoot, w3, oldFiles, oldDirs) == [Modified("src/main"), NewDir("src/util")];
  }

  /**
   * Run 1 recorded `src` and `src/main` at time 100; by run 2 `src/main` has
   * time 150 and `src/util` with `src/util/helper` has appeared: the change
   * list is MODIFIED, NEW DIR, NEW FILE, with no deletion.
   */
  lemma SecondRunScenario(changes: seq<Change>)
    requires IsDiff(ExampleRoot, RunTwoWalk, RunOneRecord, changes)
    ensures changes == [Modified("src/main"), NewDir("src/util"), NewFile("src/util/helper")]
  {
    RunTwoRecorded();
    RunTwoForward();
    assert OldDirs(RunOneRecord) == {"src"};
    assert DeletedFiles(OldFiles(RunOneRecord).Keys, WalkFiles(ExampleRoot, RunTwoWalk)) == {};
    assert DeletedDirs(OldDirs(RunOneRecord), WalkDirs(ExampleRoot, RunTwoWalk)) == {};
  }
}
