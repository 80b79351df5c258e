/**
 * One sector scan: a single pass over the entries of the sector's tree that
 * builds the new file map and directory set and reports what is new or
 * modified, then two passes over the previous record that report what was
 * deleted.
 *
 * The walk is an input: the entries in the order the tree walk yields them,
 * each with its path components relative to the project root. `root` is the
 * component list of the project root itself; the ignore test looks at the
 * full path, root included.
 */
module Scan {
  import opened Paths
  import opened State

  datatype Kind = Dir | File(mtime: Mtime) | Other

  /** One entry of the walk: its path relative to the project root, and what it is. */
  datatype Entry = Entry(rel: seq<string>, kind: Kind)

  datatype Change =
    | NewDir(path: string)
    | NewFile(path: string)
    | Modified(path: string)
    | DeletedFile(path: string)
    | DeletedDir(path: string)

  /** The key under which an entry is recorded. */
  function RelOf(e: Entry): string
  {
    JoinPath(e.rel)
  }

  /** An entry is skipped when any component of its full path is ignored. */
  predicate Skipped(root: seq<string>, e: Entry)
  {
    HasIgnoredPart(root + e.rel)
  }

  /** An entry is skipped exactly when an ignored name is a component of the
      project root or of the entry's path below the root. */
  lemma SkippedWhere(root: seq<string>, e: Entry)
    ensures Skipped(root, e) <==>
      (exists k :: 0 <= k < |root| && root[k] in IgnoreDirs) || (exists k :: 0 <= k < |e.rel| && e.rel[k] in IgnoreDirs)
  {
    var full := root + e.rel;
    assert forall k :: 0 <= k < |root| ==> full[k] == root[k];
    assert forall k :: 0 <= k < |e.rel| ==> full[|root| + k] == e.rel[k];
  }

  /** The walk yields every path once. */
  ghost predicate UniquePaths(walk: seq<Entry>)
  {
    forall i, j :: 0 <= i < j < |walk| ==> RelOf(walk[i]) != RelOf(walk[j])
  }

  /** Every entry lies below the root and names its path by plain components,
      none of which holds a `/`: what a directory walk yields. */
  predicate PlainPaths(walk: seq<Entry>)
  {
    forall i :: 0 <= i < |walk| ==> |walk[i].rel| > 0 && SlashFree(walk[i].rel)
  }

  /** 0 for new and modified entries, 1 for deleted files, 2 for deleted directories. */
  function Phase(c: Change): nat
  {
    match c
    case DeletedFile(_) => 1
    case DeletedDir(_) => 2
    case _ => 0
  }

  // ---------------------------------------------------------------------------
  // The specification of one scan
  // ---------------------------------------------------------------------------

  /** What one entry contributes to the forward pass. */
  function EntryEvents(root: seq<string>, e: Entry, oldFiles: map<string, Mtime>, oldDirs: set<string>): seq<Change>
  {
    if Skipped(root, e) then []
    else
      var rel := RelOf(e);
      match e.kind
      case Dir => if rel !in oldDirs then [NewDir(rel)] else []
      case File(m) =>
        if rel !in oldFiles then [NewFile(rel)]
        else if oldFiles[rel] != m then [Modified(rel)]
        else []
      case Other => []
  }

  /** The events of the forward pass, in walk order. */
  function Forward(root: seq<string>, walk: seq<Entry>, oldFiles: map<string, Mtime>, oldDirs: set<string>): seq<Change>
  {
    if walk == [] then []
    else Forward(root, walk[..|walk| - 1], oldFiles, oldDirs) + EntryEvents(root, walk[|walk| - 1], oldFiles, oldDirs)
  }

  /** The file map the walk records: each non-skipped file to its time (a later entry wins). */
  function WalkFiles(root: seq<string>, walk: seq<Entry>): map<string, Mtime>
  {
    if walk == [] then map[]
    else
      var m := WalkFiles(root, walk[..|walk| - 1]);
      var e := walk[|walk| - 1];
      if !Skipped(root, e) && e.kind.File? then m[RelOf(e) := e.kind.mtime] else m
  }

  /** The directory set the walk records. */
  function WalkDirs(root: seq<string>, walk: seq<Entry>): set<string>
  {
    if walk == [] then {}
    else
      var s := WalkDirs(root, walk[..|walk| - 1]);
      var e := walk[|walk| - 1];
      if !Skipped(root, e) && e.kind.Dir? then s + {RelOf(e)} else s
  }

  /** One deletion event per key of `keys` that the new file map lacks. */
  function DeletedFiles(keys: set<string>, newFiles: map<string, Mtime>): set<Change>
  {
    set f | f in keys && f !in newFiles :: DeletedFile(f)
  }

  /** One deletion event per directory of `dirs` that the new set lacks. */
  function DeletedDirs(dirs: set<string>, newDirs: set<string>): set<Change>
  {
    set d | d in dirs && d !in newDirs :: DeletedDir(d)
  }

  /** `changes` is `fwd`, then each element of `df` once (in any order), then
      each element of `dd` once (in any order). */
  ghost predicate InParts(changes: seq<Change>, fwd: seq<Change>, df: set<Change>, dd: set<Change>)
  {
    && |changes| == |fwd| + |df| + |dd|
    && changes[..|fwd|] == fwd
    && multiset(changes[|fwd|..|fwd| + |df|]) == multiset(df)
    && multiset(changes[|fwd| + |df|..]) == multiset(dd)
  }

  /**
   * `changes` is a change list for `walk` against the record `prev`: the
   * forward events in walk order, then each deleted file once, then each
   * deleted directory once.
   */
  ghost predicate IsDiff(root: seq<string>, walk: seq<Entry>, prev: SectorState, changes: seq<Change>)
  {
    InParts(changes, Forward(root, walk, OldFiles(prev), OldDirs(prev)),
            DeletedFiles(OldFiles(prev).Keys, WalkFiles(root, walk)),
            DeletedDirs(OldDirs(prev), WalkDirs(root, walk)))
  }

  /** `st` is the record a scan of `walk` produces: the walked file map and
      the walked directories as a strictly increasing list. */
  ghost predicate ScannedFrom(root: seq<string>, walk: seq<Entry>, st: SectorState)
  {
    && st.files == Some(WalkFiles(root, walk))
    && st.dirs.Some?
    && StrictlySorted(st.dirs.value)
    && (forall d :: d in st.dirs.value <==> d in WalkDirs(root, walk))
  }

  // ---------------------------------------------------------------------------
  // The scan itself
  // ---------------------------------------------------------------------------

  lemma MultisetAddNew(a: set<Change>, x: Change)
    requires x !in a
    ensures multiset(a + {x}) == multiset(a) + multiset{x}
  {
  }

  /** The deletion pass over the previous file map: one event per old key the
      new map lacks, each once. */
  method FileDeletions(oldFiles: map<string, Mtime>, newFiles: map<string, Mtime>)
    returns (events: seq<Change>)
    ensures multiset(events) == multiset(DeletedFiles(oldFiles.Keys, newFiles))
  {
    events := [];
    var todo := oldFiles.Keys;
    while todo != {}
      invariant todo <= oldFiles.Keys
      invariant multiset(events) == multiset(DeletedFiles(oldFiles.Keys - todo, newFiles))
      decreases todo
    {
      var f :| f in todo;
      assert DeletedFiles(oldFiles.Keys - (todo - {f}), newFiles)
          == DeletedFiles(oldFiles.Keys - todo, newFiles) + (if f !in newFiles then {DeletedFile(f)} else {});
      if f !in newFiles {
        MultisetAddNew(DeletedFiles(oldFiles.Keys - todo, newFiles), DeletedFile(f));
        events := events + [DeletedFile(f)];
      }
      todo := todo - {f};
    }
    assert oldFiles.Keys - {} == oldFiles.Keys;
  }

  /** The deletion pass over the previous directory set: one event per old
      directory the new set lacks, each once. */
  method DirDeletions(oldDirs: set<string>, newDirs: set<string>) returns (events: seq<Change>)
    ensures multiset(events) == multiset(DeletedDirs(oldDirs, newDirs))
  {
    events := [];
    var pending := oldDirs;
    while pending != {}
      invariant pending <= oldDirs
      invariant multiset(events) == multiset(DeletedDirs(oldDirs - pending, newDirs))
      decreases pending
    {
      var d :| d in pending;
      assert DeletedDirs(oldDirs - (pending - {d}), newDirs)
          == DeletedDirs(oldDirs - pending, newDirs) + (if d !in newDirs then {DeletedDir(d)} else {});
      if d !in newDirs {
        MultisetAddNew(DeletedDirs(oldDirs - pending, newDirs), DeletedDir(d));
        events := events + [DeletedDir(d)];
      }
      pending := pending - {d};
    }
    assert oldDirs - {} == oldDirs;
  }

  /** Scans one sector against its previous record. */
  method ScanSector(root: seq<string>, walk: seq<Entry>, prev: SectorState)
    returns (changes: seq<Change>, state: SectorState)
    ensures IsDiff(root, walk, prev, changes)
    ensures ScannedFrom(root, walk, state)
  {
    changes := [];
    var oldFiles := OldFiles(prev);
    var oldDirs := OldDirs(prev);
    var newFiles: map<string, Mtime> := map[];
    var newDirs: set<string> := {};

    var i := 0;
    while i < |walk|
      invariant 0 <= i <= |walk|
      invariant changes == Forward(root, walk[..i], oldFiles, oldDirs)
      invariant newFiles == WalkFiles(root, walk[..i])
      invariant newDirs == WalkDirs(root, walk[..i])
    {
      assert walk[..i + 1][..i] == walk[..i];
      var p := walk[i];
      if !Skipped(root, p) {
        var rel := RelOf(p);
        match p.kind
        case Dir =>
          newDirs := newDirs + {rel};
          if rel !in oldDirs {
            changes := changes + [NewDir(rel)];
          }
        case File(mtime) =>
          newFiles := newFiles[rel := mtime];
          if rel !in oldFiles {
            changes := changes + [NewFile(rel)];
          } else if oldFiles[rel] != mtime {
            changes := changes + [Modified(rel)];
          }
        case Other =>
      }
      i := i + 1;
    }
    assert walk[..|walk|] == walk;

    var deletedFiles := FileDeletions(oldFiles, newFiles);
    var deletedDirs := DirDeletions(oldDirs, newDirs);
    ghost var fwd := changes;
    changes := changes + deletedFiles + deletedDirs;
    assert changes[..|fwd|] == fwd;
    assert changes[|fwd|..|fwd| + |deletedFiles|] == deletedFiles;
    assert changes[|fwd| + |deletedFiles|..] == deletedDirs;
    assert |deletedFiles| == |multiset(deletedFiles)|;
    assert |deletedDirs| == |multiset(deletedDirs)|;

    var dirs := SortPaths(newDirs);
    state := SectorState(Some(newFiles), Some(dirs));
  }
}
