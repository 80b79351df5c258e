/**
 * The daily scan: load the store, discover the sectors, scan each one
 * against its stored record, replace that record, and save the store.
 *
 * The filesystem is passed in: `listing` is what the project root lists,
 * and `walkOf(d)` is the walk of the sector directory named `d`.
 */
module Monitor {
  import opened State
  import opened Scan
  import opened ScanFacts
  import opened Discovery

  /** One sector's share of a run: its change list and its new record. */
  ghost predicate SectorRun(root: seq<string>, walk: seq<Entry>, prev: SectorState, changes: seq<Change>, st: SectorState)
  {
    IsDiff(root, walk, prev, changes) && ScannedFrom(root, walk, st)
  }

  /** Every sector of `done` has its scan recorded in `reports` and `state`. */
  ghost predicate Recorded(root: seq<string>, walkOf: string -> seq<Entry>, sectors: map<string, string>, loaded: Store,
                           reports: map<string, seq<Change>>, state: Store, done: set<string>)
  {
    forall n {:trigger SectorRun(root, walkOf(sectors[n]), RecordOf(loaded, n), reports[n], state[n])} ::
      n in done && n in sectors && n in reports && n in state ==>
      SectorRun(root, walkOf(sectors[n]), RecordOf(loaded, n), reports[n], state[n])
  }

  /** The store after one run, given the store it started from: every
      discovered sector gets the record of its scan, every other entry is kept. */
  ghost predicate RunResult(root: seq<string>, loaded: Store, sectors: map<string, string>,
                            walkOf: string -> seq<Entry>, store: Store, reports: map<string, seq<Change>>)
  {
    && store.Keys == loaded.Keys + sectors.Keys
    && (forall name :: name in loaded && name !in sectors ==> store[name] == loaded[name])
    && reports.Keys == sectors.Keys
    && Recorded(root, walkOf, sectors, loaded, reports, store, sectors.Keys)
  }

  /** Recording one more sector's scan keeps the records of the sectors done before. */
  lemma RunStep(root: seq<string>, walkOf: string -> seq<Entry>, sectors: map<string, string>, loaded: Store,
                reports: map<string, seq<Change>>, state: Store, done: set<string>, name: string,
                changes: seq<Change>, st: SectorState)
    requires name in sectors
    requires done <= reports.Keys && done <= state.Keys && done <= sectors.Keys
    requires Recorded(root, walkOf, sectors, loaded, reports, state, done)
    requires SectorRun(root, walkOf(sectors[name]), RecordOf(loaded, name), changes, st)
    ensures Recorded(root, walkOf, sectors, loaded, reports[name := changes], state[name := st], done + {name})
  {
    forall n | n in done + {name}
      ensures SectorRun(root, walkOf(sectors[n]), RecordOf(loaded, n), reports[name := changes][n], state[name := st][n])
    {
      if n != name {
        assert reports[name := changes][n] == reports[n];
        assert state[name := st][n] == state[n];
      }
    }
  }

  /** Scans sector `name` against its stored record and records the result. */
  method ScanOne(root: seq<string>, walkOf: string -> seq<Entry>, sectors: map<string, string>, ghost loaded: Store,
                 reports: map<string, seq<Change>>, state: Store, ghost done: set<string>, name: string)
    returns (reports': map<string, seq<Change>>, state': Store)
    requires name in sectors
    requires done <= reports.Keys && done <= state.Keys && done <= sectors.Keys
    requires RecordOf(state, name) == RecordOf(loaded, name)
    requires Recorded(root, walkOf, sectors, loaded, reports, state, done)
    ensures name in reports' && reports' == reports[name := reports'[name]]
    ensures name in state' && state' == state[name := state'[name]]
    ensures Recorded(root, walkOf, sectors, loaded, reports', state', done + {name})
  {
    var changes, sectorState := ScanSector(root, walkOf(sectors[name]), RecordOf(state, name));
    RunStep(root, walkOf, sectors, loaded, reports, state, done, name, changes, sectorState);
    reports' := reports[name := changes];
    state' := state[name := sectorState];
  }

  /** Scans every sector of `sectors` against the store `loaded` and returns
      the updated store and each sector's change list. */
  method ScanAll(root: seq<string>, walkOf: string -> seq<Entry>, sectors: map<string, string>, loaded: Store)
    returns (store: Store, reports: map<string, seq<Change>>)
    ensures RunResult(root, loaded, sectors, walkOf, store, reports)
  {
    store := loaded;
    reports := map[];
    var todo := sectors.Keys;
    ghost var done: set<string> := {};
    while todo != {}
      invariant todo <= sectors.Keys && done == sectors.Keys - todo
      invariant store.Keys == loaded.Keys + done
      invariant forall name :: name in loaded && name !in done ==> store[name] == loaded[name]
      invariant reports.Keys == done
      invariant Recorded(root, walkOf, sectors, loaded, reports, store, done)
      decreases todo
    {
      var name :| name in todo;
      assert RecordOf(store, name) == RecordOf(loaded, name);
      reports, store := ScanOne(root, walkOf, sectors, loaded, reports, store, done, name);
      done := done + {name};
      todo := todo - {name};
    }
  }

  /** One run of the scanner: load the store, discover the sectors, scan each
      one, save the store; `reports` holds each sector's change list. */
  method RunScan(root: seq<string>, file: StateFile, listing: seq<Child>, walkOf: string -> seq<Entry>)
    returns (saved: StateFile, reports: map<string, seq<Change>>)
    ensures saved.Some?
    ensures RunResult(root, LoadState(file), Sectors(listing), walkOf, saved.value, reports)
  {
    var state := LoadState(file);
    var sectors := DiscoverSectors(listing);
    state, reports := ScanAll(root, walkOf, sectors, state);
    saved := SaveState(state);
  }

  /**
   * When nothing changed on disk since the run that produced `loaded`, every
   * sector of the next run reports an empty change list.
   */
  lemma QuietRerun(root: seq<string>, loaded: Store, sectors: map<string, string>,
                   walkOf: string -> seq<Entry>, store: Store, reports: map<string, seq<Change>>)
    requires RunResult(root, loaded, sectors, walkOf, store, reports)
    requires forall name :: name in sectors ==> name in loaded && ScannedFrom(root, walkOf(sectors[name]), loaded[name])
    requires forall name :: name in sectors ==> UniquePaths(walkOf(sectors[name]))
    ensures forall name :: name in reports ==> reports[name] == []
  {
    forall name | name in reports
      ensures reports[name] == []
    {
      assert SectorRun(root, walkOf(sectors[name]), RecordOf(loaded, name), reports[name], store[name]);
      RescanReportsNothing(root, walkOf(sectors[name]), loaded[name], reports[name]);
    }
  }
}
