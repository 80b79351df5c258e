/**
 * The persisted state of the scanner: one record per sector, as it is read
 * back from the state file, and the load/save pair over that file.
 */
module State {

  datatype Option<T> = None | Some(value: T)

  /** A modification time in seconds. The scanner only ever compares two of
      them for exact equality. */
  type Mtime = real

  /**
   * The record stored for one sector. Either field may be missing from a
   * stored record (a sector seen for the first time has the empty record);
   * `dirs` is stored as a list and read back as a set.
   */
  datatype SectorState = SectorState(files: Option<map<string, Mtime>>, dirs: Option<seq<string>>)

  /** The record of a sector the store does not know yet. */
  const EmptyRecord: SectorState := SectorState(None, None)

  /** The whole store: sector name to its record. */
  type Store = map<string, SectorState>

  /** The file map of a record, empty when the field is missing. */
  function OldFiles(st: SectorState): (r: map<string, Mtime>)
    ensures st.files.Some? ==> r == st.files.value
    ensures st.files.None? ==> r == map[]
  {
    match st.files
    case Some(f) => f
    case None => map[]
  }

  /** The directory list of a record as a set, empty when the field is missing. */
  function OldDirs(st: SectorState): (r: set<string>)
    ensures forall d :: d in r <==> st.dirs.Some? && d in st.dirs.value
  {
    match st.dirs
    case Some(ds) => set d | d in ds
    case None => {}
  }

  /** The record kept for `name`, the empty record when there is none. */
  function RecordOf(store: Store, name: string): (r: SectorState)
    ensures name in store ==> r == store[name]
    ensures name !in store ==> OldFiles(r) == map[] && OldDirs(r) == {}
  {
    if name in store then store[name] else EmptyRecord
  }

  /**
   * The state file: absent, or holding a store. Decoding errors of a file
   * that exists are not part of this model.
   */
  type StateFile = Option<Store>

  /** Reads the store; a missing file reads as the empty store. */
  function LoadState(file: StateFile): (r: Store)
    ensures file.None? ==> r == map[]
    ensures file.Some? ==> r == file.value
  {
    match file
    case Some(s) => s
    case None => map[]
  }

  /** Overwrites the state file with the whole store. */
  function SaveState(store: Store): (file: StateFile)
    ensures file.Some?
  {
    Some(store)
  }

  /** What is saved is what the next run loads. */
  lemma LoadAfterSave(store: Store)
    ensures LoadState(SaveState(store)) == store
  {
  }
}
