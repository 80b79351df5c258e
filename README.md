# Executive monitor: daily project scan

The executive monitor keeps one record per company sector in a state file.
A sector is a directory directly under the project root whose name contains
`_`. Its name is the text after the first `_`, with every `-` turned into a
space, so `b_Software-Development` is the sector `Software Development`.

A daily scan does the following:

1. Loads the store. A missing state file reads as the empty store.
2. Discovers the sectors.
3. Walks each sector's tree, skipping every entry whose path has a `.venv`,
   `__pycache__` or `.git` component.
4. Reports the differences against the sector's stored record:
   - NEW DIR for a walked directory the record lacks;
   - NEW FILE for a walked file the record lacks;
   - MODIFIED for a file whose modification time differs;
   - then one DELETED FILE per recorded file that was not walked;
   - then one DELETED DIR per recorded directory that was not walked.
5. Replaces the sector's record with the walked file map and the sorted
   directory list.
6. Saves the whole store.

The filesystem is an input of the model:
- a sector's walk is the sequence of entries the tree walk yields, each with
  its path components relative to the project root and its kind (directory,
  file with a time, or other);
- the root listing is a sequence of children.

Modules:
- `Paths`: the ignore set, path text, text order and sorting.
- `State`: records, the store, load and save.
- `Scan`: the sector scan and its specification.
- `ScanFacts`: properties of the scan.
- `Discovery`: sector discovery.
- `Monitor`: the daily run.

The docstring of `discover_sectors` uses `c_Data-Science-AI` as an example.
The code (`split("_", 1)[1].replace("-", " ")`) makes that the sector
`Data Science AI`, and the model follows the code (`Discovery.DataScienceName`).

## Model

| member | source | states |
|---|---|---|
| Paths.HasIgnoredPart | acompany/executive_monitor/scan.py:8-33 | true exactly when some component of the path is one of `.venv`, `__pycache__`, `.git` |
| Paths.JoinPathInjective | acompany/executive_monitor/scan.py:35 | two non-empty paths whose components hold no `/` have the same text only when they are the same path |
| Paths.JoinPathEnds | acompany/executive_monitor/scan.py:35 | the recorded text of a relative path (JoinPath, `str(p.relative_to(ROOT))`) starts with its first component and ends with its last, has a `/` when there are two or more components, and is `.` for no components |
| Paths.Less | acompany/executive_monitor/scan.py:62 | the text order of `sorted` on strings: a proper prefix sorts first and a text never sorts before its own prefix (character by character on code points otherwise) |
| Paths.MinPath | acompany/executive_monitor/scan.py:62 | returns an element of the non-empty set that is below every other element in text order |
| Paths.SortPaths | acompany/executive_monitor/scan.py:62 | the stored directory list is strictly increasing (sorted, no duplicates) and holds exactly the elements of the directory set |
| Paths.LessIrreflexive | acompany/executive_monitor/scan.py:62 | no text sorts before itself |
| Paths.LessTransitive | acompany/executive_monitor/scan.py:62 | the text order used by the sort is transitive |
| Paths.LessTotal | acompany/executive_monitor/scan.py:62 | of two different texts, one sorts before the other |
| Paths.StrictlySortedUnique | acompany/executive_monitor/scan.py:62 | two strictly increasing lists with the same elements are equal, so the stored list is determined by the set |
| State.OldDirs | acompany/executive_monitor/scan.py:26 | the old directory set holds exactly the elements of the stored list, and is empty when the record has no list |
| State.OldFiles | acompany/executive_monitor/scan.py:25 | the old file map is the stored map, and the empty map when the record has none |
| State.RecordOf | acompany/executive_monitor/scan.py:89 | the stored record of a known sector, and a record with no files and no directories for an unknown one |
| State.LoadState | acompany/executive_monitor/scan.py:12-15 | a missing state file loads as the empty store; an existing one loads as its stored contents |
| State.SaveState | acompany/executive_monitor/scan.py:18-19 | saving always leaves a state file behind |
| State.LoadAfterSave | acompany/executive_monitor/scan.py:12-19 | the next run loads exactly the store that was saved |
| Scan.FileDeletions | acompany/executive_monitor/scan.py:52-54 | yields one DELETED FILE event for each old key missing from the new file map, each exactly once, and nothing else |
| Scan.DirDeletions | acompany/executive_monitor/scan.py:56-58 | yields one DELETED DIR event for each old directory missing from the new set, each exactly once, and nothing else |
| Scan.ScanSector | acompany/executive_monitor/scan.py:22-65 | the change list is the forward events in walk order, then the deleted files, then the deleted directories; the new record holds the walked file map and the walked directories as a strictly increasing list |
| Scan.SkippedWhere | acompany/executive_monitor/scan.py:32-33 | an entry is skipped (Skipped) exactly when an ignored name is a component of the project root or of the entry's path below the root |
| ScanFacts.ForwardHasNoDeletions | acompany/executive_monitor/scan.py:31-49 | the walk pass yields only NEW DIR, NEW FILE and MODIFIED events |
| ScanFacts.WalkSizes | acompany/executive_monitor/scan.py:31-49 | in the walk pass (Forward, WalkFiles, WalkDirs) each entry yields at most one forward event, so the forward events, the recorded file map and the recorded directory set are each no larger than the walk |
| ScanFacts.NewFileReported | acompany/executive_monitor/scan.py:42-47 | NEW FILE p is reported if and only if the walk yields a non-skipped file at p and the old map has no key p |
| ScanFacts.ModifiedReported | acompany/executive_monitor/scan.py:42-49 | MODIFIED p is reported if and only if p is an old key and the walk yields a non-skipped file at p with a different time |
| ScanFacts.NewDirReported | acompany/executive_monitor/scan.py:37-40 | NEW DIR p is reported if and only if the walk yields a non-skipped directory at p that the old set lacks |
| ScanFacts.ForwardPathsWalked | acompany/executive_monitor/scan.py:31-49 | every forward event names the path of a non-skipped walked entry |
| ScanFacts.ForwardPathsUnique | acompany/executive_monitor/scan.py:31-49 | when the walk yields each path once, no two forward events name the same path |
| ScanFacts.WalkFilesKeys | acompany/executive_monitor/scan.py:42-44 | the new file map has a key exactly at the non-skipped walked files |
| ScanFacts.WalkFilesTimes | acompany/executive_monitor/scan.py:43-44 | when the walk yields each path once, the new file map holds each walked file's observed time |
| ScanFacts.WalkDirsMembers | acompany/executive_monitor/scan.py:37-38 | the new directory set holds exactly the non-skipped walked directories |
| ScanFacts.BeneathIgnoredIsSkipped | acompany/executive_monitor/scan.py:32-33 | an entry with an ignored component at any depth of its path is skipped |
| ScanFacts.IgnoredExcluded | acompany/executive_monitor/scan.py:32-33 | in a walk of plain component paths, a skipped entry is in neither the new file map nor the new directory set, and no forward event names it |
| ScanFacts.PartsCount | acompany/executive_monitor/scan.py:31-58 | each event occurs in the change list as often as in the walk events, the deleted files and the deleted directories together |
| ScanFacts.PartsInPhaseOrder | acompany/executive_monitor/scan.py:31-58 | a list made of phase-0 events, then phase-1 events, then phase-2 events is in phase order |
| ScanFacts.ChangesInPhaseOrder | acompany/executive_monitor/scan.py:31-58 | new and modified events come before every DELETED FILE, and these come before every DELETED DIR |
| ScanFacts.DeletedFileOnce | acompany/executive_monitor/scan.py:52-54 | DELETED FILE f occurs exactly once if f was recorded and not walked, and never otherwise |
| ScanFacts.DeletedDirOnce | acompany/executive_monitor/scan.py:56-58 | DELETED DIR d occurs exactly once if d was recorded and not walked, and never otherwise |
| ScanFacts.ForwardEmptyWhenAgreeing | acompany/executive_monitor/scan.py:37-49 | a walk whose every file and directory matches the old record yields no forward events |
| ScanFacts.NoChangesWhenUnchanged | acompany/executive_monitor/scan.py:31-58 | when the walked files, times and directories equal the old record, the change list is empty |
| ScanFacts.RescanReportsNothing | acompany/executive_monitor/scan.py:22-65 | scanning an unchanged tree against the record its previous scan produced reports nothing |
| ScanFacts.FirstFileIsNew | acompany/executive_monitor/scan.py:46-47 | a first file against an empty record is reported as exactly one NEW FILE |
| ScanFacts.RunTwoRecorded | acompany/executive_monitor/scan.py:37-44 | the worked second walk records the file map `src/main` at 150, `src/util/helper` at 200 and the directories `src`, `src/util` |
| ScanFacts.RunTwoForward | acompany/executive_monitor/scan.py:37-49 | the worked second walk yields MODIFIED `src/main`, NEW DIR `src/util`, NEW FILE `src/util/helper`, in that order |
| ScanFacts.SecondRunScenario | acompany/executive_monitor/scan.py:22-65 | the worked second run's whole change list is MODIFIED, NEW DIR, NEW FILE, with no deletion |
| Discovery.AfterFirst | acompany/executive_monitor/scan.py:76 | the result is the text after the first `_` of the name |
| Discovery.FirstIndex | acompany/executive_monitor/scan.py:76 | the index of the first `_`: a `_` is there and none comes before it |
| Discovery.AfterFirstIndex | acompany/executive_monitor/scan.py:76 | the text after the first `_` starts just past that first index |
| Discovery.ReplaceChar | acompany/executive_monitor/scan.py:76 | `.replace("-", " ")` keeps the length of the text |
| Discovery.ReplaceCharSpec | acompany/executive_monitor/scan.py:76 | replacing keeps the length and changes exactly the `-` characters into spaces |
| Discovery.ReplaceCharAbsent | acompany/executive_monitor/scan.py:76 | a name without `-` is left unchanged |
| Discovery.DashesBecomeSpaces | acompany/executive_monitor/scan.py:76 | a text equal to the input except that each `-` is a space is exactly what the replacement gives |
| Discovery.SoftwareDevelopmentDashes | acompany/executive_monitor/scan.py:76 | replacing dashes turns `Software-Development` into `Software Development` |
| Discovery.DataScienceDashes | acompany/executive_monitor/scan.py:76 | replacing dashes turns `Data-Science-AI` into `Data Science AI` |
| Discovery.SectorName | acompany/executive_monitor/scan.py:76 | a sector name never contains `-` |
| Discovery.SectorNameIsReplaced | acompany/executive_monitor/scan.py:76 | the sector name is the dash replacement applied to the text past the first `_` |
| Discovery.SectorNameSpec | acompany/executive_monitor/scan.py:76 | with k the index of the first `_`, the sector name has the length of the text after k and agrees with it character for character, except that each `-` is a space |
| Discovery.SoftwareDevelopmentName | acompany/executive_monitor/scan.py:71-76 | `b_Software-Development` is the sector `Software Development` |
| Discovery.DataScienceName | acompany/executive_monitor/scan.py:71-76 | `c_Data-Science-AI` is the sector `Data Science AI` |
| Discovery.SplitsAtFirstOnly | acompany/executive_monitor/scan.py:76 | only the first `_` separates: `a_b_c` is the sector `b_c` |
| Discovery.IsSectorDir | acompany/executive_monitor/scan.py:75 | a child is a sector directory when it is a directory whose name contains `_` (its consequence for the sector map is stated by SectorsKeys) |
| Discovery.Sectors | acompany/executive_monitor/scan.py:73-78 | the reference definition of the discovery loop: no sector name contains `-`, and every directory name it maps to contains `_` |
| Discovery.DiscoverSectors | acompany/executive_monitor/scan.py:73-78 | the loop builds the sector map of the listing |
| Discovery.SectorsKeys | acompany/executive_monitor/scan.py:74-77 | the sector map has a key exactly at the sector names of the listed directories whose name contains `_` |
| Discovery.SectorsLastWins | acompany/executive_monitor/scan.py:77 | each sector name maps to the last listed sector directory with that name |
| Monitor.RunStep | acompany/executive_monitor/scan.py:100 | recording one more sector's scan keeps the recorded scans of the sectors done before |
| Monitor.ScanOne | acompany/executive_monitor/scan.py:89-100 | scans one sector against its stored record, overwrites only that sector's record and report, and records the scan |
| Monitor.ScanAll | acompany/executive_monitor/scan.py:88-100 | every discovered sector gets the record and change list of its scan against its record in the loaded store; every other stored record is kept; no other key appears |
| Monitor.RunScan | acompany/executive_monitor/scan.py:81-102 | the saved store is the loaded store with each discovered sector's record replaced by its scan, and every other record kept |
| Monitor.QuietRerun | acompany/executive_monitor/scan.py:81-102 | when every sector's tree is unchanged since the run that saved the loaded store, every sector reports no changes |

## Left out

- Filesystem access is not modelled. The recursive walk (`rglob`), the root
  listing (`iterdir`), `stat` and `exists` are inputs: a walk per sector, a
  root listing and an optional state file.
- JSON encoding and decoding are not modelled. A state file that exists but
  cannot be decoded, and the error that raises, are not part of this model.
- Printing the report, the banner and the timestamp (`datetime.now`) is left
  out. The change lists are returned instead.
- Monitor.RunScan: the order in which `main` visits the sectors is not
  modelled. It only changes the order of the printed report, and each
  sector's scan reads only its own record.
- Scan.ScanSector: the order of events within the DELETED FILE phase and
  within the DELETED DIR phase is fixed only as a multiset. The source takes
  dictionary and set iteration order, which the model does not fix.
- Modification times are modelled as exact reals compared with `==`, as the
  source compares them. Floating-point rounding is not modelled.
- `relative_to` failing, Windows path separators and symbolic links are not
  modelled. Paths are joined with `/`.
- The uniqueness of paths in a walk is a precondition of the lemmas that
  need it (ScanFacts.ForwardPathsUnique, ScanFacts.WalkFilesTimes,
  ScanFacts.NoChangesWhenUnchanged, ScanFacts.RescanReportsNothing,
  Monitor.QuietRerun). ScanFacts.IgnoredExcluded instead requires that every
  entry has at least one component and no component holds a `/`
  (Scan.PlainPaths). Neither is derived from a filesystem model.
- Monitor.RunScan: walks and `stat` are total inputs here, so every run
  saves. In the source, an exception during any sector's walk ends the run
  with nothing saved, and the previous store stays on disk. One example is a
  file deleted between `is_file` and `stat`, which raises `FileNotFoundError`
  (scan.py:42-43). The model does not capture this.
