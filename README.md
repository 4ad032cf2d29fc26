# Application starter: the supervision logic

ApplicationStarter is a Windows Forms utility. It keeps a grid of executables,
one row per executable, with the columns Path, Enabled and Status in that
order. It can start, stop and restart the enabled ones, and a background
worker polls whether each one is running. This project models the logic
behind the form, without the widgets:

- **Matching** (`processes.dfy`). A row's executable is running when some
  process in a snapshot of the process table has an image path that
  canonicalises to the row's canonical path. The scan takes the first such
  process in enumeration order. A process whose main module cannot be read is
  skipped. If canonicalisation throws on either side, that process is skipped
  too, because the scan's `try` catches it.
- **The grid** (`table.dfy`). A row holds a path, an enabled flag and a status
  (Running or Stopped). `Kept` gives the rows that remain after the selected
  positions are removed.
- **Start and stop passes** (`supervision.dfy`). Each pass is written as the
  list of launches and kills it issues.
- **The configuration document** (`config.dfy`). It holds one `Application`
  record per row, with the row's path and its flag written `"1"` or `"0"`.
  Loading keeps the records whose file exists.
- **The form** (`form.dfy`). Class `ApplicationStarter` owns the rows as a
  `seq<Row>` and records every launch and kill in a ghost log. Its methods
  follow the form's loops: load, add, remove, status refresh, the start and
  stop passes, the start/stop/restart buttons with their empty-grid guard, and
  save.

Outside collaborators are parameters:
- `Path.GetFullPath` is `canon: Path -> Option<Path>`. None means it throws.
- `Process.GetProcesses()` is a `Snapshot`. This is a sequence of image paths,
  with None where reading `MainModule` threw. A kill names a process by its
  position in the snapshot of its pass. The source reads `MainModule` again
  for every row (`:212`, `:336`, `:395`); the snapshot fixes each process's
  readability and image for the whole pass, so a process killed at an earlier
  row of a stop pass still counts as readable at later rows.
- `File.Exists` is `fileExists: Path -> bool`.
- The open-file dialog's answer is `Option<Path>`. None means the dialog was
  cancelled.
- The configuration document is `Option<seq<Record>>`. None means there is no
  file.
- The load event reads the process table afresh for each record that has a
  path attribute and whose file exists, before that record's status is
  decided (`ApplicationStarter/ApplicationStarterForm.cs:30` and `:40`). It
  is modelled as `tables: nat -> Snapshot`, indexed by the record's position;
  the other records never consult it.

Three behaviours of the code are worth stating up front, because a reader of
the form would expect otherwise; the model follows the code in each:
- **Stop pass.** The Enabled flag gates the start pass row by row (`:352`), so
  one would expect a stop to kill only enabled rows that are running. The stop
  pass instead carries the last matched process from row to row, so an enabled
  row with no process of its own kills an earlier row's process (see Findings).
- **Add.** Add appends the row and does not probe it; its status is left to
  the next background refresh.
- **Failed launch.** Nothing around `Process.Start` or `Kill` catches an
  exception, so one such exception ends the pass (see Left out).

## Model

| member | source | states |
|---|---|---|
| Processes.FirstMatch | ApplicationStarter/ApplicationStarterForm.cs:208-219 | the process the scan settles on matches the path and no earlier process does; there is none exactly when no process of the snapshot matches |
| Processes.FindProcess | ApplicationStarter/ApplicationStarterForm.cs:208-219 | the scan loop, which skips unreadable processes and stops at the first match, returns exactly that first match |
| Processes.UnreadableProcessIgnored | ApplicationStarter/ApplicationStarterForm.cs:210-218 | a process whose image cannot be read, inserted anywhere, never changes whether a path counts as running, so it cannot stop the scan from finding a match |
| Table.StatusFor | ApplicationStarter/ApplicationStarterForm.cs:203-221 | the status written is Running exactly when some readable process of the snapshot canonicalises to the row's path |
| Form.ApplicationStarter.RefreshStatus | ApplicationStarter/ApplicationStarterForm.cs:198-232 | after a refresh from one snapshot, every row's status is Running exactly when its path is matched; row count, order, paths and flags are unchanged, and nothing is launched or killed |
| Form.ApplicationStarter.StartApplications | ApplicationStarter/ApplicationStarterForm.cs:319-357 | the start pass appends to the log exactly the launches of StartEffects, for one snapshot taken before any launch; the rows are unchanged |
| Supervision.StartLaunchesExactly | ApplicationStarter/ApplicationStarterForm.cs:324-355 | a start pass only launches, and it launches path p exactly when some row with path p is enabled and no readable process runs p |
| Supervision.StartEffectsAppend | ApplicationStarter/ApplicationStarterForm.cs:321-356 | rows are decided independently against the shared snapshot: the pass over a + b is the pass over a followed by the pass over b |
| Supervision.StartNothingWhenAllRunning | ApplicationStarter/ApplicationStarterForm.cs:352-355 | running rows and disabled rows launch nothing: if every enabled row is running, the pass launches nothing |
| Supervision.StartIdempotent | ApplicationStarter/ApplicationStarterForm.cs:321-355 | a second start pass launches nothing if its snapshot is the first pass's snapshot plus the processes it launched and every row path canonicalises |
| Form.ApplicationStarter.StopApplications | ApplicationStarter/ApplicationStarterForm.cs:380-416 | the stop pass appends exactly the kills of StopEffects: at each enabled row, the process carried in the one variable that is never cleared; the rows are unchanged |
| Supervision.CarriedIsLatestMatch | ApplicationStarter/ApplicationStarterForm.cs:383-403 | the target held at row i is the match of the latest row j <= i whose path matched; there is no target exactly when no row up to i matched, so rows before the first match kill nothing |
| Supervision.StopKillsExactly | ApplicationStarter/ApplicationStarterForm.cs:405-414 | a stop pass only kills, and it kills process p exactly when some enabled row holds p as its carried target |
| Supervision.StopKillTarget | ApplicationStarter/ApplicationStarterForm.cs:389-414 | every killed process p is in the snapshot and is the first match of some row j; an enabled row i >= j issued exactly that kill, and no row after j up to i matched, so i carried j's process |
| Supervision.StopKillsForDisabledRow | ApplicationStarter/ApplicationStarterForm.cs:383-414 | the stop pass as written kills the process of a disabled row when the next row is enabled and has no process of its own |
| Supervision.StopKillsCarriedTwice | ApplicationStarter/ApplicationStarterForm.cs:383-414 | the stop pass as written kills the same process again at a later enabled row that has no process of its own: rows [a enabled and running as process 0, b enabled and stopped] give the kills [0, 0] |
| Supervision.IntendedStopKillsOwnMatch | ApplicationStarter/ApplicationStarterForm.cs:380-416 | the corrected stop pass kills p exactly when p is the match of an enabled row, so a process matched only by disabled rows is left running |
| Form.ApplicationStarter.StartAll | ApplicationStarter/ApplicationStarterForm.cs:95-127 | on an empty grid the start button is refused and nothing is launched; otherwise it runs exactly one start pass |
| Form.ApplicationStarter.StopAll | ApplicationStarter/ApplicationStarterForm.cs:129-161 | on an empty grid the stop button is refused and nothing is killed; otherwise it runs exactly one stop pass |
| Form.ApplicationStarter.RestartAll | ApplicationStarter/ApplicationStarterForm.cs:163-196 | on an empty grid the restart button is refused; otherwise it runs a stop pass and then a start pass, each on its own snapshot |
| Form.ApplicationStarter.constructor | ApplicationStarter/ApplicationStarterForm.cs:16-20 | the form starts with an empty grid and no effects issued |
| Form.ApplicationStarter.Load | ApplicationStarter/ApplicationStarterForm.cs:22-60 | with no configuration the grid is unchanged; otherwise the rows of LoadUpTo are appended in document order, and the load reports failure exactly when a record was faulty |
| Config.LoadStep | ApplicationStarter/ApplicationStarterForm.cs:30-55 | a well-formed record adds one row exactly when its file exists; the row has the record's path, is enabled exactly when the attribute is "1", and is Running exactly when its snapshot matches the path |
| Config.LoadFaultsIffFaultyRecord | ApplicationStarter/ApplicationStarterForm.cs:28-35 | a load faults exactly when some record read lacks its path attribute, or has an existing path but no enabled attribute |
| Config.LoadFaultSticks | ApplicationStarter/ApplicationStarterForm.cs:28-57 | once a record has faulted, the records after it change nothing: the load ends there |
| Config.LoadKeepsExistingInOrder | ApplicationStarter/ApplicationStarterForm.cs:28-56 | without a faulty record the load does not fault, and its rows are exactly the records whose file exists, in document order, each decoded against the process table read for it |
| Config.ExistingPositions | ApplicationStarter/ApplicationStarterForm.cs:28-30 | the positions whose file exists, listed in increasing order: a position is listed exactly when its record's file exists |
| Config.LoadedRowsComeFromRecords | ApplicationStarter/ApplicationStarterForm.cs:28-56 | every loaded row's file exists, and the row is the decoding of a well-formed record against the process table read for that record |
| Config.EncodeFlag | ApplicationStarter/ApplicationStarterForm.cs:277 | the saved flag is "1" or "0", and reading it back (on exactly when "1", as at line 35) gives the flag it came from |
| Config.EncodeRows | ApplicationStarter/ApplicationStarterForm.cs:264-285 | the document has one record per row in row order, with the row's path and a flag attribute that reads back as the row's flag |
| Form.ApplicationStarter.Save | ApplicationStarter/ApplicationStarterForm.cs:242-286 | save refuses an empty grid; otherwise the loop writes exactly EncodeRows of the grid |
| Config.SaveThenLoad | ApplicationStarter/ApplicationStarterForm.cs:24-56 | when every row's file exists, loading what save wrote raises no fault and reproduces the ordered (path, enabled) pairs |
| Form.ApplicationStarter.Add | ApplicationStarter/ApplicationStarterForm.cs:76-93 | a chosen file appends exactly one row at the end, with enabled false; a cancelled dialog changes nothing |
| Table.AddThenRemoveRestores | ApplicationStarter/ApplicationStarterForm.cs:85-87 | removing the row that add appended, by its position, gives back the grid as it was before the add |
| Form.ApplicationStarter.Remove | ApplicationStarter/ApplicationStarterForm.cs:234-240 | removing each selected row at its live index, in any enumeration order, leaves exactly Kept(old rows, selection) |
| Form.ApplicationStarter.IndexOf | ApplicationStarter/ApplicationStarterForm.cs:238 | the live index of a row object is the position that now holds its identity |
| Table.KeptIsUnselectedInOrder | ApplicationStarter/ApplicationStarterForm.cs:234-240 | the rows left after a removal are the unselected rows in their original relative order |
| Table.RemoveFirstAndLast | ApplicationStarter/ApplicationStarterForm.cs:234-240 | selecting rows 0 and 2 of [A, B, C] leaves [B], because each removal uses the row's live index |

## Left out

- The widgets are left out: grid layout, enabling and disabling buttons, message boxes, the open-file dialog and focusing the window (`User32.cs`). Only each operation's outcome is kept: a refusal or success value, a dialog answer given as a parameter.
- `BackgroundWorker`, the 10-second timer and the `IsBusy` check that drops a refresh while one is running are left out. They concern concurrency. Each operation is modelled as one sequential run, and a refresh is a separate `RefreshStatus` call. In the source a refresh follows add and each batch; after load it follows only when the configuration file exists and no record faulted (`:59` sits inside the file check, after the loop). A faulty record's exception also skips setting up the timer at `:62-73`, so no periodic refresh starts.
- `Process.Start`, `Process.Kill` and the retry loop on `StartTime` are left out. They are OS effects, and the loop need not terminate. A launch or kill is a log entry. An exception from `Start` or `Kill` ends the pass in the source; the model treats every launch and kill as issued and the pass as complete.
- Form.ApplicationStarter.StopApplications: the log records a kill of the carried process at every later enabled row without a process of its own, so one process can be killed several times (`StopKillsCarriedTwice`). In the source the second `Kill` of a process that has exited plausibly throws, which ends the pass at the first repeat; the rows after it are then never visited.
- Form.ApplicationStarter.RestartAll: the log holds the whole stop pass followed by the whole start pass. In the source `stopApplications()` and `startApplications()` run back to back with no `try` between them (`:192-196`), so an exception from `Kill` also skips the start pass, while the form still reports the applications restarted (`:187`). Because the stop pass kills the carried process again at later enabled rows, this is the ordinary case: for rows [a enabled and running as process 0, b enabled and stopped] the source plausibly throws at the second `Kill` and launches nothing, whereas the model logs `[Kill(0), Kill(0)]` followed by the start pass's launches.
- Form.ApplicationStarter.StartApplications: does not model the launched process becoming visible to later snapshots. `StartIdempotent` builds that visibility into the second pass's snapshot instead, as the first snapshot followed by the launched images.
- Supervision.StartIdempotent: requires every row path to canonicalise. A row whose path makes `Path.GetFullPath` throw never matches any process, so the source relaunches it on every pass and the property does not hold for it.
- Direct edits to grid cells are left out; the model's rows keep the path and flag they were created with. Toggling the Enabled checkbox is the only way an added row becomes enabled, and the model has no operation for it.
- XML parsing and writing are left out. So are a malformed document (its exception from `XmlDocument.Load`) and the backup rename of the old file with a `DateTime.Now.Ticks` suffix, because these are library file I/O. The document is a sequence of records, and a missing attribute is modelled as the fault it raises.
- Form.ApplicationStarter.Add: gives the new row the status Stopped. In the source the status cell briefly holds `true`, because four values are passed to three cells. The next refresh overwrites it.
- The enabled flag's `Convert.ToBoolean` on the cell value is modelled as the row's boolean. The grid stores only booleans in that column.
- `getWorkingDirectory` and the configuration file's location are left out. They are library path resolution.

## Findings

| source | as written | input that shows it | evidently intended | confidence | as-written member | corrected member |
|---|---|---|---|---|---|---|
| ApplicationStarter/ApplicationStarterForm.cs:383-414 | `currentProcess` is declared before the row loop and never cleared, so an enabled row without a running process kills the process matched by an earlier row | rows [a (disabled, running as process 0), b (enabled, not running)]; the stop pass kills process 0, the disabled row's process | each enabled row kills only its own match, and a disabled row's process is left running | medium; not executed | Supervision.StopKillsForDisabledRow | Supervision.IntendedStopKillsOwnMatch |

The form's `StopApplications` keeps the literal behaviour, which the stop and restart buttons use. `IntendedStopEffects` is the corrected pass: each enabled row kills its own first match and nothing else, and `IntendedStopKillsOwnMatch` proves that it kills a process exactly when that process is the match of some enabled row.
