# TrayCaddy hidden-window registry in Dafny

TrayCaddy hides windows into the Windows notification area. A hotkey (or, at
start-up, the save file) hides a window and puts an icon in the tray for it.
Double-clicking the icon restores the window, and "Restore all" brings every
window back. The list of hidden windows is kept in a save file, so a crash
does not strand hidden windows: the next start reads the file and takes the
windows back into the tray.

This project models that registry as pure functions over immutable data:

- `Desktop` (desktop.dfy) is the part of the Win32 world the registry looks at,
  frozen into a `Snapshot`. It holds:
  - the live handles;
  - the class name of each window;
  - the foreground window;
  - the windows the shell accepts an icon for;
  - whether the save file opens for writing.

  It also defines the eligibility test and the 32-bit icon id cast.
- `Codec` (codec.dfy) is the save file's text format. Handles are written in
  decimal, each closed by a comma. A load keeps the first line and cuts it at
  commas with `getline` semantics. It parses each non-empty segment, dropping
  the malformed ones.
- `Registry` (registry.dfy) holds the state and the operations:
  - the state is the hidden records in hide order plus the file (`None` means
    the file is absent);
  - the operations are `SaveState`, `MinimizeToTray`, `RestoreWindow` and
    `RestoreAll`.

  `SaveState` returns the new save file. The other three each return the new
  state with a log of the Win32 and shell calls they made.
- `Startup` (startup.dfy) is `LoadState`. It replays every live handle of the
  save file through the hide path and returns `restoredCount`.
- `Scenarios` (scenarios.dfy) holds end-to-end runs:
  - a hotkey session that hides two windows and then restores them;
  - a start-up whose file names a stale handle and a live one.
- `Wrappers` (wrappers.dfy) is the `Option` type.

The model follows the code as written:

- An icon's id is its window handle cut to 32 bits.
- The application's own window is not excluded from hiding.
- Of the two hide paths, only the hotkey path rewrites the file.
- Handles are written on one line, each followed by a comma.
- There is no pruning of dead records, no re-registration after a shell
  restart and no id allocator.

## Model

| member | source | states |
|---|---|---|
| Desktop.Truncate32 | TrayCaddy/main.cpp:140 | the `(UINT)` cast keeps a value below 2^32 that differs from the handle by a multiple of 2^32, and leaves a value already below 2^32 as it is |
| Codec.Decimal | TrayCaddy/main.cpp:71 | a handle is written as a non-empty run of digits that starts with '0' only for the handle 0 |
| Codec.ParseDecimal | TrayCaddy/main.cpp:201 | parsing the decimal text of any 64-bit handle gives that handle back |
| Codec.ValueOfDecimal | TrayCaddy/main.cpp:201 | the digits written for a number denote that number |
| Codec.PrintDigits | TrayCaddy/main.cpp:201 | a canonical digit string (no leading zero) is exactly the decimal text of its value |
| Codec.ParseThenPrint | TrayCaddy/main.cpp:201 | a segment that parses and has no leading zero is the text the save path would write for the parsed handle |
| Codec.FirstLine | TrayCaddy/main.cpp:187-189 | the line read is a prefix of the file with no newline that stops at the first newline, and is the whole file when the file has no newline |
| Codec.Split | TrayCaddy/main.cpp:193-197 | no segment produced by cutting at commas contains a comma |
| Codec.SplitCons | TrayCaddy/main.cpp:197 | a comma-free text followed by a comma is cut off as exactly one segment, and the rest is cut independently |
| Codec.SplitLast | TrayCaddy/main.cpp:197 | text after the last comma, when not empty, is returned as the final segment |
| Codec.SplitTerminated | TrayCaddy/main.cpp:193-197 | cutting comma-terminated segments at commas gives back exactly those segments, with no trailing empty segment |
| Codec.SegmentHandles | TrayCaddy/main.cpp:197-209 | each segment contributes at most one handle |
| Codec.NothingParses | TrayCaddy/main.cpp:197-209 | segments none of which parses load no handles |
| Codec.SegmentHandlesAppend | TrayCaddy/main.cpp:197-210 | the handles loaded from two runs of segments are those of the first run followed by those of the second |
| Codec.Serialize | TrayCaddy/main.cpp:68-72 | the written text has no newline, so all of it is the line a load reads, and it is empty exactly when no handle is written |
| Codec.ParseTexts | TrayCaddy/main.cpp:197-201 | parsing the decimal texts of a handle list, segment by segment, gives back the list in order |
| Codec.HandlesTerminated | TrayCaddy/main.cpp:187-201 | a load of comma-terminated plain segments reads exactly those segments |
| Codec.RoundTrip | TrayCaddy/main.cpp:68-201 | loading the text the save path writes for a handle list gives back that list, in order |
| Codec.HandlesAround | TrayCaddy/main.cpp:197-209 | a foreign segment between two saved lists contributes only what it parses to; the handles around it are loaded unchanged |
| Codec.MalformedSkipped | TrayCaddy/main.cpp:198-208 | a malformed or empty segment is skipped without losing the handles before or after it |
| Registry.LiveHandles | TrayCaddy/main.cpp:69 | the handles kept are live, no more than the input, include every live input handle, are the whole input when all are live, and a single handle is kept exactly when it is live |
| Registry.LiveHandlesAppend | TrayCaddy/main.cpp:68-72 | filtering two runs of handles is filtering each in turn, so the filter keeps order and multiplicity |
| Registry.LiveWindows | TrayCaddy/main.cpp:68-72 | the handles saved are live, are at most the registry's size, include every live record's window, and are all windows in order when every record is live |
| Registry.LiveWindowsAppend | TrayCaddy/main.cpp:68-72 | the live windows of two runs of records are those of the first run, then those of the second |
| Registry.SaveState | TrayCaddy/main.cpp:59-74 | an empty registry deletes the file; a file that will not open is left alone; otherwise the file holds exactly the live windows' handles, and loading it gives them back in registry order |
| Registry.FindIcon | TrayCaddy/main.cpp:78-81 | the lookup finds the first record whose icon id matches, and reports none only when no record matches |
| Registry.MinimizeToTray | TrayCaddy/main.cpp:111-157 | a null, dead or shell window is ignored; otherwise the icon is offered first; a refused icon changes no state and is followed by no other call; an accepted one hides the window and appends one record (window, id cut to 32 bits); the hide happens exactly when the registry grows; only the hotkey path saves |
| Registry.RestoreWindow | TrayCaddy/main.cpp:77-96 | an id no record carries changes nothing; otherwise the first matching record is removed with the others kept in order, the file is saved, only the found record's icon is deleted, as the last call, the window is shown exactly when it is still live, and nothing is hidden |
| Registry.RestoreCalls | TrayCaddy/main.cpp:84-89 | restoring one record shows its window exactly when it is live, deletes its icon and no other, as the last call, and hides nothing |
| Registry.RestoreAllCalls | TrayCaddy/main.cpp:100-105 | every record's icon is deleted once, in registry order, and exactly the live windows are shown, in registry order |
| Registry.RestoreAllHidesNothing | TrayCaddy/main.cpp:100-105 | restoring all records makes no hide call |
| Registry.RestoreAll | TrayCaddy/main.cpp:99-108 | the registry ends empty and the file absent; each icon is deleted once in order; every live window is shown; no window is hidden |
| Registry.DeletedIconsAppend | TrayCaddy/main.cpp:100-105 | the icons deleted by two call runs are those of the first run, then those of the second |
| Registry.ShownWindowsAppend | TrayCaddy/main.cpp:100-105 | the windows shown by two call runs are those of the first run, then those of the second |
| Registry.HiddenWindowsAppend | TrayCaddy/main.cpp:145 | the windows hidden by two call runs are those of the first run, then those of the second |
| Registry.RestoreTwiceIsNoOp | TrayCaddy/main.cpp:77-95 | when icon ids are distinct, restoring the same id a second time touches neither registry, file nor shell |
| Registry.HideThenRestore | TrayCaddy/main.cpp:77-157 | hiding a window whose id is new and then restoring it by that id gives back the registry as it was, with the file as saving that registry leaves it |
| Registry.TruncatedIdsCollide | TrayCaddy/main.cpp:77-140 | two live windows whose handles differ by 2^32 get the same icon id, and, assuming the shell accepts the second icon although it duplicates the first, restoring the second restores the first instead |
| Startup.Adopted | TrayCaddy/main.cpp:203-204 | every window taken into the tray at start-up is live, not a shell window, and accepted by the shell |
| Startup.AdoptedAtMostCounted | TrayCaddy/main.cpp:203-205 | the windows actually taken back are never more than the count reported |
| Startup.AdoptedAppend | TrayCaddy/main.cpp:197-205 | adopting two runs of handles is adopting each in turn |
| Startup.ReplayOne | TrayCaddy/main.cpp:203-205 | replaying a live handle never writes the file, adds the record exactly when the window is adopted, and hides only an adopted window |
| Startup.SegmentSkipped | TrayCaddy/main.cpp:198-208 | an empty, malformed or dead segment is neither counted nor adopted |
| Startup.SegmentTaken | TrayCaddy/main.cpp:201-205 | a segment naming a live window is counted exactly once |
| Startup.LoadedPrefix | TrayCaddy/main.cpp:197 | the handles of one more segment are those before it followed by its own |
| Startup.LoadedFurther | TrayCaddy/main.cpp:197-205 | what one more segment counts and adopts is appended to what the earlier segments did |
| Startup.ReplaySegment | TrayCaddy/main.cpp:198-207 | one loop turn leaves the file alone, counts the segment if it names a live window, and appends the adopted record and hide |
| Startup.ReplaySegments | TrayCaddy/main.cpp:197-210 | over all segments the count is the number of live handles, the registry gains one record per adopted window in file order, and the file is untouched |
| Startup.LoadState | TrayCaddy/main.cpp:184-216 | a missing file changes nothing and counts 0; otherwise the count is the number of live handles in the first line, the registry gains exactly the adopted windows in file order, only those are hidden, and the file is never rewritten |
| Scenarios.HotkeyAppends | TrayCaddy/main.cpp:111-157 | a hotkey press on an ordinary accepted window extends the registry and leaves a file listing every hidden window |
| Scenarios.HotkeySession | TrayCaddy/main.cpp:59-157 | hide A, hide B, restore A, restore all: the file loads as [A], [A, B], [B] after each step, and ends absent with an empty registry |
| Scenarios.StaleHandleDropped | TrayCaddy/main.cpp:184-216 | a file naming a dead handle then a live one restores only the live one, counts 1, and keeps the file |

## Left out

- `WindowProc`, `wWinMain`, the message loop, buttons, tray menu, `MessageBox`
  text, hotkey registration and the single-instance mutex are not modelled.
  They are UI plumbing with no registry state of their own.
- `InitTrayIcon` and `InitTrayMenu` are not modelled. They only make Win32
  calls.
- Icon lookup (`GetClassLongPtr`, `WM_GETICON`, `LoadIcon`) and title capture
  (`GetWindowText`) are not modelled. They do not affect the registry.
- The file system is reduced to `Option<string>` and a `writable` flag.
  - A failed `DeleteFile` is not modelled.
  - A failed or partial write after the file opened is not modelled.
  - Wide-character encoding on disk is not modelled.
- Codec.ParseHandle: stricter than `std::stoull`. It accepts only non-empty
  all-digit segments below 2^64. `stoull` also accepts leading whitespace, a
  sign and trailing non-digits. None of these appear in text the program
  writes.
- Each window's class name is given whole, or is absent when `GetClassName`
  fails. The 256-character buffer is not modelled. It cannot matter, because
  the three shell class names are short.
- The shell's answer to `NIM_ADD` is fixed per window (the `accepts` set), not
  per call.
  - Every icon is registered under the application's own window, so the shell
    tells icons apart by id alone.
  - The model therefore accepts an icon whose id is already registered, for
    the same window or another one, whenever that window is in `accepts`.
  - The real shell may refuse any icon whose id is already registered.
- `ShowWindow`, `SetForegroundWindow` and `NIM_DELETE` are best-effort calls.
  They are recorded in the call log, and their success is not modelled.
- The snapshot does not change within an operation. A window hidden during
  start-up replay stays live and keeps its class.
- The `restoredCount > 0` message box is left out. It is output only; the
  count itself is modelled.
