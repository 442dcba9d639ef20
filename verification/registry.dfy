/**
  The hidden-window registry: the windows the tray currently holds, in the
  order they were hidden, the save file that mirrors them, and the operations
  that hide a window into the tray, restore one or all of them, and persist
  the list.
 */
module Registry {
  import opened Wrappers
  import opened Desktop
  import Codec

  /** One hidden window and the `uID` of the notification icon that stands for it. */
  datatype Record = Record(window: Handle, id: nat)

  /** The application state: the hidden windows and the save file (`None`: absent). */
  datatype App = App(hidden: seq<Record>, file: Option<string>)

  /** A call into Win32 or the shell. These are best-effort side effects: the
      model records that they are made and in which order, not whether they work. */
  datatype Call =
    | AddIcon(window: Handle, id: nat)   // Shell_NotifyIcon(NIM_ADD), attempted
    | HideWindow(window: Handle)         // ShowWindow(SW_HIDE)
    | ShowWindow(window: Handle)         // ShowWindow(SW_SHOW)
    | SetForeground(window: Handle)      // SetForegroundWindow
    | DeleteIcon(id: nat)                // Shell_NotifyIcon(NIM_DELETE)

  /** The outcome of one operation: the new state and the calls it made. */
  datatype Step = Step(app: App, calls: seq<Call>)

  function Ids(hidden: seq<Record>): (ids: seq<nat>)
    ensures |ids| == |hidden|
    ensures forall i :: 0 <= i < |hidden| ==> ids[i] == hidden[i].id
  {
    seq(|hidden|, i requires 0 <= i < |hidden| => hidden[i].id)
  }

  function Windows(hidden: seq<Record>): (ws: seq<Handle>)
    ensures |ws| == |hidden|
    ensures forall i :: 0 <= i < |hidden| ==> ws[i] == hidden[i].window
  {
    seq(|hidden|, i requires 0 <= i < |hidden| => hidden[i].window)
  }

  /** The handles that name live windows, in their original order: the filter
      both the save path and the start-up count apply. */
  function LiveHandles(os: Snapshot, hs: seq<Handle>): (ws: seq<Handle>)
    ensures |ws| <= |hs|
    ensures forall i :: 0 <= i < |ws| ==> IsWindow(os, ws[i])
    ensures forall i :: 0 <= i < |hs| && IsWindow(os, hs[i]) ==> hs[i] in ws
    ensures (forall i :: 0 <= i < |hs| ==> IsWindow(os, hs[i])) ==> ws == hs
    ensures |hs| == 1 ==> ws == (if IsWindow(os, hs[0]) then hs else [])
  {
    if |hs| == 0 then []
    else (if IsWindow(os, hs[0]) then [hs[0]] else []) + LiveHandles(os, hs[1..])
  }

  /** Filtering two runs of handles is filtering each in turn; with the
      one-handle case this fixes the filter to keep order and multiplicity. */
  lemma {:induction false} LiveHandlesAppend(os: Snapshot, a: seq<Handle>, b: seq<Handle>)
    ensures LiveHandles(os, a + b) == LiveHandles(os, a) + LiveHandles(os, b)
    decreases |a|
  {
    if |a| == 0 {
      assert a + b == b;
    } else {
      assert (a + b)[0] == a[0] && (a + b)[1..] == a[1..] + b;
      LiveHandlesAppend(os, a[1..], b);
    }
  }

  /** The windows of the records whose handle is still a window, in registry order. */
  function LiveWindows(hidden: seq<Record>, os: Snapshot): (ws: seq<Handle>)
    ensures |ws| <= |hidden|
    ensures forall i :: 0 <= i < |ws| ==> IsWindow(os, ws[i])
    ensures forall i :: 0 <= i < |hidden| && IsWindow(os, hidden[i].window) ==> hidden[i].window in ws
    ensures (forall i :: 0 <= i < |hidden| ==> IsWindow(os, hidden[i].window)) ==> ws == Windows(hidden)
  {
    LiveHandles(os, Windows(hidden))
  }

  /** Saving two runs of records writes the live windows of the first run,
      then those of the second. */
  lemma LiveWindowsAppend(x: seq<Record>, y: seq<Record>, os: Snapshot)
    ensures LiveWindows(x + y, os) == LiveWindows(x, os) + LiveWindows(y, os)
  {
    assert Windows(x + y) == Windows(x) + Windows(y);
    LiveHandlesAppend(os, Windows(x), Windows(y));
  }

  // ---------------------------------------------------------------------------
  // Persistence.

  /** The save file after `SaveState`: deleted when nothing is hidden; otherwise,
      provided the file opens, truncated and rewritten with the handle of every
      record whose window is still alive. */
  function SaveState(hidden: seq<Record>, os: Snapshot, file: Option<string>): (r: Option<string>)
    ensures |hidden| == 0 ==> r == None
    ensures |hidden| > 0 && !os.writable ==> r == file
    ensures |hidden| > 0 && os.writable ==> r.Some? && Codec.Handles(r.value) == LiveWindows(hidden, os)
    ensures |hidden| > 0 && os.writable ==> r == Some(Codec.Serialize(LiveWindows(hidden, os)))
  {
    if |hidden| == 0 then None
    else if !os.writable then file
    else
      Codec.RoundTrip(LiveWindows(hidden, os));
      Some(Codec.Serialize(LiveWindows(hidden, os)))
  }

  // ---------------------------------------------------------------------------
  // Lookup by icon id.

  /** `i` is the first position whose record carries icon id `uid`. */
  predicate FirstWithId(hidden: seq<Record>, uid: nat, i: int) {
    && 0 <= i < |hidden|
    && hidden[i].id == uid
    && forall j :: 0 <= j < i ==> hidden[j].id != uid
  }

  /** There is only one first position. */
  lemma FirstIsUnique(hidden: seq<Record>, uid: nat, i: int)
    requires FirstWithId(hidden, uid, i)
    ensures forall j :: FirstWithId(hidden, uid, j) ==> j == i
  {
  }

  /** `std::find_if` over the registry for the record whose icon id is `uid`. */
  function FindIcon(hidden: seq<Record>, uid: nat): (r: Option<nat>)
    ensures r.Some? ==> FirstWithId(hidden, uid, r.value)
    ensures r.None? ==> forall j :: 0 <= j < |hidden| ==> hidden[j].id != uid
  {
    if |hidden| == 0 then None
    else if hidden[0].id == uid then Some(0)
    else
      match FindIcon(hidden[1..], uid)
      case Some(i) => Some(i + 1)
      case None => None
  }

  // ---------------------------------------------------------------------------
  // Hiding.

  /** The window a hide acts on: the explicit target, or, on the hotkey path
      (no target), the foreground window. */
  function Target(os: Snapshot, target: Handle): Handle {
    if target != NULL then target else os.foreground
  }

  /** Hide a window into the tray. An ineligible window (null, dead, or a shell
      window) is left alone. Otherwise an icon whose id is the handle cut to 32
      bits is offered to the shell; only if the shell accepts it is the window
      hidden and recorded, and only on the hotkey path is the file rewritten. */
  function MinimizeToTray(app: App, os: Snapshot, target: Handle): (r: Step)
    ensures var w := Target(os, target);
      !Eligible(os, w) ==> r == Step(app, [])
    ensures var w := Target(os, target);
      Eligible(os, w) ==> |r.calls| > 0 && r.calls[0] == AddIcon(w, IconId(w))
    ensures var w := Target(os, target);
      Eligible(os, w) && w !in os.accepts ==> r.calls == [AddIcon(w, IconId(w))]
    ensures var w := Target(os, target);
      w !in os.accepts ==> r.app == app
    ensures var w := Target(os, target);
      Eligible(os, w) && w in os.accepts ==> r.app.hidden == app.hidden + [Record(w, IconId(w))]
    ensures var w := Target(os, target);
      HideWindow(w) in r.calls <==> |r.app.hidden| == |app.hidden| + 1
    ensures var w := Target(os, target);
      HideWindow(w) in r.calls ==> r.calls == [AddIcon(w, IconId(w)), HideWindow(w)]
    ensures target != NULL ==> r.app.file == app.file
    ensures target == NULL && |r.app.hidden| > |app.hidden| ==>
              r.app.file == SaveState(r.app.hidden, os, app.file)
    ensures |r.app.hidden| == |app.hidden| ==> r.app == app
    ensures |r.app.hidden| == |app.hidden| ==> forall k :: 0 <= k < |r.calls| ==> !r.calls[k].HideWindow?
  {
    var w := Target(os, target);
    if !IsWindow(os, w) || IsShellWindow(os, w) then Step(app, [])
    else
      var id := IconId(w);
      if w !in os.accepts then Step(app, [AddIcon(w, id)])
      else
        var hidden := app.hidden + [Record(w, id)];
        var file := if target == NULL then SaveState(hidden, os, app.file) else app.file;
        Step(App(hidden, file), [AddIcon(w, id), HideWindow(w)])
  }

  // ---------------------------------------------------------------------------
  // Restoring.

  /** Restore the window behind the icon whose callback carried `callbackId`:
      the first record whose icon id equals the id cut to 32 bits is removed,
      its window shown and activated if it still exists, its icon deleted, and
      the file rewritten. An id no record carries changes nothing. */
  function RestoreWindow(app: App, os: Snapshot, callbackId: nat): (r: Step)
    ensures (forall k :: 0 <= k < |app.hidden| ==> app.hidden[k].id != Truncate32(callbackId)) ==>
              r == Step(app, [])
    ensures forall i :: FirstWithId(app.hidden, Truncate32(callbackId), i) ==>
              && r.app.hidden == app.hidden[..i] + app.hidden[i + 1..]
              && r.app.file == SaveState(r.app.hidden, os, app.file)
              && |r.calls| > 0 && r.calls[|r.calls| - 1] == DeleteIcon(app.hidden[i].id)
              && (ShowWindow(app.hidden[i].window) in r.calls <==> IsWindow(os, app.hidden[i].window))
              && DeletedIcons(r.calls) == [app.hidden[i].id]
              && ShownWindows(r.calls) == LiveWindows([app.hidden[i]], os)
              && HiddenWindows(r.calls) == []
  {
    match FindIcon(app.hidden, Truncate32(callbackId))
    case None => Step(app, [])
    case Some(i) =>
      FirstIsUnique(app.hidden, Truncate32(callbackId), i);
      var item := app.hidden[i];
      var hidden := app.hidden[..i] + app.hidden[i + 1..];
      Step(App(hidden, SaveState(hidden, os, app.file)), RestoreCalls(item, os))
  }

  /** The calls restoring one record makes: its window shown and activated if
      it is still live, then its icon, and only its icon, deleted; nothing is
      hidden. */
  function RestoreCalls(item: Record, os: Snapshot): (calls: seq<Call>)
    ensures |calls| > 0 && calls[|calls| - 1] == DeleteIcon(item.id)
    ensures ShowWindow(item.window) in calls <==> IsWindow(os, item.window)
    ensures DeletedIcons(calls) == [item.id]
    ensures ShownWindows(calls) == LiveWindows([item], os)
    ensures HiddenWindows(calls) == []
  {
    assert Windows([item]) == [item.window];
    if IsWindow(os, item.window) then
      var calls := [ShowWindow(item.window), SetForeground(item.window), DeleteIcon(item.id)];
      assert calls[1..] == [SetForeground(item.window), DeleteIcon(item.id)];
      assert calls[2..] == [DeleteIcon(item.id)] && calls[2..][1..] == [];
      assert DeletedIcons(calls) == DeletedIcons(calls[1..]) == DeletedIcons(calls[2..]) == [item.id];
      assert ShownWindows(calls) == [item.window] + ShownWindows(calls[1..]);
      assert ShownWindows(calls[1..]) == ShownWindows(calls[2..]) == [];
      calls
    else
      [DeleteIcon(item.id)]
  }

  /** The icon ids a call sequence deletes, in order. */
  function DeletedIcons(calls: seq<Call>): seq<nat> {
    if |calls| == 0 then []
    else (if calls[0].DeleteIcon? then [calls[0].id] else []) + DeletedIcons(calls[1..])
  }

  /** The windows a call sequence shows, in order. */
  function ShownWindows(calls: seq<Call>): seq<Handle> {
    if |calls| == 0 then []
    else (if calls[0].ShowWindow? then [calls[0].window] else []) + ShownWindows(calls[1..])
  }

  /** The windows a call sequence hides, in order. */
  function HiddenWindows(calls: seq<Call>): (ws: seq<Handle>)
    ensures (forall k :: 0 <= k < |calls| ==> !calls[k].HideWindow?) ==> ws == []
  {
    if |calls| == 0 then []
    else (if calls[0].HideWindow? then [calls[0].window] else []) + HiddenWindows(calls[1..])
  }

  lemma {:induction false} DeletedIconsAppend(a: seq<Call>, b: seq<Call>)
    ensures DeletedIcons(a + b) == DeletedIcons(a) + DeletedIcons(b)
    decreases |a|
  {
    if |a| == 0 {
      assert a + b == b;
    } else {
      assert (a + b)[0] == a[0] && (a + b)[1..] == a[1..] + b;
      DeletedIconsAppend(a[1..], b);
    }
  }

  lemma {:induction false} ShownWindowsAppend(a: seq<Call>, b: seq<Call>)
    ensures ShownWindows(a + b) == ShownWindows(a) + ShownWindows(b)
    decreases |a|
  {
    if |a| == 0 {
      assert a + b == b;
    } else {
      assert (a + b)[0] == a[0] && (a + b)[1..] == a[1..] + b;
      ShownWindowsAppend(a[1..], b);
    }
  }

  lemma {:induction false} HiddenWindowsAppend(a: seq<Call>, b: seq<Call>)
    ensures HiddenWindows(a + b) == HiddenWindows(a) + HiddenWindows(b)
    decreases |a|
  {
    if |a| == 0 {
      assert a + b == b;
    } else {
      assert (a + b)[0] == a[0] && (a + b)[1..] == a[1..] + b;
      HiddenWindowsAppend(a[1..], b);
    }
  }

  /** The first record's id and live window come first in the deletions and
      the shows. */
  lemma RestoreAllStep(hidden: seq<Record>, os: Snapshot)
    requires |hidden| > 0
    ensures Ids(hidden) == [hidden[0].id] + Ids(hidden[1..])
    ensures LiveWindows(hidden, os) ==
      (if IsWindow(os, hidden[0].window) then [hidden[0].window] else []) + LiveWindows(hidden[1..], os)
  {
    var ws := Windows(hidden);
    assert ws[0] == hidden[0].window;
    assert ws[1..] == Windows(hidden[1..]);
  }

  /** The calls `RestoreAll` makes, record by record: show the window if it is
      still alive, then delete its icon. */
  function RestoreAllCalls(hidden: seq<Record>, os: Snapshot): (calls: seq<Call>)
    ensures DeletedIcons(calls) == Ids(hidden)
    ensures ShownWindows(calls) == LiveWindows(hidden, os)
  {
    if |hidden| == 0 then []
    else
      var item := hidden[0];
      var here := (if IsWindow(os, item.window) then [ShowWindow(item.window)] else []) + [DeleteIcon(item.id)];
      var rest := RestoreAllCalls(hidden[1..], os);
      DeletedIconsAppend(here, rest);
      ShownWindowsAppend(here, rest);
      RestoreAllStep(hidden, os);
      here + rest
  }

  /** Restoring all windows never hides one. */
  lemma {:induction false} RestoreAllHidesNothing(hidden: seq<Record>, os: Snapshot)
    ensures HiddenWindows(RestoreAllCalls(hidden, os)) == []
    decreases |hidden|
  {
    if |hidden| > 0 {
      var item := hidden[0];
      var here := (if IsWindow(os, item.window) then [ShowWindow(item.window)] else []) + [DeleteIcon(item.id)];
      assert RestoreAllCalls(hidden, os) == here + RestoreAllCalls(hidden[1..], os);
      HiddenWindowsAppend(here, RestoreAllCalls(hidden[1..], os));
      RestoreAllHidesNothing(hidden[1..], os);
    }
  }

  /** Restore every hidden window: each record's icon is deleted exactly once,
      in registry order, every still-live window is shown, and the registry and
      the save file end up empty and absent. */
  function RestoreAll(app: App, os: Snapshot): (r: Step)
    ensures r.app == App([], None)
    ensures DeletedIcons(r.calls) == Ids(app.hidden)
    ensures ShownWindows(r.calls) == LiveWindows(app.hidden, os)
    ensures HiddenWindows(r.calls) == []
  {
    RestoreAllHidesNothing(app.hidden, os);
    Step(App([], SaveState([], os, app.file)), RestoreAllCalls(app.hidden, os))
  }

  // ---------------------------------------------------------------------------
  // Properties relating several operations.

  /** No two records share an icon id. */
  predicate UniqueIds(hidden: seq<Record>) {
    forall i, j :: 0 <= i < j < |hidden| ==> hidden[i].id != hidden[j].id
  }

  /** With distinct icon ids, restoring the same id a second time is a no-op:
      neither the registry, nor the file, nor the shell is touched again. */
  lemma RestoreTwiceIsNoOp(app: App, os: Snapshot, callbackId: nat)
    requires UniqueIds(app.hidden)
    ensures var once := RestoreWindow(app, os, callbackId);
            RestoreWindow(once.app, os, callbackId) == Step(once.app, [])
  {
    var uid := Truncate32(callbackId);
    var once := RestoreWindow(app, os, callbackId);
    match FindIcon(app.hidden, uid)
    case None =>
    case Some(i) =>
      var rest := once.app.hidden;
      assert rest == app.hidden[..i] + app.hidden[i + 1..];
      forall k | 0 <= k < |rest|
        ensures rest[k].id != uid
      {
        if k < i {
          assert rest[k] == app.hidden[k];
        } else {
          assert rest[k] == app.hidden[k + 1];
        }
      }
  }

  /** Hiding a window and then restoring it by its icon id gives back the
      registry as it was, and leaves the file as saving that registry would. */
  lemma HideThenRestore(app: App, os: Snapshot, target: Handle)
    requires Eligible(os, Target(os, target)) && Target(os, target) in os.accepts
    requires forall k :: 0 <= k < |app.hidden| ==> app.hidden[k].id != IconId(Target(os, target))
    ensures var hid := MinimizeToTray(app, os, target);
            var back := RestoreWindow(hid.app, os, IconId(Target(os, target)));
            back.app == App(app.hidden, SaveState(app.hidden, os, app.file))
  {
    var w := Target(os, target);
    var hid := MinimizeToTray(app, os, target);
    var n := |app.hidden|;
    assert FirstWithId(hid.app.hidden, Truncate32(IconId(w)), n);
    assert hid.app.hidden[..n] + hid.app.hidden[n + 1..] == app.hidden;
  }

  /** As written, a window's icon id is its handle cut to 32 bits, so two live
      windows whose handles differ by 2^32 get the same id, and the restore
      meant for the second one restores the first. Every icon is registered
      under the application's own window, so the shell sees the second icon as
      a duplicate of the first; the collision assumes the shell accepts it
      anyway (both windows are in `os.accepts`). */
  lemma TruncatedIdsCollide(os: Snapshot, w: Handle)
    requires w + UINT_LIMIT < HANDLE_LIMIT
    requires Eligible(os, w) && w in os.accepts
    requires Eligible(os, w + UINT_LIMIT) && w + UINT_LIMIT in os.accepts
    ensures var v: Handle := w + UINT_LIMIT;
            var first := MinimizeToTray(App([], None), os, w).app;
            var both := MinimizeToTray(first, os, v).app;
            && both.hidden == [Record(w, IconId(w)), Record(v, IconId(w))]
            && RestoreWindow(both, os, IconId(v)).app.hidden == [Record(v, IconId(w))]
  {
    var v: Handle := w + UINT_LIMIT;
    assert IconId(v) == IconId(w);
    var both := MinimizeToTray(MinimizeToTray(App([], None), os, w).app, os, v).app;
    assert FirstWithId(both.hidden, Truncate32(IconId(v)), 0);
  }
}
