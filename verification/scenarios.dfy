/**
  Runs of the registry end to end: a hotkey session that hides two windows
  and restores them, and a start-up that finds one stale and one live handle
  in the save file.
 */
module Scenarios {
  import opened Wrappers
  import opened Desktop
  import opened Codec
  import opened Registry
  import opened Startup

  /** Two ordinary windows, alive and accepted by the shell, with different
      icon ids, on a desktop where the save file can be written. */
  predicate TwoWindows(os: Snapshot, a: Handle, b: Handle) {
    && Eligible(os, a) && a in os.accepts
    && Eligible(os, b) && b in os.accepts
    && IconId(a) != IconId(b)
    && os.writable
  }

  /** The state after the hotkey has hidden the windows `ws`, in order. */
  function Hidden(ws: seq<Handle>): App {
    App(RecordsOf(ws), Some(Serialize(ws)))
  }

  /** One hotkey press on the foreground window `w` that is ordinary and
      accepted: the registry gains its record and the file lists every window. */
  lemma {:induction false} HotkeyAppends(os: Snapshot, ws: seq<Handle>, w: Handle, file: Option<string>)
    requires os.foreground == w && Eligible(os, w) && w in os.accepts && os.writable
    requires forall i :: 0 <= i < |ws| ==> IsWindow(os, ws[i])
    ensures MinimizeToTray(App(RecordsOf(ws), file), os, NULL).app == Hidden(ws + [w])
  {
    var hs := RecordsOf(ws) + [Record(w, IconId(w))];
    var r := MinimizeToTray(App(RecordsOf(ws), file), os, NULL);
    assert r.app.hidden == hs;
    assert hs == RecordsOf(ws + [w]);
    assert Windows(hs) == ws + [w];
    assert forall i :: 0 <= i < |hs| ==> IsWindow(os, hs[i].window);
    assert LiveWindows(hs, os) == ws + [w];
  }

  lemma HideFirst(os: Snapshot, a: Handle, b: Handle)
    requires TwoWindows(os, a, b)
    ensures MinimizeToTray(App([], None), os.(foreground := a), NULL).app == Hidden([a])
  {
    assert RecordsOf([]) == [];
    HotkeyAppends(os.(foreground := a), [], a, None);
  }

  lemma HideSecond(os: Snapshot, a: Handle, b: Handle)
    requires TwoWindows(os, a, b)
    ensures MinimizeToTray(Hidden([a]), os.(foreground := b), NULL).app == Hidden([a, b])
  {
    HotkeyAppends(os.(foreground := b), [a], b, Some(Serialize([a])));
    assert [a] + [b] == [a, b];
  }

  lemma RestoreFirst(os: Snapshot, a: Handle, b: Handle)
    requires TwoWindows(os, a, b)
    ensures RestoreWindow(Hidden([a, b]), os, IconId(a)).app == Hidden([b])
  {
    var hs := RecordsOf([a, b]);
    assert hs == [Record(a, IconId(a)), Record(b, IconId(b))];
    assert FirstWithId(hs, Truncate32(IconId(a)), 0);
    var rest := hs[..0] + hs[1..];
    assert rest == [Record(b, IconId(b))] == RecordsOf([b]);
    assert Windows(rest) == [b];
    assert LiveWindows(rest, os) == [b];
  }

  /** Hide A, hide B, restore A by its icon id, restore all: the registry and
      the save file follow the windows step by step, and end empty and absent. */
  lemma HotkeySession(os: Snapshot, a: Handle, b: Handle)
    requires TwoWindows(os, a, b)
    ensures var s1 := MinimizeToTray(App([], None), os.(foreground := a), NULL).app;
            var s2 := MinimizeToTray(s1, os.(foreground := b), NULL).app;
            var s3 := RestoreWindow(s2, os, IconId(a)).app;
            var s4 := RestoreAll(s3, os).app;
            && |s1.hidden| == 1 && Load(s1.file) == [a]
            && |s2.hidden| == 2 && Load(s2.file) == [a, b]
            && s3.hidden == [Record(b, IconId(b))] && Load(s3.file) == [b]
            && s4 == App([], None)
  {
    HideFirst(os, a, b);
    HideSecond(os, a, b);
    RestoreFirst(os, a, b);
    RoundTrip([a]);
    RoundTrip([a, b]);
    RoundTrip([b]);
  }

  /** A save file naming one window that no longer exists, then one that does:
      only the live one is taken back into the tray, the count is 1, and the
      file is left as it was. */
  method StaleHandleDropped(os: Snapshot, stale: Handle, live: Handle) returns (r: Step, restoredCount: nat)
    requires !IsWindow(os, stale)
    requires Eligible(os, live) && live in os.accepts
    ensures restoredCount == 1
    ensures r.app.hidden == [Record(live, IconId(live))]
    ensures r.app.file == Some(Serialize([stale, live]))
  {
    var saved: seq<Handle> := [stale, live];
    var app := App([], Some(Serialize(saved)));
    RoundTrip(saved);
    assert saved[1..] == [live];
    assert LiveHandles(os, [live]) == [live] + LiveHandles(os, []);
    assert LiveHandles(os, saved) == [live];
    assert Adopted(os, [live]) == [live] + Adopted(os, []);
    assert Adopted(os, saved) == [live];
    r, restoredCount := LoadState(app, os);
  }
}
