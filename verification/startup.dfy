/**
  Start-up recovery: the save file left by a previous run is read back and
  every handle in it that still names a window is replayed through the hide
  path, without rewriting the file.
 */
module Startup {
  import opened Wrappers
  import opened Desktop
  import opened Codec
  import opened Registry

  /** The handles a replay actually takes into the tray: eligible windows the
      shell accepts an icon for. */
  function Adopted(os: Snapshot, hs: seq<Handle>): (ws: seq<Handle>)
    ensures forall i :: 0 <= i < |ws| ==> Eligible(os, ws[i]) && ws[i] in os.accepts
  {
    if |hs| == 0 then []
    else (if Eligible(os, hs[0]) && hs[0] in os.accepts then [hs[0]] else []) + Adopted(os, hs[1..])
  }

  /** A replay never adopts more windows than it counts: the count includes
      shell windows and windows whose icon the shell refused. */
  lemma {:induction false} AdoptedAtMostCounted(os: Snapshot, hs: seq<Handle>)
    ensures |Adopted(os, hs)| <= |LiveHandles(os, hs)|
    decreases |hs|
  {
    if |hs| > 0 {
      AdoptedAtMostCounted(os, hs[1..]);
    }
  }

  /** The registry records hiding `ws` creates, in order. */
  function RecordsOf(ws: seq<Handle>): (rs: seq<Record>)
    ensures |rs| == |ws|
    ensures forall i :: 0 <= i < |ws| ==> rs[i] == Record(ws[i], IconId(ws[i]))
  {
    seq(|ws|, i requires 0 <= i < |ws| => Record(ws[i], IconId(ws[i])))
  }

  lemma {:induction false} AdoptedAppend(os: Snapshot, a: seq<Handle>, b: seq<Handle>)
    ensures Adopted(os, a + b) == Adopted(os, a) + Adopted(os, b)
    decreases |a|
  {
    if |a| == 0 {
      assert a + b == b;
    } else {
      assert (a + b)[0] == a[0] && (a + b)[1..] == a[1..] + b;
      AdoptedAppend(os, a[1..], b);
    }
  }

  lemma RecordsAppend(a: seq<Handle>, b: seq<Handle>)
    ensures RecordsOf(a + b) == RecordsOf(a) + RecordsOf(b)
  {
  }

  /** Replaying one live handle: the file is untouched, the registry gains the
      record exactly when the handle is adopted, and only an adopted window is hidden. */
  lemma ReplayOne(app: App, os: Snapshot, h: Handle)
    requires IsWindow(os, h)
    ensures var m := MinimizeToTray(app, os, h);
      && m.app.file == app.file
      && m.app.hidden == app.hidden + RecordsOf(Adopted(os, [h]))
      && HiddenWindows(m.calls) == Adopted(os, [h])
  {
    var m := MinimizeToTray(app, os, h);
    assert Adopted(os, [h]) == (if Eligible(os, h) && h in os.accepts then [h] else []) + Adopted(os, []);
    if Eligible(os, h) && h in os.accepts {
      assert RecordsOf([h]) == [Record(h, IconId(h))];
      assert HiddenWindows(m.calls) == [h] + HiddenWindows([]);
    } else {
      assert RecordsOf([]) == [];
    }
  }

  /** A segment the loop passes over (empty, malformed, or naming no window)
      adds nothing to what is counted or adopted. */
  lemma SegmentSkipped(os: Snapshot, segment: string)
    requires !(|segment| > 0 && ParseHandle(segment).Some? && IsWindow(os, ParseHandle(segment).value))
    ensures LiveHandles(os, Parsed(segment)) == []
    ensures Adopted(os, Parsed(segment)) == []
  {
    if ParseHandle(segment).Some? {
      var h := ParseHandle(segment).value;
      assert Parsed(segment) == [h];
      assert LiveHandles(os, [h]) == [] + LiveHandles(os, []);
      assert Adopted(os, [h]) == [] + Adopted(os, []);
    }
  }

  /** A segment naming a live window is counted once. */
  lemma SegmentTaken(os: Snapshot, segment: string, h: Handle)
    requires ParseHandle(segment) == Some(h) && IsWindow(os, h)
    ensures Parsed(segment) == [h]
    ensures LiveHandles(os, Parsed(segment)) == [h]
  {
    assert LiveHandles(os, [h]) == [h] + LiveHandles(os, []);
  }

  /** The handles of the first `i + 1` segments are those of the first `i`,
      then the last segment's. */
  lemma LoadedPrefix(segs: seq<string>, i: nat)
    requires i < |segs|
    ensures SegmentHandles(segs[..i + 1]) == SegmentHandles(segs[..i]) + Parsed(segs[i])
  {
    assert segs[..i + 1] == segs[..i] + [segs[i]];
    assert SegmentHandles([segs[i]]) == Parsed(segs[i]) + SegmentHandles([]);
    SegmentHandlesAppend(segs[..i], [segs[i]]);
  }

  /** What the first `i + 1` segments count and adopt is what the first `i`
      do, followed by what the last segment does. */
  lemma LoadedFurther(os: Snapshot, segs: seq<string>, i: nat)
    requires i < |segs|
    ensures var done, more := SegmentHandles(segs[..i]), Parsed(segs[i]);
      && LiveHandles(os, SegmentHandles(segs[..i + 1])) == LiveHandles(os, done) + LiveHandles(os, more)
      && Adopted(os, SegmentHandles(segs[..i + 1])) == Adopted(os, done) + Adopted(os, more)
      && RecordsOf(Adopted(os, SegmentHandles(segs[..i + 1]))) == RecordsOf(Adopted(os, done)) + RecordsOf(Adopted(os, more))
  {
    var done, more := SegmentHandles(segs[..i]), Parsed(segs[i]);
    LoadedPrefix(segs, i);
    LiveHandlesAppend(os, done, more);
    AdoptedAppend(os, done, more);
    RecordsAppend(Adopted(os, done), Adopted(os, more));
  }

  /** One turn of the load loop: a non-empty segment that parses to a live
      window handle is replayed through the hide path and counted; any other
      segment is skipped. */
  method ReplaySegment(r: Step, count: nat, os: Snapshot, segment: string) returns (r': Step, count': nat)
    ensures r'.app.file == r.app.file
    ensures count' == count + |LiveHandles(os, Parsed(segment))|
    ensures r'.app.hidden == r.app.hidden + RecordsOf(Adopted(os, Parsed(segment)))
    ensures HiddenWindows(r'.calls) == HiddenWindows(r.calls) + Adopted(os, Parsed(segment))
  {
    r', count' := r, count;
    if |segment| > 0 {
      var parsed := ParseHandle(segment);
      if parsed.Some? {
        var h := parsed.value;
        if IsWindow(os, h) {
          var m := MinimizeToTray(r.app, os, h);
          SegmentTaken(os, segment, h);
          ReplayOne(r.app, os, h);
          HiddenWindowsAppend(r.calls, m.calls);
          return Step(m.app, r.calls + m.calls), count + 1;
        }
      }
    }
    SegmentSkipped(os, segment);
  }

  /** The load loop over the segments of the first line, in order. */
  method ReplaySegments(app: App, os: Snapshot, segs: seq<string>) returns (r: Step, restoredCount: nat)
    ensures r.app.file == app.file
    ensures restoredCount == |LiveHandles(os, SegmentHandles(segs))|
    ensures r.app.hidden == app.hidden + RecordsOf(Adopted(os, SegmentHandles(segs)))
    ensures HiddenWindows(r.calls) == Adopted(os, SegmentHandles(segs))
  {
    r, restoredCount := Step(app, []), 0;
    assert RecordsOf([]) == [];
    var i := 0;
    ghost var done: seq<Handle> := [];
    while i < |segs|
      invariant 0 <= i <= |segs|
      invariant done == SegmentHandles(segs[..i])
      invariant r.app.file == app.file
      invariant restoredCount == |LiveHandles(os, done)|
      invariant r.app.hidden == app.hidden + RecordsOf(Adopted(os, done))
      invariant HiddenWindows(r.calls) == Adopted(os, done)
    {
      r, restoredCount := ReplaySegment(r, restoredCount, os, segs[i]);
      LoadedFurther(os, segs, i);
      done := SegmentHandles(segs[..i + 1]);
      i := i + 1;
    }
    assert segs[..i] == segs;
  }

  /** `LoadState`: read the first line of the save file, cut it at commas, and
      for every non-empty segment that parses to a live window handle, hide that
      window through the replay path and count it. Returns the new state with
      the calls made, and the count the recovery message reports. The file
      itself is never rewritten. */
  method LoadState(app: App, os: Snapshot) returns (r: Step, restoredCount: nat)
    ensures app.file.None? ==> r == Step(app, []) && restoredCount == 0
    ensures r.app.file == app.file
    ensures restoredCount == |LiveHandles(os, Load(app.file))|
    ensures r.app.hidden == app.hidden + RecordsOf(Adopted(os, Load(app.file)))
    ensures HiddenWindows(r.calls) == Adopted(os, Load(app.file))
  {
    r, restoredCount := Step(app, []), 0;
    assert RecordsOf([]) == [];
    if app.file.None? {
      return;
    }
    var content := FirstLine(app.file.value);
    LoadSegments(app.file);
    if |content| == 0 {
      return;
    }
    r, restoredCount := ReplaySegments(app, os, Split(content));
  }
}
