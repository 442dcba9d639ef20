/**
  The save file's text format: every persisted window handle is written in
  decimal and followed by a comma ("123,456,"). Loading reads the first line,
  cuts it at every comma the way `std::getline(stream, segment, ',')` does, and
  parses each non-empty segment as an unsigned integer, skipping the ones that
  do not parse.
 */
module Codec {
  import opened Wrappers
  import opened Desktop

  predicate IsDigit(c: char) {
    '0' <= c <= '9'
  }

  predicate AllDigits(s: string) {
    forall i :: 0 <= i < |s| ==> IsDigit(s[i])
  }

  function DigitChar(d: nat): (c: char)
    requires d < 10
    ensures IsDigit(c)
    ensures c as int - '0' as int == d
  {
    ('0' as int + d) as char
  }

  function DigitValue(c: char): (d: nat)
    requires IsDigit(c)
    ensures d < 10
    ensures DigitChar(d) == c
  {
    c as int - '0' as int
  }

  /** Decimal text of `n` as a wide stream writes an unsigned integer: most
      significant digit first, no leading zeros. */
  function Decimal(n: nat): (s: string)
    ensures |s| > 0 && AllDigits(s)
    ensures s[0] == '0' <==> n == 0
    decreases n
  {
    if n < 10 then [DigitChar(n)] else Decimal(n / 10) + [DigitChar(n % 10)]
  }

  /** The number a string of digits denotes (0 for the empty string). */
  function DigitsValue(s: string): nat
    requires AllDigits(s)
    decreases |s|
  {
    if |s| == 0 then 0 else DigitsValue(s[..|s| - 1]) * 10 + DigitValue(s[|s| - 1])
  }

  /** Parsing of one segment: a handle exactly when the segment is a non-empty
      run of decimal digits whose value fits in 64 bits. */
  function ParseHandle(s: string): Option<Handle> {
    if |s| > 0 && AllDigits(s) && DigitsValue(s) < HANDLE_LIMIT then Some(DigitsValue(s)) else None
  }

  /** Position of the first `c` in `s`, or `|s|` when there is none. */
  function IndexOf(s: string, c: char): (k: nat)
    ensures k <= |s|
    ensures forall j :: 0 <= j < k ==> s[j] != c
    ensures k < |s| ==> s[k] == c
    decreases |s|
  {
    if |s| == 0 then 0 else if s[0] == c then 0 else 1 + IndexOf(s[1..], c)
  }

  /** What `std::getline(file, content)` stores: the text before the first newline. */
  function FirstLine(s: string): (r: string)
    ensures '\n' !in r
    ensures r <= s
    ensures '\n' !in s ==> r == s
    ensures |r| < |s| ==> s[|r|] == '\n'
  {
    s[..IndexOf(s, '\n')]
  }

  /** The segments `std::getline(stream, segment, ',')` yields, in order: every
      comma ends a segment, and the text after the last comma is a final segment
      only if it is not empty. */
  function Split(s: string): (segs: seq<string>)
    ensures forall i :: 0 <= i < |segs| ==> ',' !in segs[i]
    decreases |s|
  {
    if |s| == 0 then []
    else
      var k := IndexOf(s, ',');
      if k == |s| then [s] else [s[..k]] + Split(s[k + 1..])
  }

  /** A segment text that neither cut of a load can split: no comma, no newline. */
  predicate Plain(s: string) {
    ',' !in s && '\n' !in s
  }

  /** Segments written one after another, each closed by a comma. */
  function Terminated(segs: seq<string>): (s: string)
    ensures |s| == 0 <==> |segs| == 0
    ensures |s| > 0 ==> s[|s| - 1] == ','
  {
    if |segs| == 0 then "" else segs[0] + "," + Terminated(segs[1..])
  }

  /** The decimal text of every handle, in order. */
  function Texts(hs: seq<Handle>): (ts: seq<string>)
    ensures |ts| == |hs|
    ensures forall i :: 0 <= i < |ts| ==> Plain(ts[i]) && ts[i] == Decimal(hs[i])
  {
    seq(|hs|, i requires 0 <= i < |hs| => Decimal(hs[i]))
  }

  /** What one segment contributes to a load: its handle, or nothing. */
  function Parsed(segment: string): (hs: seq<Handle>)
    ensures |hs| <= 1
  {
    match ParseHandle(segment)
    case Some(h) => [h]
    case None => []
  }

  /** The handles of the segments that parse, in segment order; empty and
      malformed segments contribute nothing. */
  function SegmentHandles(segs: seq<string>): (hs: seq<Handle>)
    ensures |hs| <= |segs|
  {
    if |segs| == 0 then [] else Parsed(segs[0]) + SegmentHandles(segs[1..])
  }

  /** File content for a list of handles: each in decimal, each followed by a comma. */
  function Serialize(hs: seq<Handle>): (s: string)
    ensures '\n' !in s
    ensures |s| == 0 <==> |hs| == 0
  {
    TerminatedPlain(Texts(hs));
    Terminated(Texts(hs))
  }

  /** The handles a load of `content` considers, in file order. */
  function Handles(content: string): seq<Handle> {
    SegmentHandles(Split(FirstLine(content)))
  }

  /** The handles a load considers; a missing file holds none. */
  function Load(file: Option<string>): (hs: seq<Handle>)
    ensures file.None? ==> hs == []
  {
    match file
    case None => []
    case Some(content) => Handles(content)
  }

  /** Segments none of which parses load no handles at all. */
  lemma {:induction false} NothingParses(segs: seq<string>)
    requires forall i :: 0 <= i < |segs| ==> ParseHandle(segs[i]).None?
    ensures SegmentHandles(segs) == []
    decreases |segs|
  {
    if |segs| > 0 {
      NothingParses(segs[1..]);
    }
  }

  /** A present file loads as the segments of its first line; an empty first
      line holds no handles. */
  lemma LoadSegments(file: Option<string>)
    requires file.Some?
    ensures Load(file) == SegmentHandles(Split(FirstLine(file.value)))
    ensures |FirstLine(file.value)| == 0 ==> Load(file) == []
  {
  }

  // ---------------------------------------------------------------------------
  // Decimal printing and parsing are inverse to each other.

  /** Reading back the digits of `n` gives `n`. */
  lemma {:induction false} ValueOfDecimal(n: nat)
    ensures DigitsValue(Decimal(n)) == n
    decreases n
  {
    if n >= 10 {
      var s := Decimal(n);
      assert s[..|s| - 1] == Decimal(n / 10);
      ValueOfDecimal(n / 10);
    }
  }

  /** Every saved handle parses back to itself. */
  lemma ParseDecimal(h: Handle)
    ensures ParseHandle(Decimal(h)) == Some(h)
  {
    ValueOfDecimal(h);
  }

  /** A digit string with no leading zero denotes a positive number. */
  lemma {:induction false} LeadingDigitPositive(s: string)
    requires |s| > 0 && AllDigits(s) && s[0] != '0'
    ensures DigitsValue(s) > 0
    decreases |s|
  {
    if |s| > 1 {
      LeadingDigitPositive(s[..|s| - 1]);
    }
  }

  /** A canonical digit string (no leading zero unless it is "0") is the
      decimal text of its own value. */
  lemma {:induction false} PrintDigits(s: string)
    requires |s| > 0 && AllDigits(s)
    requires |s| == 1 || s[0] != '0'
    ensures Decimal(DigitsValue(s)) == s
    decreases |s|
  {
    if |s| > 1 {
      var p := s[..|s| - 1];
      LeadingDigitPositive(p);
      PrintDigits(p);
      var v := DigitsValue(s);
      assert v / 10 == DigitsValue(p) && v % 10 == DigitValue(s[|s| - 1]);
      assert s == p + [s[|s| - 1]];
    }
  }

  /** The other direction of the round trip: a segment that parses and has no
      leading zero is exactly the decimal text of the handle it yields. */
  lemma ParseThenPrint(s: string)
    requires ParseHandle(s).Some?
    requires |s| == 1 || s[0] != '0'
    ensures Decimal(ParseHandle(s).value) == s
  {
    PrintDigits(s);
  }

  // ---------------------------------------------------------------------------
  // Cutting the file text back into segments.

  lemma {:induction false} IndexOfAppend(a: string, b: string, c: char)
    requires c !in a
    ensures IndexOf(a + b, c) == |a| + IndexOf(b, c)
    decreases |a|
  {
    if |a| > 0 {
      assert (a + b)[1..] == a[1..] + b;
      IndexOfAppend(a[1..], b, c);
    } else {
      assert a + b == b;
    }
  }

  /** A comma-free prefix followed by a comma is exactly the first segment. */
  lemma SplitCons(x: string, rest: string)
    requires ',' !in x
    ensures Split(x + "," + rest) == [x] + Split(rest)
  {
    var t := x + "," + rest;
    assert t == x + ("," + rest);
    IndexOfAppend(x, "," + rest, ',');
    assert ("," + rest)[0] == ',';
    assert IndexOf(t, ',') == |x|;
    assert t[..|x|] == x && t[|x| + 1..] == rest;
  }

  /** Text after the last comma is the final segment, as `getline` returns it
      even without a closing delimiter. */
  lemma SplitLast(x: string)
    requires ',' !in x && |x| > 0
    ensures Split(x) == [x]
  {
  }

  /** Cutting comma-terminated segments at every comma gives the segments back. */
  lemma {:induction false} SplitTerminated(segs: seq<string>)
    requires forall i :: 0 <= i < |segs| ==> ',' !in segs[i]
    ensures Split(Terminated(segs)) == segs
    decreases |segs|
  {
    if |segs| > 0 {
      SplitCons(segs[0], Terminated(segs[1..]));
      SplitTerminated(segs[1..]);
      assert segs == [segs[0]] + segs[1..];
    }
  }

  /** Closing plain segments with commas introduces no newline. */
  lemma {:induction false} TerminatedPlain(segs: seq<string>)
    requires forall i :: 0 <= i < |segs| ==> Plain(segs[i])
    ensures '\n' !in Terminated(segs)
    decreases |segs|
  {
    if |segs| > 0 {
      TerminatedPlain(segs[1..]);
      assert Plain(segs[0]);
    }
  }

  lemma {:induction false} TerminatedAppend(a: seq<string>, b: seq<string>)
    ensures Terminated(a + b) == Terminated(a) + Terminated(b)
    decreases |a|
  {
    if |a| == 0 {
      assert a + b == b;
    } else {
      assert (a + b)[0] == a[0] && (a + b)[1..] == a[1..] + b;
      TerminatedAppend(a[1..], b);
    }
  }

  /** Loading distributes over concatenation of segment lists. */
  lemma {:induction false} SegmentHandlesAppend(a: seq<string>, b: seq<string>)
    ensures SegmentHandles(a + b) == SegmentHandles(a) + SegmentHandles(b)
    decreases |a|
  {
    if |a| == 0 {
      assert a + b == b;
    } else {
      assert (a + b)[0] == a[0] && (a + b)[1..] == a[1..] + b;
      SegmentHandlesAppend(a[1..], b);
    }
  }

  /** The decimal texts of handles parse back to those handles. */
  lemma {:induction false} ParseTexts(hs: seq<Handle>)
    ensures SegmentHandles(Texts(hs)) == hs
    decreases |hs|
  {
    if |hs| > 0 {
      var ts := Texts(hs);
      assert ts[1..] == Texts(hs[1..]);
      ParseDecimal(hs[0]);
      assert Parsed(ts[0]) == [hs[0]];
      assert SegmentHandles(ts) == Parsed(ts[0]) + SegmentHandles(ts[1..]);
      ParseTexts(hs[1..]);
      assert hs == [hs[0]] + hs[1..];
    }
  }

  /** Loading comma-terminated plain segments parses each of them in turn. */
  lemma HandlesTerminated(segs: seq<string>)
    requires forall i :: 0 <= i < |segs| ==> Plain(segs[i])
    ensures Handles(Terminated(segs)) == SegmentHandles(segs)
  {
    TerminatedPlain(segs);
    SplitTerminated(segs);
  }

  /** Round trip: loading what was saved returns the saved handles, in order. */
  lemma RoundTrip(hs: seq<Handle>)
    ensures Handles(Serialize(hs)) == hs
  {
    HandlesTerminated(Texts(hs));
    ParseTexts(hs);
  }

  lemma TerminatedAround(tb: seq<string>, x: string, ta: seq<string>)
    ensures Terminated(tb + [x] + ta) == Terminated(tb) + x + "," + Terminated(ta)
  {
    var tail := [x] + ta;
    assert tail[0] == x && tail[1..] == ta;
    assert tb + [x] + ta == tb + tail;
    TerminatedAppend(tb, tail);
    var front, back := Terminated(tb), Terminated(ta);
    assert front + (x + "," + back) == front + x + "," + back;
  }

  lemma SegmentHandlesAround(a: seq<string>, x: string, b: seq<string>)
    ensures SegmentHandles(a + [x] + b) == SegmentHandles(a) + Parsed(x) + SegmentHandles(b)
  {
    assert SegmentHandles([x]) == Parsed(x) + SegmentHandles([]);
    SegmentHandlesAppend(a, [x]);
    SegmentHandlesAppend(a + [x], b);
  }

  /** Whatever sits, comma-terminated, between two saved runs contributes
      only its own parse result to a load. */
  lemma HandlesAround(before: seq<Handle>, x: string, after: seq<Handle>)
    requires Plain(x)
    ensures Handles(Serialize(before) + x + "," + Serialize(after)) == before + Parsed(x) + after
  {
    var segs := Texts(before) + [x] + Texts(after);
    TerminatedAround(Texts(before), x, Texts(after));
    assert forall i :: 0 <= i < |segs| ==> Plain(segs[i]);
    HandlesTerminated(segs);
    SegmentHandlesAround(Texts(before), x, Texts(after));
    ParseTexts(before);
    ParseTexts(after);
  }

  /** A malformed segment between two saved runs is skipped; the handles on
      both sides of it are still loaded. */
  lemma MalformedSkipped(before: seq<Handle>, junk: string, after: seq<Handle>)
    requires Plain(junk)
    requires ParseHandle(junk).None?
    ensures Handles(Serialize(before) + junk + "," + Serialize(after)) == before + after
  {
    HandlesAround(before, junk, after);
    assert Parsed(junk) == [];
    assert before + [] + after == before + after;
  }
}
