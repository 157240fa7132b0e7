/** A one-pass stack machine for annotated streams, and what the rewriting parser has to do with it. */
module CboxMachine {
  import opened Text
  import opened CboxParser

  // ---- The machine -------------------------------------------------------

  /** `frames[0]` is text outside annotations; every later frame is the text of one open annotation. */
  datatype Machine = Machine(frames: seq<string>, closed: seq<string>)

  const START := Machine([""], [])

  ghost predicate Valid(m: Machine) {
    && |m.frames| > 0
    && EVENT_START !in m.frames[0]
    && forall k :: 1 <= k < |m.frames| ==> EVENT_START !in m.frames[k] && EVENT_END !in m.frames[k]
  }

  function Step(m: Machine, c: char): (r: Machine)
    requires |m.frames| > 0
    ensures |r.frames| > 0
    ensures Valid(m) ==> Valid(r)
  {
    var n := |m.frames| - 1;
    if c == EVENT_START then
      m.(frames := m.frames + [""])
    else if c == EVENT_END && n > 0 then
      Machine(m.frames[..n], m.closed + [m.frames[n]])
    else
      m.(frames := m.frames[n := m.frames[n] + [c]])
  }

  function Run(m: Machine, s: string): (r: Machine)
    requires |m.frames| > 0
    ensures |r.frames| > 0
    ensures Valid(m) ==> Valid(r)
  {
    if s == "" then m else Step(Run(m, s[..|s| - 1]), s[|s| - 1])
  }

  /** The text that is still waiting: open annotations keep their start characters. */
  function Flatten(frames: seq<string>): string
    requires |frames| > 0
  {
    var n := |frames| - 1;
    if n == 0 then frames[0] else Flatten(frames[..n]) + [EVENT_START] + frames[n]
  }

  lemma {:induction false} RunAppend(m: Machine, s: string, t: string)
    requires |m.frames| > 0
    ensures Run(m, s + t) == Run(Run(m, s), t)
  {
    if t == "" {
      assert s + t == s;
    } else {
      var n := |t| - 1;
      assert (s + t)[..|s + t| - 1] == s + t[..n];
      RunAppend(m, s, t[..n]);
    }
  }

  lemma {:induction false} RunClosedPrefix(m: Machine, s: string)
    requires |m.frames| > 0
    ensures Run(m, s) == Machine(Run(m.(closed := []), s).frames, m.closed + Run(m.(closed := []), s).closed)
  {
    if s != "" {
      RunClosedPrefix(m, s[..|s| - 1]);
    }
  }

  lemma FlattenStep(m: Machine, c: char)
    requires Valid(m) && Step(m, c).closed == m.closed
    ensures Flatten(Step(m, c).frames) == Flatten(m.frames) + [c]
  {
    var n := |m.frames| - 1;
    if c == EVENT_START {
      assert (m.frames + [""])[..n + 1] == m.frames;
    } else if n > 0 {
      assert m.frames[n := m.frames[n] + [c]][..n] == m.frames[..n];
    }
  }

  // ---- Rewriting equals the machine --------------------------------------

  /** Text without a match passes through the machine unchanged. */
  lemma {:induction false} RunIrreducible(s: string)
    requires Search(Event, s).Nowhere?
    ensures Run(START, s).closed == [] && Flatten(Run(START, s).frames) == s
  {
    hide Search;
    SearchIsFirst(Event, s);
    if s != "" {
      var k := |s| - 1;
      NoMatchInPrefix(s, k);
      RunIrreducible(s[..k]);
      NothingCloses(Run(START, s[..k]), s);
      FlattenStep(Run(START, s[..k]), s[k]);
      assert s == s[..k] + [s[k]];
    }
  }

  /** An end character behind an open annotation is a match. */
  lemma NothingCloses(m: Machine, s: string)
    requires Valid(m) && s != "" && Flatten(m.frames) == s[..|s| - 1]
    requires forall i: nat, j: nat :: j < |s| ==> !Matches(Event, s, i, j)
    ensures Step(m, s[|s| - 1]).closed == m.closed
  {
    hide Matches;
    var k, n := |s| - 1, |m.frames| - 1;
    if s[k] == EVENT_END && n > 0 {
      var i := |Flatten(m.frames[..n])|;
      LastFrame(m.frames);
      assert s[..k][i + 1..] == s[i + 1..k];
      EndIsMatch(s, i, k);
      assert false;
    }
  }

  lemma LastFrame(frames: seq<string>)
    requires |frames| > 1
    ensures var n, i := |frames| - 1, |Flatten(frames[..|frames| - 1])|;
            && i < |Flatten(frames)| && Flatten(frames)[i] == EVENT_START && Flatten(frames)[i + 1..] == frames[n]
  {
  }

  lemma EndIsMatch(s: string, i: nat, j: nat)
    requires i < j < |s| && s[i] == EVENT_START && s[j] == EVENT_END && EVENT_START !in s[i + 1..j]
    ensures Matches(Event, s, i, j)
  {
  }

  lemma NoMatchInPrefix(s: string, k: nat)
    requires k <= |s| && forall i: nat, j: nat :: j < k ==> !Matches(Event, s, i, j)
    ensures Search(Event, s[..k]).Nowhere?
  {
    if Search(Event, s[..k]).At? {
      var At(i, j) := Search(Event, s[..k]);
      assert s[..k][i + 1..j] == s[i + 1..j];
      assert Matches(Event, s, i, j);
    }
  }

  /** Bracket-free text is appended to the top frame. */
  lemma {:induction false} RunPlain(frames: seq<string>, top: string, s: string)
    requires EVENT_START !in s && EVENT_END !in s
    ensures Run(Machine(frames + [top], []), s) == Machine(frames + [top + s], [])
  {
    if s == "" {
      assert top + s == top;
    } else {
      var k := |s| - 1;
      assert s == s[..k] + [s[k]];
      RunPlain(frames, top, s[..k]);
      assert top + s == (top + s[..k]) + [s[k]];
    }
  }

  /** A complete innermost annotation adds one closed text and leaves the frames as they were. */
  lemma RunAnnotation(m: Machine, body: string)
    requires |m.frames| > 0 && m.closed == []
    requires EVENT_START !in body && EVENT_END !in body
    ensures Run(m, [EVENT_START] + body + [EVENT_END]) == Machine(m.frames, [body])
  {
    hide Run;
    var open := [EVENT_START] + body;
    OpenedFrame(m.frames, body);
    RunSnoc(m, open, EVENT_END);
    assert (m.frames + [body])[..|m.frames|] == m.frames;
  }

  lemma RunSnoc(m: Machine, s: string, c: char)
    requires |m.frames| > 0
    ensures Run(m, s + [c]) == Step(Run(m, s), c)
  {
    assert (s + [c])[..|s|] == s;
  }

  lemma OpenedFrame(below: seq<string>, top: string)
    requires |below| > 0 && EVENT_START !in top && EVENT_END !in top
    ensures Run(Machine(below, []), [EVENT_START] + top) == Machine(below + [top], [])
  {
    var m := Machine(below, []);
    assert Run(m, [EVENT_START]) == Step(Run(m, ""), EVENT_START);
    RunAppend(m, [EVENT_START], top);
    RunPlain(below, "", top);
    assert "" + top == top;
  }

  lemma NoEndInBody(s: string, i: nat, j: nat)
    requires Search(Event, s) == At(i, j)
    ensures EVENT_END !in s[i + 1..j]
  {
    SearchIsFirst(Event, s);
    var body := s[i + 1..j];
    if k :| 0 <= k < |body| && body[k] == EVENT_END {
      EarlierEnd(s, i, i + 1 + k, j);
      assert false;
    }
  }

  lemma EarlierEnd(s: string, i: nat, k: nat, j: nat)
    requires i < k < j < |s| && Matches(Event, s, i, j) && s[k] == EVENT_END
    ensures Matches(Event, s, i, k)
  {
    assert s[i + 1..k] <= s[i + 1..j];
  }

  /** The first match is what the machine closes first. */
  lemma RunFirstMatch(s: string, i: nat, j: nat)
    requires Search(Event, s) == At(i, j)
    ensures i < j < |s|
    ensures s == s[..i] + ([EVENT_START] + s[i + 1..j] + [EVENT_END]) + s[j + 1..]
    ensures EVENT_START !in s[i + 1..j] && EVENT_END !in s[i + 1..j]
    ensures Run(START, s[..i]).closed == []
  {
    NoEndInBody(s, i, j);
    RunBeforeMatch(s, i, j);
  }

  lemma RunBeforeMatch(s: string, i: nat, j: nat)
    requires Search(Event, s) == At(i, j)
    ensures Run(START, s[..i]).closed == []
  {
    SearchIsFirst(Event, s);
    NoMatchInPrefix(s, i);
    RunIrreducible(s[..i]);
  }

  /** Repeated rewriting gives what one pass of the stack machine gives, on every text. */
  lemma {:induction false} ExtractIsRun(s: string)
    ensures Extract(Event, s) == Extracted(Flatten(Run(START, s).frames), Run(START, s).closed)
    decreases |s|
  {
    match Search(Event, s)
    case Nowhere =>
      RunIrreducible(s);
    case At(i, j) =>
      var before, body, after := s[..i], s[i + 1..j], s[j + 1..];
      ExtractIsRun(before + after);
      RunFirstMatch(s, i, j);
      RunOverMatch(before, body, after);
  }

  lemma RunOverMatch(before: string, body: string, after: string)
    requires EVENT_START !in body && EVENT_END !in body
    requires Run(START, before).closed == []
    ensures var whole := Run(START, before + ([EVENT_START] + body + [EVENT_END]) + after);
            var without := Run(START, before + after);
            whole == Machine(without.frames, [body] + without.closed)
  {
    var m := Run(START, before);
    var annotation := [EVENT_START] + body + [EVENT_END];
    RunAppend(START, before, after);
    RunAppend(START, before, annotation);
    RunAppend(START, before + annotation, after);
    RunAnnotation(m, body);
    RunClosedPrefix(Machine(m.frames, [body]), after);
  }

  /** Afterwards every remaining end character precedes every remaining start character. */
  lemma RestIsIrreducible(s: string)
    ensures var rest := Extract(Event, s).rest;
            forall i, j :: 0 <= i < |rest| && 0 <= j < |rest| && rest[i] == EVENT_START && rest[j] == EVENT_END ==>
              j < i
  {
    var rest := Extract(Event, s).rest;
    ExtractStops(Event, s);
    SearchIsFirst(Event, rest);
    forall i, j | 0 <= i < |rest| && 0 <= j < |rest| && rest[i] == EVENT_START && rest[j] == EVENT_END
      ensures j < i
    {
      if i < j {
        var k := NearestStart(rest, i, j);
        assert Matches(Event, rest, k, j);
      }
    }
  }

  lemma {:induction false} ExtractStops(p: Pattern, s: string)
    ensures Search(p, Extract(p, s).rest).Nowhere?
    decreases |s|
  {
    if Search(p, s).At? {
      ExtractStops(p, Cut(s, Search(p, s).start, Search(p, s).end));
    }
  }

  lemma {:induction false} NearestStart(s: string, i: nat, j: nat) returns (k: nat)
    requires i < j < |s| && s[i] == EVENT_START
    ensures i <= k < j && s[k] == EVENT_START && EVENT_START !in s[k + 1..j]
    decreases j - i
  {
    if x :| i < x < j && s[x] == EVENT_START {
      k := NearestStart(s, x, j);
    } else {
      k := i;
    }
  }

  function Wrapped(bodies: seq<string>): string {
    if bodies == [] then "" else [EVENT_START] + bodies[0] + [EVENT_END] + Wrapped(bodies[1..])
  }

  lemma WrappedFirst(body: string, later: seq<string>)
    ensures multiset(Wrapped([body] + later)) == multiset([EVENT_START] + body + [EVENT_END]) + multiset(Wrapped(later))
  {
    assert ([body] + later)[1..] == later;
  }

  lemma NothingWrapped(s: string)
    ensures multiset(s) == multiset(s) + multiset(Wrapped([]))
  {
  }

  /** Nothing is lost or invented: every character is left over or belongs to one removed annotation. */
  lemma {:induction false} ExtractConserves(s: string)
    ensures multiset(s) == multiset(Extract(Event, s).rest) + multiset(Wrapped(Extract(Event, s).bodies))
    decreases |s|
  {
    hide Search, Wrapped, Matches;
    match Search(Event, s)
    case Nowhere =>
      NothingWrapped(s);
    case At(i, j) =>
      RunFirstMatch(s, i, j);
      ExtractConserves(Cut(s, i, j));
      PutBack(s[..i], s[i + 1..j], s[j + 1..], Extract(Event, Cut(s, i, j)));
  }

  lemma PutBack(a: string, body: string, c: string, r: Extracted)
    requires multiset(a + c) == multiset(r.rest) + multiset(Wrapped(r.bodies))
    ensures multiset(a + ([EVENT_START] + body + [EVENT_END]) + c) ==
            multiset(r.rest) + multiset(Wrapped([body] + r.bodies))
  {
    hide Wrapped;
    WrappedFirst(body, r.bodies);
    MultisetCut(a, [EVENT_START] + body + [EVENT_END], c);
  }

  lemma MultisetCut(a: string, b: string, c: string)
    ensures multiset(a + b + c) == multiset(a + c) + multiset(b)
  {
  }

  // ---- Data lines --------------------------------------------------------

  function Lines(bodies: seq<string>): string {
    if bodies == [] then "" else bodies[0] + [DATA_END] + Lines(bodies[1..])
  }

  /** The first newline that no `^` blocks ends the first data line. */
  lemma FirstLine(line: string, t: string)
    requires DATA_END !in line && '^' !in line
    ensures Extract(Data, line + [DATA_END] + t) == Extracted(Extract(Data, t).rest, [line] + Extract(Data, t).bodies)
  {
    var s := line + [DATA_END] + t;
    var j := |line|;
    assert s[..j] == line;
    assert Matches(Data, s, 0, j);
    assert forall j' :: 0 <= j' < j ==> s[j'] == line[j'];
    FirstIsUnique(Data, s, At(0, j));
    assert Cut(s, 0, j) == t;
    assert Body(Data, s, 0, j) == line;
  }

  lemma EarlierNewline(s: string, k: nat, j: nat)
    requires k < j < |s| && Matches(Data, s, 0, j) && s[k] == DATA_END
    ensures Matches(Data, s, 0, k)
  {
    assert s[..k] <= s[..j];
  }

  lemma SearchDataSplits(s: string, j: nat)
    requires Search(Data, s) == At(0, j)
    ensures j < |s| && s == s[..j] + [DATA_END] + s[j + 1..]
    ensures DATA_END !in s[..j] && '^' !in s[..j]
  {
    SearchIsFirst(Data, s);
    if k: nat :| k < j && s[k] == DATA_END {
      EarlierNewline(s, k, j);
      assert false;
    }
  }

  ghost predicate AreLines(lines: seq<string>) {
    forall k :: 0 <= k < |lines| ==> DATA_END !in lines[k] && '^' !in lines[k]
  }

  /** Every newline left over is preceded by a `^`. */
  ghost predicate Blocked(rest: string) {
    forall j :: 0 <= j < |rest| && rest[j] == DATA_END ==> '^' in rest[..j]
  }

  lemma LinesFirst(line: string, later: seq<string>, rest: string)
    requires DATA_END !in line && '^' !in line && AreLines(later)
    ensures Lines([line] + later) + rest == line + [DATA_END] + (Lines(later) + rest)
    ensures AreLines([line] + later)
  {
    assert ([line] + later)[1..] == later;
  }

  /** Data lines are the text up to the last newline that no `^` blocks, cut at its newlines. */
  lemma {:induction false} DataLines(s: string)
    ensures s == Lines(Extract(Data, s).bodies) + Extract(Data, s).rest
    ensures AreLines(Extract(Data, s).bodies) && Blocked(Extract(Data, s).rest)
    decreases |s|
  {
    match Search(Data, s)
    case Nowhere =>
      SearchIsFirst(Data, s);
      forall j | 0 <= j < |s| && s[j] == DATA_END ensures '^' in s[..j] {
        assert !Matches(Data, s, 0, j);
      }
    case At(i, j) =>
      SearchDataSplits(s, j);
      DataLines(s[j + 1..]);
      FirstLine(s[..j], s[j + 1..]);
      var r := Extract(Data, s[j + 1..]);
      LinesFirst(s[..j], r.bodies, r.rest);
  }

  /** Complete lines at the front do not influence what follows. */
  lemma {:induction false} DataLinesFirst(lines: seq<string>, t: string)
    requires AreLines(lines)
    ensures Extract(Data, Lines(lines) + t) == Extracted(Extract(Data, t).rest, lines + Extract(Data, t).bodies)
  {
    if lines == [] {
      assert Lines(lines) + t == t;
    } else {
      DataLinesFirst(lines[1..], t);
      assert lines == [lines[0]] + lines[1..];
      PrependLine(lines[0], lines[1..], t, Extract(Data, t));
    }
  }

  lemma PrependLine(line: string, later: seq<string>, t: string, x: Extracted)
    requires DATA_END !in line && '^' !in line && AreLines(later)
    requires Extract(Data, Lines(later) + t) == Extracted(x.rest, later + x.bodies)
    ensures Extract(Data, Lines([line] + later) + t) == Extracted(x.rest, [line] + later + x.bodies)
  {
    LinesFirst(line, later, t);
    FirstLine(line, Lines(later) + t);
    Assoc([line], later, x.bodies);
  }
}
