/** What the parser reports does not depend on how the stream is cut into chunks. */
module CboxChunks {
  import opened Text
  import opened CboxParser
  import opened CboxMachine

  function Then(a: Output, b: Output): Output {
    Output(b.buffer, a.events + b.events, a.data + b.data)
  }

  function PushedAll(buffer: string, chunks: seq<string>): Output
    decreases |chunks|
  {
    if chunks == [] then Output(buffer, [], [])
    else
      var first := Pushed(buffer, chunks[0]);
      Then(first, PushedAll(first.buffer, chunks[1..]))
  }

  /** The machine after the first `n` characters. */
  function After(s: string, n: nat): Machine
    requires n <= |s|
    ensures |After(s, n).frames| > 0 && Valid(After(s, n))
  {
    Run(START, s[..n])
  }

  function Depth(s: string, n: nat): (d: nat)
    requires n <= |s|
    ensures d > 0
  {
    |After(s, n).frames|
  }

  /** The newline in front of `k` is in an annotation that is completed at `m`, or before. */
  ghost predicate IsBroken(s: string, k: nat, m: nat) {
    0 < k <= m < |s| && s[k - 1] == DATA_END && Depth(s, m + 1) < Depth(s, k)
  }

  /** Every newline that ends up in a completed annotation arrives behind a `^` in the text that is still waiting. */
  ghost predicate NewlinesAreHeld(s: string) {
    forall k: nat, m: nat :: IsBroken(s, k, m) ==> '^' in Flatten(After(s, k - 1).frames)
  }

  lemma AfterStep(s: string, n: nat)
    requires n < |s|
    ensures After(s, n + 1) == Step(After(s, n), s[n])
  {
    assert s[..n + 1][..n] == s[..n];
  }

  lemma AfterPrefix(s: string, t: string, n: nat)
    requires n <= |s|
    ensures After(s + t, n) == After(s, n)
  {
    assert (s + t)[..n] == s[..n];
  }

  lemma AfterMore(h: string, t: string, n: nat)
    requires n <= |t|
    ensures After(h + t, |h| + n) == Run(Run(START, h), t[..n])
  {
    hide Run;
    RunAppend(START, h, t[..n]);
    assert (h + t)[..|h| + n] == h + t[..n];
  }

  // ---- Waiting text brings the machine back to where it was -------------------

  lemma {:induction false} RunRoot(s: string)
    requires EVENT_START !in s
    ensures Run(START, s) == Machine([s], [])
  {
    if s != "" {
      var k := |s| - 1;
      assert s == s[..k] + [s[k]];
      RunRoot(s[..k]);
    }
  }

  lemma {:induction false} RunFlatten(m: Machine)
    requires Valid(m)
    ensures Run(START, Flatten(m.frames)) == Machine(m.frames, [])
    decreases |m.frames|
  {
    hide Run;
    var n := |m.frames| - 1;
    if n == 0 {
      RunRoot(m.frames[0]);
      assert m.frames == [m.frames[0]];
    } else {
      var below := m.frames[..n];
      RunFlatten(Machine(below, []));
      OpenedFrame(below, m.frames[n]);
      RunAppend(START, Flatten(below), [EVENT_START] + m.frames[n]);
      Assoc(Flatten(below), [EVENT_START], m.frames[n]);
      assert m.frames == below + [m.frames[n]];
    }
  }

  /** Rewriting can be resumed with what was left over. */
  lemma ExtractResumes(h: string, t: string)
    ensures var before := Extract(Event, h);
            var after := Extract(Event, before.rest + t);
            Extract(Event, h + t) == Extracted(after.rest, before.bodies + after.bodies)
  {
    hide Run, Extract, Flatten;
    var m := Run(START, h);
    ExtractIsRun(h);
    ExtractIsRun(h + t);
    ExtractIsRun(Flatten(m.frames) + t);
    RunFlatten(m);
    RunAppend(START, h, t);
    RunAppend(START, Flatten(m.frames), t);
    RunClosedPrefix(m, t);
  }

  // ---- Depth --------------------------------------------------------------------

  /** Depth is lost only by closing annotations. */
  lemma {:induction false} DepthDrops(m: Machine, q: string)
    requires |m.frames| > 0
    ensures |m.closed| <= |Run(m, q).closed|
    ensures |m.frames| - |Run(m, q).frames| <= |Run(m, q).closed| - |m.closed|
  {
    if q != "" {
      DepthDrops(m, q[..|q| - 1]);
    }
  }

  lemma PrefixIsShallower(m: Machine, p: string, q: string)
    requires Valid(m) && Flatten(m.frames) == p + q
    ensures |Run(START, p).frames| <= |m.frames| && Run(START, p).closed == []
  {
    hide Run, Flatten;
    RunFlatten(m);
    RunAppend(START, p, q);
    DepthDrops(Run(START, p), q);
  }

  lemma AfterNothing(s: string)
    ensures After(s, 0) == START
  {
    assert s[..0] == "";
  }

  lemma FlattenClosed(m: Machine, c: char)
    requires Valid(m) && Step(m, c).closed != m.closed
    ensures |m.frames| > 1 && Step(m, c).frames == m.frames[..|m.frames| - 1]
    ensures Flatten(m.frames) == Flatten(Step(m, c).frames) + ([EVENT_START] + m.frames[|m.frames| - 1])
  {
    Assoc(Flatten(m.frames[..|m.frames| - 1]), [EVENT_START], m.frames[|m.frames| - 1]);
  }

  /** Waiting text was the whole waiting text once, and since then nothing was closed that was open then. */
  lemma {:induction false} Arrival(s: string, n: nat, p: string) returns (k: nat)
    requires n <= |s| && p != "" && p <= Flatten(After(s, n).frames)
    ensures 0 < k <= n && Flatten(After(s, k).frames) == p
    ensures Flatten(After(s, k).frames) == Flatten(After(s, k - 1).frames) + [s[k - 1]]
    ensures forall j :: k <= j <= n ==> Depth(s, k) <= Depth(s, j)
    decreases n
  {
    hide After, Flatten, Run, Valid;
    AfterNothing(s);
    NothingWaits();
    AfterStep(s, n - 1);
    var m, c := After(s, n - 1), s[n - 1];
    if Step(m, c).closed == m.closed {
      FlattenStep(m, c);
      DepthStays(m, c);
      if p == Flatten(m.frames) + [c] {
        k := n;
      } else {
        ShorterPrefix(p, Flatten(m.frames), c);
        k := Arrival(s, n - 1, p);
        assert Depth(s, k) <= Depth(s, n - 1) <= Depth(s, n);
      }
    } else {
      FlattenClosed(m, c);
      var next := Step(m, c);
      PrefixOfPrefix(p, Flatten(next.frames), Flatten(m.frames));
      k := Arrival(s, n - 1, p);
      RunFlatten(After(s, k));
      PrefixIsShallower(next, p, Flatten(next.frames)[|p|..]);
      assert Depth(s, k) <= Depth(s, n);
    }
  }

  lemma DepthStays(m: Machine, c: char)
    requires |m.frames| > 0 && Step(m, c).closed == m.closed
    ensures |m.frames| <= |Step(m, c).frames|
  {
    assert |Step(m, c).closed| == |m.closed|;
  }

  lemma NothingWaits()
    ensures Flatten(START.frames) == ""
  {
  }

  lemma ShorterPrefix(p: string, q: string, c: char)
    requires p <= q + [c] && p != q + [c]
    ensures p <= q
  {
    assert |p| == |q + [c]| ==> p == q + [c];
  }

  lemma PrefixOfPrefix(p: string, q: string, r: string)
    requires p <= q && q <= r
    ensures p <= r && q == p + q[|p|..]
  {
  }

  // ---- Text behind which nothing is closed ------------------------------------------

  /** The frames of later text on top of earlier ones. */
  function Stacked(a: seq<string>, b: seq<string>): (r: seq<string>)
    requires |a| > 0 && |b| > 0
    ensures |r| == |a| + |b| - 1
  {
    a[..|a| - 1] + [a[|a| - 1] + b[0]] + b[1..]
  }

  lemma {:induction false} FlattenStacked(a: seq<string>, b: seq<string>)
    requires |a| > 0 && |b| > 0
    ensures Flatten(Stacked(a, b)) == Flatten(a) + Flatten(b)
    decreases |b|
  {
    var n, whole := |b| - 1, Stacked(a, b);
    if n == 0 {
      assert b[1..] == [];
      assert whole[..|whole| - 1] == a[..|a| - 1];
    } else {
      FlattenStacked(a, b[..n]);
      assert whole[..|whole| - 1] == Stacked(a, b[..n]);
      assert whole[|whole| - 1] == b[n];
    }
  }

  lemma StackedStep(a: seq<string>, x: Machine, c: char)
    requires |a| > 0 && |x.frames| > 0
    requires |a| <= |Step(Machine(Stacked(a, x.frames), x.closed), c).frames|
    ensures Step(Machine(Stacked(a, x.frames), x.closed), c) ==
            Machine(Stacked(a, Step(x, c).frames), Step(x, c).closed)
  {
    var n, frames := |x.frames| - 1, Stacked(a, x.frames);
    if c == EVENT_START {
      assert frames + [""] == Stacked(a, x.frames + [""]);
    } else if c == EVENT_END && n > 0 {
      assert frames[..|frames| - 1] == Stacked(a, x.frames[..n]);
    } else if n > 0 {
      assert frames[|frames| - 1 := frames[|frames| - 1] + [c]] == Stacked(a, x.frames[n := x.frames[n] + [c]]);
    } else {
      assert a[|a| - 1] + (x.frames[0] + [c]) == (a[|a| - 1] + x.frames[0]) + [c];
      assert frames[|frames| - 1 := frames[|frames| - 1] + [c]] == Stacked(a, x.frames[n := x.frames[n] + [c]]);
    }
  }

  /** If no frame of `m` is closed, later text is treated as at the start of the stream. */
  lemma {:induction false} RunBehind(m: Machine, u: string)
    requires |m.frames| > 0 && m.closed == []
    requires forall x :: 0 <= x <= |u| ==> |m.frames| <= |Run(m, u[..x]).frames|
    ensures Run(m, u) == Machine(Stacked(m.frames, Run(START, u).frames), Run(START, u).closed)
    decreases |u|
  {
    hide Stacked, Step;
    if u == "" {
      StackedNothing(m.frames);
    } else {
      var n := |u| - 1;
      assert u[..|u|] == u;
      forall x | 0 <= x <= n ensures |m.frames| <= |Run(m, u[..n][..x]).frames| {
        assert u[..n][..x] == u[..x];
      }
      RunBehind(m, u[..n]);
      StackedStep(m.frames, Run(START, u[..n]), u[n]);
    }
  }

  lemma StackedNothing(a: seq<string>)
    requires |a| > 0
    ensures Stacked(a, START.frames) == a
  {
    assert a[|a| - 1] + "" == a[|a| - 1];
  }

  // ---- Complete lines do not take part in annotations ---------------------

  ghost predicate EndsLine(c: string) {
    c == "" || c[|c| - 1] == DATA_END
  }

  lemma LinesEnd(lines: seq<string>)
    requires AreLines(lines)
    ensures EndsLine(Lines(lines)) && '^' !in Lines(lines)
  {
  }

  /** The annotations that are open behind complete lines are never completed. */
  lemma LinesStayOpen(h: string, t: string, c: string, x: nat)
    requires NewlinesAreHeld(h + t) && c <= Flatten(Run(START, h).frames)
    requires EndsLine(c) && '^' !in c && x <= |t|
    ensures |Run(START, c).frames| <= |Run(Run(START, h), t[..x]).frames|
  {
    hide Run, Flatten, NewlinesAreHeld;
    var s, n := h + t, |h|;
    AfterMore(h, t, x);
    AfterMore(h, t, 0);
    RunNothing(Run(START, h), t);
    if c != "" {
      var k := Arrival(s, n, c);
      RunFlatten(After(s, k));
      HeldSinceArrival(s, k, n + x);
    }
  }

  lemma RunNothing(m: Machine, t: string)
    requires |m.frames| > 0
    ensures Run(m, t[..0]) == m && Run(START, "") == START
  {
  }

  /** If the waiting text was complete lines at `k`, annotations that were open then are never completed. */
  lemma HeldSinceArrival(s: string, k: nat, j: nat)
    requires NewlinesAreHeld(s) && 0 < k <= j <= |s|
    requires var c := Flatten(After(s, k).frames);
             EndsLine(c) && '^' !in c && c == Flatten(After(s, k - 1).frames) + [s[k - 1]]
    ensures Depth(s, k) <= Depth(s, j)
  {
    hide After, Flatten, NewlinesAreHeld;
    var before := Flatten(After(s, k - 1).frames);
    LastChar(before, s[k - 1]);
    if Depth(s, j) < Depth(s, k) {
      HeldAt(s, k, j - 1);
      assert false;
    }
  }

  lemma HeldAt(s: string, k: nat, m: nat)
    requires NewlinesAreHeld(s) && IsBroken(s, k, m)
    ensures '^' in Flatten(After(s, k - 1).frames)
  {
    hide After, Flatten;
  }

  lemma LastChar(s: string, c: char)
    ensures EndsLine(s + [c]) ==> c == DATA_END
    ensures '^' !in s + [c] ==> '^' !in s
  {
    assert (s + [c])[|s|] == c;
  }

  lemma LinesAreSkipped(h: string, t: string, c: string, b: string)
    requires NewlinesAreHeld(h + t) && c + b == Flatten(Run(START, h).frames)
    requires EndsLine(c) && '^' !in c
    ensures Extract(Event, c + (b + t)) == Extracted(c + Extract(Event, b + t).rest, Extract(Event, b + t).bodies)
  {
    hide Run, Extract, Flatten, NewlinesAreHeld, EndsLine, Stacked;
    var m, first := Run(START, h), Run(START, c);
    PrefixIsShallower(m, c, b);
    forall x | 0 <= x <= |b + t| ensures |first.frames| <= |Run(first, (b + t)[..x]).frames| {
      StaysOpen(h, t, c, b, x);
    }
    RunBehind(first, b + t);
    RunAppend(START, c, b + t);
    ExtractIsRun(c + (b + t));
    ExtractIsRun(b + t);
    FlattenStacked(first.frames, Run(START, b + t).frames);
    FlattenPrefix(m, c, b);
  }

  lemma FlattenPrefix(m: Machine, c: string, b: string)
    requires Valid(m) && Flatten(m.frames) == c + b
    ensures Flatten(Run(START, c).frames) == c
  {
    hide Run, Flatten;
    ExtractIsRun(c);
    PrefixIsShallower(m, c, b);
    NothingExtracted(c);
  }

  lemma NothingExtracted(c: string)
    requires Extract(Event, c).bodies == []
    ensures Extract(Event, c).rest == c
  {
    hide Search;
  }

  lemma StaysOpen(h: string, t: string, c: string, b: string, x: nat)
    requires NewlinesAreHeld(h + t) && c + b == Flatten(Run(START, h).frames)
    requires EndsLine(c) && '^' !in c && x <= |b + t|
    ensures |Run(START, c).frames| <= |Run(Run(START, c), (b + t)[..x]).frames|
  {
    hide Run, Flatten, NewlinesAreHeld, EndsLine;
    var m := Run(START, h);
    if x <= |b| {
      RunFlatten(m);
      assert (b + t)[..x] == b[..x] && b == b[..x] + b[x..];
      Assoc(c, b[..x], b[x..]);
      PrefixIsShallower(m, c + b[..x], b[x..]);
      RunAppend(START, c, b[..x]);
      DepthDrops(Run(START, c), b[..x]);
    } else {
      var y := x - |b|;
      LinesStayOpen(h, t, c, y);
      assert (b + t)[..x] == b + t[..y];
      RunAppend(Run(START, c), b, t[..y]);
      RunAppend(START, c, b);
      RunFlatten(m);
      RunClosedPrefix(m, t[..y]);
    }
  }

  // ---- Chunk independence --------------------------------------------------

  /** Pushing more text behind `h` continues where one push of `h` stopped. */
  lemma PushResumes(h: string, t: string)
    requires NewlinesAreHeld(h + t)
    ensures Pushed("", h + t) == Then(Pushed("", h), Pushed(Pushed("", h).buffer, t))
  {
    hide Extract, Run, Flatten, NewlinesAreHeld, AreLines, Lines, EndsLine, Stripped;
    assert "" + h == h && "" + (h + t) == h + t;
    var before := Extract(Event, h);
    var lines := Extract(Data, before.rest);
    var c := Lines(lines.bodies);
    var short := Extract(Event, lines.rest + t);
    ExtractIsRun(h);
    ExtractResumes(h, t);
    DataLines(before.rest);
    LinesEnd(lines.bodies);
    LinesAreSkipped(h, t, c, lines.rest);
    Assoc(c, lines.rest, t);
    DataLinesFirst(lines.bodies, short.rest);
    StrippedAppend(before.bodies, short.bodies);
    StrippedAppend(lines.bodies, Extract(Data, short.rest).bodies);
  }

  lemma HeldPrefix(h: string, t: string)
    requires NewlinesAreHeld(h + t)
    ensures NewlinesAreHeld(h)
  {
    hide After, Flatten;
    forall k: nat, m: nat | IsBroken(h, k, m) ensures '^' in Flatten(After(h, k - 1).frames) {
      AfterPrefix(h, t, k - 1);
      AfterPrefix(h, t, k);
      AfterPrefix(h, t, m + 1);
      assert IsBroken(h + t, k, m);
    }
  }

  lemma {:induction false} PushAllResumes(h: string, chunks: seq<string>)
    requires NewlinesAreHeld(h + Concat(chunks))
    ensures Pushed("", h + Concat(chunks)) == Then(Pushed("", h), PushedAll(Pushed("", h).buffer, chunks))
    decreases |chunks|
  {
    hide Pushed, NewlinesAreHeld;
    var so_far := Pushed("", h);
    if chunks == [] {
      assert h + Concat(chunks) == h;
      ThenNothing(so_far);
    } else {
      var h' := h + chunks[0];
      assert h + Concat(chunks) == h' + Concat(chunks[1..]);
      PushAllResumes(h', chunks[1..]);
      HeldPrefix(h', Concat(chunks[1..]));
      PushResumes(h, chunks[0]);
      ThenAssociates(so_far, Pushed(so_far.buffer, chunks[0]), PushedAll(Pushed("", h').buffer, chunks[1..]));
    }
  }

  lemma ThenNothing(a: Output)
    ensures Then(a, Output(a.buffer, [], [])) == a
  {
  }

  lemma ThenAssociates(a: Output, b: Output, c: Output)
    ensures Then(Then(a, b), c) == Then(a, Then(b, c))
  {
    Assoc(a.events, b.events, c.events);
    Assoc(a.data, b.data, c.data);
  }

  lemma PushNothing()
    ensures Pushed("", "") == Output("", [], [])
  {
    assert "" + "" == "";
    assert Search(Event, "").Nowhere? && Search(Data, "").Nowhere?;
  }

  /** However the stream is cut, a new parser reports the same events, lines and pending text. */
  lemma ChunkIndependence(chunks: seq<string>)
    requires NewlinesAreHeld(Concat(chunks))
    ensures PushedAll("", chunks) == Pushed("", Concat(chunks))
  {
    hide NewlinesAreHeld, Pushed;
    var s := Concat(chunks);
    assert "" + s == s;
    PushNothing();
    PushAllResumes("", chunks);
    ThenFirst(PushedAll("", chunks));
  }

  lemma ThenFirst(a: Output)
    ensures Then(Output("", [], []), a) == a
  {
  }
}
