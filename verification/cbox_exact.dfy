/** Newlines that are held back in completed annotations are exactly what chunk independence needs. */
module CboxExact {
  import opened Text
  import opened CboxParser
  import opened CboxMachine
  import opened CboxChunks

  /** A newline in an open annotation got there while at least that many annotations were open. */
  lemma {:induction false} NewlineInFrame(s: string, n: nat, d: nat) returns (k: nat)
    requires n <= |s| && 1 <= d < |After(s, n).frames| && DATA_END in After(s, n).frames[d]
    ensures 0 < k <= n && s[k - 1] == DATA_END && d < |After(s, k).frames|
  {
    hide After;
    AfterNothing(s);
    if n > 0 {
      AfterStep(s, n - 1);
      var frames := After(s, n - 1).frames;
      if d < |frames| && DATA_END in frames[d] {
        k := NewlineInFrame(s, n - 1, d);
      } else {
        k := n;
      }
    }
  }

  /** A completed annotation was the innermost open one at its end character. */
  lemma {:induction false} ClosedAt(s: string, n: nat, x: nat) returns (m: nat)
    requires n <= |s| && x < |After(s, n).closed|
    ensures m < n && s[m] == EVENT_END
    ensures var frames := After(s, m).frames;
            |frames| > 1 && frames[|frames| - 1] == After(s, n).closed[x] && |After(s, m + 1).frames| == |frames| - 1
  {
    hide After;
    AfterNothing(s);
    AfterStep(s, n - 1);
    if x < |After(s, n - 1).closed| {
      m := ClosedAt(s, n - 1, x);
    } else {
      m := n - 1;
    }
  }

  /** Starting deeper closes more annotations: exactly as many more as the difference in depth shrinks. */
  lemma {:induction false} DeeperClosesMore(a: Machine, b: Machine, q: string)
    requires 0 < |a.frames| <= |b.frames|
    ensures var (a', b') := (Run(a, q), Run(b, q));
            && |a'.frames| <= |b'.frames|
            && (|b'.closed| - |b.closed|) - (|a'.closed| - |a.closed|)
               == (|b.frames| - |a.frames|) - (|b'.frames| - |a'.frames|)
  {
    if q != "" {
      DeeperClosesMore(a, b, q[..|q| - 1]);
    }
  }

  lemma {:induction false} DepthGapShrinks(a: Machine, b: Machine, q: string, n: nat)
    requires 0 < |a.frames| <= |b.frames| && n <= |q|
    ensures |Run(b, q).frames| - |Run(a, q).frames| <= |Run(b, q[..n]).frames| - |Run(a, q[..n]).frames|
    decreases |q|
  {
    if n == |q| {
      assert q[..n] == q;
    } else {
      var k := |q| - 1;
      assert q[..k][..n] == q[..n];
      DepthGapShrinks(a, b, q[..k], n);
      DeeperClosesMore(a, b, q[..k]);
    }
  }

  /** Without `^`, text that ends in a newline is cut completely. */
  lemma LinesUseUpText(s: string)
    requires '^' !in s
    ensures Extract(Data, s + [DATA_END]).rest == ""
  {
    hide Extract, Lines;
    DataLines(s + [DATA_END]);
    var lines := Extract(Data, s + [DATA_END]);
    if lines.rest != "" {
      LastNewline(s, Lines(lines.bodies), lines.rest);
      assert false;
    }
  }

  lemma LastNewline(s: string, c: string, rest: string)
    requires s + [DATA_END] == c + rest && rest != "" && Blocked(rest)
    ensures '^' in s
  {
    var j := |rest| - 1;
    assert rest[j] == (c + rest)[|c| + j] == DATA_END;
    assert s[|c|..] == (c + rest)[|c|..|c| + j] == rest[..j];
  }

  lemma RestAt(s: string, k: nat)
    requires 0 < k <= |s| && s[k - 1] == DATA_END
    ensures Extract(Event, s[..k]).rest == Flatten(After(s, k - 1).frames) + [DATA_END]
  {
    hide Run, Flatten, Extract;
    AfterStep(s, k - 1);
    FlattenStep(After(s, k - 1), DATA_END);
    ExtractIsRun(s[..k]);
  }

  /** A chunk that ends in a newline leaves an empty buffer if no `^` is waiting, even if annotations are open. */
  lemma NewlineEmptiesBuffer(s: string, k: nat)
    requires 0 < k <= |s| && s[k - 1] == DATA_END && '^' !in Flatten(After(s, k - 1).frames)
    ensures Pushed("", s[..k]).buffer == ""
  {
    hide *;
    PushedFresh(s[..k]);
    RestAt(s, k);
    LinesUseUpText(Flatten(After(s, k - 1).frames));
  }

  lemma PushedFresh(s: string)
    ensures Pushed("", s).buffer == Extract(Data, Extract(Event, s).rest).rest
    ensures Pushed("", s).events == Stripped(Extract(Event, s).bodies)
  {
    assert "" + s == s;
  }

  lemma StrippedLength(bodies: seq<string>)
    ensures |Stripped(bodies)| == |bodies|
  {
  }

  lemma EventCount(s: string)
    ensures |Pushed("", s).events| == |Run(START, s).closed|
  {
    PushedFresh(s);
    ExtractIsRun(s);
    StrippedLength(Extract(Event, s).bodies);
  }

  /** If an annotation open at `b` is completed in `q`, a fresh machine closes fewer in `q`. */
  lemma DipClosesMore(b: Machine, q: string, n: nat)
    requires 0 < |b.frames| && n <= |q|
    requires |Run(b, q[..n]).frames| < |b.frames|
    ensures |Run(START, q).closed| < |Run(b, q).closed| - |b.closed|
  {
    DeeperClosesMore(START, b, q);
    DepthGapShrinks(START, b, q, n);
  }

  lemma SplitAfter(s: string, k: nat, n: nat)
    requires k <= n <= |s|
    ensures After(s, n) == Run(After(s, k), s[k..][..n - k])
  {
    RunAppend(START, s[..k], s[k..][..n - k]);
    assert s[..n] == s[..k] + s[k..][..n - k];
  }

  lemma TwoChunks(s: string, k: nat)
    requires k <= |s| && Pushed("", s[..k]).buffer == ""
    ensures PushedAll("", [s[..k], s[k..]]).events == Pushed("", s[..k]).events + Pushed("", s[k..]).events
  {
    hide Pushed;
    var q := s[k..];
    assert [s[..k], q][1..] == [q];
    assert PushedAll("", [q]) == Then(Pushed("", q), PushedAll(Pushed("", q).buffer, []));
  }

  lemma RunInTwo(s: string, k: nat)
    requires k <= |s|
    ensures Run(START, s) == Run(After(s, k), s[k..])
  {
    hide Run;
    RunAppend(START, s[..k], s[k..]);
    assert s == s[..k] + s[k..];
  }

  lemma DipCount(s: string, k: nat, m: nat)
    requires k <= m < |s| && Depth(s, m + 1) < Depth(s, k)
    ensures |After(s, k).closed| + |Run(START, s[k..]).closed| < |Run(START, s).closed|
  {
    hide Run, After;
    SplitAfter(s, k, m + 1);
    RunInTwo(s, k);
    DipClosesMore(After(s, k), s[k..], m + 1 - k);
  }

  /** Cutting the stream behind a newline that is not held back loses an event. */
  lemma CutLosesEvent(s: string, k: nat, m: nat)
    requires IsBroken(s, k, m) && '^' !in Flatten(After(s, k - 1).frames)
    ensures |PushedAll("", [s[..k], s[k..]]).events| < |Pushed("", s).events|
  {
    hide Run, Pushed, PushedAll, Flatten;
    NewlineEmptiesBuffer(s, k);
    TwoChunks(s, k);
    EventCount(s[..k]);
    EventCount(s[k..]);
    EventCount(s);
    DipCount(s, k, m);
  }

  /** A stream with a newline that is not held back can be cut in two so that the parser reports something else. */
  lemma ChunkDependence(s: string) returns (k: nat)
    requires !NewlinesAreHeld(s)
    ensures k <= |s| && PushedAll("", [s[..k], s[k..]]) != Pushed("", s)
  {
    hide Pushed, PushedAll, After, Flatten;
    var n: nat, m: nat :| IsBroken(s, n, m) && '^' !in Flatten(After(s, n - 1).frames);
    CutLosesEvent(s, n, m);
    k := n;
  }

  ghost predicate SameForAllChunks(s: string) {
    forall chunks :: Concat(chunks) == s ==> PushedAll("", chunks) == Pushed("", s)
  }

  lemma ConcatPair(a: string, b: string)
    ensures Concat([a, b]) == a + b
  {
    assert [a, b][1..] == [b];
    assert Concat([b]) == b + Concat([]);
  }

  /** The parser reports the same for every way of cutting a stream exactly if its newlines are held back. */
  lemma ChunkIndependenceExact(s: string)
    ensures SameForAllChunks(s) <==> NewlinesAreHeld(s)
  {
    hide Pushed, PushedAll, NewlinesAreHeld, Concat;
    if NewlinesAreHeld(s) {
      forall chunks | Concat(chunks) == s ensures PushedAll("", chunks) == Pushed("", s) {
        ChunkIndependence(chunks);
      }
    } else {
      var k := ChunkDependence(s);
      ConcatPair(s[..k], s[k..]);
      assert s[..k] + s[k..] == s;
    }
  }

  // ---- What a caller can look at -------------------------------------------------

  /** No annotation that is ever completed has a newline in it. */
  ghost predicate UnbrokenAnnotations(s: string) {
    Unbroken(Extract(Event, s).bodies)
  }

  ghost predicate Unbroken(bodies: seq<string>) {
    forall k :: 0 <= k < |bodies| ==> DATA_END !in bodies[k]
  }

  /** A newline that ends up in a completed annotation: `k` is behind it, and `m` is where depth drops below it. */
  lemma BrokenAt(s: string) returns (k: nat, m: nat)
    requires !UnbrokenAnnotations(s)
    ensures IsBroken(s, k, m)
  {
    hide Run, Extract;
    ExtractIsRun(s);
    assert s[..|s|] == s;
    var x: nat :| x < |After(s, |s|).closed| && DATA_END in After(s, |s|).closed[x];
    m := ClosedAt(s, |s|, x);
    k := NewlineInFrame(s, m, |After(s, m).frames| - 1);
  }

  /** After `n` characters, the newline in front of `k` is still in its frame, or in a completed annotation. */
  ghost predicate IsKeptOrClosed(s: string, k: nat, n: nat)
    requires k <= n <= |s|
  {
    || !Unbroken(After(s, n).closed)
    || (Depth(s, k) <= Depth(s, n) && DATA_END in After(s, n).frames[Depth(s, k) - 1])
  }

  lemma NewlineArrives(s: string, k: nat)
    requires 0 < k <= |s| && s[k - 1] == DATA_END
    ensures IsKeptOrClosed(s, k, k)
  {
    hide Run, Unbroken;
    AfterStep(s, k - 1);
  }

  lemma KeptStep(m: Machine, c: char, d: nat)
    requires 0 < d <= |m.frames| && DATA_END in m.frames[d - 1]
    ensures !Unbroken(Step(m, c).closed) || (d <= |Step(m, c).frames| && DATA_END in Step(m, c).frames[d - 1])
  {
    var closed := Step(m, c).closed;
    if |Step(m, c).frames| < d {
      assert closed[|m.closed|] == m.frames[d - 1];
    }
  }

  lemma ClosedStep(m: Machine, c: char)
    requires |m.frames| > 0 && !Unbroken(m.closed)
    ensures !Unbroken(Step(m, c).closed)
  {
    var x :| 0 <= x < |m.closed| && DATA_END in m.closed[x];
    assert Step(m, c).closed[x] == m.closed[x];
  }

  lemma {:induction false} NewlineIsFollowed(s: string, k: nat, n: nat)
    requires 0 < k <= n <= |s| && s[k - 1] == DATA_END
    ensures IsKeptOrClosed(s, k, n)
    decreases n
  {
    hide After, Step, Unbroken;
    if n == k {
      NewlineArrives(s, k);
    } else {
      NewlineIsFollowed(s, k, n - 1);
      AfterStep(s, n - 1);
      if Unbroken(After(s, n - 1).closed) {
        KeptStep(After(s, n - 1), s[n - 1], Depth(s, k));
      } else {
        ClosedStep(After(s, n - 1), s[n - 1]);
      }
    }
  }

  lemma {:induction false} StaysClosed(s: string, n: nat, l: nat)
    requires n <= l <= |s| && !Unbroken(After(s, n).closed)
    ensures !Unbroken(After(s, l).closed)
    decreases l
  {
    hide After, Step, Unbroken;
    if l > n {
      StaysClosed(s, n, l - 1);
      AfterStep(s, l - 1);
      ClosedStep(After(s, l - 1), s[l - 1]);
    }
  }

  /** Completed annotations are unbroken exactly if no newline ends up in one. */
  lemma UnbrokenExactly(s: string)
    ensures UnbrokenAnnotations(s) <==> forall k: nat, m: nat :: !IsBroken(s, k, m)
  {
    hide Run, Extract, Unbroken, Depth;
    if !UnbrokenAnnotations(s) {
      var k, m := BrokenAt(s);
    }
    forall k: nat, m: nat | IsBroken(s, k, m) ensures !UnbrokenAnnotations(s) {
      NewlineIsFollowed(s, k, m + 1);
      StaysClosed(s, m + 1, |s|);
      assert s[..|s|] == s;
      ExtractIsRun(s);
    }
  }

  lemma NoCaretWaits(s: string, n: nat)
    requires n <= |s| && '^' !in s
    ensures '^' !in Flatten(After(s, n).frames)
  {
    hide Run, Extract, Flatten, Wrapped;
    ExtractIsRun(s[..n]);
    ExtractConserves(s[..n]);
    assert '^' !in multiset(s[..n]);
    assert '^' !in multiset(Flatten(After(s, n).frames));
  }

  /** Unbroken annotations suffice, and without `^` they are also necessary. */
  lemma UnbrokenSuffices(s: string)
    ensures UnbrokenAnnotations(s) ==> NewlinesAreHeld(s)
    ensures '^' !in s ==> (NewlinesAreHeld(s) <==> UnbrokenAnnotations(s))
  {
    hide After, Flatten, UnbrokenAnnotations, IsBroken;
    UnbrokenExactly(s);
    if '^' !in s && NewlinesAreHeld(s) {
      forall k: nat, m: nat ensures !IsBroken(s, k, m) {
        if IsBroken(s, k, m) {
          BrokenIsInside(s, k, m);
          NoCaretWaits(s, k - 1);
          assert false;
        }
      }
    }
  }

  lemma BrokenIsInside(s: string, k: nat, m: nat)
    requires IsBroken(s, k, m)
    ensures 0 < k <= |s|
  {
  }

  /** A caller that never sends a newline inside an annotation satisfies the condition. */
  lemma NewlinesOutsideSuffice(s: string)
    requires forall k :: 0 <= k < |s| && s[k] == DATA_END ==> Depth(s, k) == 1
    ensures UnbrokenAnnotations(s) && NewlinesAreHeld(s)
  {
    hide Extract, Run;
    if !UnbrokenAnnotations(s) {
      var k, m := BrokenAt(s);
      AfterStep(s, k - 1);
      assert false;
    }
    UnbrokenSuffices(s);
  }
}
