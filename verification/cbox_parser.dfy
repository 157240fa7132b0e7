/** Parses stream data into controlbox events and data. */
module CboxParser {
  import opened Text

  /** The two patterns: `<(?P<message>[^<]*?)>` and `^(?P<message>[^^]*?)\n`. */
  datatype Pattern = Event | Data

  const EVENT_START := '<'
  const EVENT_END := '>'
  const DATA_END := '\n'

  function EndChar(p: Pattern): char {
    if p.Event? then EVENT_END else DATA_END
  }

  /** The pattern can match `s[i..j + 1]`. */
  predicate Matches(p: Pattern, s: string, i: nat, j: nat)
    requires j < |s|
  {
    match p
    case Event => i < j && s[i] == '<' && s[j] == '>' && '<' !in s[i + 1..j]
    case Data => i == 0 && s[j] == '\n' && '^' !in s[..j]
  }

  datatype Found = Nowhere | At(start: nat, end: nat)

  /** What `re` finds: the leftmost start and, the quantifier being lazy, its nearest end. */
  ghost predicate IsFirst(p: Pattern, s: string, found: Found) {
    match found
    case Nowhere => forall i: nat, j: nat :: j < |s| ==> !Matches(p, s, i, j)
    case At(i, j) =>
      && j < |s| && i <= j && Matches(p, s, i, j)
      && (forall i': nat, j': nat :: j' < |s| && Matches(p, s, i', j') ==>
                                       i <= i' && (i == i' ==> j <= j'))
  }

  /** Looks for the next end character, remembering the last start character passed. */
  function Search(p: Pattern, s: string): (found: Found)
    ensures found.At? ==> found.start <= found.end < |s| && Matches(p, s, found.start, found.end)
  {
    if p.Event? then SearchEvent(s, 0, -1) else SearchData(s, 0)
  }

  ghost predicate LastStart(s: string, k: nat, open: int)
    requires k <= |s|
  {
    && -1 <= open < k
    && (open == -1 ==> EVENT_START !in s[..k])
    && (open != -1 ==> s[open] == EVENT_START && EVENT_START !in s[open + 1..k])
  }

  function SearchEvent(s: string, k: nat, open: int): (found: Found)
    requires k <= |s| && LastStart(s, k, open)
    ensures found.At? ==> found.start <= found.end < |s| && Matches(Event, s, found.start, found.end)
    decreases |s| - k
  {
    if k == |s| then Nowhere
    else if s[k] == EVENT_START then
      SearchEvent(s, k + 1, k)
    else if s[k] == EVENT_END && open != -1 then
      At(open, k)
    else
      assert s[..k + 1] == s[..k] + [s[k]];
      assert open != -1 ==> s[open + 1..k + 1] == s[open + 1..k] + [s[k]];
      SearchEvent(s, k + 1, open)
  }

  function SearchData(s: string, k: nat): (found: Found)
    requires k <= |s| && '^' !in s[..k]
    ensures found.At? ==> found.start <= found.end < |s| && Matches(Data, s, found.start, found.end)
    decreases |s| - k
  {
    if k == |s| then Nowhere
    else if s[k] == DATA_END then At(0, k)
    else if s[k] == '^' then Nowhere
    else
      assert s[..k + 1] == s[..k] + [s[k]];
      SearchData(s, k + 1)
  }

  lemma {:induction false} SearchEventIsFirst(s: string, k: nat, open: int)
    requires k <= |s| && LastStart(s, k, open)
    requires forall i: nat, j: nat :: j < k ==> !Matches(Event, s, i, j)
    ensures IsFirst(Event, s, SearchEvent(s, k, open))
    decreases |s| - k
  {
    if k == |s| {
    } else if s[k] == EVENT_START {
      SearchEventIsFirst(s, k + 1, k);
    } else if s[k] == EVENT_END && open != -1 {
      forall i: nat, j: nat | i < open && j < |s| ensures !Matches(Event, s, i, j) {
        if open < j {
          assert EVENT_START in s[i + 1..j] by { assert s[i + 1..j][open - i - 1] == EVENT_START; }
        }
      }
    } else {
      assert s[..k + 1] == s[..k] + [s[k]];
      assert open != -1 ==> s[open + 1..k + 1] == s[open + 1..k] + [s[k]];
      SearchEventIsFirst(s, k + 1, open);
    }
  }

  lemma {:induction false} SearchDataIsFirst(s: string, k: nat)
    requires k <= |s| && '^' !in s[..k] && DATA_END !in s[..k]
    ensures IsFirst(Data, s, SearchData(s, k))
    decreases |s| - k
  {
    if k == |s| || s[k] == DATA_END {
    } else if s[k] == '^' {
      assert forall j: nat :: k < j < |s| ==> s[..j][k] == '^';
    } else {
      assert s[..k + 1] == s[..k] + [s[k]];
      SearchDataIsFirst(s, k + 1);
    }
  }

  /** The search finds the first match whenever there is one. */
  lemma SearchIsFirst(p: Pattern, s: string)
    ensures IsFirst(p, s, Search(p, s))
  {
    if p.Event? {
      SearchEventIsFirst(s, 0, -1);
    } else {
      SearchDataIsFirst(s, 0);
    }
  }

  lemma FirstIsUnique(p: Pattern, s: string, found: Found)
    requires IsFirst(p, s, found)
    ensures Search(p, s) == found
  {
    SearchIsFirst(p, s);
  }

  /** The text that group `message` captures. */
  function Body(p: Pattern, s: string, i: nat, j: nat): string
    requires i <= j < |s| && Matches(p, s, i, j)
  {
    if p.Event? then s[i + 1..j] else s[i..j]
  }

  function Cut(s: string, i: nat, j: nat): string
    requires i <= j < |s|
  {
    s[..i] + s[j + 1..]
  }

  datatype Extracted = Extracted(rest: string, bodies: seq<string>)

  /** Repeatedly removes the first match; `bodies` keeps the captured texts in that order. */
  function Extract(p: Pattern, s: string): Extracted
    decreases |s|
  {
    match Search(p, s)
    case Nowhere => Extracted(s, [])
    case At(i, j) =>
      var r := Extract(p, Cut(s, i, j));
      Extracted(r.rest, [Body(p, s, i, j)] + r.bodies)
  }

  function Stripped(bodies: seq<string>): seq<string> {
    if bodies == [] then [] else [RStrip(bodies[0])] + Stripped(bodies[1..])
  }

  lemma {:induction false} StrippedAppend(a: seq<string>, b: seq<string>)
    ensures Stripped(a + b) == Stripped(a) + Stripped(b)
  {
    if a == [] {
      assert a + b == b;
    } else {
      assert (a + b)[1..] == a[1..] + b;
      StrippedAppend(a[1..], b);
    }
  }

  /** One substitution: the new text, and the messages it found. */
  function Substituted(p: Pattern, s: string): (string, seq<string>) {
    match Search(p, s)
    case Nowhere => (s, [])
    case At(i, j) => (Cut(s, i, j), [RStrip(Body(p, s, i, j))])
  }

  lemma ExtractStep(p: Pattern, messages: seq<string>, s: string)
    ensures var (next, found) := Substituted(p, s);
            && |next| <= |s|
            && (|next| == |s| ==> next == s && Extract(p, s) == Extracted(s, []))
            && Extract(p, s).rest == Extract(p, next).rest
            && messages + Stripped(Extract(p, s).bodies) == (messages + found) + Stripped(Extract(p, next).bodies)
  {
    hide Search, Body, RStrip;
    match Search(p, s)
    case Nowhere =>
    case At(i, j) =>
      var body, later := Body(p, s, i, j), Extract(p, Cut(s, i, j)).bodies;
      StrippedAppend([body], later);
      StrippedOne(body);
      Assoc(messages, [RStrip(body)], Stripped(later));
  }

  lemma StrippedOne(body: string)
    ensures Stripped([body]) == [RStrip(body)]
  {
    assert [body][1..] == [];
  }

  lemma NoEndNoMatch(p: Pattern, s: string)
    requires EndChar(p) !in s
    ensures Extract(p, s) == Extracted(s, [])
  {
    SearchIsFirst(p, s);
  }

  // ---- The parser object -------------------------------------------------

  /** The buffer left, the events and the data lines that one push of `recv` produces. */
  datatype Output = Output(buffer: string, events: seq<string>, data: seq<string>)

  function Pushed(buffer: string, recv: string): Output {
    var annotations := Extract(Event, buffer + recv);
    var lines := Extract(Data, annotations.rest);
    Output(lines.rest, Stripped(annotations.bodies), Stripped(lines.bodies))
  }

  class Parser {
    var buffer: string
    var events: seq<string>
    var data: seq<string>
    var messages: seq<string>

    constructor ()
      ensures buffer == "" && events == [] && data == [] && messages == []
    {
      buffer, events, data, messages := "", [], [], [];
    }

    method EventMessages() returns (out: seq<string>)
      modifies this`events
      ensures out == old(events) && events == []
    {
      out := [];
      while |events| > 0
        invariant out + events == old(events)
      {
        out := out + [events[0]];
        events := events[1..];
      }
    }

    method DataMessages() returns (out: seq<string>)
      modifies this`data
      ensures out == old(data) && data == []
    {
      out := [];
      while |data| > 0
        invariant out + data == old(data)
      {
        out := out + [data[0]];
        data := data[1..];
      }
    }

    method Push(recv: string)
      requires messages == []
      modifies this
      ensures messages == []
      ensures buffer == Pushed(old(buffer), recv).buffer
      ensures events == old(events) + Pushed(old(buffer), recv).events
      ensures data == old(data) + Pushed(old(buffer), recv).data
    {
      buffer := buffer + recv;
      var found := CoerceMessages(Event);
      events := events + found;
      found := CoerceMessages(Data);
      data := data + found;
    }

    /** `re.sub(..., count=1)` with `_extract_message` as replacement. */
    method SubOnce(p: Pattern)
      modifies this`buffer, this`messages
      ensures buffer == Substituted(p, old(buffer)).0
      ensures messages == old(messages) + Substituted(p, old(buffer)).1
    {
      match Search(p, buffer)
      case Nowhere =>
      case At(i, j) =>
        messages := messages + [RStrip(Body(p, buffer, i, j))];
        buffer := Cut(buffer, i, j);
    }

    method CoerceMessages(p: Pattern) returns (found: seq<string>)
      requires messages == []
      modifies this`buffer, this`messages
      ensures buffer == Extract(p, old(buffer)).rest
      ensures found == Stripped(Extract(p, old(buffer)).bodies)
      ensures messages == []
    {
      ghost var all := Extract(p, buffer);
      var prevLen := 0;
      while EndChar(p) in buffer && prevLen != |buffer|
        invariant Extract(p, buffer).rest == all.rest
        invariant messages + Stripped(Extract(p, buffer).bodies) == Stripped(all.bodies)
        invariant prevLen == |buffer| ==> Extract(p, buffer) == Extracted(buffer, [])
        decreases |buffer|, if prevLen != |buffer| then 1 else 0
      {
        prevLen := |buffer|;
        ExtractStep(p, messages, buffer);
        SubOnce(p);
      }
      if EndChar(p) !in buffer {
        NoEndNoMatch(p, buffer);
      }
      found := messages;
      messages := [];
    }
  }
}
