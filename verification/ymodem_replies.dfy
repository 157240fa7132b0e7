/** How a transfer ends, whatever arrives: which replies let it go on, and which end it. */
module YmodemReplies {
  import opened Wrappers
  import opened Ymodem

  // ---- One reply for each batch ---------------------------------------------------------

  predicate AllPrompts(messages: seq<Bytes>) {
    forall k :: 0 <= k < |messages| ==> IsPrompt(messages[k])
  }

  /** What each batch says, in order; batches that hold nothing but C are passed over. */
  function Replies(batches: seq<seq<Bytes>>): seq<Outcome<Control>> {
    if batches == [] then []
    else (if AllPrompts(batches[0]) then [] else [Answer(batches[0])]) + Replies(batches[1..])
  }

  function First(replies: seq<Outcome<Control>>): Outcome<Control> {
    if replies == [] then Blocked else replies[0]
  }

  function Rest(replies: seq<Outcome<Control>>): seq<Outcome<Control>> {
    if replies == [] then [] else replies[1..]
  }

  lemma {:induction false} AnswerOfBoth(a: seq<Bytes>, b: seq<Bytes>)
    ensures if AllPrompts(a) then Answer(a + b) == Answer(b) && Taken(a + b) == |a| + Taken(b)
            else Answer(a + b) == Answer(a) != Blocked && Taken(a + b) == Taken(a) && 0 < Taken(a) <= |a|
  {
    hide ToControl;
    if a == [] {
      assert a + b == b;
    } else {
      assert a + b == [a[0]] + (a[1..] + b) && a == [a[0]] + a[1..];
      AnswerNext(a[0], a[1..] + b);
      AnswerNext(a[0], a[1..]);
      if IsPrompt(a[0]) {
        AnswerOfBoth(a[1..], b);
      }
    }
  }

  lemma {:induction false} LaterInQueue(queue: seq<Bytes>, batches: seq<seq<Bytes>>, n: nat)
    requires n <= |queue|
    ensures Later(Line(queue, batches), n) == Line(queue[n..], batches)
    decreases n
  {
    if n > 0 {
      LaterInQueue(queue[1..], batches, n - 1);
      assert queue[1..][n - 1..] == queue[n..];
    }
  }

  lemma {:induction false} LaterBehindQueue(queue: seq<Bytes>, batches: seq<seq<Bytes>>, n: nat)
    ensures Later(Line(queue, batches), |queue| + n) == Later(Line([], batches), n)
    decreases |queue|
  {
    if queue != [] {
      LaterBehindQueue(queue[1..], batches, n);
    }
  }

  lemma LaterRefills(batches: seq<seq<Bytes>>, n: nat)
    requires batches != [] && n > 0
    ensures Later(Line([], batches), n) == Later(Line(batches[0], batches[1..]), n)
  {
  }

  /** The first reply is given, and the replies behind it are still to come. */
  predicate IsReplied(batches: seq<seq<Bytes>>) {
    var answer, taken := Answer(Flat(batches)), Taken(Flat(batches));
    if answer == Blocked then Replies(batches) == []
    else
      && taken > 0 && Replies(batches) == [answer] + Replies(Later(Line([], batches), taken).arrivals)
  }

  lemma PromptsAreSkipped(batches: seq<seq<Bytes>>)
    requires batches != [] && AllPrompts(batches[0]) && IsReplied(batches[1..])
    ensures IsReplied(batches)
  {
    hide Answer, Later, Taken, AllPrompts;
    var first, rest := batches[0], batches[1..];
    AnswerOfBoth(first, Flat(rest));
    assert Replies(batches) == Replies(rest);
    if Answer(Flat(batches)) != Blocked {
      LaterRefills(batches, Taken(Flat(batches)));
      LaterBehindQueue(first, rest, Taken(Flat(rest)));
    }
  }

  lemma BatchReplies(batches: seq<seq<Bytes>>)
    requires batches != [] && !AllPrompts(batches[0])
    ensures IsReplied(batches)
  {
    hide Answer, Later, Taken, AllPrompts;
    var first, rest := batches[0], batches[1..];
    AnswerOfBoth(first, Flat(rest));
    LaterRefills(batches, Taken(Flat(batches)));
    LaterInQueue(first, rest, Taken(first));
  }

  lemma {:induction false} EachIsReplied(batches: seq<seq<Bytes>>)
    ensures IsReplied(batches)
  {
    hide IsReplied, AllPrompts;
    if batches == [] {
      assert IsReplied([]) by { NoAnswer(); }
    } else if AllPrompts(batches[0]) {
      EachIsReplied(batches[1..]);
      PromptsAreSkipped(batches);
    } else {
      BatchReplies(batches);
    }
  }

  lemma NoAnswer()
    ensures IsReplied([])
  {
  }

  /** A packet is answered by the next reply. */
  lemma SentIsAnswered(l: Line, packet: Bytes)
    ensures var t := Sent(l, packet);
            t.outcome == First(Replies(l.arrivals)) && Replies(t.line.arrivals) == Rest(Replies(l.arrivals))
  {
    hide Answer, Taken, Later, Replies, Flat;
    EachIsReplied(l.arrivals);
    assert Messages(Line([], l.arrivals)) == Flat(l.arrivals);
    NothingReplied();
  }

  lemma NothingReplied()
    ensures Replies([]) == []
  {
  }

  /** A data packet takes the next reply, or the one behind it if that is NAK. */
  function AfterNak(replies: seq<Outcome<Control>>): seq<Outcome<Control>> {
    if First(replies) == Returned(NAK) then Rest(replies) else replies
  }

  lemma DataIsAnswered(l: Line, number: nat, data: Bytes)
    requires |data| <= DATA_LEN
    ensures var t := SentData(l, number, data);
            && t.outcome == First(AfterNak(Replies(l.arrivals)))
            && Replies(t.line.arrivals) == Rest(AfterNak(Replies(l.arrivals)))
  {
    hide Sent, Replies, Packet;
    var packet := Packet(number, data);
    assert |packet| == PACKET_LEN by { PacketFits(number, data); }
    SentIsAnswered(l, packet);
    SentIsAnswered(Sent(l, packet).line, packet);
  }

  lemma PacketFits(number: nat, data: Bytes)
    requires |data| <= DATA_LEN
    ensures |Packet(number, data)| == PACKET_LEN
  {
  }

  // ---- Whole transfers --------------------------------------------------------------------

  /** How many replies acknowledge `n` packets, each with ACK or with NAK and then ACK. */
  function Acknowledging(replies: seq<Outcome<Control>>, n: nat): (used: Option<nat>)
    ensures used.Some? ==> used.value <= |replies|
  {
    if n == 0 then Some(0)
    else
      var earlier := Acknowledging(replies, n - 1);
      if earlier.None? then None
      else if [Returned(ACK)] <= replies[earlier.value..] then Some(earlier.value + 1)
      else if [Returned(NAK), Returned(ACK)] <= replies[earlier.value..] then Some(earlier.value + 2)
      else None
  }

  /** What a packet comes to that is not acknowledged. */
  predicate IsRefusal(replies: seq<Outcome<Control>>, outcome: Outcome<Control>) {
    var reply := First(AfterNak(replies));
    match reply
    case Returned(c) => c != ACK && outcome == Raised(Aborted(c))
    case _ => outcome == reply
  }

  /** What the end of the transfer comes to: nothing but ACK is accepted, and then the closing packet decides. */
  predicate IsEnding(replies: seq<Outcome<Control>>, outcome: Outcome<Control>) {
    match First(replies)
    case Returned(c) =>
      if c == ACK then outcome == First(AfterNak(Rest(replies))) else outcome == Raised(AssertionError)
    case _ => outcome == First(replies)
  }

  /** `n` packets are acknowledged, and `l` has the replies that are left. */
  predicate IsAfter(replies: seq<Outcome<Control>>, n: nat, l: Line) {
    var used := Acknowledging(replies, n);
    used.Some? && Replies(l.arrivals) == replies[used.value..]
  }

  /** Packet `n` is the first that is not acknowledged. */
  predicate EndsAt(replies: seq<Outcome<Control>>, n: nat, outcome: Outcome<Control>) {
    var used := Acknowledging(replies, n);
    used.Some? && Acknowledging(replies, n + 1).None? && IsRefusal(replies[used.value..], outcome)
  }

  lemma NextPacket(replies: seq<Outcome<Control>>, n: nat, l: Line, number: nat, data: Bytes)
    requires IsAfter(replies, n, l) && |data| <= DATA_LEN
    ensures var t := Insisted(SentData(l, number, data), false);
            if t.outcome.Returned? then t.outcome == Returned(ACK) && IsAfter(replies, n + 1, t.line)
            else EndsAt(replies, n, t.outcome)
  {
    hide SentData, Replies;
    DataIsAnswered(l, number, data);
    RepliesLeft(replies, Acknowledging(replies, n).value);
  }

  lemma RepliesLeft(replies: seq<Outcome<Control>>, used: nat)
    requires used <= |replies|
    ensures var left := replies[used..];
            && (left != [] ==> Rest(left) == replies[used + 1..])
            && (|left| > 1 ==> Rest(Rest(left)) == replies[used + 2..])
            && ([Returned(ACK)] <= left <==> First(left) == Returned(ACK))
            && ([Returned(NAK), Returned(ACK)] <= left <==>
                First(left) == Returned(NAK) && First(Rest(left)) == Returned(ACK))
  {
  }

  /** `n` packets of the file behind `k` others. */
  lemma {:induction false} BodyGoesOn(replies: seq<Outcome<Control>>, k: nat, l: Line, file: Bytes, n: nat)
    returns (at: nat)
    requires IsAfter(replies, k, l) && n <= PacketCount(file)
    ensures var t := SentBody(l, file, n);
            if t.outcome.Returned? then t.outcome == Returned(ACK) && IsAfter(replies, k + n, t.line)
            else at < k + n && EndsAt(replies, at, t.outcome)
    decreases n
  {
    hide SentData, IsAfter, EndsAt, PacketCount, ChunkStart, ReadAt;
    at := k + n;
    if n > 0 {
      var before := BodyGoesOn(replies, k, l, file, n - 1);
      var t := SentBody(l, file, n - 1);
      if t.outcome.Returned? {
        at := k + n - 1;
        NextChunk(file, n - 1);
        NextPacket(replies, at, t.line, n, ReadAt(file, ChunkStart(file, n - 1)));
      } else {
        at := before;
      }
    }
  }

  lemma StartsAfterNothing(l: Line, none: nat)
    requires none == 0
    ensures IsAfter(Replies(l.arrivals), none, l)
  {
    assert Replies(l.arrivals)[0..] == Replies(l.arrivals);
  }

  lemma EndAndClosing(replies: seq<Outcome<Control>>, n: nat, l: Line)
    requires IsAfter(replies, n, l)
    ensures var end := SentEnd(l);
            IsEnding(replies[Acknowledging(replies, n).value..],
                     if end.outcome.Returned? then SentData(end.line, 0, []).outcome else end.outcome)
  {
    hide SentData, Sent, Replies, Acknowledging;
    SentIsAnswered(l, [EOT_BYTE]);
    DataIsAnswered(SentEnd(l).line, 0, []);
  }

  lemma TransferOutcome(l: Line, name: Bytes, file: Bytes)
    ensures var first := SentFirst(l, name, file);
            var body := SentBody(first.line, file, PacketCount(file));
            var end := SentEnd(body.line);
            Transferred(l, name, file).outcome ==
            if !first.outcome.Returned? then first.outcome
            else if !body.outcome.Returned? then body.outcome
            else if !end.outcome.Returned? then end.outcome else SentData(end.line, 0, []).outcome
  {
    hide SentFirst, SentBody, SentEnd, SentData, PacketCount;
  }

  lemma HeaderGoesOn(l: Line, name: Bytes, file: Bytes, none: nat)
    requires none == 0 && |HeaderData(name, |file|)| <= DATA_LEN
    ensures var replies, t := Replies(l.arrivals), SentFirst(l, name, file);
            if t.outcome.Returned? then IsAfter(replies, none + 1, t.line) else EndsAt(replies, none, t.outcome)
  {
    hide SentData, HeaderData, Replies, IsAfter, EndsAt, Insisted;
    StartsAfterNothing(l, none);
    NextPacket(Replies(l.arrivals), none, l, none, HeaderData(name, |file|));
  }

  /** Packet `at` of `n` ends the transfer, or the replies behind the last one do. */
  predicate IsVerdict(replies: seq<Outcome<Control>>, n: nat, at: nat, outcome: Outcome<Control>) {
    match Acknowledging(replies, n)
    case Some(used) => IsEnding(replies[used..], outcome)
    case None => at < n && EndsAt(replies, at, outcome)
  }

  lemma EndsEarly(replies: seq<Outcome<Control>>, n: nat, at: nat, outcome: Outcome<Control>)
    requires EndsAt(replies, at, outcome) && at < n
    ensures IsVerdict(replies, n, at, outcome)
  {
    hide EndsAt, IsEnding, Acknowledging;
    StaysUnacknowledged(replies, at, n, outcome);
  }

  lemma EndsLast(replies: seq<Outcome<Control>>, n: nat, at: nat, l: Line)
    requires IsAfter(replies, n, l)
    ensures var end := SentEnd(l);
            IsVerdict(replies, n, at,
                      if end.outcome.Returned? then SentData(end.line, 0, []).outcome else end.outcome)
  {
    hide SentData, SentEnd, IsEnding, Acknowledging, EndsAt, Replies;
    EndAndClosing(replies, n, l);
  }

  /**
   * The replies alone decide how a transfer ends: at the first packet that is neither acknowledged at once nor
   * after one NAK, or with the replies to the end of the transfer and to the closing packet.
   */
  lemma TransferEnds(l: Line, name: Bytes, file: Bytes) returns (at: nat)
    requires |HeaderData(name, |file|)| <= DATA_LEN
    ensures IsVerdict(Replies(l.arrivals), PacketCount(file) + 1, at, Transferred(l, name, file).outcome)
  {
    hide Transferred, SentFirst, SentData, SentBody, SentEnd, HeaderData, PacketCount, Replies, EndsAt, IsAfter,
      IsVerdict;
    var replies, n := Replies(l.arrivals), PacketCount(file);
    var first := SentFirst(l, name, file);
    TransferOutcome(l, name, file);
    at :| at == 0;
    HeaderGoesOn(l, name, file, at);
    if first.outcome.Returned? {
      var body := SentBody(first.line, file, n);
      at := BodyGoesOn(replies, at + 1, first.line, file, n);
      if body.outcome.Returned? {
        EndsLast(replies, n + 1, at, body.line);
      } else {
        EndsEarly(replies, n + 1, at, body.outcome);
      }
    } else {
      EndsEarly(replies, n + 1, at, first.outcome);
    }
  }

  lemma {:induction false} StaysUnacknowledged(replies: seq<Outcome<Control>>, at: nat, n: nat,
                                               outcome: Outcome<Control>)
    requires EndsAt(replies, at, outcome) && at < n
    ensures Acknowledging(replies, n).None?
  {
    hide IsRefusal;
    if at + 1 < n {
      StaysUnacknowledged(replies, at, n - 1, outcome);
    }
  }

  /** A transfer returns exactly if all packets and then its end are acknowledged and the closing packet is answered. */
  lemma TransferReturnsExactly(l: Line, name: Bytes, file: Bytes, c: Control)
    requires |HeaderData(name, |file|)| <= DATA_LEN
    ensures var replies := Replies(l.arrivals);
            var used := Acknowledging(replies, PacketCount(file) + 1);
            Transferred(l, name, file).outcome == Returned(c) <==>
            && used.Some? && First(replies[used.value..]) == Returned(ACK)
            && First(AfterNak(Rest(replies[used.value..]))) == Returned(c)
  {
    hide Transferred, HeaderData, PacketCount, Acknowledging, Replies;
    var at := TransferEnds(l, name, file);
  }
}
