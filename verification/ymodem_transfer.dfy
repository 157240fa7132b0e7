/** What a transfer that returns has written, and how it was answered. */
module YmodemTransfer {
  import opened Text
  import opened Ymodem

  // ---- Answers --------------------------------------------------------------------

  /** Message `k` is the first that is no C, and it says `c`. */
  predicate AnswersAt(messages: seq<Bytes>, k: nat, c: Control) {
    && k < |messages| && messages[k] != [] && messages[k][0] == Code(c) && c != C
    && forall j :: 0 <= j < k ==> messages[j] != [] && messages[j][0] == 0x43
  }

  lemma FirstSays(msg: Bytes, c: Control)
    ensures IsPrompt(msg) <==> msg != [] && msg[0] == 0x43
    ensures (!IsPrompt(msg) && Says(msg) == Returned(c)) <==> msg != [] && msg[0] == Code(c) && c != C
  {
    if msg != [] {
      ControlExactly(msg[0], c);
      ControlExactly(msg[0], C);
    }
  }

  lemma AnswersNext(msg: Bytes, later: seq<Bytes>, k: nat, c: Control)
    ensures AnswersAt([msg] + later, k, c) <==>
            if IsPrompt(msg) then k > 0 && AnswersAt(later, k - 1, c) else k == 0 && Says(msg) == Returned(c)
  {
    hide IsPrompt, Says, Code;
    FirstSays(msg, c);
    var all := [msg] + later;
    if AnswersAt(all, k, c) {
      assert all[0] == msg;
      if k > 0 {
        assert forall j :: 0 <= j < k - 1 ==> later[j] == all[j + 1];
      }
    }
    if k > 0 && AnswersAt(later, k - 1, c) {
      assert forall j :: 0 < j <= k ==> all[j] == later[j - 1];
    }
  }

  /** A reply is returned exactly if the first message that is no C says so. */
  lemma {:induction false} AnswerExactly(messages: seq<Bytes>, c: Control)
    ensures Answer(messages) == Returned(c) <==> exists k: nat :: AnswersAt(messages, k, c)
    ensures Answer(messages).Returned? ==> AnswersAt(messages, Taken(messages) - 1, Answer(messages).value)
  {
    hide AnswersAt, IsPrompt, Says, Answer, Taken;
    if messages == [] {
      NoAnswer(c);
    } else {
      var first, later := messages[0], messages[1..];
      AnswerNext(first, later);
      assert messages == [first] + later;
      forall k: nat
        ensures AnswersAt(messages, k, c) <==>
                if IsPrompt(first) then k > 0 && AnswersAt(later, k - 1, c) else k == 0 && Says(first) == Returned(c)
      {
        AnswersNext(first, later, k, c);
      }
      if IsPrompt(first) {
        AnswerExactly(later, c);
        if k: nat :| AnswersAt(later, k, c) {
          assert AnswersAt(messages, k + 1, c);
        }
      } else {
        assert Says(first) == Returned(c) ==> AnswersAt(messages, 0, c);
      }
      if Answer(messages).Returned? {
        TakenOfAnswer(later);
        AnswersNext(first, later, Taken(messages) - 1, Answer(messages).value);
      }
    }
  }

  lemma NoAnswer(c: Control)
    ensures Answer([]) == Blocked && forall k: nat :: !AnswersAt([], k, c)
  {
  }

  lemma TakenOfAnswer(messages: seq<Bytes>)
    ensures Answer(messages).Returned? ==> Taken(messages) > 0
  {
  }

  lemma {:induction false} AnswerOfTaken(messages: seq<Bytes>)
    ensures var taken := messages[..Taken(messages)]; Answer(taken) == Answer(messages) && Taken(taken) == |taken|
  {
    if messages != [] && IsPrompt(messages[0]) {
      AnswerOfTaken(messages[1..]);
      var taken := messages[..Taken(messages)];
      assert taken[1..] == messages[1..][..Taken(messages[1..])];
    }
  }

  /** The messages taken after a write are what its reply says, and no more. */
  ghost predicate IsAnswered(e: Exchange) {
    Answer(e.taken) == Returned(e.reply) && Taken(e.taken) == |e.taken|
  }

  // ---- Writes ---------------------------------------------------------------------

  function Written(log: seq<Exchange>): seq<Bytes> {
    if log == [] then [] else Written(log[..|log| - 1]) + [log[|log| - 1].packet]
  }

  /** One packet sent once, or twice if the first reply was NAK; `reply` is the last reply. */
  ghost predicate IsSend(log: seq<Exchange>, packet: Bytes, reply: Control) {
    && 1 <= |log| <= 2
    && (forall k :: 0 <= k < |log| ==> log[k].packet == packet && IsAnswered(log[k]))
    && log[|log| - 1].reply == reply != C
    && if |log| == 1 then reply != NAK else log[0].reply == NAK
  }

  function Joined(sends: seq<seq<Exchange>>): seq<Exchange> {
    if sends == [] then [] else Joined(sends[..|sends| - 1]) + sends[|sends| - 1]
  }

  /** Each packet in turn was sent at most twice, and acknowledged. */
  ghost predicate AreSent(sends: seq<seq<Exchange>>, packets: seq<Bytes>) {
    |sends| == |packets| && forall i :: 0 <= i < |packets| ==> IsSend(sends[i], packets[i], ACK)
  }

  /** Everything that has to be acknowledged: the header, the data and the end of the transfer. */
  function TransferPackets(name: Bytes, file: Bytes): (packets: seq<Bytes>)
    ensures |packets| == PacketCount(file) + 2
  {
    [Packet(0, HeaderData(name, |file|))] + DataPackets(1, Chunks(file)) + [[0x04]]
  }

  lemma {:induction false} WrittenAppend(a: seq<Exchange>, b: seq<Exchange>)
    ensures Written(a + b) == Written(a) + Written(b)
  {
    if b == [] {
      assert a + b == a;
    } else {
      assert (a + b)[..|a + b| - 1] == a + b[..|b| - 1];
      WrittenAppend(a, b[..|b| - 1]);
    }
  }

  lemma {:induction false} AnswerIsNoPrompt(messages: seq<Bytes>)
    ensures Answer(messages) != Returned(C) && Answer(messages) != Raised(PacketLength) &&
            Answer(messages) != Raised(AssertionError) && forall c :: Answer(messages) != Raised(Aborted(c))
  {
    if messages != [] && IsPrompt(messages[0]) {
      AnswerIsNoPrompt(messages[1..]);
    }
  }

  /** One write, with the reply to it. */
  lemma SentOnce(l: Line, packet: Bytes)
    ensures var t := Sent(l, packet);
            && t.writes == [packet] && t.outcome != Raised(PacketLength)
            && (t.outcome.Returned? ==>
                  && t.log == [Exchange(packet, t.log[0].taken, t.outcome.value)] && IsAnswered(t.log[0])
                  && t.log[0].taken <= Flat(l.arrivals) && t.outcome.value != C && Written(t.log) == t.writes)
  {
    hide Answer, Taken, Later;
    var messages := Messages(Line([], l.arrivals));
    assert messages == Flat(l.arrivals);
    AnswerOfTaken(messages);
    AnswerIsNoPrompt(messages);
    var t := Sent(l, packet);
    if t.outcome.Returned? {
      assert t.log[..0] == [];
    }
  }

  /** A packet with one retry. */
  lemma SentWithRetry(l: Line, number: nat, data: Bytes)
    ensures var t := SentData(l, number, data);
            && (|data| > DATA_LEN <==> t.outcome == Raised(PacketLength))
            && (t.outcome.Returned? ==>
              IsSend(t.log, Packet(number, data), t.outcome.value) && t.writes == Written(t.log))
  {
    hide Sent, IsAnswered;
    var packet := Packet(number, data);
    var first := Sent(l, packet);
    SentOnce(l, packet);
    if first.outcome == Returned(NAK) {
      SentOnce(first.line, packet);
      WrittenAppend(first.log, Sent(first.line, packet).log);
    }
  }

  // ---- Whole transfers --------------------------------------------------------------

  /** The turn `t` is exactly `sends`, which acknowledge `packets`. */
  ghost predicate IsAcknowledged(t: Turn, sends: seq<seq<Exchange>>, packets: seq<Bytes>) {
    AreSent(sends, packets) && t.log == Joined(sends) && t.writes == Written(t.log)
  }

  lemma AcknowledgedNext(t: Turn, sends: seq<seq<Exchange>>, packets: seq<Bytes>, next: Turn, packet: Bytes)
    requires IsAcknowledged(t, sends, packets)
    requires IsSend(next.log, packet, ACK) && next.writes == Written(next.log)
    ensures IsAcknowledged(Then(t, next), sends + [next.log], packets + [packet])
  {
    hide IsSend, Written;
    assert (sends + [next.log])[..|sends|] == sends;
    WrittenAppend(t.log, next.log);
  }

  lemma PacketAt(name: Bytes, file: Bytes, i: nat)
    requires i <= PacketCount(file)
    ensures var packets := TransferPackets(name, file);
            && |packets| == PacketCount(file) + 2
            && packets[0] == Packet(0, HeaderData(name, |file|))
            && (i < PacketCount(file) ==> packets[i + 1] == Packet(i + 1, ReadAt(file, ChunkStart(file, i))))
            && packets[PacketCount(file) + 1] == [EOT_BYTE]
  {
    hide Packet, HeaderData, ReadAt, ChunkStart;
  }

  lemma FirstIsSent(l: Line, name: Bytes, file: Bytes)
    requires SentFirst(l, name, file).outcome.Returned?
    ensures var t := SentFirst(l, name, file);
            IsAcknowledged(t, [t.log], [Packet(0, HeaderData(name, |file|))])
  {
    hide SentData, Packet, HeaderData, Written;
    SentWithRetry(l, 0, HeaderData(name, |file|));
    var t := SentFirst(l, name, file);
    JoinedOne(t.log);
  }

  lemma JoinedOne(send: seq<Exchange>)
    ensures Joined([send]) == send
  {
    assert [send][..0] == [];
  }

  /** A body behind a header. */
  lemma {:induction false} BodyIsSent(first: Turn, header: seq<Exchange>, name: Bytes, file: Bytes, n: nat)
    returns (sends: seq<seq<Exchange>>)
    requires n <= PacketCount(file) && SentBody(first.line, file, n).outcome.Returned?
    requires IsAcknowledged(first, [header], TransferPackets(name, file)[..1])
    ensures IsAcknowledged(Then(first, SentBody(first.line, file, n)), sends, TransferPackets(name, file)[..n + 1])
    decreases n
  {
    hide SentData, TransferPackets, Packet, PacketCount, ReadAt, ChunkStart, IsAcknowledged, Written;
    if n == 0 {
      sends := [header];
      ThenNothing(first, SentBody(first.line, file, 0), sends, TransferPackets(name, file)[..1]);
    } else {
      var t := SentBody(first.line, file, n - 1);
      var before := BodyIsSent(first, header, name, file, n - 1);
      var data := ReadAt(file, ChunkStart(file, n - 1));
      var next := SentData(t.line, n, data);
      SentWithRetry(t.line, n, data);
      PacketAt(name, file, n - 1);
      AcknowledgedNext(Then(first, t), before, TransferPackets(name, file)[..n], next, Packet(n, data));
      sends := before + [next.log];
      PrefixNext(TransferPackets(name, file), n);
      ThenAssociates(first, t, next);
      BodyNext(first.line, file, n);
    }
  }

  lemma BodyNext(l: Line, file: Bytes, n: nat)
    requires 0 < n <= PacketCount(file) && SentBody(l, file, n).outcome.Returned?
    ensures var t := SentBody(l, file, n - 1);
            && t.outcome.Returned?
            && SentBody(l, file, n) == Then(t, SentData(t.line, n, ReadAt(file, ChunkStart(file, n - 1))))
            && SentData(t.line, n, ReadAt(file, ChunkStart(file, n - 1))).outcome == Returned(ACK)
  {
    hide SentData, PacketCount, ReadAt, ChunkStart;
  }

  lemma PrefixNext(packets: seq<Bytes>, n: nat)
    requires n < |packets|
    ensures packets[..n + 1] == packets[..n] + [packets[n]]
  {
  }

  lemma ThenNothing(a: Turn, b: Turn, sends: seq<seq<Exchange>>, packets: seq<Bytes>)
    requires IsAcknowledged(a, sends, packets) && b.writes == [] && b.log == []
    ensures IsAcknowledged(Then(a, b), sends, packets)
  {
    hide AreSent, Written, Joined;
    assert a.log + [] == a.log && a.writes + [] == a.writes;
  }

  lemma ThenAssociates(a: Turn, b: Turn, c: Turn)
    ensures Then(Then(a, b), c) == Then(a, Then(b, c))
  {
    Assoc(a.writes, b.writes, c.writes);
    Assoc(a.log, b.log, c.log);
  }

  lemma EndIsSent(l: Line)
    requires SentEnd(l).outcome.Returned?
    ensures var t := SentEnd(l); IsSend(t.log, [EOT_BYTE], ACK) && t.writes == Written(t.log)
  {
    hide Sent, IsAnswered;
    SentOnce(l, [EOT_BYTE]);
  }

  lemma TransferParts(l: Line, name: Bytes, file: Bytes)
    requires Transferred(l, name, file).outcome.Returned?
    ensures var first := SentFirst(l, name, file);
            var body := SentBody(first.line, file, PacketCount(file));
            var end := SentEnd(body.line);
            && first.outcome.Returned? && body.outcome.Returned? && end.outcome.Returned?
            && SentData(end.line, 0, []).outcome == Transferred(l, name, file).outcome
            && Transferred(l, name, file) == Then(Then(Then(first, body), end), SentData(end.line, 0, []))
  {
    hide SentFirst, SentBody, SentEnd, SentData, PacketCount;
  }

  /**
   * If the transfer returns, its exchanges are those of the packets of the transfer, each sent at most twice and
   * acknowledged by the first message that is no C behind its last write, and those of the closing packet.
   */
  lemma TransferIsSent(l: Line, name: Bytes, file: Bytes) returns (sends: seq<seq<Exchange>>, closing: seq<Exchange>)
    requires Transferred(l, name, file).outcome.Returned?
    ensures var t := Transferred(l, name, file);
            && AreSent(sends, TransferPackets(name, file))
            && IsSend(closing, Packet(0, []), t.outcome.value)
            && t.log == Joined(sends) + closing && t.writes == Written(t.log)
  {
    hide SentFirst, SentBody, SentEnd, SentData, TransferPackets, Packet, PacketCount, Transferred, Then, AreSent,
      Joined,
      Written, IsSend;
    TransferParts(l, name, file);
    var n := PacketCount(file);
    var packets := TransferPackets(name, file);
    var first := SentFirst(l, name, file);
    var body := SentBody(first.line, file, n);
    var end := SentEnd(body.line);
    FirstIsSent(l, name, file);
    PacketAt(name, file, n);
    assert packets[..1] == [packets[0]];
    var before := BodyIsSent(first, first.log, name, file, n);
    EndIsSent(body.line);
    AcknowledgedNext(Then(first, body), before, packets[..n + 1], end, [EOT_BYTE]);
    PrefixNext(packets, n + 1);
    assert packets[..n + 2] == packets;
    sends := before + [end.log];
    SentWithRetry(end.line, 0, []);
    closing := SentData(end.line, 0, []).log;
    ClosingIsWritten(Then(Then(first, body), end), SentData(end.line, 0, []));
  }

  lemma ClosingIsWritten(t: Turn, closing: Turn)
    requires t.writes == Written(t.log) && closing.writes == Written(closing.log)
    ensures Then(t, closing).writes == Written(Then(t, closing).log)
    ensures Then(t, closing).log == t.log + closing.log
  {
    WrittenAppend(t.log, closing.log);
  }

  lemma {:induction false} BodyFits(l: Line, file: Bytes, n: nat)
    requires n <= PacketCount(file)
    ensures SentBody(l, file, n).outcome != Raised(PacketLength)
  {
    hide SentData, PacketCount, ReadAt, ChunkStart;
    if n > 0 {
      BodyFits(l, file, n - 1);
      NextChunk(file, n - 1);
      SentWithRetry(SentBody(l, file, n - 1).line, n, ReadAt(file, ChunkStart(file, n - 1)));
    }
  }

  /** The length check fails exactly for headers that do not fit. */
  lemma LengthFailsExactly(l: Line, name: Bytes, file: Bytes)
    ensures Transferred(l, name, file).outcome == Raised(PacketLength) <==> |HeaderData(name, |file|)| > DATA_LEN
  {
    hide SentBody, SentData, Sent, HeaderData, PacketCount;
    var first := SentFirst(l, name, file);
    SentWithRetry(l, 0, HeaderData(name, |file|));
    BodyFits(first.line, file, PacketCount(file));
    var body := SentBody(first.line, file, PacketCount(file));
    SentOnce(body.line, [EOT_BYTE]);
    SentWithRetry(SentEnd(body.line).line, 0, []);
  }
}
