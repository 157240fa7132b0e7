/** Reassembles responses that the controller publishes in numbered chunks. */
module MqttConnection {
  import opened Text
  import opened Wrappers

  const MESSAGE_END := '\n'

  /** The bytes of a payload: text, or something that is not valid UTF-8. */
  datatype Payload = Undecodable | Decoded(text: string)

  datatype Chunk = Malformed | Chunk(id: int, idx: int, text: string)

  /** `msg_id;chunk_idx;chunk` */
  function ParseChunk(payload: Payload): Chunk {
    match payload
    case Undecodable => Malformed
    case Decoded(text) =>
      var parts := Split(text, ';');
      if |parts| != 3 then Malformed
      else
        match (ParseInt(parts[0]), ParseInt(parts[1]))
        case (Some(id), Some(idx)) => Chunk(id, idx, parts[2])
        case _ => Malformed
  }

  /** Three parts without a `;` in them. */
  predicate IsJoined(text: string, a: string, b: string, c: string) {
    ';' !in a && ';' !in b && ';' !in c && text == a + [';'] + (b + [';'] + c)
  }

  /** An id, the number of a chunk, and its text. */
  ghost predicate IsChunkText(text: string, id: int, idx: int, chunk: string) {
    exists a, b :: IsJoined(text, a, b, chunk) && IsIntText(Strip(a), id) && IsIntText(Strip(b), idx)
  }

  lemma JoinedSplits(text: string, a: string, b: string, c: string)
    requires IsJoined(text, a, b, c)
    ensures Split(text, ';') == [a, b, c]
  {
    hide Split;
    SplitAtFirst(a, ';', b + [';'] + c);
    SplitAtFirst(b, ';', c);
    SplitNothing(c, ';');
  }

  lemma SplitIsJoined(text: string)
    requires |Split(text, ';')| == 3
    ensures var parts := Split(text, ';'); IsJoined(text, parts[0], parts[1], parts[2])
  {
    hide Split, Head, Tail;
    var a, rest := Head(text, ';'), Tail(text, ';');
    SplitAtHead(text, ';');
    SplitAtHead(rest, ';');
    SplitAtHead(Tail(rest, ';'), ';');
    assert text == a + [';'] + rest && rest == Head(rest, ';') + [';'] + Tail(rest, ';');
  }

  /** Exactly payloads of three parts, the first two of them numbers, are chunks. */
  lemma ChunkExactly(payload: Payload, id: int, idx: int, chunk: string)
    ensures ParseChunk(payload) == Chunk(id, idx, chunk) <==>
            payload.Decoded? && IsChunkText(payload.text, id, idx, chunk)
  {
    hide Split, ParseInt, Strip, IsIntText, IsJoined;
    if payload.Decoded? {
      if ParseChunk(payload) == Chunk(id, idx, chunk) {
        var parts := Split(payload.text, ';');
        SplitIsJoined(payload.text);
        IntExactly(parts[0], id);
        IntExactly(parts[1], idx);
      }
      if a, b :| IsJoined(payload.text, a, b, chunk) && IsIntText(Strip(a), id) && IsIntText(Strip(b), idx) {
        JoinedSplits(payload.text, a, b, chunk);
        IntExactly(a, id);
        IntExactly(b, idx);
      }
    }
  }

  /** The receive buffer; `NoBuffer` before the first assignment of `_recv_chunks`, when the id is 0. */
  datatype Buffer = NoBuffer | Receiving(id: int, chunks: seq<string>)

  const IDLE := Receiving(0, [])

  datatype Reaction = Silent | Delivered(msg: string) | AttributeError

  function Receive(b: Buffer, c: Chunk): (Buffer, Reaction) {
    match c
    case Malformed => (IDLE, Silent)
    case Chunk(id, idx, text) =>
      var known := if b.NoBuffer? then 0 else b.id;
      if id == known && b.NoBuffer? then (b, AttributeError)
      else
        var chunks := if id != known then [] else b.chunks;
        if |chunks| != idx then (IDLE, Silent)
        else if MESSAGE_END in text then (IDLE, Delivered(RStrip(Concat(chunks + [text]))))
        else (Receiving(id, chunks + [text]), Silent)
  }

  function Messages(r: Reaction): seq<string> {
    if r.Delivered? then [r.msg] else []
  }

  class Connection {
    var recvMsgId: int
    var recvChunks: Option<seq<string>>
    var responses: seq<string>    // what `on_response` was called with

    function Held(): Buffer
      reads this
      requires recvChunks.None? ==> recvMsgId == 0
    {
      if recvChunks.None? then NoBuffer else Receiving(recvMsgId, recvChunks.value)
    }

    ghost predicate Valid()
      reads this
    {
      recvChunks.None? ==> recvMsgId == 0
    }

    constructor ()
      ensures Valid() && Held() == NoBuffer && responses == []
    {
      recvMsgId, recvChunks, responses := 0, None, [];
    }

    method ResetRecvBuffer(id: int)
      modifies this`recvMsgId, this`recvChunks
      ensures Valid() && Held() == Receiving(id, [])
    {
      recvMsgId := id;
      recvChunks := Some([]);
    }

    /** `raised` reports an AttributeError. */
    method OnPayload(payload: Payload) returns (raised: bool)
      requires Valid()
      modifies this
      ensures Valid()
      ensures Held() == Receive(old(Held()), ParseChunk(payload)).0
      ensures raised == Receive(old(Held()), ParseChunk(payload)).1.AttributeError?
      ensures responses == old(responses) + Messages(Receive(old(Held()), ParseChunk(payload)).1)
    {
      raised := OnChunk(ParseChunk(payload));
    }

    method OnChunk(c: Chunk) returns (raised: bool)
      requires Valid()
      modifies this
      ensures Valid()
      ensures Held() == Receive(old(Held()), c).0
      ensures raised == Receive(old(Held()), c).1.AttributeError?
      ensures responses == old(responses) + Messages(Receive(old(Held()), c).1)
    {
      raised := false;
      if c.Malformed? {
        ResetRecvBuffer(0);
        return;
      }
      if c.id != recvMsgId {
        ResetRecvBuffer(c.id);
      }
      if recvChunks.None? {
        raised := true;
        return;
      }
      if |recvChunks.value| != c.idx {
        ResetRecvBuffer(0);
        return;
      }
      recvChunks := Some(recvChunks.value + [c.text]);
      if MESSAGE_END in c.text {
        var msg := RStrip(Concat(recvChunks.value));
        ResetRecvBuffer(0);
        responses := responses + [msg];
      }
    }
  }

  // ---- Whole streams --------------------------------------------------------

  function Final(b: Buffer, cs: seq<Chunk>): Buffer {
    if cs == [] then b else Receive(Final(b, cs[..|cs| - 1]), cs[|cs| - 1]).0
  }

  /** The reaction to each chunk of the stream. */
  function Reactions(b: Buffer, cs: seq<Chunk>): (rs: seq<Reaction>)
    ensures |rs| == |cs|
  {
    if cs == [] then [] else
      var n := |cs| - 1;
      Reactions(b, cs[..n]) + [Receive(Final(b, cs[..n]), cs[n]).1]
  }

  /** Chunks number 0, 1, ... of one message. */
  function Numbered(id: int, texts: seq<string>): (cs: seq<Chunk>)
    ensures |cs| == |texts|
  {
    seq(|texts|, i requires 0 <= i < |texts| => Chunk(id, i, texts[i]))
  }

  ghost predicate Unfinished(texts: seq<string>) {
    forall i :: 0 <= i < |texts| ==> '\n' !in texts[i]
  }

  /** A newline in the last text, and only there. */
  ghost predicate Finished(texts: seq<string>) {
    |texts| > 0 && Unfinished(texts[..|texts| - 1]) && '\n' in texts[|texts| - 1]
  }

  ghost predicate EndsWith(cs: seq<Chunk>, tail: seq<Chunk>) {
    |tail| <= |cs| && cs[|cs| - |tail|..] == tail
  }

  /** The buffer always holds the latest chunks received. */
  ghost predicate HoldsTail(b: Buffer, cs: seq<Chunk>) {
    b.Receiving? ==>
      && (b.chunks == [] ==> b.id == 0)
      && Unfinished(b.chunks)
      && EndsWith(cs, Numbered(b.id, b.chunks))
  }

  lemma NumberedSnoc(id: int, texts: seq<string>, last: string)
    ensures Numbered(id, texts + [last]) == Numbered(id, texts) + [Chunk(id, |texts|, last)]
  {
  }

  lemma NumberedSplit(id: int, texts: seq<string>)
    requires texts != []
    ensures var n := |texts| - 1;
            && texts == texts[..n] + [texts[n]]
            && Numbered(id, texts)[..n] == Numbered(id, texts[..n])
            && Numbered(id, texts)[n] == Chunk(id, n, texts[n])
  {
  }

  lemma EndsWithSnoc(cs: seq<Chunk>, tail: seq<Chunk>, c: Chunk)
    requires EndsWith(cs, tail)
    ensures EndsWith(cs + [c], tail + [c])
  {
  }

  /** The latest chunks are all chunks of one message, which reads `msg`. */
  ghost predicate EndsWithMessage(cs: seq<Chunk>, id: int, msg: string) {
    exists texts :: Finished(texts) && EndsWith(cs, Numbered(id, texts)) && msg == RStrip(Concat(texts))
  }

  lemma TailGrows(cs: seq<Chunk>, id: int, texts: seq<string>, last: string)
    requires Unfinished(texts) && EndsWith(cs, Numbered(id, texts))
    ensures EndsWith(cs + [Chunk(id, |texts|, last)], Numbered(id, texts + [last]))
    ensures MESSAGE_END in last ==> Finished(texts + [last])
    ensures MESSAGE_END !in last ==> Unfinished(texts + [last])
  {
    NumberedSnoc(id, texts, last);
    EndsWithSnoc(cs, Numbered(id, texts), Chunk(id, |texts|, last));
    assert (texts + [last])[..|texts|] == texts;
  }

  /** The chunks that `c` is appended to, if its number fits. */
  function Base(b: Buffer, c: Chunk): seq<string>
    requires c.Chunk?
  {
    if b.NoBuffer? || c.id != b.id then [] else b.chunks
  }

  predicate Fits(b: Buffer, c: Chunk) {
    c.Chunk? && !(b.NoBuffer? && c.id == 0) && |Base(b, c)| == c.idx
  }

  lemma ReceiveByBase(b: Buffer, c: Chunk)
    ensures Fits(b, c) ==>
              Receive(b, c) == if MESSAGE_END in c.text then (IDLE, Delivered(RStrip(Concat(Base(b, c) + [c.text]))))
                               else (Receiving(c.id, Base(b, c) + [c.text]), Silent)
    ensures !Fits(b, c) ==> Receive(b, c).0 in {IDLE, NoBuffer} && !Receive(b, c).1.Delivered?
  {
  }

  lemma BaseIsTail(b: Buffer, cs: seq<Chunk>, c: Chunk)
    requires HoldsTail(b, cs) && c.Chunk?
    ensures Unfinished(Base(b, c)) && EndsWith(cs, Numbered(c.id, Base(b, c)))
  {
  }

  lemma ReceiveKeepsTail(b: Buffer, cs: seq<Chunk>, c: Chunk)
    requires HoldsTail(b, cs)
    ensures HoldsTail(Receive(b, c).0, cs + [c])
  {
    ReceiveByBase(b, c);
    if Fits(b, c) {
      BaseIsTail(b, cs, c);
      TailGrows(cs, c.id, Base(b, c), c.text);
    }
  }

  lemma DeliveryIsTail(b: Buffer, cs: seq<Chunk>, c: Chunk)
    requires HoldsTail(b, cs) && Receive(b, c).1.Delivered?
    ensures c.Chunk? && EndsWithMessage(cs + [c], c.id, Receive(b, c).1.msg)
  {
    ReceiveByBase(b, c);
    BaseIsTail(b, cs, c);
    TailGrows(cs, c.id, Base(b, c), c.text);
  }

  lemma {:induction false} FinalHoldsTail(cs: seq<Chunk>)
    ensures HoldsTail(Final(NoBuffer, cs), cs)
  {
    if cs != [] {
      var n := |cs| - 1;
      FinalHoldsTail(cs[..n]);
      ReceiveKeepsTail(Final(NoBuffer, cs[..n]), cs[..n], cs[n]);
      assert cs == cs[..n] + [cs[n]];
    }
  }

  /** On every stream, whatever is delivered is the latest chunks of one message, complete and in order. */
  lemma DeliversOnlyMessages(before: seq<Chunk>, c: Chunk)
    requires Receive(Final(NoBuffer, before), c).1.Delivered?
    ensures c.Chunk? && EndsWithMessage(before + [c], c.id, Receive(Final(NoBuffer, before), c).1.msg)
  {
    FinalHoldsTail(before);
    DeliveryIsTail(Final(NoBuffer, before), before, c);
  }

  /** The buffer is about to accept chunk 0 of message `id`. */
  predicate Accepts(b: Buffer, id: int) {
    if b.NoBuffer? then id != 0 else b.chunks == [] || b.id != id
  }

  /** `n` silent reactions and then `last`. */
  function SilentThen(n: nat, last: Reaction): seq<Reaction> {
    seq(n, _ => Silent) + [last]
  }

  lemma RunNext(b: Buffer, id: int, texts: seq<string>)
    requires texts != []
    ensures var n := |texts| - 1;
            var next := Receive(Final(b, Numbered(id, texts[..n])), Chunk(id, n, texts[n]));
            && Final(b, Numbered(id, texts)) == next.0
            && Reactions(b, Numbered(id, texts)) == Reactions(b, Numbered(id, texts[..n])) + [next.1]
  {
    hide Receive, Numbered;
    NumberedSplit(id, texts);
  }

  lemma RunNothing(b: Buffer, id: int)
    ensures Final(b, Numbered(id, [])) == b && Reactions(b, Numbered(id, [])) == []
  {
  }

  lemma NextFits(b: Buffer, id: int, earlier: seq<string>, last: string)
    requires b == Receiving(id, earlier) || (earlier == [] && Accepts(b, id))
    ensures var c := Chunk(id, |earlier|, last); Fits(b, c) && Base(b, c) == earlier
  {
  }

  /** A chunk with the expected number. */
  lemma ExpectedChunk(b: Buffer, id: int, texts: seq<string>)
    requires texts != [] && (b == Receiving(id, texts[..|texts| - 1]) || (|texts| == 1 && Accepts(b, id)))
    ensures var n := |texts| - 1;
            Receive(b, Chunk(id, n, texts[n])) ==
            if MESSAGE_END in texts[n] then (IDLE, Delivered(RStrip(Concat(texts)))) else (Receiving(id, texts), Silent)
  {
    hide Receive, Fits, Base, Accepts, RStrip, Concat;
    var earlier, last := texts[..|texts| - 1], texts[|texts| - 1];
    assert texts == earlier + [last] && |earlier| == |texts| - 1;
    NextFits(b, id, earlier, last);
    ReceiveByBase(b, Chunk(id, |earlier|, last));
  }

  lemma {:induction false} Collects(b: Buffer, id: int, texts: seq<string>)
    requires Accepts(b, id) && Unfinished(texts) && texts != []
    ensures Final(b, Numbered(id, texts)) == Receiving(id, texts)
    ensures Reactions(b, Numbered(id, texts)) == seq(|texts|, _ => Silent)
  {
    hide Receive, Final, Reactions, Numbered, Accepts;
    var n := |texts| - 1;
    RunNext(b, id, texts);
    if n > 0 {
      Collects(b, id, texts[..n]);
    } else {
      assert texts[..n] == [];
      RunNothing(b, id);
    }
    ExpectedChunk(Final(b, Numbered(id, texts[..n])), id, texts);
  }

  /** Every complete message is delivered once, when its last chunk arrives, whatever was received before. */
  lemma DeliversMessage(b: Buffer, id: int, texts: seq<string>)
    requires Accepts(b, id) && Finished(texts)
    ensures Final(b, Numbered(id, texts)) == IDLE
    ensures Reactions(b, Numbered(id, texts)) == SilentThen(|texts| - 1, Delivered(RStrip(Concat(texts))))
  {
    hide Receive, Final, Reactions, Numbered, Accepts, RStrip, Concat;
    var n := |texts| - 1;
    RunNext(b, id, texts);
    if n > 0 {
      Collects(b, id, texts[..n]);
    } else {
      assert texts[..n] == [];
      RunNothing(b, id);
    }
    ExpectedChunk(Final(b, Numbered(id, texts[..n])), id, texts);
  }

  /** Before any buffer exists, every chunk with id 0 raises an AttributeError. */
  lemma {:induction false} RaisesOnly(texts: seq<string>)
    ensures Final(NoBuffer, Numbered(0, texts)) == NoBuffer
    ensures Reactions(NoBuffer, Numbered(0, texts)) == seq(|texts|, _ => AttributeError)
  {
    hide Final, Reactions, Numbered, RStrip, Concat;
    if texts == [] {
      RunNothing(NoBuffer, 0);
    } else {
      RunNext(NoBuffer, 0, texts);
      RaisesOnly(texts[..|texts| - 1]);
    }
  }

  lemma {:induction false} Drops(b: Buffer, id: int, texts: seq<string>)
    requires b.Receiving? && !Accepts(b, id) && texts != []
    ensures Final(b, Numbered(id, texts)) == IDLE
    ensures Reactions(b, Numbered(id, texts)) == seq(|texts|, _ => Silent)
  {
    hide Final, Reactions, Numbered, RStrip, Concat;
    var n := |texts| - 1;
    RunNext(b, id, texts);
    if n > 0 {
      Drops(b, id, texts[..n]);
    } else {
      assert texts[..n] == [];
      RunNothing(b, id);
    }
  }

  /** A message is delivered exactly when the buffer was not in the middle of the same id, or missing for id 0. */
  lemma DeliveredExactly(b: Buffer, id: int, texts: seq<string>)
    requires Finished(texts)
    ensures (exists k :: 0 <= k < |texts| && Reactions(b, Numbered(id, texts))[k].Delivered?) <==> Accepts(b, id)
  {
    hide Reactions, Numbered, RStrip, Concat;
    var n := |texts| - 1;
    if Accepts(b, id) {
      DeliversMessage(b, id, texts);
      assert Reactions(b, Numbered(id, texts))[n].Delivered?;
    } else if b.Receiving? {
      Drops(b, id, texts);
    } else {
      RaisesOnly(texts);
    }
  }
}
