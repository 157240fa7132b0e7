/** Transfers a firmware file with the YMODEM protocol. */
module Ymodem {
  import opened Text
  import opened Wrappers

  type byte = x: int | 0 <= x < 256

  type Bytes = seq<byte>

  datatype Control = SOH | STX | EOT | EOF | ACK | NAK | CAN | C

  const STX_BYTE: byte := 0x02
  const EOT_BYTE: byte := 0x04
  const DATA_LEN: nat := 1024
  const PACKET_LEN: nat := DATA_LEN + 5

  /** `Control(b)`; `None` where it raises ValueError. */
  function ToControl(b: byte): Option<Control> {
    match b
    case 0x01 => Some(SOH)
    case 0x02 => Some(STX)
    case 0x04 => Some(EOT)
    case 0x1A => Some(EOF)
    case 0x06 => Some(ACK)
    case 0x15 => Some(NAK)
    case 0x18 => Some(CAN)
    case 0x43 => Some(C)
    case _ => None
  }

  function Code(c: Control): byte {
    match c
    case SOH => 0x01
    case STX => 0x02
    case EOT => 0x04
    case EOF => 0x1A
    case ACK => 0x06
    case NAK => 0x15
    case CAN => 0x18
    case C => 0x43
  }

  /** Exactly the codes of control characters are read as these. */
  lemma ControlExactly(b: byte, c: Control)
    ensures ToControl(b) == Some(c) <==> b == Code(c)
  {
  }

  // ---- Packets --------------------------------------------------------------

  function Zeros(n: int): Bytes {
    seq(if n < 0 then 0 else n, _ => 0)
  }

  function Packet(number: nat, data: Bytes): Bytes {
    [STX_BYTE, number % 256, 255 - number % 256] + (data + Zeros(DATA_LEN - |data|)) + [0, 0]
  }

  function Ascii(s: string): Bytes {
    seq(|s|, i requires 0 <= i < |s| => s[i] as int % 256)
  }

  function HeaderData(name: Bytes, size: nat): Bytes {
    [STX_BYTE] + (name + ([0] + Ascii(PrintNat(size) + " ")))
  }

  function PacketCount(file: Bytes): nat {
    (|file| + DATA_LEN - 1) / DATA_LEN
  }

  /** `file.read(DATA_LEN)` at position `pos`. */
  function ReadAt(file: Bytes, pos: nat): Bytes
    requires pos <= |file|
  {
    if pos + DATA_LEN <= |file| then file[pos..pos + DATA_LEN] else file[pos..]
  }

  function Min(a: nat, b: nat): nat {
    if a < b then a else b
  }

  function ChunkStart(file: Bytes, i: nat): (pos: nat)
    ensures pos <= |file|
  {
    Min(i * DATA_LEN, |file|)
  }

  /** What consecutive reads from the start of the file yield. */
  function Chunks(file: Bytes): (chunks: seq<Bytes>)
    ensures |chunks| == PacketCount(file)
  {
    seq(PacketCount(file), i requires 0 <= i < PacketCount(file) => ReadAt(file, ChunkStart(file, i)))
  }

  /** Packets for `chunks`, numbered from `first`. */
  function DataPackets(first: nat, chunks: seq<Bytes>): (ps: seq<Bytes>)
    ensures |ps| == |chunks|
  {
    seq(|chunks|, i requires 0 <= i < |chunks| => Packet(first + i, chunks[i]))
  }

  // ---- Replies ----------------------------------------------------------------

  datatype Error = UnknownControl | EmptyMessage | PacketLength | Aborted(reply: Control) | AssertionError

  /** `Blocked` is waiting for a reply that never comes. */
  datatype Outcome<+T> = Returned(value: T) | Raised(error: Error) | Blocked

  /** Messages in the queue, and what is still to come: when the queue runs dry, the next batch is received. */
  datatype Line = Line(queue: seq<Bytes>, arrivals: seq<seq<Bytes>>)

  function Refilled(l: Line): Line
    decreases |l.arrivals|
  {
    if l.queue != [] || l.arrivals == [] then l else Refilled(Line(l.arrivals[0], l.arrivals[1..]))
  }

  function Flat(batches: seq<seq<Bytes>>): seq<Bytes> {
    if batches == [] then [] else batches[0] + Flat(batches[1..])
  }

  /** All messages on the line, in order. */
  function Messages(l: Line): seq<Bytes> {
    l.queue + Flat(l.arrivals)
  }

  /** What the first message that is no C says. */
  function Answer(messages: seq<Bytes>): Outcome<Control> {
    if messages == [] then Blocked
    else if messages[0] == [] then Raised(EmptyMessage)
    else
      var control := ToControl(messages[0][0]);
      if control.None? then Raised(UnknownControl)
      else if control.value == C then Answer(messages[1..])
      else Returned(control.value)
  }

  /** How many messages are taken for that answer. */
  function Taken(messages: seq<Bytes>): (n: nat)
    ensures n <= |messages|
  {
    if messages == [] then 0
    else if messages[0] == [] || ToControl(messages[0][0]) != Some(C) then 1
    else 1 + Taken(messages[1..])
  }

  /** The line after taking `n` messages. */
  function Later(l: Line, n: nat): Line
    decreases n
  {
    var r := Refilled(l);
    if n == 0 then l else if r.queue == [] then r else Later(Line(r.queue[1..], r.arrivals), n - 1)
  }

  // ---- Sending as a function of what arrives ------------------------------------

  /** A packet written, the messages taken from the line since then, and the reply they give. */
  datatype Exchange = Exchange(packet: Bytes, taken: seq<Bytes>, reply: Control)

  /** The packets written, the exchanges completed, the outcome, and the line afterwards. */
  datatype Turn = Turn(writes: seq<Bytes>, log: seq<Exchange>, outcome: Outcome<Control>, line: Line)

  /** `_send_packet`: old replies are dropped before the packet is written. */
  function Sent(l: Line, packet: Bytes): Turn {
    var clear := Line([], l.arrivals);
    var messages := Messages(clear);
    var taken, outcome := messages[..Taken(messages)], Answer(messages);
    Turn([packet], if outcome.Returned? then [Exchange(packet, taken, outcome.value)] else [],
         outcome, Blank(outcome, Later(clear, |taken|)))
  }

  /** A line that is waited on forever has run dry. */
  function Blank(outcome: Outcome<Control>, l: Line): Line {
    if outcome.Blocked? then Line([], []) else l
  }

  function Then(a: Turn, b: Turn): Turn {
    Turn(a.writes + b.writes, a.log + b.log, b.outcome, b.line)
  }

  /** `_send_data`: one retry after NAK. */
  function SentData(l: Line, number: nat, data: Bytes): Turn {
    var packet := Packet(number, data);
    if |packet| != PACKET_LEN then Turn([], [], Raised(PacketLength), l)
    else
      var first := Sent(l, packet);
      if first.outcome == Returned(NAK) then Then(first, Sent(first.line, packet)) else first
  }

  /** Any reply but ACK ends the transfer: with a failed assertion at its end, and aborted before. */
  function Insisted(t: Turn, atEnd: bool): Turn {
    if t.outcome.Returned? && t.outcome.value != ACK then
      t.(outcome := Raised(if atEnd then AssertionError else Aborted(t.outcome.value)))
    else t
  }

  function SentFirst(l: Line, name: Bytes, file: Bytes): Turn {
    Insisted(SentData(l, 0, HeaderData(name, |file|)), false)
  }

  /** The first `n` data packets. */
  function SentBody(l: Line, file: Bytes, n: nat): Turn
    requires n <= PacketCount(file)
  {
    if n == 0 then Turn([], [], Returned(ACK), l)
    else
      var t := SentBody(l, file, n - 1);
      if !t.outcome.Returned? then t
      else Then(t, Insisted(SentData(t.line, n, ReadAt(file, ChunkStart(file, n - 1))), false))
  }

  function SentEnd(l: Line): Turn {
    Insisted(Sent(l, [EOT_BYTE]), true)
  }

  /** `_transfer`, as far as it gets. */
  function Transferred(l: Line, name: Bytes, file: Bytes): Turn {
    var first := SentFirst(l, name, file);
    if !first.outcome.Returned? then first
    else
      var body := Then(first, SentBody(first.line, file, PacketCount(file)));
      if !body.outcome.Returned? then body
      else
        var end := Then(body, SentEnd(body.line));
        if !end.outcome.Returned? then end else Then(end, SentData(end.line, 0, []))
  }

  // ---- The connection -------------------------------------------------------------

  lemma {:induction false} FlatRefilled(l: Line)
    ensures Messages(Refilled(l)) == Messages(l)
    decreases |l.arrivals|
  {
    if l.queue == [] && l.arrivals != [] {
      FlatRefilled(Line(l.arrivals[0], l.arrivals[1..]));
    }
  }

  lemma LaterNext(l: Line, n: nat)
    requires Refilled(l).queue != []
    ensures Messages(l) == [Refilled(l).queue[0]] + Messages(Line(Refilled(l).queue[1..], Refilled(l).arrivals))
    ensures Later(l, n + 1) == Later(Line(Refilled(l).queue[1..], Refilled(l).arrivals), n)
  {
    FlatRefilled(l);
    var r := Refilled(l);
    assert r.queue == [r.queue[0]] + r.queue[1..];
  }

  class Connection {
    var queue: seq<Bytes>
    var arrivals: seq<seq<Bytes>>
    var writes: seq<Bytes>
    ghost var log: seq<Exchange>

    constructor (arrivals: seq<seq<Bytes>>)
      ensures Now() == Line([], arrivals) && writes == [] && log == []
    {
      this.arrivals := arrivals;
      queue, writes, log := [], [], [];
    }

    function Now(): Line
      reads this
    {
      Line(queue, arrivals)
    }

    method Clear()
      modifies this`queue
      ensures queue == []
    {
      queue := [];
    }

    /** The next message on the line, or nothing if none will ever come. */
    method Message() returns (msg: Option<Bytes>)
      modifies this`queue, this`arrivals
      ensures var r := Refilled(old(Now()));
              if r.queue == [] then msg == None && Now() == r
              else msg == Some(r.queue[0]) && Now() == Line(r.queue[1..], r.arrivals)
    {
      while queue == [] && arrivals != []
        invariant Refilled(Now()) == Refilled(old(Now()))
        decreases |arrivals|
      {
        queue := arrivals[0];
        arrivals := arrivals[1..];
      }
      if queue == [] {
        return None;
      }
      msg := Some(queue[0]);
      queue := queue[1..];
    }

    method SendPacket(packet: Bytes) returns (r: Outcome<Control>)
      modifies this
      ensures var t := Sent(old(Now()), packet);
              Now() == t.line && writes == old(writes) + t.writes && log == old(log) + t.log && r == t.outcome
    {
      Clear();
      writes := writes + [packet];
      ghost var clear, all := Now(), Messages(Now());
      ghost var taken: seq<Bytes> := [];
      assert all[..Taken(all)] == taken + Messages(Now())[..Taken(Messages(Now()))];
      while true
        invariant writes == old(writes) + [packet] && log == old(log)
        invariant Continues(clear, all, taken, Now())
        decreases |Messages(Now())|
      {
        ghost var before := Now();
        var msg := Message();
        if msg.None? {
          NothingLeft(clear, all, taken, before);
          return Blocked;
        }
        NextTaken(clear, all, taken, before);
        taken := taken + [msg.value];
        if msg.value == [] {
          return Raised(EmptyMessage);
        }
        var control := ToControl(msg.value[0]);
        if control.None? {
          return Raised(UnknownControl);
        }
        if control.value == C {
          continue;
        }
        log := log + [Exchange(packet, taken, control.value)];
        return Returned(control.value);
      }
    }

    method SendData(number: nat, data: Bytes) returns (r: Outcome<Control>)
      modifies this
      ensures var t := SentData(old(Now()), number, data);
              Now() == t.line && writes == old(writes) + t.writes && log == old(log) + t.log && r == t.outcome
    {
      hide Sent, Packet;
      var packet := Packet(number, data);
      if |packet| != PACKET_LEN {
        return Raised(PacketLength);
      }
      r := SendPacket(packet);
      if r == Returned(NAK) {
        ghost var first := Sent(old(Now()), packet);
        Assoc(old(writes), first.writes, Sent(first.line, packet).writes);
        Assoc(old(log), first.log, Sent(first.line, packet).log);
        r := SendPacket(packet);
      }
    }

    method SendHeader(name: Bytes, size: nat) returns (r: Outcome<Control>)
      modifies this
      ensures var t := SentData(old(Now()), 0, HeaderData(name, size));
              Now() == t.line && writes == old(writes) + t.writes && log == old(log) + t.log && r == t.outcome
    {
      r := SendData(0, HeaderData(name, size));
    }
  }

  /** `taken` was taken of `all`, and what `l` still holds decides the rest. */
  ghost predicate Continues(clear: Line, all: seq<Bytes>, taken: seq<Bytes>, l: Line) {
    var left := Messages(l);
    && Answer(all) == Answer(left)
    && all[..Taken(all)] == taken + left[..Taken(left)]
    && Later(clear, Taken(all)) == Later(l, Taken(left))
  }

  lemma NothingLeft(clear: Line, all: seq<Bytes>, taken: seq<Bytes>, l: Line)
    requires Continues(clear, all, taken, l) && Refilled(l).queue == []
    ensures Answer(all) == Blocked && Refilled(l) == Line([], [])
  {
    FlatRefilled(l);
    RefilledFully(l);
  }

  lemma {:induction false} RefilledFully(l: Line)
    ensures Refilled(l).queue == [] ==> Refilled(l).arrivals == []
    decreases |l.arrivals|
  {
    if l.queue == [] && l.arrivals != [] {
      RefilledFully(Line(l.arrivals[0], l.arrivals[1..]));
    }
  }

  predicate IsPrompt(msg: Bytes) {
    msg != [] && ToControl(msg[0]) == Some(C)
  }

  function Says(msg: Bytes): Outcome<Control>
    requires !IsPrompt(msg)
  {
    if msg == [] then Raised(EmptyMessage)
    else if ToControl(msg[0]).None? then Raised(UnknownControl)
    else Returned(ToControl(msg[0]).value)
  }

  lemma AnswerNext(msg: Bytes, later: seq<Bytes>)
    ensures var left := [msg] + later;
            if IsPrompt(msg) then
              && Answer(left) == Answer(later) && Taken(left) == 1 + Taken(later)
              && left[..Taken(left)] == [msg] + later[..Taken(later)]
            else Answer(left) == Says(msg) && Taken(left) == 1 && left[..1] == [msg]
  {
    var left := [msg] + later;
    assert left[1..] == later;
  }

  lemma NextTaken(clear: Line, all: seq<Bytes>, taken: seq<Bytes>, l: Line)
    requires Continues(clear, all, taken, l) && Refilled(l).queue != []
    ensures var msg, next := Refilled(l).queue[0], Line(Refilled(l).queue[1..], Refilled(l).arrivals);
            && |Messages(next)| < |Messages(l)|
            && if IsPrompt(msg) then Continues(clear, all, taken + [msg], next)
               else Answer(all) == Says(msg) && AllTaken(clear, all, taken + [msg], next)
  {
    hide Answer, Taken, Later, Refilled, Messages, ToControl;
    var msg, next := Refilled(l).queue[0], Line(Refilled(l).queue[1..], Refilled(l).arrivals);
    var later := Messages(next);
    LaterNext(l, 0);
    AnswerNext(msg, later);
    if IsPrompt(msg) {
      LaterNext(l, Taken(later));
      Assoc(taken, [msg], later[..Taken(later)]);
    } else {
      LaterNothing(next);
    }
  }

  lemma LaterNothing(l: Line)
    ensures Later(l, 0) == l
  {
  }

  ghost predicate AllTaken(clear: Line, all: seq<Bytes>, taken: seq<Bytes>, l: Line) {
    all[..Taken(all)] == taken && Later(clear, Taken(all)) == l
  }

  class OtaClient {

    constructor () {}

    method SendFirst(conn: Connection, name: Bytes, file: Bytes) returns (r: Outcome<Control>)
      modifies conn
      ensures var t := SentFirst(old(conn.Now()), name, file);
              && conn.Now() == t.line && conn.writes == old(conn.writes) + t.writes
              && conn.log == old(conn.log) + t.log && r == t.outcome
    {
      hide SentData, HeaderData;
      r := conn.SendHeader(name, |file|);
      if r.Returned? && r.value != ACK {
        r := Raised(Aborted(r.value));
      }
    }

    /** The loop over the packets of the file. */
    method SendBody(conn: Connection, file: Bytes) returns (r: Outcome<Control>)
      modifies conn
      ensures var t := SentBody(old(conn.Now()), file, PacketCount(file));
              && conn.Now() == t.line && conn.writes == old(conn.writes) + t.writes
              && conn.log == old(conn.log) + t.log && r == t.outcome
    {
      hide SentData, PacketCount, ReadAt, ChunkStart;
      var numPackets, pos := PacketCount(file), 0;
      StartOfFile(file);
      r := Returned(ACK);
      for i := 0 to numPackets
        invariant r.Returned? && pos == ChunkStart(file, i)
        invariant var t := SentBody(old(conn.Now()), file, i);
                  && conn.Now() == t.line && conn.writes == old(conn.writes) + t.writes
                  && conn.log == old(conn.log) + t.log && r == t.outcome
      {
        ghost var t := SentBody(old(conn.Now()), file, i);
        NextChunk(file, i);
        var data := ReadAt(file, pos);
        pos := pos + |data|;
        ghost var next := Insisted(SentData(t.line, i + 1, data), false);
        Assoc(old(conn.writes), t.writes, next.writes);
        Assoc(old(conn.log), t.log, next.log);
        r := conn.SendData(i + 1, data);
        if r.Returned? && r.value != ACK {
          r := Raised(Aborted(r.value));
        }
        if !r.Returned? {
          BodyFails(old(conn.Now()), file, i + 1, numPackets);
          return;
        }
      }
    }

    method SendEnd(conn: Connection) returns (r: Outcome<Control>)
      modifies conn
      ensures var t := SentEnd(old(conn.Now()));
              && conn.Now() == t.line && conn.writes == old(conn.writes) + t.writes
              && conn.log == old(conn.log) + t.log && r == t.outcome
    {
      hide Sent;
      r := conn.SendPacket([EOT_BYTE]);
      if r.Returned? && r.value != ACK {
        r := Raised(AssertionError);
      }
    }

    method Transfer(conn: Connection, name: Bytes, file: Bytes) returns (r: Outcome<Control>)
      modifies conn
      ensures var t := Transferred(old(conn.Now()), name, file);
              && conn.Now() == t.line && conn.writes == old(conn.writes) + t.writes
              && conn.log == old(conn.log) + t.log && r == t.outcome
    {
      hide SentFirst, SentBody, SentEnd, SentData, PacketCount;
      ghost var first := SentFirst(conn.Now(), name, file);
      r := SendFirst(conn, name, file);
      if !r.Returned? {
        return;
      }
      ghost var body := SentBody(first.line, file, PacketCount(file));
      Behind(old(conn.writes), old(conn.log), first, body);
      r := SendBody(conn, file);
      if !r.Returned? {
        return;
      }
      ghost var end := SentEnd(body.line);
      Behind(old(conn.writes), old(conn.log), Then(first, body), end);
      r := SendEnd(conn);
      if !r.Returned? {
        return;
      }
      Behind(old(conn.writes), old(conn.log), Then(Then(first, body), end), SentData(end.line, 0, []));
      r := conn.SendData(0, []);
    }
  }

  lemma Behind(writes: seq<Bytes>, log: seq<Exchange>, a: Turn, b: Turn)
    ensures writes + Then(a, b).writes == (writes + a.writes) + b.writes
    ensures log + Then(a, b).log == (log + a.log) + b.log
  {
    Assoc(writes, a.writes, b.writes);
    Assoc(log, a.log, b.log);
  }

  lemma StartOfFile(file: Bytes)
    ensures ChunkStart(file, 0) == 0
  {
  }

  lemma NextChunk(file: Bytes, i: nat)
    requires i < PacketCount(file)
    ensures ChunkStart(file, i + 1) == ChunkStart(file, i) + |ReadAt(file, ChunkStart(file, i))|
    ensures 0 < |ReadAt(file, ChunkStart(file, i))| <= DATA_LEN
  {
  }

  /** A failed packet ends the transfer. */
  lemma {:induction false} BodyFails(l: Line, file: Bytes, i: nat, n: nat)
    requires i <= n <= PacketCount(file) && !SentBody(l, file, i).outcome.Returned?
    ensures SentBody(l, file, n) == SentBody(l, file, i)
    decreases n
  {
    hide SentData;
    if i < n {
      BodyFails(l, file, i, n - 1);
    }
  }
}
