/** What a receiver makes of a finished transfer. */
module YmodemReceiver {
  import opened Text
  import opened Ymodem
  import opened YmodemTransfer

  // ---- Acknowledged packets -------------------------------------------------

  /** The packets that were acknowledged, in order. */
  function Acknowledged(log: seq<Exchange>): seq<Bytes> {
    if log == [] then []
    else
      var last := log[|log| - 1];
      Acknowledged(log[..|log| - 1]) + if last.reply == ACK then [last.packet] else []
  }

  lemma {:induction false} AcknowledgedAppend(a: seq<Exchange>, b: seq<Exchange>)
    ensures Acknowledged(a + b) == Acknowledged(a) + Acknowledged(b)
  {
    if b == [] {
      assert a + b == a;
    } else {
      assert (a + b)[..|a + b| - 1] == a + b[..|b| - 1];
      AcknowledgedAppend(a, b[..|b| - 1]);
    }
  }

  lemma AcknowledgedOne(e: Exchange)
    ensures Acknowledged([e]) == if e.reply == ACK then [e.packet] else []
  {
    assert [e][..0] == [];
  }

  lemma AcknowledgedSend(sent: seq<Exchange>, packet: Bytes, reply: Control)
    requires IsSend(sent, packet, reply)
    ensures Acknowledged(sent) == (if reply == ACK then [packet] else []) && |sent| <= 2
  {
    hide IsAnswered, Acknowledged;
    AcknowledgedOne(sent[0]);
    if |sent| == 2 {
      AcknowledgedOne(sent[1]);
      AcknowledgedAppend([sent[0]], [sent[1]]);
      assert sent == [sent[0]] + [sent[1]];
    } else {
      assert sent == [sent[0]];
    }
  }

  /** Exactly the packets of the transfer are acknowledged, each once and in order. */
  lemma {:induction false} AcknowledgedOnce(sends: seq<seq<Exchange>>, packets: seq<Bytes>)
    requires AreSent(sends, packets)
    ensures Acknowledged(Joined(sends)) == packets && |Joined(sends)| <= 2 * |packets|
  {
    hide IsSend, Acknowledged;
    if packets == [] {
      NothingAcknowledged();
    } else {
      var n := |packets| - 1;
      AcknowledgedOnce(sends[..n], packets[..n]);
      AcknowledgedSend(sends[n], packets[n], ACK);
      AcknowledgedAppend(Joined(sends[..n]), sends[n]);
      assert packets == packets[..n] + [packets[n]];
    }
  }

  lemma NothingAcknowledged()
    ensures Acknowledged([]) == []
  {
  }

  // ---- Packet format --------------------------------------------------------

  lemma PacketFormat(number: nat, data: Bytes)
    requires |data| <= DATA_LEN
    ensures var p := Packet(number, data);
            && |p| == PACKET_LEN
            && p[0] == STX_BYTE && p[1] == number % 256 && p[2] == 255 - number % 256
            && p[3..3 + DATA_LEN] == data + Zeros(DATA_LEN - |data|)
            && p[3 + DATA_LEN..] == [0, 0]
  {
  }

  /** Byte `k` of chunk `i`, padded with zeros. */
  function FileByte(file: Bytes, i: nat, k: nat): byte {
    if 1024 * i + k < |file| then file[1024 * i + k] else 0
  }

  lemma ChunkBytes(file: Bytes, i: nat, k: nat)
    requires i < PacketCount(file) && k < 1024
    ensures var data := ReadAt(file, ChunkStart(file, i));
            |data| <= 1024 && FileByte(file, i, k) == (data + Zeros(1024 - |data|))[k]
  {
  }

  /** Data packet `i` of the file, byte by byte: mark, number, data padded with zeros, and checksum. */
  lemma DataPacketFormat(name: Bytes, file: Bytes, i: nat)
    requires 1 <= i <= PacketCount(file)
    ensures var p := TransferPackets(name, file)[i];
            && |p| == 1029 && p[0] == 0x02 && p[1] == i % 256 && p[2] == 255 - i % 256
            && (forall k :: 3 <= k < 1027 ==> p[k] == FileByte(file, i - 1, k - 3))
            && p[1027] == 0 && p[1028] == 0
  {
    hide Packet, TransferPackets, PacketCount, ReadAt, ChunkStart, HeaderData, Zeros, FileByte;
    var data := ReadAt(file, ChunkStart(file, i - 1));
    PacketAt(name, file, i - 1);
    NextChunk(file, i - 1);
    PacketFormat(i, data);
    var p := TransferPackets(name, file)[i];
    forall k | 3 <= k < 1027 ensures p[k] == FileByte(file, i - 1, k - 3) {
      ChunkBytes(file, i - 1, k - 3);
      assert p[k] == p[3..3 + DATA_LEN][k - 3];
    }
    assert p[1027] == p[3 + DATA_LEN..][0] && p[1028] == p[3 + DATA_LEN..][1];
  }

  lemma ZerosAre(n: nat, k: nat)
    requires k < n
    ensures |Zeros(n)| == n && Zeros(n)[k] == 0
  {
  }

  /** The header packet has an extra mark in front of the name, and zeros behind the size. */
  lemma HeaderPacketFormat(name: Bytes, file: Bytes)
    requires |HeaderData(name, |file|)| <= 1024
    ensures var p, n := TransferPackets(name, file)[0], |HeaderData(name, |file|)|;
            && |p| == 1029 && p[..4] == [0x02, 0, 255, 0x02] && p[4..3 + n] == HeaderData(name, |file|)[1..]
            && forall k :: 3 + n <= k < 1029 ==> p[k] == 0
  {
    hide Packet, TransferPackets, PacketCount, Zeros;
    var data := HeaderData(name, |file|);
    PacketAt(name, file, 0);
    PacketFormat(0, data);
    var p := TransferPackets(name, file)[0];
    var field := p[3..3 + DATA_LEN];
    assert field[0] == data[0] == 0x02;
    assert p[4..3 + |data|] == field[1..|data|] == data[1..];
    forall k | 3 + |data| <= k < 1029 ensures p[k] == 0 {
      if k < 1027 {
        ZerosAre(DATA_LEN - |data|, k - 3 - |data|);
        assert p[k] == field[k - 3];
      } else {
        assert p[k] == p[3 + DATA_LEN..][k - 1027];
      }
    }
  }

  // ---- The receiver -----------------------------------------------------------

  function Until(s: Bytes, b: byte): Bytes {
    if s == [] || s[0] == b then [] else [s[0]] + Until(s[1..], b)
  }

  function Behind(s: Bytes, b: byte): Bytes {
    var n := |Until(s, b)|;
    if n < |s| then s[n + 1..] else []
  }

  function Chars(s: Bytes): string {
    seq(|s|, i requires 0 <= i < |s| => s[i] as char)
  }

  function DataField(p: Bytes): Bytes {
    if |p| == PACKET_LEN then p[3..3 + DATA_LEN] else []
  }

  function DataFields(ps: seq<Bytes>): Bytes {
    if ps == [] then [] else DataFields(ps[..|ps| - 1]) + DataField(ps[|ps| - 1])
  }

  datatype Received = Received(name: Bytes, content: Bytes) | Rejected

  /** Reads the header, joins the data of the packets between header and end, and cuts it to the announced size. */
  function Receive(packets: seq<Bytes>): Received {
    if |packets| < 2 || |packets[0]| != PACKET_LEN then Rejected
    else
      var header := DataField(packets[0])[1..];
      var digits := Chars(Until(Behind(header, 0), 32));
      var data := DataFields(packets[1..|packets| - 1]);
      if !AllDigits(digits) || |data| < ParseNat(digits) then Rejected
      else Received(Until(header, 0), data[..ParseNat(digits)])
  }

  lemma {:induction false} UntilFirst(a: Bytes, b: byte, rest: Bytes)
    requires b !in a
    ensures Until(a + ([b] + rest), b) == a
    ensures Behind(a + ([b] + rest), b) == rest
  {
    var s := a + ([b] + rest);
    if a != [] {
      assert s[1..] == a[1..] + ([b] + rest);
      UntilFirst(a[1..], b, rest);
      assert a == [a[0]] + a[1..];
    }
    assert s[|a| + 1..] == rest;
  }

  lemma DigitsAscii(n: nat)
    ensures 32 !in Ascii(PrintNat(n)) && Chars(Ascii(PrintNat(n))) == PrintNat(n)
  {
    PrintNatDigits(n);
    var s := PrintNat(n);
    assert forall i :: 0 <= i < |s| ==> IsDigit(s[i]);
    assert forall i :: 0 <= i < |s| ==> Ascii(s)[i] as char == s[i];
  }

  lemma AsciiSpace(s: string)
    ensures Ascii(s + " ") == Ascii(s) + [32]
  {
  }

  lemma BehindMark(mark: byte, data: Bytes, zeros: Bytes)
    ensures (([mark] + data) + zeros)[1..] == data + zeros
  {
  }

  lemma Regrouped(name: Bytes, digits: Bytes, zeros: Bytes)
    ensures (name + ([0] + (digits + [32]))) + zeros == name + ([0] + (digits + ([32] + zeros)))
  {
    Assoc(digits, [32], zeros);
    Assoc([0], digits + [32], zeros);
    Assoc(name, [0] + (digits + [32]), zeros);
  }

  lemma HeaderLayout(name: Bytes, size: nat)
    requires |HeaderData(name, size)| <= DATA_LEN
    ensures var zeros := Zeros(DATA_LEN - |HeaderData(name, size)|);
            DataField(Packet(0, HeaderData(name, size)))[1..] == name + ([0] + (Ascii(PrintNat(size)) + ([32] + zeros)))
  {
    hide Ascii, PrintNat, Zeros, Packet;
    var digits, zeros := Ascii(PrintNat(size)), Zeros(DATA_LEN - |HeaderData(name, size)|);
    PacketFormat(0, HeaderData(name, size));
    AsciiSpace(PrintNat(size));
    BehindMark(STX_BYTE, name + ([0] + (digits + [32])), zeros);
    Regrouped(name, digits, zeros);
  }

  /** The header tells the name and the size. */
  lemma HeaderReadsBack(name: Bytes, size: nat)
    requires |HeaderData(name, size)| <= DATA_LEN && 0 !in name
    ensures var header := DataField(Packet(0, HeaderData(name, size)))[1..];
            && Until(header, 0) == name
            && Chars(Until(Behind(header, 0), 32)) == PrintNat(size)
  {
    var zeros := Zeros(DATA_LEN - |HeaderData(name, size)|);
    HeaderLayout(name, size);
    DigitsAscii(size);
    UntilFirst(name, 0, Ascii(PrintNat(size)) + ([32] + zeros));
    UntilFirst(Ascii(PrintNat(size)), 32, zeros);
  }

  lemma DataFieldsNext(ps: seq<Bytes>, p: Bytes)
    ensures DataFields(ps + [p]) == DataFields(ps) + DataField(p)
  {
    assert (ps + [p])[..|ps|] == ps;
  }

  lemma NothingRead(file: Bytes)
    ensures DataFields([]) == [] && ChunkStart(file, 0) == 0
  {
  }

  lemma ChunkAt(file: Bytes, i: nat)
    requires i < PacketCount(file)
    ensures var start, chunk := ChunkStart(file, i), ReadAt(file, ChunkStart(file, i));
            && start == i * DATA_LEN && start + |chunk| == ChunkStart(file, i + 1)
            && chunk == file[start..start + |chunk|]
  {
  }

  /** The data of the first `i` packets starts with the first bytes of the file. */
  lemma {:induction false} DataReadsBack(name: Bytes, file: Bytes, i: nat)
    requires i <= PacketCount(file)
    ensures var data := DataFields(TransferPackets(name, file)[1..i + 1]);
            |data| == i * DATA_LEN && data[..ChunkStart(file, i)] == file[..ChunkStart(file, i)]
  {
    hide TransferPackets, PacketCount, ReadAt, ChunkStart, Packet, HeaderData, Zeros, DataFields;
    var packets := TransferPackets(name, file);
    if i == 0 {
      assert packets[1..1] == [];
      NothingRead(file);
    } else {
      DataReadsBack(name, file, i - 1);
      PacketAt(name, file, i - 1);
      NextChunk(file, i - 1);
      var chunk := ReadAt(file, ChunkStart(file, i - 1));
      PacketFormat(i, chunk);
      assert packets[1..i + 1] == packets[1..i] + [packets[i]];
      DataFieldsNext(packets[1..i], packets[i]);
      ZerosLength(DATA_LEN - |chunk|);
      ExtendPrefix(DataFields(packets[1..i]), file, i, chunk + Zeros(DATA_LEN - |chunk|));
    }
  }

  lemma ZerosLength(n: nat)
    ensures |Zeros(n)| == n
  {
  }

  lemma ExtendPrefix(data: Bytes, file: Bytes, i: nat, field: Bytes)
    requires 0 < i <= PacketCount(file) && |data| == (i - 1) * DATA_LEN && |field| == DATA_LEN
    requires data[..ChunkStart(file, i - 1)] == file[..ChunkStart(file, i - 1)]
    requires var chunk := ReadAt(file, ChunkStart(file, i - 1)); chunk <= field
    ensures |data + field| == i * DATA_LEN
    ensures (data + field)[..ChunkStart(file, i)] == file[..ChunkStart(file, i)]
  {
    hide PacketCount, ReadAt, ChunkStart;
    ChunkAt(file, i - 1);
    var chunk := ReadAt(file, |data|);
    assert file[..|data| + |chunk|] == file[..|data|] + chunk;
    assert (data + field)[..|data| + |chunk|] == data + field[..|chunk|];
  }

  lemma AllChunksRead(file: Bytes)
    ensures ChunkStart(file, PacketCount(file)) == |file| <= PacketCount(file) * DATA_LEN
  {
  }

  /** The packets of a transfer describe the file completely. */
  lemma TransferReadsBack(name: Bytes, file: Bytes)
    requires |HeaderData(name, |file|)| <= DATA_LEN && 0 !in name
    ensures Receive(TransferPackets(name, file)) == Received(name, file)
  {
    var packets, n := TransferPackets(name, file), PacketCount(file);
    PacketAt(name, file, n);
    PacketFormat(0, HeaderData(name, |file|));
    HeaderReadsBack(name, |file|);
    ParsePrintNat(|file|);
    DataReadsBack(name, file, n);
    AllChunksRead(file);
  }

  /**
   * Whatever arrives: if the transfer returns, the packets whose replies are acknowledgements are, apart from the
   * closing packet, exactly those of the transfer, and a receiver that keeps them has the file.
   */
  lemma ReceiverHasFile(l: Line, name: Bytes, file: Bytes) returns (acknowledged: seq<Bytes>)
    requires Transferred(l, name, file).outcome.Returned? && 0 !in name
    ensures Acknowledged(Transferred(l, name, file).log) ==
            acknowledged + if Transferred(l, name, file).outcome == Returned(ACK) then [Packet(0, [])] else []
    ensures acknowledged == TransferPackets(name, file)
    ensures Receive(acknowledged) == Received(name, file)
  {
    hide Transferred, TransferPackets, Packet, Receive, HeaderData, Acknowledged, AreSent;
    var sends, closing := TransferIsSent(l, name, file);
    acknowledged := Acknowledged(Joined(sends));
    AcknowledgedOnce(sends, TransferPackets(name, file));
    AcknowledgedAppend(Joined(sends), closing);
    AcknowledgedSend(closing, Packet(0, []), Transferred(l, name, file).outcome.value);
    LengthFailsExactly(l, name, file);
    TransferReadsBack(name, file);
  }
}
