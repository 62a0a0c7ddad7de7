/** The sending end, Ymodem_Transmit in Bootloader/ymodem.c. */
module YmodemSender {
  import opened Flash
  import opened StringUtils
  import opened CheckSum
  import opened YmodemPacket

  const RETRIES: nat := 10

  // ---- what is to be sent ----

  /** The flash device read from, the range of the file in it, the header payload and the CRC step. */
  datatype Job = Job(chip: seq<byte>, base: nat, size: nat, header: Payload, crcStep: (int, byte) -> int)

  predicate GoodJob(job: Job) {
    job.base + job.size <= |job.chip|
  }

  function PacketSize(size: nat): (n: nat) {
    if size >= PACKET_1K_SIZE then PACKET_1K_SIZE else PACKET_SIZE
  }

  function Least(a: nat, b: nat): (least: nat) {
    if a < b then a else b
  }

  function Padding(n: nat): (s: seq<byte>) {
    seq(n, _ => SUB)
  }

  /** The payload cut from the front of what is left, filled up with 0x1A. */
  function Block(left: seq<byte>): (p: Payload)
    requires |left| > 0
  {
    left[..Least(|left|, PacketSize(|left|))] + Padding(PacketSize(|left|) - Least(|left|, PacketSize(|left|)))
  }

  function Rest(left: seq<byte>): (r: seq<byte>)
    requires |left| > 0
    ensures |r| < |left|
  {
    if |left| <= PacketSize(|left|) then [] else left[PacketSize(|left|)..]
  }

  /** The payloads of a file: as many of 1024 bytes as fit, then as many of 128 as are needed. */
  function Blocks(left: seq<byte>): (bs: seq<Payload>)
    decreases |left|
  {
    if left == [] then [] else [Block(left)] + Blocks(Rest(left))
  }

  function Content(job: Job): (data: seq<byte>)
    requires GoodJob(job)
  {
    Slice(job.chip, job.base, job.size)
  }

  function High(crc: int): (b: byte) {
    crc / 0x100 % 0x100
  }

  function Low(crc: int): (b: byte) {
    crc % 0x100
  }

  function Trailer(crcStep: (int, byte) -> int, payload: seq<byte>): (t: seq<byte>)
    ensures |t| == PACKET_TRAILER
  {
    [High(Crc16(crcStep, payload)), Low(Crc16(crcStep, payload))]
  }

  function NoFile(): (p: Payload) {
    seq(PACKET_SIZE, _ => 0)
  }

  // ---- the sender as a machine that sends, waits for one reply, and goes on ----

  datatype Phase = Header | Handshake | Data | Eot | Closing | FinalEot | Ended

  datatype Sender = Sender(phase: Phase, blk: nat, ptr: nat, size: nat, errors: nat)

  predicate Good(job: Job, s: Sender) {
    && GoodJob(job)
    && (s.phase != Ended ==> s.errors < RETRIES)
    && (s.phase == Data ==> 0 < s.size <= job.size && s.ptr - job.base + s.size == job.size && s.blk > 0)
  }

  /** What is still to be sent of the file. */
  function Left(job: Job, s: Sender): (data: seq<byte>)
    requires Good(job, s) && s.phase == Data
    ensures |data| == s.size
  {
    Slice(job.chip, s.ptr, s.size)
  }

  function Outgoing(job: Job, s: Sender): (f: seq<byte>)
    requires Good(job, s)
  {
    match s.phase
    case Header => Framed(0, job.header, Trailer(job.crcStep, job.header))
    case Data => Framed(s.blk % 0x100, Block(Left(job, s)), Trailer(job.crcStep, Block(Left(job, s))))
    case Eot => [EOT]
    case Closing => Framed(0, NoFile(), Trailer(job.crcStep, NoFile()))
    case FinalEot => [EOT]
    case _ => []
  }

  /** One more error; the tenth ends the transfer with that count. */
  function Retry(s: Sender): (r: Sender) {
    s.(errors := s.errors + 1, phase := if s.errors + 1 >= RETRIES then Ended else s.phase)
  }

  function FileStart(job: Job): (r: Sender) {
    Sender(if job.size > 0 then Data else Eot, 1, job.base, job.size, 0)
  }

  function OnReply(job: Job, s: Sender, e: Event): (r: Sender)
    requires Good(job, s) && s.phase != Ended
    ensures Good(job, r)
  {
    match s.phase
    case Header =>
      if e == Got(ACK) then s.(phase := Handshake) else if e.Got? then s else Retry(s)
    case Handshake => FileStart(job)
    case Data =>
      if e != Got(ACK) then Retry(s)
      else if s.size > PacketSize(s.size) then
        Sender(Data, s.blk + 1, s.ptr + PacketSize(s.size), s.size - PacketSize(s.size), 0)
      else Sender(Eot, s.blk, s.ptr + PacketSize(s.size), 0, 0)
    case Eot =>
      if e == Got(ACK) then s.(phase := Closing, errors := 0) else Retry(s)
    case Closing =>
      if e == Got(ACK) then s.(phase := FinalEot) else if e.Got? then s else Retry(s)
    case FinalEot =>
      if e == Got(ACK) || s.errors + 1 < RETRIES then s.(phase := Ended, errors := 0) else Retry(s)
  }

  function Start(): (r: Sender) {
    Sender(Header, 0, 0, 0, 0)
  }

  /** Everything sent, and the value returned: 0, or the error count that ended the transfer. */
  datatype Trace = Trace(sent: seq<seq<byte>>, code: nat)

  function Before(f: seq<byte>, t: Trace): (r: Trace) {
    t.(sent := (if f == [] then [] else [f]) + t.sent)
  }

  function Rank(p: Phase): (rank: nat) {
    match p
    case Header => 6
    case Handshake => 5
    case Data => 4
    case Eot => 3
    case Closing => 2
    case FinalEot => 1
    case Ended => 0
  }

  function Reply(line: seq<Event>): (e: Event) {
    if line == [] then Silence else line[0]
  }

  /** The transfer against a finite line of replies, which is silent when it is used up. On such a line
      it ends; on an endless one its header loops need not. */
  function Run(job: Job, s: Sender, line: seq<Event>): (t: Trace)
    requires Good(job, s)
    decreases |line|, Rank(s.phase), s.size, RETRIES - s.errors
  {
    if s.phase == Ended then Trace([], s.errors)
    else Before(Outgoing(job, s), Run(job, OnReply(job, s, Reply(line)), Tail(line)))
  }

  // ---- the transfer against its replies, step by step ----

  function Sent(f: seq<byte>): (sent: seq<seq<byte>>) {
    if f == [] then [] else [f]
  }

  type Future = (Sender, seq<Event>) -> Trace

  /** What lies ahead of a sender in the transfer of `job`. The trigger keeps Run folded in the methods
      that only pass this on. */
  ghost predicate Foresees(future: Future, job: Job) {
    forall s, line {:trigger Run(job, s, line)} :: Good(job, s) ==> future(s, line) == Run(job, s, line)
  }

  /** With `sent` behind it and `rest` ahead the transfer is going to be `all`. */
  predicate Continues(all: Trace, sent: seq<seq<byte>>, rest: Trace) {
    all.code == rest.code && all.sent == sent + rest.sent
  }

  lemma Exchanged(all: Trace, sent: seq<seq<byte>>, future: Future, job: Job, s: Sender,
                  line: seq<Event>)
    requires Foresees(future, job) && Good(job, s) && s.phase != Ended && Continues(all, sent, future(s, line))
    ensures Continues(all, sent + Sent(Outgoing(job, s)), future(OnReply(job, s, Reply(line)), Tail(line)))
  {
    assert future(s, line) == Run(job, s, line);
    var rest := Run(job, OnReply(job, s, Reply(line)), Tail(line));
    assert sent + (Sent(Outgoing(job, s)) + rest.sent) == sent + Sent(Outgoing(job, s)) + rest.sent;
  }

  lemma Finished(all: Trace, sent: seq<seq<byte>>, future: Future, job: Job, s: Sender, line: seq<Event>)
    requires Foresees(future, job) && Good(job, s) && s.phase == Ended && Continues(all, sent, future(s, line))
    ensures all == Trace(sent, s.errors)
  {
    assert future(s, line) == Run(job, s, line);
  }

  // ---- the code ----

  /** The bytes before the first NUL. */
  function Text(s: seq<byte>): (r: seq<byte>) {
    TakeUntil(s, 0, |s|)
  }

  /** Copy a NUL-terminated text into a packet, without its NUL. */
  method CopyText(data: array<byte>, at: nat, src: array<byte>) returns (end: nat)
    requires data != src && 0 in src[..] && at + src.Length <= data.Length
    modifies data
    ensures at <= end < at + src.Length && data[..end] == old(data[..at]) + Text(src[..])
  {
    end := at;
    while src[end - at] != 0
      invariant at <= end < at + src.Length && 0 !in src[..end - at]
      invariant data[..end] == old(data[..at]) + src[..end - at]
      decreases data.Length - end
    {
      data[end] := src[end - at];
      end := end + 1;
    }
    TakesUpTo(src[..], 0, src.Length, end - at);
  }

  lemma InitialPacket(shown: seq<byte>, data: seq<byte>, name: seq<byte>, text: seq<byte>)
    requires shown == [SOH, 0, 0xFF] + name + [0] + text && |data| >= PACKET_HEADER + PACKET_SIZE
    requires forall k :: 0 <= k < PACKET_HEADER + PACKET_SIZE ==> data[k] == if k < |shown| then shown[k] else 0
    ensures data[..PACKET_HEADER + PACKET_SIZE] == [SOH, 0, 0xFF] + HeaderPayload(name, text)
  {
    assert shown == [SOH, 0, 0xFF] + (name + [0] + text);
  }

  /** The text at str once the digits of n have been written over its beginning. */
  function Overwritten(str: seq<byte>, n: nat): (r: seq<byte>) {
    Text(Decimal(n) + if |Decimal(n)| < |str| then str[|Decimal(n)|..] else [])
  }

  /** The text of the size, on the stack: the digits over what is there, up to the NUL at which the copy stops. */
  method WriteSize(fileStr: array<byte>, length: nat)
    requires length < UINT32 && 10 < fileStr.Length && 0 in fileStr[10..]
    modifies fileStr
    ensures 0 in fileStr[..] && Text(fileStr[..]) == Overwritten(old(fileStr[..]), length)
  {
    ShortDecimal(length);
    ghost var was := fileStr[..];
    Int2Str(fileStr, length);
    assert fileStr[..] == Decimal(length) + was[|Decimal(length)|..];
    assert 0 in fileStr[..] by { assert fileStr[10..] == was[10..]; }
  }

  /** Ymodem_PrepareIntialPacket. fileStr is its uninitialised stack array of ten cells and the memory
      behind it, up to the NUL at which the copy stops. */
  method PrepareInitialPacket(data: array<byte>, fileName: array<byte>, length: nat, fileStr: array<byte>)
    requires data.Length == BUFFER_SIZE && fileName.Length == FILE_NAME_LENGTH && length < UINT32
    requires data != fileName && data != fileStr && fileName != fileStr
    requires 0 in fileName[..] && 10 < fileStr.Length <= BUFFER_SIZE - PACKET_HEADER - FILE_NAME_LENGTH
    requires 0 in fileStr[10..]
    modifies data, fileStr
    ensures data[..PACKET_HEADER + PACKET_SIZE]
         == [SOH, 0, 0xFF] + HeaderPayload(Text(fileName[..]), Overwritten(old(fileStr[..]), length))
  {
    ghost var name := Text(fileName[..]);
    data[0], data[1], data[2] := SOH, 0, 0xFF;
    var i := CopyText(data, PACKET_HEADER, fileName);
    data[i] := 0;
    i := i + 1;
    assert data[..i] == [SOH, 0, 0xFF] + name + [0];
    WriteSize(fileStr, length);
    ghost var text := Text(fileStr[..]);
    i := CopyText(data, i, fileStr);
    ghost var shown := data[..i];
    assert shown == [SOH, 0, 0xFF] + name + [0] + text;
    ZeroFill(data, i, PACKET_HEADER + PACKET_SIZE);
    InitialPacket(shown, data[..], name, text);
    assert data[..PACKET_HEADER + PACKET_SIZE] == data[..][..PACKET_HEADER + PACKET_SIZE];
  }

  /** The copy of the name with which a transfer begins. */
  method CopyName(filename: array<byte>, sendFileName: seq<byte>)
    requires filename.Length == FILE_NAME_LENGTH
    requires |sendFileName| >= FILE_NAME_LENGTH - 1 && 0 in sendFileName[..FILE_NAME_LENGTH - 1]
    modifies filename
    ensures 0 in filename[..] && Text(filename[..]) == Text(sendFileName)
  {
    for i := 0 to FILE_NAME_LENGTH - 1
      invariant filename[..i] == sendFileName[..i]
    {
      filename[i] := sendFileName[i];
    }
    SameText(filename[..], sendFileName, FILE_NAME_LENGTH - 1);
  }

  lemma SameText(s: seq<byte>, t: seq<byte>, n: nat)
    requires n <= |s| && n <= |t| && s[..n] == t[..n] && 0 in t[..n]
    ensures 0 in s && Text(s) == Text(t)
  {
    var k := |TakeUntil(t[..n], 0, n)|;
    assert t[..n][..k] == t[..k] == s[..k] && (k < n ==> s[..n][k] == 0);
    TakesUpTo(s, 0, |s|, k);
    TakesUpTo(t, 0, |t|, k);
  }

  method ZeroFill(data: array<byte>, from: nat, to: nat)
    requires from <= data.Length && to <= data.Length
    modifies data
    ensures forall k :: 0 <= k < data.Length ==> data[k] == if from <= k < to then 0 else old(data[k])
  {
    var j := from;
    while j < to
      invariant from <= j && (j <= to || j == from)
      invariant forall k :: 0 <= k < data.Length ==> data[k] == if from <= k < j then 0 else old(data[k])
    {
      data[j] := 0;
      j := j + 1;
    }
  }

  /** Ymodem_PreparePacket, reading the flash at flashdestination. */
  method PreparePacket(chip: seq<byte>, flashdestination: nat, data: array<byte>, pktNo: byte, sizeBlk: nat)
    requires data.Length == BUFFER_SIZE && sizeBlk > 0 && flashdestination + sizeBlk <= |chip|
    modifies data
    ensures var block := Block(Slice(chip, flashdestination, sizeBlk));
      data[..PACKET_HEADER + |block|] == [if |block| == PACKET_SIZE then SOH else STX, pktNo, 0xFF - pktNo] + block
  {
    var packetSize := if sizeBlk >= PACKET_1K_SIZE then PACKET_1K_SIZE else PACKET_SIZE;
    var size := if sizeBlk < packetSize then sizeBlk else packetSize;
    data[0] := if packetSize == PACKET_1K_SIZE then STX else SOH;
    data[1] := pktNo;
    data[2] := 0xFF - pktNo;
    forall k | PACKET_HEADER <= k < size + PACKET_HEADER {
      data[k] := chip[flashdestination + k - PACKET_HEADER];
    }
    for i := size + PACKET_HEADER to packetSize + PACKET_HEADER
      invariant data[0] == (if packetSize == PACKET_1K_SIZE then STX else SOH)
      invariant data[1] == pktNo && data[2] == 0xFF - pktNo
      invariant forall k :: PACKET_HEADER <= k < size + PACKET_HEADER ==>
        data[k] == chip[flashdestination + k - PACKET_HEADER]
      invariant forall k :: size + PACKET_HEADER <= k < i ==> data[k] == SUB
    {
      data[i] := SUB;
    }
  }

  /** The sending side of the serial port: the replies to come, the bytes sent since the last wait for a
      reply, and what was sent before each of the waits so far. */
  class Transmitter {
    const line: Line
    var pending: seq<byte>
    var sent: seq<seq<byte>>

    constructor (line: Line)
      ensures this.line == line && pending == [] && sent == []
    {
      this.line, pending, sent := line, [], [];
    }

    method SendByte(c: byte)
      modifies `pending
      ensures pending == old(pending) + [c]
    {
      pending := pending + [c];
    }

    method SendPacket(data: array<byte>, length: nat)
      requires length <= data.Length
      modifies `pending
      ensures pending == old(pending) + data[..length]
    {
      var i := 0;
      while i < length
        invariant i <= length && pending == old(pending) + data[..i]
      {
        SendByte(data[i]);
        i := i + 1;
      }
    }

    /** A packet and its CRC. */
    method SendFramed(data: array<byte>, size: nat, crcStep: (int, byte) -> int)
      requires size + PACKET_HEADER <= data.Length
      modifies `pending
      ensures pending == old(pending) + data[..size + PACKET_HEADER]
                      + Trailer(crcStep, data[PACKET_HEADER..size + PACKET_HEADER])
    {
      SendPacket(data, size + PACKET_HEADER);
      var tempCRC := Crc16(crcStep, data[PACKET_HEADER..size + PACKET_HEADER]);
      SendByte(High(tempCRC));
      SendByte(Low(tempCRC));
    }

    /** Wait for a reply: here a run of the protocol advances by one exchange. */
    method ReceiveByte(ghost all: Trace, ghost future: Future, ghost job: Job, ghost s: Sender)
      returns (status: int, c: byte)
      requires Good(job, s) && s.phase != Ended && pending == Outgoing(job, s)
      requires Foresees(future, job) && Continues(all, sent, future(s, line.events))
      modifies this, line
      ensures status == 0 || status == -1
      ensures Reply(old(line.events)) == if status == 0 then Got(c) else Silence
      ensures pending == [] && line.events == Tail(old(line.events))
      ensures Continues(all, sent, future(OnReply(job, s, Reply(old(line.events))), line.events))
    {
      Exchanged(all, sent, future, job, s, line.events);
      status, c := line.ReceiveByte();
      sent := sent + Sent(pending);
      pending := [];
    }

    /** Send the packet again or for the first time, and wait. */
    method Offer(packet: array<byte>, size: nat, job: Job, ghost all: Trace, ghost future: Future, ghost s: Sender)
      returns (status: int, c: byte)
      requires Good(job, s) && s.phase != Ended && pending == [] && Ready(packet[..], size, job, s)
      requires Foresees(future, job) && Continues(all, sent, future(s, line.events))
      modifies this, line
      ensures status == 0 || status == -1
      ensures Reply(old(line.events)) == if status == 0 then Got(c) else Silence
      ensures pending == [] && line.events == Tail(old(line.events))
      ensures Continues(all, sent, future(OnReply(job, s, Reply(old(line.events))), line.events))
    {
      SendFramed(packet, size, job.crcStep);
      status, c := ReceiveByte(all, future, job, s);
    }

    /** The loop around the header and, a second time, around the closing header: any byte but ACK
        makes it send again, and only a timeout counts as an error. */
    method OfferHeader(packet: array<byte>, job: Job, ghost all: Trace, ghost future: Future, ghost s: Sender)
      returns (errors: nat, ghost next: Sender)
      requires Good(job, s) && (s.phase == Header || s.phase == Closing) && s.errors == 0 && pending == []
      requires packet.Length == BUFFER_SIZE && Ready(packet[..], PACKET_SIZE, job, s)
      requires Foresees(future, job) && Continues(all, sent, future(s, line.events))
      modifies this, line
      ensures Good(job, next) && Continues(all, sent, future(next, line.events)) && pending == []
      ensures next == s.(errors := errors, phase := if errors >= RETRIES then Ended else AfterAck(s.phase))
    {
      errors, next := 0, s;
      var ackReceived := false;
      while !ackReceived && errors < RETRIES
        invariant Good(job, next) && Continues(all, sent, future(next, line.events)) && pending == []
        invariant next == s.(errors := errors,
                             phase := if errors >= RETRIES then Ended
                                      else if ackReceived then AfterAck(s.phase)
                                      else s.phase)
        decreases !ackReceived, |line.events|, RETRIES - errors
      {
        ghost var reply := Reply(line.events);
        var status, c := Offer(packet, PACKET_SIZE, job, all, future, next);
        next := OnReply(job, next, reply);
        if status == 0 {
          if c == ACK { ackReceived := true; }
        } else {
          errors := errors + 1;
        }
      }
    }

    /** The loop around one block: anything but ACK is an error, and the tenth gives up. */
    method OfferBlock(packet: array<byte>, job: Job, blkNumber: nat, bufPtr: nat, size: nat, ghost all: Trace,
            ghost future: Future, ghost s: Sender)
      returns (errors: nat, blkNumber': nat, bufPtr': nat, size': nat, ghost next: Sender)
      requires Good(job, s) && s == Sender(Data, s.blk, bufPtr, size, 0)
      requires s.blk % 0x1_0000 == blkNumber && pending == []
      requires packet.Length == BUFFER_SIZE && Ready(packet[..], PacketSize(size), job, s)
      requires Foresees(future, job) && Continues(all, sent, future(s, line.events))
      modifies this, line
      ensures Good(job, next) && Continues(all, sent, future(next, line.events)) && pending == []
      ensures if errors >= RETRIES then next == s.(phase := Ended, errors := errors)
              else AtBlock(next, blkNumber', bufPtr', size', 0) && size' < size
    {
      errors, blkNumber', bufPtr', size', next := 0, blkNumber, bufPtr, size, s;
      var ackReceived := false;
      while !ackReceived && errors < RETRIES
        invariant Good(job, next) && Continues(all, sent, future(next, line.events)) && pending == []
        invariant if ackReceived then errors < RETRIES && AtBlock(next, blkNumber', bufPtr', size', 0) && size' < size
                  else size' == size && bufPtr' == bufPtr && blkNumber' == blkNumber
                       && next == s.(errors := errors, phase := if errors >= RETRIES then Ended else Data)
        decreases !ackReceived, RETRIES - errors
      {
        var pktSize := if size' >= PACKET_1K_SIZE then PACKET_1K_SIZE else PACKET_SIZE;
        ghost var reply := Reply(line.events);
        SameOnRetry(packet[..], pktSize, job, s, errors);
        BlockReply(job, next, blkNumber, reply);
        var status, c := Offer(packet, pktSize, job, all, future, next);
        next := OnReply(job, next, reply);
        if status == 0 && c == ACK {
          ackReceived := true;
          if size' > pktSize {
            bufPtr', size', blkNumber' := bufPtr' + pktSize, size' - pktSize, (blkNumber' + 1) % 0x1_0000;
          } else {
            bufPtr', size' := bufPtr' + pktSize, 0;
          }
        } else {
          errors := errors + 1;
        }
      }
    }

    /** The loop around the first EOT. */
    method OfferEot(job: Job, ghost all: Trace, ghost future: Future, ghost s: Sender)
      returns (errors: nat, ghost next: Sender)
      requires Good(job, s) && s.phase == Eot && s.errors == 0 && pending == []
      requires Foresees(future, job) && Continues(all, sent, future(s, line.events))
      modifies this, line
      ensures Good(job, next) && Continues(all, sent, future(next, line.events)) && pending == []
      ensures next == if errors >= RETRIES then s.(phase := Ended, errors := errors) else s.(phase := Closing)
    {
      errors, next := 0, s;
      var ackReceived := false;
      while !ackReceived && errors < RETRIES
        invariant Good(job, next) && Continues(all, sent, future(next, line.events)) && pending == []
        invariant if ackReceived then errors < RETRIES && next == s.(phase := Closing)
                  else next == s.(errors := errors, phase := if errors >= RETRIES then Ended else Eot)
        decreases !ackReceived, RETRIES - errors
      {
        SendByte(EOT);
        ghost var reply := Reply(line.events);
        var status, c := ReceiveByte(all, future, job, next);
        next := OnReply(job, next, reply);
        if status == 0 && c == ACK {
          ackReceived := true;
        } else {
          errors := errors + 1;
        }
      }
    }

    /** The loop over the blocks of the file. */
    method SendFile(packet: array<byte>, job: Job, ghost all: Trace, ghost future: Future, ghost s: Sender)
      returns (errors: nat, ghost next: Sender)
      requires Good(job, s) && AtBlock(s, 1, job.base, job.size, 0) && pending == []
      requires packet.Length == BUFFER_SIZE && Foresees(future, job) && Continues(all, sent, future(s, line.events))
      modifies this, line, packet
      ensures Good(job, next) && Continues(all, sent, future(next, line.events)) && pending == []
      ensures next.errors == if errors >= RETRIES then errors else 0
      ensures next.phase == if errors >= RETRIES then Ended else Eot
    {
      errors, next := 0, s;
      var bufPtr, size, blkNumber := job.base, job.size, 1;
      while size > 0 && errors < RETRIES
        invariant Good(job, next) && Continues(all, sent, future(next, line.events)) && pending == []
        invariant if errors >= RETRIES then next.phase == Ended && next.errors == errors
                  else AtBlock(next, blkNumber, bufPtr, size, 0)
        decreases errors < RETRIES, size
      {
        PreparePacket(job.chip, bufPtr, packet, blkNumber % 0x100, size);
        assert Left(job, next) == Slice(job.chip, bufPtr, size);
        ReadyBlock(packet[..], job, next, blkNumber % 0x100);
        errors, blkNumber, bufPtr, size, next := OfferBlock(packet, job, blkNumber, bufPtr, size, all, future, next);
      }
    }

    /** The empty header that closes the batch, and the EOT behind it. That EOT is sent once whatever
        the reply: its loop tests a flag still set from the ACK of the closing header. */
    method SendClosing(packet: array<byte>, job: Job, ghost all: Trace, ghost future: Future, ghost s: Sender)
      returns (code: nat)
      requires Good(job, s) && s.phase == Closing && s.errors == 0 && pending == []
      requires packet.Length == BUFFER_SIZE && Foresees(future, job) && Continues(all, sent, future(s, line.events))
      modifies this, line, packet
      ensures all == Trace(sent, code)
    {
      packet[0], packet[1], packet[2] := SOH, 0, 0xFF;
      ZeroFill(packet, PACKET_HEADER, PACKET_SIZE + PACKET_HEADER);
      assert packet[..PACKET_SIZE + PACKET_HEADER] == [SOH, 0, 0xFF] + NoFile();
      ReadyHeader(packet[..], job, s, NoFile());
      ghost var next;
      code, next := OfferHeader(packet, job, all, future, s);
      if code < RETRIES {
        SendByte(EOT);
        ghost var reply := Reply(line.events);
        var status, c := ReceiveByte(all, future, job, next);
        next := OnReply(job, next, reply);
        if status != 0 || c != ACK { code := code + 1; }
        if code < RETRIES { code := 0; }
      }
      Finished(all, sent, future, job, next, line.events);
    }

    method SendAll(packet: array<byte>, job: Job, ghost all: Trace, ghost future: Future) returns (code: nat)
      requires GoodJob(job) && |job.header| == PACKET_SIZE && pending == [] && sent == []
      requires packet.Length == BUFFER_SIZE && packet[..PACKET_HEADER + PACKET_SIZE] == [SOH, 0, 0xFF] + job.header
      requires Foresees(future, job) && all == future(Start(), line.events)
      modifies this, line, packet
      ensures all == Trace(sent, code)
    {
      ghost var s := Start();
      ReadyHeader(packet[..], job, s, job.header);
      code, s := OfferHeader(packet, job, all, future, s);
      if code >= RETRIES {
        Finished(all, sent, future, job, s, line.events);
      } else {
        assert Outgoing(job, s) == [];
        var status, c := ReceiveByte(all, future, job, s);
        code := SendBatch(packet, job, all, future, FileStart(job));
      }
    }

    /** What follows the header: the file, EOT, the closing header. */
    method SendBatch(packet: array<byte>, job: Job, ghost all: Trace, ghost future: Future, ghost s: Sender)
      returns (code: nat)
      requires Good(job, s) && AtBlock(s, 1, job.base, job.size, 0) && pending == []
      requires packet.Length == BUFFER_SIZE && Foresees(future, job) && Continues(all, sent, future(s, line.events))
      modifies this, line, packet
      ensures all == Trace(sent, code)
    {
      ghost var next;
      code, next := SendFile(packet, job, all, future, s);
      if code < RETRIES {
        code, next := OfferEot(job, all, future, next);
      }
      if code < RETRIES {
        code := SendClosing(packet, job, all, future, next);
      } else {
        Finished(all, sent, future, job, next, line.events);
      }
    }

    /** Ymodem_Transmit of the job with the header that this name, this size and the stack give. fileStr
        is the stack memory, as in PrepareInitialPacket; the name is copied without looking for its end. */
    method YmodemTransmit(job: Job, sendFileName: seq<byte>, fileStr: array<byte>) returns (code: nat)
      requires GoodJob(job) && job.size < UINT32
      requires |sendFileName| >= FILE_NAME_LENGTH - 1 && 0 in sendFileName[..FILE_NAME_LENGTH - 1]
      requires 10 < fileStr.Length <= BUFFER_SIZE - PACKET_HEADER - FILE_NAME_LENGTH && 0 in fileStr[10..]
      requires job.header == HeaderPayload(Text(sendFileName), Overwritten(fileStr[..], job.size))
      requires pending == [] && sent == []
      modifies this, line, fileStr
      ensures Run(job, Start(), old(line.events)) == Trace(sent, code)
    {
      var packet, filename := new byte[BUFFER_SIZE], new byte[FILE_NAME_LENGTH];
      CopyName(filename, sendFileName);
      PrepareInitialPacket(packet, filename, job.size, fileStr);
      ghost var future := (s, line) => if Good(job, s) then Run(job, s, line) else Trace([], 0);
      code := SendAll(packet, job, future(Start(), line.events), future);
    }
  }

  /** Between two blocks, with size bytes still to go; blkNumber has 16 bits. */
  predicate AtBlock(s: Sender, blkNumber: nat, bufPtr: nat, size: nat, errors: nat) {
    s == Sender(if size > 0 then Data else Eot, s.blk, bufPtr, size, errors) && s.blk % 0x1_0000 == blkNumber
  }

  lemma BlockReply(job: Job, s: Sender, blkNumber: nat, e: Event)
    requires Good(job, s) && s.phase == Data && s.blk % 0x1_0000 == blkNumber
    ensures var n, next := PacketSize(s.size), OnReply(job, s, e);
      && Good(job, next)
      && if e != Got(ACK) then next == Retry(s)
         else if s.size > n then AtBlock(next, (blkNumber + 1) % 0x1_0000, s.ptr + n, s.size - n, 0)
         else AtBlock(next, blkNumber, s.ptr + n, 0, 0)
  {
  }

  /** The count of errors does not show in what is sent: a retry repeats the same bytes. */
  lemma SameOnRetry(packet: seq<byte>, n: nat, job: Job, s: Sender, errors: nat)
    requires Good(job, s) && s.phase == Data && errors < RETRIES
    ensures Good(job, s.(errors := errors)) && Outgoing(job, s.(errors := errors)) == Outgoing(job, s)
    ensures Ready(packet, n, job, s) ==> Ready(packet, n, job, s.(errors := errors))
  {
  }

  lemma ReadyHeader(packet: seq<byte>, job: Job, s: Sender, payload: Payload)
    requires Good(job, s) && |packet| == BUFFER_SIZE && |payload| == PACKET_SIZE
    requires if s.phase == Header then payload == job.header else s.phase == Closing && payload == NoFile()
    requires packet[..PACKET_HEADER + PACKET_SIZE] == [SOH, 0, 0xFF] + payload
    ensures Ready(packet, PACKET_SIZE, job, s)
  {
    var n := PACKET_SIZE;
    assert packet[PACKET_HEADER..PACKET_HEADER + n] == packet[..PACKET_HEADER + n][PACKET_HEADER..] == payload;
  }

  lemma LowByte(n: nat)
    ensures n % 0x1_0000 % 0x100 == n % 0x100
  {
  }

  lemma ReadyBlock(packet: seq<byte>, job: Job, s: Sender, pktNo: byte)
    requires s.blk % 0x1_0000 % 0x100 == pktNo && Good(job, s) && s.phase == Data && |packet| == BUFFER_SIZE
    requires var block := Block(Left(job, s));
      packet[..PACKET_HEADER + |block|]
      == [if |block| == PACKET_SIZE then SOH else STX, pktNo, 0xFF - pktNo] + block
    ensures Ready(packet, PacketSize(s.size), job, s)
  {
    LowByte(s.blk);
    var n := PacketSize(s.size);
    assert packet[PACKET_HEADER..PACKET_HEADER + n] == packet[..PACKET_HEADER + n][PACKET_HEADER..];
  }

  function AfterAck(p: Phase): (next: Phase) {
    if p == Header then Handshake else FinalEot
  }

  /** The buffer holds the packet of n bytes of payload that s is to send. */
  predicate Ready(packet: seq<byte>, n: nat, job: Job, s: Sender)
    requires Good(job, s)
  {
    n + PACKET_HEADER <= |packet| &&
    packet[..n + PACKET_HEADER] + Trailer(job.crcStep, packet[PACKET_HEADER..n + PACKET_HEADER]) == Outgoing(job, s)
  }
}
