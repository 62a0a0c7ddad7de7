/** The receiving end, Ymodem_Receive in Bootloader/ymodem.c. */
module YmodemReceiver {
  import opened Flash
  import opened StringUtils
  import opened YmodemPacket

  const MAX_ERRORS: nat := 20

  /** A write to flash: where, the number of the packet it came from, and what. */
  datatype Store = Store(addr: nat, seqno: byte, data: seq<byte>)

  datatype State = State(
    packets: nat, errors: nat, begun: bool, size: int,
    dest: nat, flash: seq<byte>,
    replies: seq<byte>, stores: seq<Store>,
    result: Option<int>)

  function Initial(flash: seq<byte>, dest: nat): (st: State) {
    State(0, 0, false, 0, dest, flash, [], [], None)
  }

  /** platform_flash_erase of [start, start + n): outside the device it fails, and the caller does not look. */
  function Erased(flash: seq<byte>, start: nat, n: nat): (r: seq<byte>)
    ensures |r| == |flash|
  {
    if start + n > |flash| then flash
    else seq(|flash|, i requires 0 <= i < |flash| => if start <= i < start + n then BLANK else flash[i])
  }

  function Refuse(st: State, code: int): (r: State) {
    st.(replies := st.replies + [CA, CA], result := Some(code))
  }

  /** Packet 0 that names a file. */
  function OnHeader(max: nat, st: State, buf: seq<byte>): (r: State)
    requires |buf| == BUFFER_SIZE
  {
    var size := if HeaderSize(buf).Some? then HeaderSize(buf).value else st.size;
    if size > max + 1 then Refuse(st.(size := size), -1)
    else st.(size := size, flash := Erased(st.flash, st.dest, max), replies := st.replies + [ACK, CRC16],
             packets := 1, begun := true)
  }

  function OnData(st: State, buf: seq<byte>, len: nat): (r: State)
    requires |buf| == BUFFER_SIZE && len <= PACKET_1K_SIZE
  {
    var data := buf[PACKET_HEADER..PACKET_HEADER + len];
    if st.dest + len > |st.flash| then Refuse(st, -2)
    else st.(flash := Programmed(st.flash, st.dest, data), dest := st.dest + len,
             stores := st.stores + [Store(st.dest, buf[1], data)],
             replies := st.replies + [ACK], packets := st.packets + 1, begun := true)
  }

  /** One turn of the inner loop, after Receive_Packet has left `o` and the packet in buf. */
  function Step(max: nat, st: State, o: Outcome, buf: seq<byte>): (r: State)
    requires |buf| == BUFFER_SIZE && (o.Packet? ==> o.length <= PACKET_1K_SIZE)
  {
    match o
    case SenderAbort => st.(errors := 0, replies := st.replies + [ACK], result := Some(0))
    case EndOfTransmission => st.(errors := 0, replies := st.replies + [ACK], packets := 0)
    case UserAbort => Refuse(st, -3)
    case Failed =>
      var errors := if st.begun then st.errors + 1 else st.errors;
      if errors > MAX_ERRORS then Refuse(st.(errors := errors), 0)
      else st.(errors := errors, replies := st.replies + [CRC16])
    case Packet(len) =>
      var ok := st.(errors := 0);
      if buf[1] != st.packets % 0x100 then ok.(replies := st.replies + [NAK])
      else if st.packets > 0 then OnData(ok, buf, len)
      else if buf[PACKET_HEADER] != 0 then OnHeader(max, ok, buf)
      else ok.(replies := st.replies + [ACK], result := Some(st.size))
  }

  // ---- whole sessions ----

  datatype Turn = Turn(outcome: Outcome, buf: seq<byte>)

  predicate GoodTurn(t: Turn) {
    && |t.buf| == BUFFER_SIZE
    && (t.outcome.Packet? ==> t.outcome.length == PACKET_SIZE || t.outcome.length == PACKET_1K_SIZE)
  }

  type Turns = ts: seq<Turn> | forall i :: 0 <= i < |ts| ==> GoodTurn(ts[i]) witness []

  /** How a line falls apart into packets. */
  function TurnsOf(line: seq<Event>, buf: seq<byte>): (ts: Turns)
    requires |buf| == BUFFER_SIZE
    decreases |line|
  {
    if line == [] then [] else
    var r := Receive(line, buf);
    [Turn(r.outcome, r.buf)] + TurnsOf(r.rest, r.buf)
  }

  /** The session up to the return, or up to the end of what is given. */
  function Session(max: nat, st: State, ts: Turns): (r: State)
    decreases |ts|
  {
    if ts == [] || st.result.Some? then st
    else Session(max, Step(max, st, ts[0].outcome, ts[0].buf), ts[1..])
  }

  lemma ScannedSize(buf: seq<byte>, s: seq<byte>, n: nat)
    requires |buf| == BUFFER_SIZE && |s| == FILE_SIZE_LENGTH + 1
    requires var text := TakeUntil(buf[PACKET_HEADER + |HeaderName(buf)| + 1..], ' ' as int, FILE_SIZE_LENGTH);
      n == |text| && s[..n] == text
    requires forall k :: n <= k < |s| ==> s[k] == 0
    ensures s == SizeText(buf)
  {
    assert s == s[..n] + seq(FILE_SIZE_LENGTH + 1 - n, _ => 0);
  }

  // ---- the code ----

  class Receiver {
    var flash: seq<byte>
    var replies: seq<byte>
    var stores: seq<Store>
    const fileName: array<byte>

    constructor (flash: seq<byte>)
      ensures this.flash == flash && replies == []
      ensures stores == [] && fresh(fileName) && fileName.Length == FILE_NAME_LENGTH + 1
    {
      this.flash, replies, stores := flash, [], [];
      fileName := new byte[FILE_NAME_LENGTH + 1](_ => 0);
    }

    method SendByte(c: byte)
      modifies `replies
      ensures replies == old(replies) + [c]
    {
      replies := replies + [c];
    }

    /** A scan of the header: copy src from `ptr` up to `stop`, at most `limit` bytes, and terminate. */
    method Scan(src: array<byte>, ptr: nat, dst: array<byte>, stop: byte, limit: nat) returns (n: nat)
      requires ptr + limit < src.Length && limit < dst.Length && src != dst
      modifies dst
      ensures n == |TakeUntil(src[ptr..], stop, limit)| && dst[..n] == TakeUntil(src[ptr..], stop, limit)
      ensures dst[n] == 0 && forall k :: n < k < dst.Length ==> dst[k] == old(dst[k])
    {
      ghost var rest, text := src[ptr..], TakeUntil(src[ptr..], stop, limit);
      n := 0;
      while src[ptr + n] != stop && n < limit
        invariant n <= |text|
        invariant forall k :: 0 <= k < n ==> dst[k] == text[k]
        invariant forall k :: n <= k < dst.Length ==> dst[k] == old(dst[k])
        decreases limit - n
      {
        assert src[ptr + n] == rest[n];
        dst[n] := src[ptr + n];
        n := n + 1;
      }
      if n < limit { TakesUpTo(rest, stop, limit, n); }
      dst[n] := 0;
    }

    /** The text of the size, behind a name of i bytes. Its buffer, like that of the name, has one cell more than
        in the source, for the terminator of a text that fills it. */
    method ScanSize(packet: array<byte>, i: nat) returns (text: seq<byte>)
      requires packet.Length == BUFFER_SIZE && i == |HeaderName(packet[..])|
      ensures text == SizeText(packet[..])
    {
      var fileSize := new byte[FILE_SIZE_LENGTH + 1](_ => 0);
      var ptr := PACKET_HEADER + i + 1;
      var n := Scan(packet, ptr, fileSize, ' ' as int, FILE_SIZE_LENGTH);
      assert packet[ptr..] == packet[..][ptr..];
      ScannedSize(packet[..], fileSize[..], n);
      text := fileSize[..];
    }

    /** The file name and size of a header. */
    method ReadHeader(packet: array<byte>, was: int) returns (size: int)
      requires packet.Length == BUFFER_SIZE && fileName.Length == FILE_NAME_LENGTH + 1 && packet != fileName
      modifies fileName
      ensures size == if HeaderSize(packet[..]).Some? then HeaderSize(packet[..]).value else was
      ensures var name := HeaderName(packet[..]); fileName[..|name|] == name && fileName[|name|] == 0
    {
      var i := Scan(packet, PACKET_HEADER, fileName, 0, FILE_NAME_LENGTH);
      assert packet[PACKET_HEADER..] == packet[..][PACKET_HEADER..];
      var text := ScanSize(packet, i);
      var res;
      res, size := Str2Int(text, was);
    }

    function View(packets: nat, errors: nat, begun: bool, size: int, dest: nat, result: Option<int>): (st: State)
      reads this
    {
      State(packets, errors, begun, size, dest, flash, replies, stores, result)
    }

    /** A packet 0 that names a file. */
    method AcceptHeader(packet: array<byte>, begun: bool, size: int, dest: nat, max: nat)
      returns (packets': nat, begun': bool, size': int, result: Option<int>)
      requires packet.Length == BUFFER_SIZE && fileName.Length == FILE_NAME_LENGTH + 1 && packet != fileName
      modifies this, fileName
      ensures View(packets', 0, begun', size', dest, result)
           == OnHeader(max, old(View(0, 0, begun, size, dest, None)), packet[..])
    {
      packets', begun', result := 0, begun, None;
      size' := ReadHeader(packet, size);
      if size' > max + 1 {
        SendByte(CA);
        SendByte(CA);
        result := Some(-1);
      } else {
        flash := Erased(flash, dest, max);
        SendByte(ACK);
        SendByte(CRC16);
        packets', begun' := 1, true;
      }
    }

    /** A packet of data. */
    method AcceptData(packet: array<byte>, len: nat, packets: nat, begun: bool, size: int, dest: nat)
      returns (packets': nat, begun': bool, dest': nat, result: Option<int>)
      requires packet.Length == BUFFER_SIZE && len <= PACKET_1K_SIZE
      modifies this
      ensures View(packets', 0, begun', size, dest', result)
           == OnData(old(View(packets, 0, begun, size, dest, None)), packet[..], len)
    {
      packets', begun', dest', result := packets, begun, dest, None;
      var data := packet[PACKET_HEADER..PACKET_HEADER + len];
      assert data == packet[..][PACKET_HEADER..PACKET_HEADER + len];
      if dest + len > |flash| {
        SendByte(CA);
        SendByte(CA);
        result := Some(-2);
      } else {
        flash := Programmed(flash, dest, data);
        stores := stores + [Store(dest, packet[1], data)];
        dest' := dest + len;
        SendByte(ACK);
        packets', begun' := packets + 1, true;
      }
    }

    /** The body of `default: Normal packet` for a packet in sequence, and what follows it. */
    method Accept(packet: array<byte>, len: nat, packets: nat, begun: bool, size: int, dest: nat, max: nat)
      returns (packets': nat, begun': bool, size': int, dest': nat, result: Option<int>)
      requires packet.Length == BUFFER_SIZE && fileName.Length == FILE_NAME_LENGTH + 1 && packet != fileName
      requires len <= PACKET_1K_SIZE && packet[1] == packets % 0x100
      modifies this, fileName
      ensures View(packets', 0, begun', size', dest', result)
           == Step(max, old(View(packets, 0, begun, size, dest, None)), Packet(len), packet[..])
    {
      packets', begun', size', dest', result := packets, begun, size, dest, None;
      if packets == 0 {
        if packet[PACKET_HEADER] != 0 {
          packets', begun', size', result := AcceptHeader(packet, begun, size, dest, max);
        } else {
          SendByte(ACK);
          result := Some(size);
        }
      } else {
        packets', begun', dest', result := AcceptData(packet, len, packets, begun, size, dest);
      }
    }

    /** One turn of the inner loop: receive a packet and act on it. */
    method Round(line: Line, packet: array<byte>, packets: nat, errors: nat, begun: bool, size: int, dest: nat,
            max: nat)
      returns (packets': nat, errors': nat, begun': bool, size': int, dest': nat, fileDone: bool, result: Option<int>)
      requires packet.Length == BUFFER_SIZE && fileName.Length == FILE_NAME_LENGTH + 1 && packet != fileName
      requires line.events != []
      modifies this, line, packet, fileName
      ensures var r := Receive(old(line.events), old(packet[..]));
        && line.events == r.rest && packet[..] == r.buf
        && View(if fileDone then 0 else packets', errors', begun', size', dest', result)
           == Step(max, old(View(packets, errors, begun, size, dest, None)), r.outcome, r.buf)
    {
      packets', errors', begun', size', dest', fileDone, result := packets, errors, begun, size, dest, false, None;
      var code, length := line.ReceivePacket(packet);
      if code == 0 {
        errors' := 0;
        if length == -1 {
          SendByte(ACK);
          result := Some(0);
        } else if length == 0 {
          SendByte(ACK);
          fileDone := true;
        } else if packet[1] != packets % 0x100 {
          SendByte(NAK);
        } else {
          packets', begun', size', dest', result := Accept(packet, length, packets, begun, size, dest, max);
        }
      } else if code == 1 {
        SendByte(CA);
        SendByte(CA);
        result := Some(-3);
      } else {
        if begun { errors' := errors + 1; }
        if errors' > MAX_ERRORS {
          SendByte(CA);
          SendByte(CA);
          result := Some(0);
        } else {
          SendByte(CRC16);
        }
      }
    }

    /** Ymodem_Receive. `packet` is the uninitialised buffer on its stack; the result is None when the
        line ends before the session does. */
    method YmodemReceive(line: Line, packet: array<byte>, flashdestination: nat, maxRecvSize: nat)
      returns (result: Option<int>, ghost end: State)
      requires packet.Length == BUFFER_SIZE && fileName.Length == FILE_NAME_LENGTH + 1 && packet != fileName
      requires replies == [] && stores == []
      modifies this, line, packet, fileName
      ensures var ts := TurnsOf(old(line.events), old(packet[..]));
        end == Session(maxRecvSize, Initial(old(flash), flashdestination), ts)
      ensures result == end.result && flash == end.flash && replies == end.replies && stores == end.stores
    {
      ghost var all := Session(maxRecvSize, Initial(flash, flashdestination), TurnsOf(line.events, packet[..]));
      var packets, errors, begun, size, dest := 0, 0, false, 0, flashdestination;
      end, result := Initial(flash, flashdestination), None;
      while result.None? && line.events != []
        invariant end == View(end.packets, errors, begun, size, dest, result)
        invariant result.None? && line.events != [] ==> end.packets == 0
        invariant all == Session(maxRecvSize, end, TurnsOf(line.events, packet[..]))
        decreases |line.events|
      {
        var fileDone := false;
        packets := 0;
        ghost var left := |line.events|;
        while !fileDone && result.None? && line.events != []
          invariant end == View(if fileDone then 0 else packets, errors, begun, size, dest, result)
          invariant all == Session(maxRecvSize, end, TurnsOf(line.events, packet[..]))
          invariant |line.events| < left || (|line.events| == left && !fileDone && result.None?)
          decreases |line.events|
        {
          ghost var r := Receive(line.events, packet[..]);
          ghost var ts := TurnsOf(line.events, packet[..]);
          assert ts[0] == Turn(r.outcome, r.buf) && ts[1..] == TurnsOf(r.rest, r.buf);
          packets, errors, begun, size, dest, fileDone, result :=
            Round(line, packet, packets, errors, begun, size, dest, maxRecvSize);
          end := Step(maxRecvSize, end, r.outcome, r.buf);
        }
      }
    }
  }
}
