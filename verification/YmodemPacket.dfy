/** YMODEM packets as Bootloader/ymodem.c builds and reads them. */
module YmodemPacket {
  import opened Flash
  import opened StringUtils

  const SOH: byte := 0x01
  const STX: byte := 0x02
  const EOT: byte := 0x04
  const ACK: byte := 0x06
  const NAK: byte := 0x15
  const CA: byte := 0x18
  const CRC16: byte := 0x43
  const ABORT1: byte := 0x41
  const ABORT2: byte := 0x61
  const SUB: byte := 0x1A

  const PACKET_HEADER: nat := 3
  const PACKET_TRAILER: nat := 2
  const PACKET_OVERHEAD: nat := 5
  const PACKET_SIZE: nat := 128
  const PACKET_1K_SIZE: nat := 1024
  const BUFFER_SIZE: nat := 1029
  const FILE_NAME_LENGTH: nat := 256
  const FILE_SIZE_LENGTH: nat := 16

  /** What one Receive_Byte finds: a byte, or nothing before its timeout. */
  datatype Event = Got(b: byte) | Silence

  type Payload = p: seq<byte> | |p| == 128 || |p| == 1024 witness seq(128, _ => 0)

  function Head(line: seq<Event>): (r: Option<byte>) {
    if line == [] || line[0].Silence? then None else Some(line[0].b)
  }

  function Tail(line: seq<Event>): (r: seq<Event>)
    ensures |r| == if line == [] then 0 else |line| - 1
  {
    if line == [] then [] else line[1..]
  }

  function Events(bytes: seq<byte>): (r: seq<Event>)
    ensures |r| == |bytes|
  {
    seq(|bytes|, i requires 0 <= i < |bytes| => Got(bytes[i]))
  }

  // ---- receiving ----

  datatype Outcome = Failed | EndOfTransmission | SenderAbort | UserAbort | Packet(length: nat)

  datatype Reception = Reception(outcome: Outcome, buf: seq<byte>, rest: seq<Event>)

  /** Bytes i.. of a packet of n bytes, of which the first i are in buf. */
  function Fill(line: seq<Event>, buf: seq<byte>, i: nat, n: nat): (r: Reception)
    requires PACKET_OVERHEAD <= n <= |buf| && i <= n
    ensures |r.buf| == |buf| && |r.rest| <= |line|
    ensures r.outcome.Packet? ==> r.outcome.length == n - PACKET_OVERHEAD
    decreases n - i
  {
    if i == n then Reception(if buf[1] == 0xFF - buf[2] then Packet(n - PACKET_OVERHEAD) else Failed, buf, line)
    else match Head(line)
      case None => Reception(Failed, buf, Tail(line))
      case Some(b) => Fill(Tail(line), buf[i := b], i + 1, n)
  }

  function Receive(line: seq<Event>, buf: seq<byte>): (r: Reception)
    requires |buf| == BUFFER_SIZE
    ensures |r.buf| == BUFFER_SIZE
    ensures line != [] ==> |r.rest| < |line|
    ensures r.outcome.Packet? ==> r.outcome.length == PACKET_SIZE || r.outcome.length == PACKET_1K_SIZE
  {
    match Head(line)
    case None => Reception(Failed, buf, Tail(line))
    case Some(c) =>
      var rest := Tail(line);
      if c == SOH then Fill(rest, buf[0 := c], 1, PACKET_SIZE + PACKET_OVERHEAD)
      else if c == STX then Fill(rest, buf[0 := c], 1, PACKET_1K_SIZE + PACKET_OVERHEAD)
      else if c == EOT then Reception(EndOfTransmission, buf, rest)
      else if c == CA then Reception(if Head(rest) == Some(CA) then SenderAbort else Failed, buf, Tail(rest))
      else if c == ABORT1 || c == ABORT2 then Reception(UserAbort, buf, rest)
      else Reception(Failed, buf, rest)
  }

  function Code(o: Outcome): (code: int) {
    match o case Failed => -1 case UserAbort => 1 case _ => 0
  }

  function Length(o: Outcome): (len: int) {
    match o case SenderAbort => -1 case Packet(n) => n case _ => 0
  }

  /** The serial line into one end: the events still to come. */
  class Line {
    var events: seq<Event>

    constructor (events: seq<Event>)
      ensures this.events == events
    {
      this.events := events;
    }

    /** Receive_Byte; past the last event the line is silent. */
    method ReceiveByte() returns (status: int, c: byte)
      modifies this
      ensures status == if Head(old(events)).Some? then 0 else -1
      ensures Head(old(events)).Some? ==> c == Head(old(events)).value
      ensures events == Tail(old(events))
    {
      status, c := -1, 0;
      if events != [] {
        if events[0].Got? { status, c := 0, events[0].b; }
        events := events[1..];
      }
    }

    /** Receive_Packet: no reply is sent and nothing but the buffer is written here. */
    method ReceivePacket(data: array<byte>) returns (code: int, length: int)
      requires data.Length == BUFFER_SIZE
      modifies this, data
      ensures var r := Receive(old(events), old(data[..]));
        code == Code(r.outcome) && length == Length(r.outcome) && data[..] == r.buf && events == r.rest
    {
      length := 0;
      var status, c := ReceiveByte();
      if status != 0 { return -1, length; }
      var packetSize: nat;
      if c == SOH {
        packetSize := PACKET_SIZE;
      } else if c == STX {
        packetSize := PACKET_1K_SIZE;
      } else if c == EOT {
        return 0, length;
      } else if c == CA {
        status, c := ReceiveByte();
        if status == 0 && c == CA { return 0, -1; }
        return -1, length;
      } else if c == ABORT1 || c == ABORT2 {
        return 1, length;
      } else {
        return -1, length;
      }
      data[0] := c;
      code := FillPacket(data, packetSize);
      if code == 0 { length := packetSize; }
    }

    /** The byte loop of Receive_Packet and the check of the complement. */
    method FillPacket(data: array<byte>, packetSize: nat) returns (code: int)
      requires data.Length == BUFFER_SIZE && packetSize <= PACKET_1K_SIZE
      modifies this, data
      ensures var r := Fill(old(events), old(data[..]), 1, packetSize + PACKET_OVERHEAD);
        && code == (if r.outcome.Packet? then 0 else -1) && (r.outcome.Packet? || r.outcome.Failed?)
        && data[..] == r.buf && events == r.rest
    {
      var i := 1;
      while i < packetSize + PACKET_OVERHEAD
        invariant 1 <= i <= packetSize + PACKET_OVERHEAD
        invariant Fill(events, data[..], i, packetSize + PACKET_OVERHEAD)
               == Fill(old(events), old(data[..]), 1, packetSize + PACKET_OVERHEAD)
      {
        var status, c := ReceiveByte();
        if status != 0 { return -1; }
        ghost var was := data[..];
        data[i] := c;
        assert data[..] == was[i := c];
        i := i + 1;
      }
      code := if data[1] == 0xFF - data[2] then 0 else -1;
    }
  }

  /** A packet on the wire: start byte, block number, its complement, payload, CRC. */
  function Framed(seqno: byte, payload: Payload, trailer: seq<byte>): (f: seq<byte>)
    requires |trailer| == PACKET_TRAILER
    ensures |f| == |payload| + PACKET_OVERHEAD
  {
    [if |payload| == PACKET_SIZE then SOH else STX, seqno, 0xFF - seqno] + payload + trailer
  }

  lemma {:induction false} FillsWith(f: seq<byte>, rest: seq<Event>, buf: seq<byte>, i: nat)
    requires PACKET_OVERHEAD <= |f| <= |buf| && i <= |f| && f[1] == 0xFF - f[2] && buf[..i] == f[..i]
    ensures Fill(Events(f)[i..] + rest, buf, i, |f|) == Reception(Packet(|f| - PACKET_OVERHEAD), f + buf[|f|..], rest)
    decreases |f| - i
  {
    var line := Events(f)[i..] + rest;
    if i == |f| {
      assert line == rest && buf == f + buf[|f|..];
    } else {
      assert line[0] == Got(f[i]) && Tail(line) == Events(f)[i + 1..] + rest;
      assert buf[i := f[i]][..i + 1] == buf[..i] + [f[i]] == f[..i + 1];
      assert buf[i := f[i]][|f|..] == buf[|f|..];
      FillsWith(f, rest, buf[i := f[i]], i + 1);
    }
  }

  /** A packet that arrives whole is received whole, whatever the buffer held, and nothing behind it is
      consumed. */
  lemma ReceivesFrame(seqno: byte, payload: Payload, trailer: seq<byte>, rest: seq<Event>, buf: seq<byte>)
    requires |trailer| == PACKET_TRAILER && |buf| == BUFFER_SIZE
    ensures var f := Framed(seqno, payload, trailer);
      Receive(Events(f) + rest, buf) == Reception(Packet(|payload|), f + buf[|f|..], rest)
  {
    var f := Framed(seqno, payload, trailer);
    var line := Events(f) + rest;
    assert line[0] == Got(f[0]) && Tail(line) == Events(f)[1..] + rest;
    assert buf[0 := f[0]][..1] == f[..1] && buf[0 := f[0]][|f|..] == buf[|f|..];
    FillsWith(f, rest, buf[0 := f[0]], 1);
  }

  // ---- the file header ----

  /** The bytes of s before the first `stop`, at most `limit` of them. */
  function TakeUntil(s: seq<byte>, stop: byte, limit: nat): (r: seq<byte>)
    ensures |r| <= limit && |r| <= |s| && r == s[..|r|] && stop !in r
    ensures |r| == limit || |r| == |s| || s[|r|] == stop
  {
    if limit == 0 || s == [] || s[0] == stop then [] else [s[0]] + TakeUntil(s[1..], stop, limit - 1)
  }

  lemma {:induction false} TakesUpTo(s: seq<byte>, stop: byte, limit: nat, n: nat)
    requires n <= limit && n <= |s| && stop !in s[..n]
    ensures |TakeUntil(s, stop, limit)| >= n && TakeUntil(s, stop, limit)[..n] == s[..n]
    ensures n < |s| && s[n] == stop ==> TakeUntil(s, stop, limit) == s[..n]
  {
    if n > 0 {
      assert s[0] == s[..n][0] && s[..n][1..] == s[1..][..n - 1];
      TakesUpTo(s[1..], stop, limit - 1, n - 1);
    }
  }

  /** The name the receiver reads from the packet in buf. */
  function HeaderName(buf: seq<byte>): (name: seq<byte>)
    requires |buf| == BUFFER_SIZE
  {
    TakeUntil(buf[PACKET_HEADER..], 0, FILE_NAME_LENGTH)
  }

  /** The text it takes for the size, in a buffer of 17 cells: the terminator may land in the last. */
  function SizeText(buf: seq<byte>): (s: seq<byte>)
    requires |buf| == BUFFER_SIZE
    ensures |s| == FILE_SIZE_LENGTH + 1
  {
    var text := TakeUntil(buf[PACKET_HEADER + |HeaderName(buf)| + 1..], ' ' as int, FILE_SIZE_LENGTH);
    text + seq(FILE_SIZE_LENGTH + 1 - |text|, _ => 0)
  }

  /** The announced size; None when the text is no number and the size variable keeps its value. */
  function HeaderSize(buf: seq<byte>): (n: Option<int>)
    requires |buf| == BUFFER_SIZE
  {
    Parse(SizeText(buf))
  }

  /** The 128 bytes the sender fills: name, NUL, the text of the size, zeros. */
  function HeaderPayload(name: seq<byte>, text: seq<byte>): (p: Payload) {
    var s := name + [0] + text;
    if |s| >= PACKET_SIZE then s[..PACKET_SIZE] else s + seq(PACKET_SIZE - |s|, _ => 0)
  }

  predicate GoodName(name: seq<byte>) {
    0 < |name| < FILE_NAME_LENGTH && 0 !in name
  }

  /** The receiver's reading of a header packet, when the size digits are followed by a NUL. */
  lemma HeaderRoundTrip(name: seq<byte>, n: nat, trailer: seq<byte>, stale: seq<byte>)
    requires GoodName(name) && n < 0x8000_0000 && |name| + 1 + |Decimal(n)| < PACKET_SIZE && |trailer| == PACKET_TRAILER
    requires |stale| == BUFFER_SIZE - PACKET_SIZE - PACKET_OVERHEAD
    ensures var buf := Framed(0, HeaderPayload(name, Decimal(n)), trailer) + stale;
      HeaderName(buf) == name && HeaderSize(buf) == Some(n) && buf[PACKET_HEADER] != 0
  {
    ShortDecimal(n);
    LooksAtAll(Decimal(n));
    ReadsHeader(name, Decimal(n), trailer, stale);
    ReadsSize(Framed(0, HeaderPayload(name, Decimal(n)), trailer) + stale, n);
  }

  /** Without that NUL the sender sends on what lies behind the digits: one stray digit, with a NUL behind
      it, and the receiver takes ten times the size and more, for sizes below 2^27 (above, see SizeReadIff
      for the stacks that give the right size all the same). */
  lemma HeaderNeedsTerminator(name: seq<byte>, n: nat, stray: byte, trailer: seq<byte>, stale: seq<byte>)
    requires GoodName(name) && 0 < n < 0x800_0000 && ZERO <= stray <= ZERO + 9
    requires |name| + 2 + |Decimal(n)| < PACKET_SIZE && |trailer| == PACKET_TRAILER
    requires |stale| == BUFFER_SIZE - PACKET_SIZE - PACKET_OVERHEAD
    ensures var buf := Framed(0, HeaderPayload(name, Decimal(n) + [stray]), trailer) + stale;
      HeaderName(buf) == name && HeaderSize(buf) == Some(10 * n + stray - ZERO) && HeaderSize(buf) != Some(n)
  {
    StrayDigit(n, stray);
    HeaderRoundTrip(name, 10 * n + stray - ZERO, trailer, stale);
  }

  lemma StrayDigit(n: nat, stray: byte)
    requires n > 0 && ZERO <= stray <= ZERO + 9
    ensures Decimal(n) + [stray] == Decimal(10 * n + stray - ZERO)
  {
    OneMoreDigit(n, stray - ZERO);
  }

  lemma ShortDecimal(n: nat)
    requires n < UINT32
    ensures |Decimal(n)| <= 10 && ' ' as int !in Decimal(n)
  {
    TenthPower();
    DecimalLength(n, 10);
  }

  lemma ReadsSize(buf: seq<byte>, n: nat)
    requires |buf| == BUFFER_SIZE && n < 0x8000_0000 && |Decimal(n)| <= 10
    requires SizeText(buf)[..|Decimal(n)|] == Decimal(n) && SizeText(buf)[|Decimal(n)|] == 0
    ensures HeaderSize(buf) == Some(n)
  {
    ParseRecovers(SizeText(buf), n);
  }

  /** As much of the size text as the receiver looks at. */
  function Looked(text: seq<byte>): (u: seq<byte>) {
    TakeUntil(text, ' ' as int, FILE_SIZE_LENGTH)
  }

  lemma LooksAtAll(text: seq<byte>)
    requires ' ' as int !in text && |text| <= FILE_SIZE_LENGTH
    ensures Looked(text) == text
  {
    assert text[..|text|] == text;
    TakesUpTo(text, ' ' as int, FILE_SIZE_LENGTH, |text|);
  }

  /** The beginning of the size text in the payload, with the zero behind a short one. */
  function Shown(text: seq<byte>): (s: seq<byte>) {
    if |text| < FILE_SIZE_LENGTH then text + [0] else text[..FILE_SIZE_LENGTH]
  }

  /** What the receiver reads from a header whose size text is `text`, with a zero behind it. */
  lemma ReadsHeader(name: seq<byte>, text: seq<byte>, trailer: seq<byte>, stale: seq<byte>)
    requires GoodName(name) && |name| + 1 + |Shown(text)| <= PACKET_SIZE && |trailer| == PACKET_TRAILER
    requires |stale| == BUFFER_SIZE - PACKET_SIZE - PACKET_OVERHEAD
    ensures var buf, u := Framed(0, HeaderPayload(name, text), trailer) + stale, Looked(text);
      HeaderName(buf) == name && buf[PACKET_HEADER] != 0 && SizeText(buf)[..|u|] == u && SizeText(buf)[|u|] == 0
  {
    var buf := Framed(0, HeaderPayload(name, text), trailer) + stale;
    assert buf[PACKET_HEADER..] == HeaderPayload(name, text) + (trailer + stale);
    HeaderBegins(name, text, trailer + stale);
    ReadsBody(buf, name, text);
  }

  lemma ReadsBody(buf: seq<byte>, name: seq<byte>, text: seq<byte>)
    requires |buf| == BUFFER_SIZE && GoodName(name) && name + [0] + Shown(text) <= buf[PACKET_HEADER..]
    ensures var u := Looked(text);
      HeaderName(buf) == name && buf[PACKET_HEADER] != 0 && SizeText(buf)[..|u|] == u && SizeText(buf)[|u|] == 0
  {
    ReadsName(buf, name, Shown(text));
    BehindName(buf[PACKET_HEADER..], name, Shown(text));
    assert buf[PACKET_HEADER + |name| + 1..] == buf[PACKET_HEADER..][|name| + 1..];
    LooksAtText(buf[PACKET_HEADER + |name| + 1..], text);
  }

  lemma HeaderBegins(name: seq<byte>, text: seq<byte>, more: seq<byte>)
    requires |name| + 1 + |Shown(text)| <= PACKET_SIZE
    ensures name + [0] + Shown(text) <= HeaderPayload(name, text) + more
  {
    var s, p := name + [0] + text, HeaderPayload(name, text);
    if |text| < FILE_SIZE_LENGTH {
      assert s + [0] <= p;
    } else {
      assert name + [0] + text[..FILE_SIZE_LENGTH] == s[..|name| + 1 + FILE_SIZE_LENGTH];
    }
  }

  lemma BehindName(body: seq<byte>, name: seq<byte>, shown: seq<byte>)
    requires name + [0] + shown <= body
    ensures shown <= body[|name| + 1..]
  {
    var all := name + [0] + shown;
    assert body[..|all|][|name| + 1..] == shown;
  }

  lemma ReadsName(buf: seq<byte>, name: seq<byte>, shown: seq<byte>)
    requires |buf| == BUFFER_SIZE && GoodName(name) && name + [0] + shown <= buf[PACKET_HEADER..]
    ensures HeaderName(buf) == name && buf[PACKET_HEADER] != 0
  {
    var body, all := buf[PACKET_HEADER..], name + [0] + shown;
    assert body[..|name|] == all[..|name|] == name && body[|name|] == all[|name|] == 0;
    TakesUpTo(body, 0, FILE_NAME_LENGTH, |name|);
    assert buf[PACKET_HEADER] == body[0] == name[0];
  }

  /** The receiver's scan of the text behind the name: what it looks at, and a zero behind that. */
  lemma LooksAtText(digits: seq<byte>, text: seq<byte>)
    requires Shown(text) <= digits
    ensures var taken, u := TakeUntil(digits, ' ' as int, FILE_SIZE_LENGTH), Looked(text);
      |taken| >= |u| && taken[..|u|] == u && (|taken| > |u| ==> taken[|u|] == 0)
  {
    var u := Looked(text);
    assert digits[..|u|] == Shown(text)[..|u|] == u;
    if |u| < FILE_SIZE_LENGTH && |u| == |text| {
      assert digits[|u|] == Shown(text)[|u|] == 0;
      assert digits[..|u| + 1] == u + [0];
      TakesUpTo(digits, ' ' as int, FILE_SIZE_LENGTH, |u| + 1);
      assert TakeUntil(digits, ' ' as int, FILE_SIZE_LENGTH)[|u|] == (u + [0])[|u|];
    } else {
      assert |u| < FILE_SIZE_LENGTH ==> digits[|u|] == Shown(text)[|u|] == ' ' as int;
      TakesUpTo(digits, ' ' as int, FILE_SIZE_LENGTH, |u|);
    }
  }
}
