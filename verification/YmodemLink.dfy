/** Both ends of a transfer, joined by two channels that may lose and delay whole packets and replies. */
module YmodemLink {
  import opened Flash
  import opened StringUtils
  import opened YmodemPacket
  import opened YmodemReceiver
  import opened YmodemSender
  import opened YmodemTransfers
  import opened YmodemSessions

  /** What is under way to the receiver; the number is history, nothing looks at it. */
  datatype Message = Message(number: nat, bytes: seq<byte>)

  /** `top` is the last number sent, `ended` tells whether an EOT has reached the receiver: history too. */
  datatype Link = Link(s: Sender, fwd: seq<Message>, bwd: seq<byte>, st: State, buf: seq<byte>, top: nat, ended: bool)

  datatype Move =
    | PacketArrives | ReplyArrives | ReceiverTimesOut | SenderTimesOut | PacketLost(i: nat) | ReplyLost(i: nat)

  function Answer(before: seq<byte>, after: seq<byte>): (s: seq<byte>) {
    if |before| <= |after| then Slice(after, |before|, |after| - |before|) else []
  }

  lemma AnswerIs(before: seq<byte>, said: seq<byte>)
    ensures Answer(before, before + said) == said
  {
  }

  function ReceiverTurn(max: nat, l: Link, o: Outcome, buf: seq<byte>): (r: Link)
    requires |buf| == BUFFER_SIZE && (o.Packet? ==> o.length <= PACKET_1K_SIZE)
  {
    var st := Step(max, l.st, o, buf);
    l.(st := st, buf := buf, bwd := l.bwd + Answer(l.st.replies, st.replies),
       ended := l.ended || o == EndOfTransmission)
  }

  function SenderTurn(job: Job, l: Link, e: Event): (r: Link)
    requires Good(job, l.s) && l.s.phase != Ended
    ensures Good(job, r.s) && r.buf == l.buf
  {
    var s := OnReply(job, l.s, e);
    if s.phase == Ended || s.phase == Handshake then l.(s := s)
    else l.(s := s, fwd := l.fwd + [Message(Number(job, s), Outgoing(job, s))], top := Number(job, s))
  }

  function Without<T>(s: seq<T>, i: nat): (r: seq<T>) {
    if i < |s| then s[..i] + s[i + 1..] else s
  }

  predicate Sound(job: Job, l: Link) {
    Good(job, l.s) && |l.buf| == BUFFER_SIZE
  }

  function Next(job: Job, max: nat, l: Link, m: Move): (r: Link)
    requires Sound(job, l)
    ensures Sound(job, r)
  {
    match m
    case PacketArrives =>
      if l.fwd == [] || l.st.result.Some? then l else
      var got := Receive(Events(l.fwd[0].bytes), l.buf);
      ReceiverTurn(max, l.(fwd := l.fwd[1..]), got.outcome, got.buf)
    case ReplyArrives =>
      if l.bwd == [] || l.s.phase == Ended then l else SenderTurn(job, l.(bwd := l.bwd[1..]), Got(l.bwd[0]))
    case ReceiverTimesOut => if l.st.result.Some? then l else ReceiverTurn(max, l, Failed, l.buf)
    case SenderTimesOut => if l.s.phase == Ended then l else SenderTurn(job, l, Silence)
    case PacketLost(i) => l.(fwd := Without(l.fwd, i))
    case ReplyLost(i) => l.(bwd := Without(l.bwd, i))
  }

  function Begin(job: Job, flash: seq<byte>, dest: nat, buf: seq<byte>): (l: Link)
    requires GoodJob(job) && |buf| == BUFFER_SIZE
    ensures Sound(job, l)
  {
    Link(Start(), [Message(0, Outgoing(job, Start()))], [], Initial(flash, dest), buf, 0, false)
  }

  function Play(job: Job, max: nat, l: Link, ms: seq<Move>): (r: Link)
    requires Sound(job, l)
    ensures Sound(job, r)
    decreases |ms|
  {
    if ms == [] then l else Play(job, max, Next(job, max, l, ms[0]), ms[1..])
  }

  // ---- the channels ----

  function Acks(s: seq<byte>): (n: nat) {
    if s == [] then 0 else (if s[0] == ACK then 1 else 0) + Acks(s[1..])
  }

  lemma {:induction false} AcksAppend(s: seq<byte>, t: seq<byte>)
    ensures Acks(s + t) == Acks(s) + Acks(t)
  {
    if s == [] {
      assert s + t == t;
    } else {
      assert (s + t)[1..] == s[1..] + t;
      AcksAppend(s[1..], t);
    }
  }

  lemma AcksWithout(s: seq<byte>, i: nat)
    ensures Acks(Without(s, i)) <= Acks(s)
  {
    if i < |s| {
      assert s == s[..i] + ([s[i]] + s[i + 1..]);
      AcksAppend(s[..i], [s[i]] + s[i + 1..]);
      AcksAppend([s[i]], s[i + 1..]);
      AcksAppend(s[..i], s[i + 1..]);
    }
  }

  /** In flight: frames in the order of their numbers, none older than low - 1 and none newer than top. */
  predicate InFlight(job: Job, fwd: seq<Message>, low: nat, top: nat)
    requires GoodJob(job)
  {
    && (forall i :: 0 <= i < |fwd| ==> fwd[i].bytes == Frame(job, fwd[i].number))
    && (forall i :: 0 <= i < |fwd| ==> low <= fwd[i].number + 1 && fwd[i].number <= top)
    && (forall i, j :: 0 <= i < j < |fwd| ==> Ordered(fwd, i, j))
  }

  predicate Ordered(fwd: seq<Message>, i: nat, j: nat)
    requires i < j < |fwd|
  {
    fwd[i].number <= fwd[j].number
  }

  lemma Arrives(job: Job, fwd: seq<Message>, low: nat, top: nat)
    requires GoodJob(job) && InFlight(job, fwd, low, top) && fwd != []
    ensures InFlight(job, fwd[1..], low, top)
    ensures fwd[0].number == low ==> InFlight(job, fwd[1..], low + 1, top)
  {
    var rest := fwd[1..];
    forall i | 0 <= i < |rest|
      ensures rest[i].bytes == Frame(job, rest[i].number) && rest[i].number <= top
      ensures low <= rest[i].number + 1 && fwd[0].number <= rest[i].number
    {
      assert rest[i] == fwd[i + 1] && Ordered(fwd, 0, i + 1);
    }
    forall i, j | 0 <= i < j < |rest| ensures Ordered(rest, i, j) {
      assert Ordered(fwd, i + 1, j + 1);
    }
  }

  lemma Departs(job: Job, fwd: seq<Message>, low: nat, top: nat, k: nat)
    requires GoodJob(job) && InFlight(job, fwd, low, top) && top <= k && low <= k + 1
    ensures InFlight(job, fwd + [Message(k, Frame(job, k))], low, k)
  {
    var all := fwd + [Message(k, Frame(job, k))];
    forall i, j | 0 <= i < j < |all| ensures Ordered(all, i, j) {
      assert j < |fwd| ==> Ordered(fwd, i, j);
    }
  }

  lemma IsLost(job: Job, fwd: seq<Message>, low: nat, top: nat, i: nat)
    requires GoodJob(job) && InFlight(job, fwd, low, top)
    ensures InFlight(job, Without(fwd, i), low, top)
  {
    if i < |fwd| {
      var left := Without(fwd, i);
      forall j | 0 <= j < |left|
        ensures left[j].bytes == Frame(job, left[j].number) && low <= left[j].number + 1 && left[j].number <= top
      {
        WithoutAt(fwd, i, j);
      }
      forall j, k | 0 <= j < k < |left| ensures Ordered(left, j, k) {
        WithoutAt(fwd, i, j);
        WithoutAt(fwd, i, k);
        assert Ordered(fwd, if j < i then j else j + 1, if k < i then k else k + 1);
      }
    }
  }

  lemma WithoutAt(fwd: seq<Message>, i: nat, j: nat)
    requires i < |fwd| && j < |fwd| - 1
    ensures Without(fwd, i)[j] == fwd[if j < i then j else j + 1]
  {
  }

  // ---- what the receiver makes of a frame ----

  /** Name and size fit the header, whose digits are followed by a zero. */
  predicate Sendable(job: Job, name: seq<byte>) {
    && GoodJob(job) && GoodName(name) && job.size < 0x8000_0000
    && |name| + 1 + |Decimal(job.size)| < PACKET_SIZE && job.header == HeaderPayload(name, Decimal(job.size))
  }

  /** The padded file lies inside the device. */
  predicate InDevice(job: Job, flash: seq<byte>, dest: nat) {
    job.size == 0 || dest + RoundedUp(job.size) <= |flash|
  }

  /** What the receiver asks of a file: at most one byte more than the region, and room in the device for
      the padded file. The region is not held against more than the announced size. */
  predicate Admitted(job: Job, flash: seq<byte>, dest: nat, max: nat) {
    job.size <= max + 1 && InDevice(job, flash, dest)
  }

  function PayloadOf(job: Job, k: nat): (p: Payload)
    requires GoodJob(job) && (k <= Count(job) || k == Count(job) + 2)
  {
    if k == 0 then job.header else if k <= Count(job) then Blocks(Content(job))[k - 1] else NoFile()
  }

  lemma HearsPacket(job: Job, k: nat, buf: seq<byte>)
    requires GoodJob(job) && |buf| == BUFFER_SIZE && (k <= Count(job) || k == Count(job) + 2)
    ensures var r, f := Receive(Events(Frame(job, k)), buf), Frame(job, k);
      && r.outcome == Packet(|PayloadOf(job, k)|) && |f| <= BUFFER_SIZE && r.buf == f + buf[|f|..]
      && r.buf[1] == (if k <= Count(job) then k % 0x100 else 0)
      && r.buf[PACKET_HEADER..PACKET_HEADER + |PayloadOf(job, k)|] == PayloadOf(job, k)
  {
    var p := PayloadOf(job, k);
    var t := Trailer(job.crcStep, p);
    var no := if k <= Count(job) then k % 0x100 else 0;
    var f := Framed(no, p, t);
    assert Frame(job, k) == f;
    ReceivesFrame(no, p, t, [], buf);
    assert Events(f) + [] == Events(f);
    FrameHolds(no, p, t, buf[|f|..]);
  }

  lemma FrameHolds(no: byte, p: Payload, t: seq<byte>, stale: seq<byte>)
    requires |t| == PACKET_TRAILER
    ensures var buf := Framed(no, p, t) + stale;
      buf[1] == no && buf[PACKET_HEADER..PACKET_HEADER + |p|] == p
  {
    var head := Framed(no, p, t)[..PACKET_HEADER];
    assert Framed(no, p, t) + stale == head + p + (t + stale);
    HeadedBy(head, p, t + stale);
  }

  lemma HeadedBy(head: seq<byte>, p: seq<byte>, rest: seq<byte>)
    ensures (head + p + rest)[|head|..|head| + |p|] == p
  {
  }

  lemma HearsEot(job: Job, k: nat, buf: seq<byte>)
    requires GoodJob(job) && |buf| == BUFFER_SIZE && (k == Count(job) + 1 || k > Count(job) + 2)
    ensures var r := Receive(Events(Frame(job, k)), buf); r.outcome == EndOfTransmission && r.buf == buf
  {
    assert Events(Frame(job, k))[0] == Got(EOT);
  }

  // ---- what the receiver has taken ----

  /** Of the file, what header and blocks before number r bring. */
  function Upto(job: Job, r: nat): (data: seq<byte>)
    requires GoodJob(job) && r <= Count(job) + 1
  {
    Concat(Blocks(Content(job))[..if r > 0 then r - 1 else 0])
  }

  lemma UptoNext(job: Job, r: nat)
    requires GoodJob(job) && 1 <= r <= Count(job)
    ensures Upto(job, r + 1) == Upto(job, r) + PayloadOf(job, r)
    ensures |Upto(job, r + 1)| <= RoundedUp(job.size)
  {
    ConcatNext(Blocks(Content(job)), r);
    ConcatPrefix(Blocks(Content(job)), r);
    BlocksAreTheFile(Content(job));
  }

  lemma ConcatNext(blocks: seq<Payload>, r: nat)
    requires 1 <= r <= |blocks|
    ensures Concat(blocks[..r]) == Concat(blocks[..r - 1]) + blocks[r - 1]
  {
    assert blocks[..r] == blocks[..r - 1] + [blocks[r - 1]];
    ConcatAppend(blocks[..r - 1], blocks[r - 1]);
  }

  lemma UptoEnd(job: Job)
    requires GoodJob(job)
    ensures Upto(job, Count(job) + 1) == Padded(job)
  {
    var blocks := Blocks(Content(job));
    assert blocks[..Count(job)] == blocks;
    BlocksAreTheFile(Content(job));
  }

  /** `data` has been written block behind block. */
  predicate Stored(dest: nat, st: State, data: seq<byte>) {
    Contiguous(st.stores, dest) && Joined(st.stores) == data && st.dest == dest + |data|
  }

  lemma StoreNext(flash: seq<byte>, dest: nat, max: nat, st: State, data: seq<byte>, s: Store, next: State)
    requires Stored(dest, st, data) && st.flash == OnFlash(flash, dest, max, data)
    requires s.addr == st.dest && dest + |data| + |s.data| <= |flash|
    requires next.stores == st.stores + [s] && next.dest == st.dest + |s.data|
    requires next.flash == Programmed(st.flash, st.dest, s.data)
    ensures Stored(dest, next, data + s.data) && next.flash == OnFlash(flash, dest, max, data + s.data)
  {
    ContiguousNext(st.stores, dest, s);
    LaidGrows(Erased(flash, dest, max), dest, data, s.data);
  }

  /** The receiver has taken everything before number r, each block written once and behind the last, and
      flash shows just that. */
  predicate Taken(job: Job, flash: seq<byte>, dest: nat, max: nat, st: State, r: nat)
    requires GoodJob(job)
  {
    && r <= Count(job) + 1 && |st.stores| == (if r > 0 then r - 1 else 0)
    && Stored(dest, st, Upto(job, r)) && (r > 1 ==> st.dest <= |flash|)
    && (r == 0 ==> st.flash == flash) && (r > 0 ==> st.flash == OnFlash(flash, dest, max, Upto(job, r)))
    && (if r > 0 then job.size <= max + 1 && st.size == job.size && st.begun else !st.begun && st.errors == 0)
  }

  lemma HearsHeader(job: Job, name: seq<byte>, buf: seq<byte>)
    requires Sendable(job, name) && |buf| == BUFFER_SIZE
    ensures var got := Receive(Events(Frame(job, 0)), buf);
      && got.outcome.Packet? && got.outcome.length <= PACKET_1K_SIZE && HeaderSize(got.buf) == Some(job.size)
      && got.buf[1] == 0 && got.buf[PACKET_HEADER] != 0
  {
    HearsPacket(job, 0, buf);
    HeaderRoundTrip(name, job.size, Trailer(job.crcStep, job.header), buf[PACKET_SIZE + PACKET_OVERHEAD..]);
    var got := Receive(Events(Frame(job, 0)), buf);
    assert got.buf == Framed(0, job.header, Trailer(job.crcStep, job.header)) + buf[PACKET_SIZE + PACKET_OVERHEAD..];
  }

  /** The header is taken if the size is at most one more than the region, and ends the session otherwise. */
  lemma TakesHeader(job: Job, name: seq<byte>, flash: seq<byte>, dest: nat, max: nat, st: State, buf: seq<byte>)
    requires Sendable(job, name) && Taken(job, flash, dest, max, st, 0) && st.packets == 0 && |buf| == BUFFER_SIZE
    ensures var got := Receive(Events(Frame(job, 0)), buf); var next := Step(max, st, got.outcome, got.buf);
      && got.outcome.Packet?
      && if job.size <= max + 1 then
           Taken(job, flash, dest, max, next, 1) && next.packets == 1
           && next.replies == st.replies + [ACK, CRC16] && next.result == st.result
         else
           Taken(job, flash, dest, max, next, 0) && next.packets == 0
           && next.replies == st.replies + [CA, CA] && next.result == Some(-1)
  {
    HearsHeader(job, name, buf);
    var got := Receive(Events(Frame(job, 0)), buf);
    HeaderTaken(job, flash, dest, max, st, got.buf, got.outcome.length);
  }

  lemma HeaderTaken(job: Job, flash: seq<byte>, dest: nat, max: nat, st: State, buf: seq<byte>, len: nat)
    requires GoodJob(job) && Taken(job, flash, dest, max, st, 0) && st.packets == 0
    requires |buf| == BUFFER_SIZE && len <= PACKET_1K_SIZE
    requires HeaderSize(buf) == Some(job.size) && buf[1] == 0 && buf[PACKET_HEADER] != 0
    ensures var next := Step(max, st, Packet(len), buf);
      if job.size <= max + 1 then
        Taken(job, flash, dest, max, next, 1) && next.packets == 1
        && next.replies == st.replies + [ACK, CRC16] && next.result == st.result
      else
        Taken(job, flash, dest, max, next, 0) && next.packets == 0
        && next.replies == st.replies + [CA, CA] && next.result == Some(-1)
  {
    assert OnFlash(flash, dest, max, []) == Erased(flash, dest, max);
    assert Upto(job, 0) == Upto(job, 1) == [];
    assert Step(max, st, Packet(len), buf) == OnHeader(max, st.(errors := 0), buf);
  }

  /** The expected block is taken if the device has room for it, and ends the session otherwise. */
  lemma TakesBlock(job: Job, flash: seq<byte>, dest: nat, max: nat, st: State, r: nat, buf: seq<byte>)
    requires GoodJob(job) && |buf| == BUFFER_SIZE
    requires 1 <= r <= Count(job) && Taken(job, flash, dest, max, st, r) && st.packets == r
    ensures var got := Receive(Events(Frame(job, r)), buf); var next := Step(max, st, got.outcome, got.buf);
      && got.outcome.Packet?
      && if dest + |Upto(job, r + 1)| <= |flash| then
           Taken(job, flash, dest, max, next, r + 1) && next.packets == r + 1
           && next.replies == st.replies + [ACK] && next.result == st.result
         else
           Taken(job, flash, dest, max, next, r) && next.packets == r
           && next.replies == st.replies + [CA, CA] && next.result == Some(-2)
  {
    HearsPacket(job, r, buf);
    UptoNext(job, r);
    var got := Receive(Events(Frame(job, r)), buf);
    var p, ok := PayloadOf(job, r), st.(errors := 0);
    assert Step(max, st, got.outcome, got.buf) == OnData(ok, got.buf, |p|);
    assert |st.flash| == |flash|;
    if dest + |Upto(job, r + 1)| <= |flash| {
      BlockTaken(job, flash, dest, max, ok, r, Store(st.dest, got.buf[1], p), OnData(ok, got.buf, |p|));
    }
  }

  lemma BlockTaken(job: Job, flash: seq<byte>, dest: nat, max: nat, st: State, r: nat, s: Store, next: State)
    requires GoodJob(job) && 1 <= r <= Count(job) && Taken(job, flash, dest, max, st, r)
    requires s.addr == st.dest && s.data == PayloadOf(job, r) && dest + |Upto(job, r + 1)| <= |flash|
    requires next.stores == st.stores + [s] && next.dest == st.dest + |s.data| && next.size == st.size && next.begun
    requires st.dest + |s.data| <= |st.flash| && next.flash == Programmed(st.flash, st.dest, s.data)
    ensures Taken(job, flash, dest, max, next, r + 1)
  {
    UptoNext(job, r);
    StoreNext(flash, dest, max, st, Upto(job, r), s, next);
  }

  /** The frame before the expected one is refused, though only the low byte of its number is looked at. */
  lemma RefusesRepeat(job: Job, max: nat, st: State, k: nat, buf: seq<byte>)
    requires GoodJob(job) && k <= Count(job) && st.packets == k + 1 && |buf| == BUFFER_SIZE
    ensures var got := Receive(Events(Frame(job, k)), buf);
      got.outcome.Packet? && Step(max, st, got.outcome, got.buf) == st.(errors := 0, replies := st.replies + [NAK])
  {
    HearsPacket(job, k, buf);
    LowBytesDiffer(k);
    Refused(max, st, Receive(Events(Frame(job, k)), buf));
  }

  lemma Refused(max: nat, st: State, got: Reception)
    requires |got.buf| == BUFFER_SIZE && got.outcome.Packet? && got.outcome.length <= PACKET_1K_SIZE
    requires got.buf[1] != st.packets % 0x100
    ensures Step(max, st, got.outcome, got.buf) == st.(errors := 0, replies := st.replies + [NAK])
  {
  }

  lemma LowBytesDiffer(r: nat)
    ensures r % 0x100 != (r + 1) % 0x100
  {
  }

  lemma TakesClosing(job: Job, max: nat, st: State, buf: seq<byte>)
    requires GoodJob(job) && st.packets == 0 && |buf| == BUFFER_SIZE
    ensures var got := Receive(Events(Frame(job, Count(job) + 2)), buf);
      && got.outcome.Packet?
      && Step(max, st, got.outcome, got.buf) == st.(errors := 0, replies := st.replies + [ACK], result := Some(st.size))
  {
    HearsPacket(job, Count(job) + 2, buf);
    var f := Frame(job, Count(job) + 2);
    assert f[PACKET_HEADER] == NoFile()[0] == 0;
  }
}
