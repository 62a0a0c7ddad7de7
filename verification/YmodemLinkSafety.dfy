/** What holds in every state a transfer can reach, whatever is lost or delayed. */
module YmodemLinkSafety {
  import opened Flash
  import opened StringUtils
  import opened YmodemPacket
  import opened YmodemReceiver
  import opened YmodemSender
  import opened YmodemTransfers
  import opened YmodemSessions
  import opened YmodemLink

  /** The number the receiver waits for. */
  function Expected(job: Job, l: Link): (k: nat)
    requires GoodJob(job)
  {
    if l.ended then Count(job) + 2 else l.st.packets
  }

  /** The number the sender is at, counting a header just acknowledged. */
  function Position(l: Link): (k: nat) {
    l.top + if l.s.phase == Handshake then 1 else 0
  }

  /** Up to the first EOT the sender is where the receiver is or one behind, and short of it by at least
      the ACKs under way; frames in flight carry the number expected or the one before. */
  predicate Synced(job: Job, l: Link) {
    && InStep(job, l.s) && |l.buf| == BUFFER_SIZE
    && (if l.s.phase != Ended then l.top == Number(job, l.s) else l.s.errors == RETRIES || (l.s.errors == 0 && l.ended))
    && InFlight(job, l.fwd, Expected(job, l), l.top)
    && Expected(job, l) <= l.top + 1
    && (if l.ended then l.st.packets == 0 else Position(l) + Acks(l.bwd) <= l.st.packets <= Count(job) + 1)
  }

  /** What the receiver has taken, and why it has returned if it has. */
  predicate Kept(job: Job, flash: seq<byte>, dest: nat, max: nat, l: Link)
    requires GoodJob(job)
  {
    && (l.ended || l.st.packets <= Count(job) + 1)
    && Taken(job, flash, dest, max, l.st, if l.ended then Count(job) + 1 else l.st.packets)
    && (l.st.result.Some? ==> GoodResult(job, flash, dest, max, l))
  }

  /** 0 after too many errors, the size after the closing header, -1 for a file that is too long for the
      region by more than one byte, -2 for one that runs over the device. */
  predicate GoodResult(job: Job, flash: seq<byte>, dest: nat, max: nat, l: Link)
    requires l.st.result.Some?
  {
    || l.st.result == Some(0)
    || (l.ended && l.st.result == Some(job.size))
    || (!l.ended && l.st.packets <= l.top && l.st.result == Some(-1) && job.size > max + 1)
    || (!l.ended && l.st.packets <= l.top && l.st.result == Some(-2) && !InDevice(job, flash, dest))
  }

  // ---- the sender's moves ----

  lemma SenderKeepsSync(job: Job, l: Link, e: Event)
    requires Synced(job, l) && l.s.phase != Ended
    requires e == Got(ACK) && !l.ended ==> Position(l) + 1 + Acks(l.bwd) <= l.st.packets
    ensures Synced(job, SenderTurn(job, l, e)) && Untouched(l, SenderTurn(job, l, e))
  {
    var next := OnReply(job, l.s, e);
    if l.s.phase == Handshake {
      FileStartInStep(job);
    } else {
      RepliesMoveOn(job, l.s, e);
    }
    if next.phase != Ended && next.phase != Handshake {
      SendsItsFrame(job, next);
      Departs(job, l.fwd, Expected(job, l), l.top, Number(job, next));
    }
  }

  /** The receiver is as it was, and the sender has not gone back. */
  predicate Untouched(l: Link, next: Link) {
    next.st == l.st && next.ended == l.ended && next.top >= l.top
  }

  lemma UntouchedKeeps(job: Job, flash: seq<byte>, dest: nat, max: nat, l: Link, next: Link)
    requires GoodJob(job) && Kept(job, flash, dest, max, l) && Untouched(l, next)
    ensures Kept(job, flash, dest, max, next)
  {
  }

  lemma ReplyKeepsSync(job: Job, max: nat, l: Link)
    requires Synced(job, l)
    ensures var next := Next(job, max, l, ReplyArrives); Synced(job, next) && Untouched(l, next)
  {
    if l.bwd != [] && l.s.phase != Ended {
      SenderKeepsSync(job, l.(bwd := l.bwd[1..]), Got(l.bwd[0]));
    }
  }

  lemma SilenceKeepsSync(job: Job, max: nat, l: Link)
    requires Synced(job, l)
    ensures var next := Next(job, max, l, SenderTimesOut); Synced(job, next) && Untouched(l, next)
  {
    if l.s.phase != Ended { SenderKeepsSync(job, l, Silence); }
  }

  lemma LossKeepsSync(job: Job, max: nat, l: Link, i: nat)
    requires Synced(job, l)
    ensures var next := Next(job, max, l, PacketLost(i)); Synced(job, next) && Untouched(l, next)
    ensures var next := Next(job, max, l, ReplyLost(i)); Synced(job, next) && Untouched(l, next)
  {
    IsLost(job, l.fwd, Expected(job, l), l.top, i);
    AcksWithout(l.bwd, i);
  }

  // ---- the receiver's moves ----

  /** A turn of the receiver that answers `said`, in a state whose channel already fits the new count. */
  lemma Answered(job: Job, max: nat, l: Link, o: Outcome, buf: seq<byte>, said: seq<byte>)
    requires GoodJob(job) && |buf| == BUFFER_SIZE && (o.Packet? ==> o.length <= PACKET_1K_SIZE)
    requires InStep(job, l.s) && (if l.s.phase != Ended then l.top == Number(job, l.s) else l.s.errors == RETRIES)
    requires !l.ended && !o.EndOfTransmission? && Step(max, l.st, o, buf).replies == l.st.replies + said
    requires var packets := Step(max, l.st, o, buf).packets;
      && InFlight(job, l.fwd, packets, l.top) && packets <= l.top + 1
      && Position(l) + Acks(l.bwd) + Acks(said) <= packets <= Count(job) + 1
    ensures Synced(job, ReceiverTurn(max, l, o, buf))
  {
    AcksAppend(l.bwd, said);
    AnswerIs(l.st.replies, said);
  }

  lemma AcksOf()
    ensures Acks([CRC16]) == Acks([NAK]) == Acks([CA, CA]) == 0
    ensures Acks([ACK]) == Acks([ACK, CRC16]) == 1
  {
    assert [CA, CA][1..] == [CA] && [ACK, CRC16][1..] == [CRC16];
    assert Acks([CA]) == 0 && Acks([CRC16]) == 0;
  }

  lemma TimeoutKeeps(job: Job, flash: seq<byte>, dest: nat, max: nat, l: Link)
    requires Synced(job, l) && Kept(job, flash, dest, max, l)
    ensures var next := Next(job, max, l, ReceiverTimesOut); Synced(job, next) && Kept(job, flash, dest, max, next)
  {
    if l.st.result.None? && !l.ended {
      AcksOf();
      Answered(job, max, l, Failed, l.buf, if Step(max, l.st, Failed, l.buf).result.Some? then [CA, CA] else [CRC16]);
    }
  }

  /** Before the first EOT, with a frame at the front. */
  predicate Awaiting(job: Job, flash: seq<byte>, dest: nat, max: nat, l: Link) {
    && Synced(job, l) && Kept(job, flash, dest, max, l)
    && !l.ended && l.fwd != [] && l.st.result.None?
  }

  lemma RepeatArrives(job: Job, flash: seq<byte>, dest: nat, max: nat, l: Link)
    requires Awaiting(job, flash, dest, max, l) && l.fwd[0].number + 1 == l.st.packets
    ensures var next := Next(job, max, l, PacketArrives); Synced(job, next) && Kept(job, flash, dest, max, next)
  {
    var k := l.fwd[0].number;
    RefusesRepeat(job, max, l.st, k, l.buf);
    Arrives(job, l.fwd, l.st.packets, l.top);
    RefusalKeeps(job, flash, dest, max, l, Receive(Events(Frame(job, k)), l.buf));
  }

  lemma RefusalKeeps(job: Job, flash: seq<byte>, dest: nat, max: nat, l: Link, got: Reception)
    requires Awaiting(job, flash, dest, max, l) && InFlight(job, l.fwd[1..], l.st.packets, l.top)
    requires |got.buf| == BUFFER_SIZE && got.outcome.Packet? && got.outcome.length <= PACKET_1K_SIZE
    requires Step(max, l.st, got.outcome, got.buf) == l.st.(errors := 0, replies := l.st.replies + [NAK])
    ensures var next := ReceiverTurn(max, l.(fwd := l.fwd[1..]), got.outcome, got.buf);
      Synced(job, next) && Kept(job, flash, dest, max, next)
  {
    AcksOf();
    Answered(job, max, l.(fwd := l.fwd[1..]), got.outcome, got.buf, [NAK]);
  }

  lemma HeaderArrives(job: Job, name: seq<byte>, flash: seq<byte>, dest: nat, max: nat, l: Link)
    requires Sendable(job, name) && Awaiting(job, flash, dest, max, l)
    requires l.fwd[0].number == l.st.packets == 0
    ensures var next := Next(job, max, l, PacketArrives); Synced(job, next) && Kept(job, flash, dest, max, next)
  {
    var got := Receive(Events(Frame(job, 0)), l.buf);
    TakesHeader(job, name, flash, dest, max, l.st, l.buf);
    Arrives(job, l.fwd, 0, l.top);
    AcksOf();
    var said := if job.size <= max + 1 then [ACK, CRC16] else [CA, CA];
    Answered(job, max, l.(fwd := l.fwd[1..]), got.outcome, got.buf, said);
  }

  lemma BlockArrives(job: Job, flash: seq<byte>, dest: nat, max: nat, l: Link)
    requires Awaiting(job, flash, dest, max, l)
    requires 1 <= l.fwd[0].number == l.st.packets <= Count(job)
    ensures var next := Next(job, max, l, PacketArrives); Synced(job, next) && Kept(job, flash, dest, max, next)
  {
    var r := l.st.packets;
    var got := Receive(Events(Frame(job, r)), l.buf);
    TakesBlock(job, flash, dest, max, l.st, r, l.buf);
    UptoNext(job, r);
    Arrives(job, l.fwd, r, l.top);
    AcksOf();
    var said := if dest + |Upto(job, r + 1)| <= |flash| then [ACK] else [CA, CA];
    Answered(job, max, l.(fwd := l.fwd[1..]), got.outcome, got.buf, said);
  }

  lemma EotArrives(job: Job, flash: seq<byte>, dest: nat, max: nat, l: Link)
    requires Awaiting(job, flash, dest, max, l) && l.fwd[0].number == l.st.packets == Count(job) + 1
    ensures var next := Next(job, max, l, PacketArrives); Synced(job, next) && Kept(job, flash, dest, max, next)
  {
    HearsEot(job, Count(job) + 1, l.buf);
    Arrives(job, l.fwd, l.st.packets, l.top);
  }

  lemma ArrivalBeforeEot(job: Job, name: seq<byte>, flash: seq<byte>, dest: nat, max: nat, l: Link)
    requires Sendable(job, name) && Awaiting(job, flash, dest, max, l)
    ensures var next := Next(job, max, l, PacketArrives); Synced(job, next) && Kept(job, flash, dest, max, next)
  {
    if l.fwd[0].number + 1 == l.st.packets {
      RepeatArrives(job, flash, dest, max, l);
    } else if l.st.packets == 0 {
      HeaderArrives(job, name, flash, dest, max, l);
    } else if l.st.packets <= Count(job) {
      BlockArrives(job, flash, dest, max, l);
    } else {
      EotArrives(job, flash, dest, max, l);
    }
  }

  lemma ArrivalAfterEot(job: Job, flash: seq<byte>, dest: nat, max: nat, l: Link)
    requires Synced(job, l) && Kept(job, flash, dest, max, l)
    requires l.ended && l.fwd != [] && l.st.result.None?
    ensures var next := Next(job, max, l, PacketArrives); Synced(job, next) && Kept(job, flash, dest, max, next)
  {
    var k := l.fwd[0].number;
    Arrives(job, l.fwd, Expected(job, l), l.top);
    if k == Count(job) + 2 {
      TakesClosing(job, max, l.st, l.buf);
    } else {
      HearsEot(job, k, l.buf);
    }
  }

  // ---- every run ----

  lemma PacketKeeps(job: Job, name: seq<byte>, flash: seq<byte>, dest: nat, max: nat, l: Link)
    requires Sendable(job, name) && Synced(job, l) && Kept(job, flash, dest, max, l)
    ensures var next := Next(job, max, l, PacketArrives); Synced(job, next) && Kept(job, flash, dest, max, next)
  {
    if l.fwd != [] && l.st.result.None? {
      if l.ended {
        ArrivalAfterEot(job, flash, dest, max, l);
      } else {
        ArrivalBeforeEot(job, name, flash, dest, max, l);
      }
    }
  }

  lemma SenderMoveKeeps(job: Job, max: nat, l: Link, m: Move)
    requires Synced(job, l) && !m.PacketArrives? && !m.ReceiverTimesOut?
    ensures var next := Next(job, max, l, m); Synced(job, next) && Untouched(l, next)
  {
    match m
    case ReplyArrives => ReplyKeepsSync(job, max, l);
    case SenderTimesOut => SilenceKeepsSync(job, max, l);
    case PacketLost(i) => LossKeepsSync(job, max, l, i);
    case ReplyLost(i) => LossKeepsSync(job, max, l, i);
  }

  lemma MoveKeeps(job: Job, name: seq<byte>, flash: seq<byte>, dest: nat, max: nat, l: Link, m: Move)
    requires Sendable(job, name) && Synced(job, l) && Kept(job, flash, dest, max, l)
    ensures var next := Next(job, max, l, m); Synced(job, next) && Kept(job, flash, dest, max, next)
  {
    if m.PacketArrives? {
      PacketKeeps(job, name, flash, dest, max, l);
    } else if m.ReceiverTimesOut? {
      TimeoutKeeps(job, flash, dest, max, l);
    } else {
      SenderMoveKeeps(job, max, l, m);
      UntouchedKeeps(job, flash, dest, max, l, Next(job, max, l, m));
    }
  }

  lemma {:induction false} PlayKeeps(job: Job, name: seq<byte>, flash: seq<byte>, dest: nat, max: nat, l: Link,
          ms: seq<Move>)
    requires Sendable(job, name) && Synced(job, l) && Kept(job, flash, dest, max, l)
    ensures var end := Play(job, max, l, ms); Synced(job, end) && Kept(job, flash, dest, max, end)
    decreases |ms|
  {
    if ms != [] {
      MoveKeeps(job, name, flash, dest, max, l, ms[0]);
      PlayKeeps(job, name, flash, dest, max, Next(job, max, l, ms[0]), ms[1..]);
    }
  }

  lemma BeginsKept(job: Job, flash: seq<byte>, dest: nat, max: nat, buf: seq<byte>)
    requires GoodJob(job) && |buf| == BUFFER_SIZE
    ensures var l := Begin(job, flash, dest, buf); Synced(job, l) && Kept(job, flash, dest, max, l)
  {
    assert Upto(job, 0) == [];
    SendsItsFrame(job, Start());
  }

  /** The receiver's device holds the file and its padding from `dest` on, written in blocks that lie end
      to end, over the region erased for it. */
  predicate Delivered(job: Job, flash: seq<byte>, dest: nat, max: nat, st: State)
    requires GoodJob(job)
  {
    && st.flash == OnFlash(flash, dest, max, Padded(job))
    && |st.stores| == Count(job) && Contiguous(st.stores, dest) && Joined(st.stores) == Padded(job)
  }

  /** Every run from the start, for every file, with any losses and delays. Up to the first EOT the sender's
      index and the receiver's count differ by at most one, and flash holds exactly the blocks before the
      count, each written once. If the receiver reports the size, or the sender success, the file is in
      flash; an EOT gets through only for a file that is admitted. */
  lemma SafeUnderLoss(job: Job, name: seq<byte>, flash: seq<byte>, dest: nat, max: nat, buf: seq<byte>, ms: seq<Move>)
    requires Sendable(job, name) && |buf| == BUFFER_SIZE
    ensures var l := Play(job, max, Begin(job, flash, dest, buf), ms); var r := l.st.packets;
      && (!l.ended ==> l.top <= r <= l.top + 1 && r <= Count(job) + 1)
      && (!l.ended && r > 0 ==> var written := Concat(Blocks(Content(job))[..r - 1]);
            && |l.st.stores| == r - 1 && Contiguous(l.st.stores, dest) && Joined(l.st.stores) == written
            && l.st.flash == OnFlash(flash, dest, max, written))
      && (!l.ended && r == 0 ==> l.st.flash == flash && l.st.stores == [])
      && (l.ended ==> Delivered(job, flash, dest, max, l.st) && Admitted(job, flash, dest, max))
    ensures var l := Play(job, max, Begin(job, flash, dest, buf), ms);
      && (l.st.result.Some? ==> GoodResult(job, flash, dest, max, l))
      && (l.s.phase == Ended && l.s.errors == 0 ==> l.ended)
  {
    BeginsKept(job, flash, dest, max, buf);
    PlayKeeps(job, name, flash, dest, max, Begin(job, flash, dest, buf), ms);
    var l := Play(job, max, Begin(job, flash, dest, buf), ms);
    if l.ended { SafeBehindEot(job, flash, dest, max, l); } else { SafeBeforeEot(job, flash, dest, max, l); }
  }

  lemma SafeBeforeEot(job: Job, flash: seq<byte>, dest: nat, max: nat, l: Link)
    requires Synced(job, l) && Kept(job, flash, dest, max, l) && !l.ended
    ensures l.top <= l.st.packets <= l.top + 1 && l.st.packets <= Count(job) + 1
    ensures l.st.packets > 0 ==> var written := Concat(Blocks(Content(job))[..l.st.packets - 1]);
      && |l.st.stores| == l.st.packets - 1 && Contiguous(l.st.stores, dest) && Joined(l.st.stores) == written
      && l.st.flash == OnFlash(flash, dest, max, written)
    ensures l.st.packets == 0 ==> l.st.flash == flash && l.st.stores == []
    ensures !(l.s.phase == Ended && l.s.errors == 0)
  {
  }

  lemma SafeBehindEot(job: Job, flash: seq<byte>, dest: nat, max: nat, l: Link)
    requires GoodJob(job) && Kept(job, flash, dest, max, l) && l.ended
    ensures Delivered(job, flash, dest, max, l.st) && Admitted(job, flash, dest, max)
  {
    UptoEnd(job);
    EmptyFile(job);
  }

  lemma EmptyFile(job: Job)
    requires GoodJob(job)
    ensures Count(job) == 0 <==> job.size == 0
  {
    assert job.size > 0 ==> Content(job) != [];
  }

  // ---- runs in which nothing is lost and nothing times out ----

  predicate Calm(ms: seq<Move>) {
    forall i :: 0 <= i < |ms| ==> ms[i] == PacketArrives || ms[i] == ReplyArrives
  }

  /** One frame under way, or the answer to one; the retries so far do not show. */
  predicate Undisturbed(job: Job, l: Link)
    requires GoodJob(job)
  {
    if l.st.result.Some? then l.ended && l.st.result == Some(job.size)
    else
      && l.s.phase != Ended && |l.fwd| <= 1
      && (if l.fwd != [] then l.bwd == [] && l.s.phase != Handshake && l.fwd[0].number == l.top == Expected(job, l)
          else Expected(job, l) == l.top + 1
               && l.bwd == AnswerTo(l.s.phase))
  }

  function AnswerTo(phase: Phase): (replies: seq<byte>) {
    if phase == Header then [ACK, CRC16] else if phase == Handshake then [CRC16] else [ACK]
  }

  /** What is still to arrive before the receiver returns. */
  function Distance(job: Job, l: Link): (n: int)
    requires GoodJob(job)
  {
    if l.st.result.Some? then 0
    else 4 * (Count(job) + 3 - l.top) + if l.fwd != [] then 3 else if l.s.phase == Handshake then 1 else 2
  }

  lemma FrameUndisturbed(job: Job, name: seq<byte>, flash: seq<byte>, dest: nat, max: nat, l: Link)
    requires Sendable(job, name) && Admitted(job, flash, dest, max) && Synced(job, l) && Kept(job, flash, dest, max, l)
    requires Undisturbed(job, l) && l.st.result.None? && l.fwd != []
    ensures Nearer(job, l, Next(job, max, l, PacketArrives))
  {
    if l.ended {
      TakesClosing(job, max, l.st, l.buf);
    } else if l.top == 0 {
      HeaderUndisturbed(job, name, flash, dest, max, l);
    } else if l.top <= Count(job) {
      BlockUndisturbed(job, flash, dest, max, l);
    } else {
      HearsEot(job, l.top, l.buf);
      AnswerUndisturbed(job, max, l, EndOfTransmission, l.buf, [ACK]);
    }
  }

  lemma HeaderUndisturbed(job: Job, name: seq<byte>, flash: seq<byte>, dest: nat, max: nat, l: Link)
    requires Sendable(job, name) && Admitted(job, flash, dest, max) && Synced(job, l) && Kept(job, flash, dest, max, l)
    requires Undisturbed(job, l) && l.st.result.None? && l.fwd != [] && !l.ended && l.top == 0
    ensures Nearer(job, l, Next(job, max, l, PacketArrives))
  {
    var got := Receive(Events(Frame(job, 0)), l.buf);
    TakesHeader(job, name, flash, dest, max, l.st, l.buf);
    AnswerUndisturbed(job, max, l, got.outcome, got.buf, [ACK, CRC16]);
  }

  lemma BlockUndisturbed(job: Job, flash: seq<byte>, dest: nat, max: nat, l: Link)
    requires GoodJob(job) && Admitted(job, flash, dest, max) && Synced(job, l) && Kept(job, flash, dest, max, l)
    requires Undisturbed(job, l) && l.st.result.None? && l.fwd != [] && !l.ended && 0 < l.top <= Count(job)
    ensures Nearer(job, l, Next(job, max, l, PacketArrives))
  {
    var got := Receive(Events(Frame(job, l.top)), l.buf);
    EmptyFile(job);
    UptoNext(job, l.top);
    TakesBlock(job, flash, dest, max, l.st, l.top, l.buf);
    AnswerUndisturbed(job, max, l, got.outcome, got.buf, [ACK]);
  }

  /** One arrival further on an undisturbed way. */
  predicate Nearer(job: Job, l: Link, next: Link)
    requires GoodJob(job)
  {
    Undisturbed(job, next) && Distance(job, next) < Distance(job, l)
  }

  /** The frame at the front has been taken, and its ACK is on the way. */
  lemma AnswerUndisturbed(job: Job, max: nat, l: Link, o: Outcome, buf: seq<byte>, said: seq<byte>)
    requires Synced(job, l) && Undisturbed(job, l) && l.st.result.None? && l.fwd != [] && !l.ended
    requires |buf| == BUFFER_SIZE && (o.Packet? ==> o.length <= PACKET_1K_SIZE) && said == AnswerTo(l.s.phase)
    requires var st := Step(max, l.st, o, buf);
      && st.replies == l.st.replies + said && st.result.None?
      && (if o.EndOfTransmission? then l.top == Count(job) + 1 else st.packets == l.top + 1)
    ensures Nearer(job, l, ReceiverTurn(max, l.(fwd := l.fwd[1..]), o, buf))
  {
    AnswerIs(l.st.replies, said);
  }

  lemma ReplyUndisturbed(job: Job, max: nat, l: Link)
    requires Synced(job, l) && Undisturbed(job, l) && l.st.result.None? && l.fwd == []
    ensures Nearer(job, l, Next(job, max, l, ReplyArrives))
  {
    if l.s.phase == Handshake {
      FileStartInStep(job);
    } else {
      RepliesMoveOn(job, l.s, Got(ACK));
    }
  }

  /** The one arrival that changes anything in an undisturbed run. */
  function Due(l: Link): (m: Move) {
    if l.fwd == [] then ReplyArrives else PacketArrives
  }

  lemma GoesOn(job: Job, name: seq<byte>, flash: seq<byte>, dest: nat, max: nat, l: Link)
    requires Sendable(job, name) && Admitted(job, flash, dest, max) && Synced(job, l) && Kept(job, flash, dest, max, l)
    requires Undisturbed(job, l) && l.st.result.None?
    ensures var next := Next(job, max, l, Due(l));
      Synced(job, next) && Kept(job, flash, dest, max, next) && Nearer(job, l, next)
  {
    MoveKeeps(job, name, flash, dest, max, l, Due(l));
    if l.fwd == [] { ReplyUndisturbed(job, max, l); } else { FrameUndisturbed(job, name, flash, dest, max, l); }
  }

  lemma {:induction false} PlayAppend(job: Job, max: nat, l: Link, ms: seq<Move>, more: seq<Move>)
    requires Sound(job, l)
    ensures Play(job, max, l, ms + more) == Play(job, max, Play(job, max, l, ms), more)
    decreases |ms|
  {
    if ms == [] {
      assert ms + more == more;
    } else {
      assert (ms + more)[1..] == ms[1..] + more;
      PlayAppend(job, max, Next(job, max, l, ms[0]), ms[1..], more);
    }
  }

  lemma {:induction false} CalmUndisturbed(job: Job, name: seq<byte>, flash: seq<byte>, dest: nat, max: nat,
          l: Link, ms: seq<Move>)
    requires Sendable(job, name) && Admitted(job, flash, dest, max) && Synced(job, l) && Kept(job, flash, dest, max, l)
    requires Undisturbed(job, l) && Calm(ms)
    ensures Undisturbed(job, Play(job, max, l, ms))
    decreases |ms|
  {
    if ms != [] {
      MoveKeeps(job, name, flash, dest, max, l, ms[0]);
      CalmMove(job, name, flash, dest, max, l, ms[0]);
      assert Calm(ms[1..]);
      CalmUndisturbed(job, name, flash, dest, max, Next(job, max, l, ms[0]), ms[1..]);
    }
  }

  lemma CalmMove(job: Job, name: seq<byte>, flash: seq<byte>, dest: nat, max: nat, l: Link, m: Move)
    requires Sendable(job, name) && Admitted(job, flash, dest, max)
    requires Synced(job, l) && Kept(job, flash, dest, max, l) && Undisturbed(job, l)
    requires m == PacketArrives || m == ReplyArrives
    ensures Undisturbed(job, Next(job, max, l, m))
  {
    if l.st.result.Some? {
      if m == ReplyArrives { ReplyKeepsSync(job, max, l); }
    } else if m == Due(l) {
      GoesOn(job, name, flash, dest, max, l);
    } else {
      assert Next(job, max, l, m) == l;
    }
  }

  lemma {:induction false} CalmFinishes(job: Job, name: seq<byte>, flash: seq<byte>, dest: nat, max: nat, l: Link)
    returns (ms: seq<Move>)
    requires Sendable(job, name) && Admitted(job, flash, dest, max) && Synced(job, l)
    requires Kept(job, flash, dest, max, l) && Undisturbed(job, l)
    ensures Calm(ms) && Play(job, max, l, ms).st.result == Some(job.size)
    decreases Distance(job, l)
  {
    ms := [];
    if l.st.result.None? {
      GoesOn(job, name, flash, dest, max, l);
      var more := CalmFinishes(job, name, flash, dest, max, Next(job, max, l, Due(l)));
      ms := [Due(l)] + more;
      assert ms[1..] == more;
    }
  }

  /** Nothing lost, nothing timed out, and the receiver reports the size. */
  predicate Finishes(job: Job, max: nat, l: Link, ms: seq<Move>)
    requires Sound(job, l)
  {
    Calm(ms) && Play(job, max, l, ms).st.result == Some(job.size)
  }

  /** Every run in which nothing is lost and nothing times out, for every file: the receiver reports the
      size and nothing else, with the padded file in flash, and until it does the run can go on to that. */
  lemma LossFreeDelivers(job: Job, name: seq<byte>, flash: seq<byte>, dest: nat, max: nat, buf: seq<byte>,
          ms: seq<Move>)
    requires Sendable(job, name) && Admitted(job, flash, dest, max) && |buf| == BUFFER_SIZE && Calm(ms)
    ensures var l := Play(job, max, Begin(job, flash, dest, buf), ms);
      l.st.result.Some? ==> l.st.result == Some(job.size) && Delivered(job, flash, dest, max, l.st)
    ensures exists more :: Finishes(job, max, Begin(job, flash, dest, buf), ms + more)
  {
    var first := Begin(job, flash, dest, buf);
    BeginsKept(job, flash, dest, max, buf);
    PlayKeeps(job, name, flash, dest, max, first, ms);
    CalmUndisturbed(job, name, flash, dest, max, first, ms);
    SafeUnderLoss(job, name, flash, dest, max, buf, ms);
    var more := CalmFinishes(job, name, flash, dest, max, Play(job, max, first, ms));
    PlayAppend(job, max, first, ms, more);
    assert Finishes(job, max, first, ms + more);
  }

  // ---- what a lost ACK does ----

  /** The receiver is ahead of the sender, and no ACK under way will tell. */
  predicate Stranded(l: Link) {
    !l.ended && Position(l) + Acks(l.bwd) < l.st.packets
  }

  lemma LostAckStrands(job: Job, max: nat, l: Link, i: nat)
    requires Synced(job, l) && !l.ended && i < |l.bwd| && l.bwd[i] == ACK
    ensures Stranded(Next(job, max, l, ReplyLost(i)))
  {
    assert l.bwd == l.bwd[..i] + ([ACK] + l.bwd[i + 1..]);
    AcksAppend(l.bwd[..i], [ACK] + l.bwd[i + 1..]);
    AcksAppend([ACK], l.bwd[i + 1..]);
    AcksAppend(l.bwd[..i], l.bwd[i + 1..]);
    AcksOf();
  }

  /** A turn of the receiver without ACK, and without a change to what it has taken. */
  lemma StrandedAnswer(max: nat, l: Link, o: Outcome, buf: seq<byte>, said: seq<byte>)
    requires |buf| == BUFFER_SIZE && (o.Packet? ==> o.length <= PACKET_1K_SIZE) && !o.EndOfTransmission?
    requires Stranded(l) && Acks(said) == 0
    requires var st := Step(max, l.st, o, buf); st.replies == l.st.replies + said && st.packets == l.st.packets
    ensures Stranded(ReceiverTurn(max, l, o, buf))
  {
    AnswerIs(l.st.replies, said);
    AcksAppend(l.bwd, said);
  }

  lemma StrandedRefusal(max: nat, l: Link, got: Reception)
    requires Stranded(l) && l.fwd != []
    requires |got.buf| == BUFFER_SIZE && got.outcome.Packet? && got.outcome.length <= PACKET_1K_SIZE
    requires Step(max, l.st, got.outcome, got.buf) == l.st.(errors := 0, replies := l.st.replies + [NAK])
    ensures var next := ReceiverTurn(max, l.(fwd := l.fwd[1..]), got.outcome, got.buf);
      Stranded(next) && next.st.flash == l.st.flash
  {
    AcksOf();
    StrandedAnswer(max, l.(fwd := l.fwd[1..]), got.outcome, got.buf, [NAK]);
  }

  lemma StrandedPacket(job: Job, max: nat, l: Link)
    requires Synced(job, l) && Stranded(l) && l.fwd != [] && l.st.result.None?
    ensures var next := Next(job, max, l, PacketArrives); Stranded(next) && next.st.flash == l.st.flash
  {
    var k := l.fwd[0].number;
    RefusesRepeat(job, max, l.st, k, l.buf);
    StrandedRefusal(max, l, Receive(Events(Frame(job, k)), l.buf));
  }

  lemma StrandedTimeout(max: nat, l: Link)
    requires Stranded(l) && l.st.result.None? && |l.buf| == BUFFER_SIZE
    ensures var next := ReceiverTurn(max, l, Failed, l.buf); Stranded(next) && next.st.flash == l.st.flash
  {
    AcksOf();
    StrandedAnswer(max, l, Failed, l.buf, if Step(max, l.st, Failed, l.buf).result.Some? then [CA, CA] else [CRC16]);
  }

  lemma StaysStranded(job: Job, max: nat, l: Link, m: Move)
    requires Synced(job, l) && Stranded(l)
    ensures var next := Next(job, max, l, m); Stranded(next) && next.st.flash == l.st.flash
  {
    match m
    case PacketArrives => if l.fwd != [] && l.st.result.None? { StrandedPacket(job, max, l); }
    case ReplyArrives =>
      if l.bwd != [] && l.s.phase != Ended { StrandedSender(job, l.(bwd := l.bwd[1..]), Got(l.bwd[0])); }
    case ReceiverTimesOut => if l.st.result.None? { StrandedTimeout(max, l); }
    case SenderTimesOut => if l.s.phase != Ended { StrandedSender(job, l, Silence); }
    case PacketLost(i) =>
    case ReplyLost(i) => AcksWithout(l.bwd, i);
  }

  lemma StrandedSender(job: Job, l: Link, e: Event)
    requires Synced(job, l) && Stranded(l) && l.s.phase != Ended && e != Got(ACK)
    ensures Stranded(SenderTurn(job, l, e))
  {
    RepliesMoveOn(job, l.s, e);
  }

  /** A packet that is lost is sent again, but an ACK that is lost before the first EOT is never made up
      for: the repeated block is answered with NAK. From then on, in every run, no further block is
      written, the receiver never sees EOT and never reports the size, and the sender never succeeds. */
  lemma {:induction false} LostAckNeverRecovers(job: Job, name: seq<byte>, flash: seq<byte>, dest: nat,
          max: nat, l: Link, ms: seq<Move>)
    requires Sendable(job, name) && Synced(job, l) && Kept(job, flash, dest, max, l) && Stranded(l)
    ensures var end := Play(job, max, l, ms);
      && Stranded(end) && end.st.flash == l.st.flash && (end.st.result.None? || end.st.result == Some(0))
      && !(end.s.phase == Ended && end.s.errors == 0)
    decreases |ms|
  {
    if ms != [] {
      MoveKeeps(job, name, flash, dest, max, l, ms[0]);
      StaysStranded(job, max, l, ms[0]);
      LostAckNeverRecovers(job, name, flash, dest, max, Next(job, max, l, ms[0]), ms[1..]);
    }
  }

  /** So a transfer succeeds only if no ACK is lost before the first EOT. */
  lemma DeliveryNeedsEveryAck(job: Job, name: seq<byte>, flash: seq<byte>, dest: nat, max: nat, buf: seq<byte>,
                              ms: seq<Move>, i: nat, more: seq<Move>)
    requires Sendable(job, name) && |buf| == BUFFER_SIZE
    requires var l := Play(job, max, Begin(job, flash, dest, buf), ms); !l.ended && i < |l.bwd| && l.bwd[i] == ACK
    ensures var l := Play(job, max, Begin(job, flash, dest, buf), ms);
      var end := Play(job, max, Next(job, max, l, ReplyLost(i)), more);
      && end.st.flash == l.st.flash && (end.st.result.None? || end.st.result == Some(0))
      && !(end.s.phase == Ended && end.s.errors == 0)
  {
    BeginsKept(job, flash, dest, max, buf);
    PlayKeeps(job, name, flash, dest, max, Begin(job, flash, dest, buf), ms);
    var l := Play(job, max, Begin(job, flash, dest, buf), ms);
    LossKeepsSync(job, max, l, i);
    LostAckStrands(job, max, l, i);
    LostAckNeverRecovers(job, name, flash, dest, max, Next(job, max, l, ReplyLost(i)), more);
  }
}
