/** The end of a transfer, once an EOT has arrived: the file is in flash, but the receiver reports its size only
    when the closing header arrives as well. */
module YmodemClosing {
  import opened Flash
  import opened StringUtils
  import opened YmodemPacket
  import opened YmodemReceiver
  import opened YmodemSender
  import opened YmodemTransfers
  import opened YmodemLink
  import opened YmodemLinkSafety
  import opened YmodemRecovery

  /** The receiver has heard an EOT and goes on. */
  predicate AfterEot(c: Setting, l: Link) {
    Reached(c, l) && l.ended && l.st.result.None?
  }

  predicate ClosingInFlight(job: Job, l: Link)
    requires GoodJob(job)
  {
    exists i :: 0 <= i < |l.fwd| && l.fwd[i].number == Count(job) + 2
  }

  predicate AskedAgain(l: Link) {
    exists k :: 0 <= k < |l.bwd| && l.bwd[k] != ACK
  }

  /** The closing header is in flight; or the sender waits for the ACK of its EOT and can have one; or it
      offers the closing header and has a reason to repeat it: a timeout left, or a byte other than ACK,
      which the receiver sends as long as its own budget of errors lasts. Each EOT in flight renews that. */
  predicate Reportable(job: Job, l: Link)
    requires GoodJob(job)
  {
    || ClosingInFlight(job, l)
    || (l.s.phase == Phase.Eot && (l.fwd != [] || ACK in l.bwd || l.s.errors + 1 < RETRIES))
    || (l.s.phase == Phase.Closing
        && (l.fwd != [] || AskedAgain(l) || l.s.errors + 1 < RETRIES || l.st.errors < MAX_ERRORS))
  }

  // ---- from a reportable state to the report ----

  /** One move on the way. */
  lemma MoveOn(c: Setting, l: Link, m: Move, rest: seq<Move>)
    requires Reached(c, l) && Delivers(c.job, c.max, Next(c.job, c.max, l, m), rest)
    ensures Delivers(c.job, c.max, l, [m] + rest)
  {
    PlayOne(c.job, c.max, l, m);
    YmodemRecovery.Continues(c, l, [m], rest);
  }

  lemma NextReached(c: Setting, l: Link, m: Move)
    requires Reached(c, l)
    ensures Reached(c, Next(c.job, c.max, l, m))
  {
    MoveKeeps(c.job, c.name, c.flash, c.dest, c.max, l, m);
  }

  /** The closing header at the front. */
  lemma FrontReports(c: Setting, l: Link) returns (ms: seq<Move>)
    requires AfterEot(c, l) && l.fwd != [] && l.fwd[0].number == Count(c.job) + 2
    ensures Delivers(c.job, c.max, l, ms)
  {
    TakesClosing(c.job, c.max, l.st, l.buf);
    PlayOne(c.job, c.max, l, PacketArrives);
    ms := [PacketArrives];
  }

  lemma ClosingReports(c: Setting, l: Link) returns (ms: seq<Move>)
    requires AfterEot(c, l) && ClosingInFlight(c.job, l)
    ensures Delivers(c.job, c.max, l, ms)
  {
    var i :| 0 <= i < |l.fwd| && l.fwd[i].number == Count(c.job) + 2;
    var clear := CanClear(c, l, i, 0);
    assert l.bwd[0..] == l.bwd;
    var rest := FrontReports(c, l.(fwd := [l.fwd[i]]));
    YmodemRecovery.Continues(c, l, clear, rest);
    ms := clear + rest;
  }

  /** What the sender's move leads to when it offers the closing header. */
  lemma OfferReports(c: Setting, l: Link, m: Move) returns (ms: seq<Move>)
    requires AfterEot(c, l) && (m == ReplyArrives || m == SenderTimesOut)
    requires var next := Next(c.job, c.max, l, m); next.s.phase == Phase.Closing && |next.fwd| == |l.fwd| + 1
    ensures Delivers(c.job, c.max, l, ms)
  {
    var next := Next(c.job, c.max, l, m);
    NextReached(c, l, m);
    assert next.fwd[|l.fwd|].number == Count(c.job) + 2;
    var rest := ClosingReports(c, next);
    MoveOn(c, l, m, rest);
    ms := [m] + rest;
  }

  /** An ACK at the front of the replies brings the sender to the closing header. */
  lemma FrontAckReports(c: Setting, l: Link) returns (ms: seq<Move>)
    requires AfterEot(c, l) && l.s.phase == Phase.Eot && l.bwd != [] && l.bwd[0] == ACK
    ensures Delivers(c.job, c.max, l, ms)
  {
    ms := OfferReports(c, l, ReplyArrives);
  }

  lemma AckReports(c: Setting, l: Link) returns (ms: seq<Move>)
    requires AfterEot(c, l) && l.s.phase == Phase.Eot && ACK in l.bwd
    ensures Delivers(c.job, c.max, l, ms)
  {
    var k :| 0 <= k < |l.bwd| && l.bwd[k] == ACK;
    var clear := CanClear(c, l, |l.fwd|, k);
    var rest := FrontAckReports(c, l.(fwd := [], bwd := l.bwd[k..]));
    YmodemRecovery.Continues(c, l, clear, rest);
    ms := clear + rest;
  }

  /** An EOT in flight: it is ACKed, and the receiver's errors start again from 0. */
  lemma EotAnswered(c: Setting, l: Link)
    requires AfterEot(c, l) && l.fwd != [] && l.fwd[0].number == Count(c.job) + 1
    ensures var next := Next(c.job, c.max, l, PacketArrives);
      && AfterEot(c, next) && next.s == l.s && next.fwd == l.fwd[1..] && next.bwd == l.bwd + [ACK]
      && next.st.errors == 0
  {
    HearsEot(c.job, Count(c.job) + 1, l.buf);
    NextReached(c, l, PacketArrives);
    AnswerIs(l.st.replies, [ACK]);
  }

  lemma OnlyEots(c: Setting, l: Link, i: nat)
    requires AfterEot(c, l) && i < |l.fwd|
    requires l.s.phase == Phase.Eot || (l.s.phase == Phase.Closing && !ClosingInFlight(c.job, l))
    ensures l.fwd[i].number == Count(c.job) + 1
  {
  }

  lemma EotReports(c: Setting, l: Link) returns (ms: seq<Move>)
    requires AfterEot(c, l) && l.s.phase == Phase.Eot && l.fwd != []
    ensures Delivers(c.job, c.max, l, ms)
  {
    OnlyEots(c, l, 0);
    EotAnswered(c, l);
    var next := Next(c.job, c.max, l, PacketArrives);
    assert next.bwd[|l.bwd|] == ACK;
    var rest := AckReports(c, next);
    MoveOn(c, l, PacketArrives, rest);
    ms := [PacketArrives] + rest;
  }

  lemma RetryReports(c: Setting, l: Link) returns (ms: seq<Move>)
    requires AfterEot(c, l) && (l.s.phase == Phase.Eot || l.s.phase == Phase.Closing) && l.s.errors + 1 < RETRIES
    ensures Delivers(c.job, c.max, l, ms)
  {
    if l.s.phase == Phase.Closing {
      ms := OfferReports(c, l, SenderTimesOut);
    } else {
      ms := EotAgainReports(c, l);
    }
  }

  lemma EotAgainReports(c: Setting, l: Link) returns (ms: seq<Move>)
    requires AfterEot(c, l) && l.s.phase == Phase.Eot && l.s.errors + 1 < RETRIES
    ensures Delivers(c.job, c.max, l, ms)
  {
    var next := Next(c.job, c.max, l, SenderTimesOut);
    NextReached(c, l, SenderTimesOut);
    var rest := EotReports(c, next);
    MoveOn(c, l, SenderTimesOut, rest);
    ms := [SenderTimesOut] + rest;
  }

  lemma FrontByteReports(c: Setting, l: Link) returns (ms: seq<Move>)
    requires AfterEot(c, l) && l.s.phase == Phase.Closing && l.bwd != [] && l.bwd[0] != ACK
    ensures Delivers(c.job, c.max, l, ms)
  {
    ms := OfferReports(c, l, ReplyArrives);
  }

  lemma AskReports(c: Setting, l: Link) returns (ms: seq<Move>)
    requires AfterEot(c, l) && l.s.phase == Phase.Closing && AskedAgain(l)
    ensures Delivers(c.job, c.max, l, ms)
  {
    var k :| 0 <= k < |l.bwd| && l.bwd[k] != ACK;
    var clear := CanClear(c, l, |l.fwd|, k);
    var rest := FrontByteReports(c, l.(fwd := [], bwd := l.bwd[k..]));
    YmodemRecovery.Continues(c, l, clear, rest);
    ms := clear + rest;
  }

  /** The receiver's own timeout asks for the closing header. */
  lemma TimeoutReports(c: Setting, l: Link) returns (ms: seq<Move>)
    requires AfterEot(c, l) && l.s.phase == Phase.Closing && l.st.errors < MAX_ERRORS
    ensures Delivers(c.job, c.max, l, ms)
  {
    var next := Next(c.job, c.max, l, ReceiverTimesOut);
    NextReached(c, l, ReceiverTimesOut);
    AnswerIs(l.st.replies, [CRC16]);
    assert next.bwd == l.bwd + [CRC16] && next.bwd[|l.bwd|] != ACK;
    var rest := AskReports(c, next);
    MoveOn(c, l, ReceiverTimesOut, rest);
    ms := [ReceiverTimesOut] + rest;
  }

  lemma RenewalReports(c: Setting, l: Link) returns (ms: seq<Move>)
    requires AfterEot(c, l) && l.s.phase == Phase.Closing && l.fwd != [] && !ClosingInFlight(c.job, l)
    ensures Delivers(c.job, c.max, l, ms)
  {
    OnlyEots(c, l, 0);
    EotAnswered(c, l);
    var rest := TimeoutReports(c, Next(c.job, c.max, l, PacketArrives));
    MoveOn(c, l, PacketArrives, rest);
    ms := [PacketArrives] + rest;
  }

  lemma Reports(c: Setting, l: Link) returns (ms: seq<Move>)
    requires AfterEot(c, l) && Reportable(c.job, l)
    ensures Delivers(c.job, c.max, l, ms)
  {
    if ClosingInFlight(c.job, l) {
      ms := ClosingReports(c, l);
    } else if l.s.errors + 1 < RETRIES {
      ms := RetryReports(c, l);
    } else if l.s.phase == Phase.Eot {
      if ACK in l.bwd { ms := AckReports(c, l); } else { ms := EotReports(c, l); }
    } else if AskedAgain(l) {
      ms := AskReports(c, l);
    } else if l.fwd != [] {
      ms := RenewalReports(c, l);
    } else {
      ms := TimeoutReports(c, l);
    }
  }

  /** For an empty file giving up looks the same: the receiver returns 0 either way. */
  lemma {:induction false} GivesUp(job: Job, max: nat, l: Link) returns (ms: seq<Move>)
    requires Sound(job, l) && l.ended && l.st.result.None? && l.st.begun
    ensures var end := Play(job, max, l, ms); end.ended && end.st.result == Some(0)
    decreases MAX_ERRORS - l.st.errors
  {
    var next := Next(job, max, l, ReceiverTimesOut);
    ms := [];
    if l.st.errors < MAX_ERRORS { ms := GivesUp(job, max, next); }
    PlayOne(job, max, l, ReceiverTimesOut);
    PlayAppend(job, max, l, [ReceiverTimesOut], ms);
    ms := [ReceiverTimesOut] + ms;
  }

  // ---- the states without a report ----

  /** No closing header is in flight, and nothing makes the sender send one. */
  predicate Silenced(l: Link) {
    || l.s.phase == FinalEot || l.s.phase == Phase.Ended
    || (l.fwd == [] && l.s.errors + 1 >= RETRIES
        && (|| (l.s.phase == Phase.Eot && ACK !in l.bwd)
            || (l.s.phase == Phase.Closing && !AskedAgain(l) && l.st.errors >= MAX_ERRORS)))
  }

  predicate Unreported(job: Job, l: Link)
    requires GoodJob(job)
  {
    l.ended && (l.st.result == Some(0) || (l.st.result.None? && !ClosingInFlight(job, l) && Silenced(l)))
  }

  lemma UnreportedPacket(c: Setting, l: Link)
    requires AfterEot(c, l) && Unreported(c.job, l) && l.fwd != []
    ensures Unreported(c.job, Next(c.job, c.max, l, PacketArrives))
  {
    var k := l.fwd[0].number;
    HearsEot(c.job, k, l.buf);
    assert forall i :: 0 <= i < |l.fwd[1..]| ==> l.fwd[1..][i] == l.fwd[i + 1];
  }

  lemma UnreportedSender(c: Setting, l: Link, e: Event)
    requires Sound(c.job, l) && Unreported(c.job, l) && l.s.phase != Phase.Ended
    requires l.st.result.None? && l.s.phase == Phase.Eot ==> e != Got(ACK)
    requires l.st.result.None? && l.s.phase == Phase.Closing ==> e == Got(ACK) || e == Silence
    ensures Unreported(c.job, SenderTurn(c.job, l, e))
  {
  }

  lemma UnreportedReply(c: Setting, l: Link)
    requires Sound(c.job, l) && Unreported(c.job, l) && l.bwd != [] && l.s.phase != Phase.Ended
    ensures Unreported(c.job, Next(c.job, c.max, l, ReplyArrives))
  {
    var left := l.(bwd := l.bwd[1..]);
    assert forall k :: 0 <= k < |left.bwd| ==> left.bwd[k] == l.bwd[k + 1];
    assert l.bwd[0] in l.bwd;
    UnreportedSender(c, left, Got(l.bwd[0]));
  }

  lemma UnreportedTimeout(c: Setting, l: Link)
    requires Sound(c.job, l) && Unreported(c.job, l) && l.st.result.None? && l.st.begun
    ensures Unreported(c.job, Next(c.job, c.max, l, ReceiverTimesOut))
  {
    var said := if l.st.errors < MAX_ERRORS then [CRC16] else [CA, CA];
    AnswerIs(l.st.replies, said);
  }

  lemma UnreportedLoss(c: Setting, l: Link, i: nat)
    requires Sound(c.job, l) && Unreported(c.job, l)
    ensures Unreported(c.job, Next(c.job, c.max, l, PacketLost(i)))
    ensures Unreported(c.job, Next(c.job, c.max, l, ReplyLost(i)))
  {
    forall j | 0 <= j < |l.fwd| - 1 && i < |l.fwd| ensures Without(l.fwd, i)[j] == l.fwd[if j < i then j else j + 1] {
      WithoutAt(l.fwd, i, j);
    }
    forall j | 0 <= j < |l.bwd| - 1 && i < |l.bwd| ensures Without(l.bwd, i)[j] == l.bwd[if j < i then j else j + 1] {
    }
  }

  lemma StaysUnreported(c: Setting, l: Link, m: Move)
    requires Reached(c, l) && Unreported(c.job, l)
    ensures Unreported(c.job, Next(c.job, c.max, l, m))
  {
    match m
    case PacketArrives => if l.fwd != [] && l.st.result.None? { UnreportedPacket(c, l); }
    case ReplyArrives => if l.bwd != [] && l.s.phase != Phase.Ended { UnreportedReply(c, l); }
    case ReceiverTimesOut => if l.st.result.None? { UnreportedTimeout(c, l); }
    case SenderTimesOut => if l.s.phase != Phase.Ended { UnreportedSender(c, l, Silence); }
    case PacketLost(i) => UnreportedLoss(c, l, i);
    case ReplyLost(i) => UnreportedLoss(c, l, i);
  }

  lemma {:induction false} UnreportedForGood(c: Setting, l: Link, ms: seq<Move>)
    requires Reached(c, l) && Unreported(c.job, l)
    ensures Unreported(c.job, Play(c.job, c.max, l, ms))
    decreases |ms|
  {
    if ms != [] {
      StaysUnreported(c, l, ms[0]);
      NextReached(c, l, ms[0]);
      UnreportedForGood(c, Next(c.job, c.max, l, ms[0]), ms[1..]);
    }
  }

  lemma NotReportable(c: Setting, l: Link)
    requires AfterEot(c, l) && !Reportable(c.job, l)
    ensures Unreported(c.job, l)
  {
  }

  // ---- the condition ----

  /** In every state that can be reached once an EOT has arrived, until the receiver returns: some continuation
      makes it return the size of the file if and only if the state is reportable; for an empty file any will. */
  lemma ReportsIff(job: Job, name: seq<byte>, flash: seq<byte>, dest: nat, max: nat, buf: seq<byte>, ms: seq<Move>)
    requires Sendable(job, name) && |buf| == BUFFER_SIZE
    requires var l := Play(job, max, Begin(job, flash, dest, buf), ms); l.ended && l.st.result.None?
    ensures var l := Play(job, max, Begin(job, flash, dest, buf), ms);
      (exists more :: Delivers(job, max, l, more)) <==> job.size == 0 || Reportable(job, l)
  {
    var c, first := Setting(job, name, flash, dest, max), Begin(job, flash, dest, buf);
    var l := Play(job, max, first, ms);
    BeginsKept(job, flash, dest, max, buf);
    StaysReached(c, first, ms);
    if Reportable(job, l) {
      var more := Reports(c, l);
    } else if job.size == 0 {
      var more := GivesUp(job, max, l);
      assert Delivers(job, max, l, more);
    } else {
      NotReportable(c, l);
      forall more ensures !Delivers(job, max, l, more) {
        UnreportedForGood(c, l, more);
      }
    }
  }
}
