/** Which disturbed transfers can still be completed: lost packets are made up for, within the retries;
    a lost ACK is not. */
module YmodemRecovery {
  import opened Flash
  import opened StringUtils
  import opened YmodemPacket
  import opened YmodemReceiver
  import opened YmodemSender
  import opened YmodemTransfers
  import opened YmodemLink
  import opened YmodemLinkSafety

  /** Both ends are at work and the first EOT has not arrived. */
  predicate Running(l: Link) {
    !l.ended && l.st.result.None? && l.s.phase != Ended
  }

  predicate AwaitedInFlight(l: Link) {
    exists i :: 0 <= i < |l.fwd| && l.fwd[i].number == l.st.packets
  }

  /** No ACK has been lost, and the awaited frame is in flight, or its ACK, or a retry is left; the header
      can always be had again. */
  predicate Recoverable(l: Link) {
    && !Stranded(l)
    && (l.s.phase == Header || l.s.phase == Handshake || ACK in l.bwd || AwaitedInFlight(l) || l.s.errors + 1 < RETRIES)
  }

  /** The receiver sees the EOT and reports the size. */
  predicate Delivers(job: Job, max: nat, l: Link, ms: seq<Move>)
    requires Sound(job, l)
  {
    var end := Play(job, max, l, ms);
    end.ended && end.st.result == Some(job.size)
  }

  // ---- clearing the channels ----

  lemma {:induction false} DropsPackets(job: Job, max: nat, l: Link, k: nat) returns (ms: seq<Move>)
    requires Sound(job, l) && k <= |l.fwd|
    ensures Play(job, max, l, ms) == l.(fwd := l.fwd[k..])
    decreases k
  {
    ms := [];
    if k > 0 {
      var more := DropsPackets(job, max, l.(fwd := l.fwd[1..]), k - 1);
      ms := [PacketLost(0)] + more;
      assert ms[1..] == more && Without(l.fwd, 0) == l.fwd[1..] && l.fwd[1..][k - 1..] == l.fwd[k..];
    } else {
      assert l.fwd[0..] == l.fwd;
    }
  }

  lemma {:induction false} DropsPacketsBehind(job: Job, max: nat, l: Link, k: nat) returns (ms: seq<Move>)
    requires Sound(job, l) && k <= |l.fwd|
    ensures Play(job, max, l, ms) == l.(fwd := l.fwd[..k])
    decreases |l.fwd|
  {
    ms := [];
    var last := |l.fwd| - 1;
    if k <= last {
      var more := DropsPacketsBehind(job, max, l.(fwd := l.fwd[..last]), k);
      ms := [PacketLost(last)] + more;
      assert ms[1..] == more && Without(l.fwd, last) == l.fwd[..last] && l.fwd[..last][..k] == l.fwd[..k];
    } else {
      assert l.fwd[..k] == l.fwd;
    }
  }

  lemma {:induction false} DropsReplies(job: Job, max: nat, l: Link, k: nat) returns (ms: seq<Move>)
    requires Sound(job, l) && k <= |l.bwd|
    ensures Play(job, max, l, ms) == l.(bwd := l.bwd[k..])
    decreases k
  {
    ms := [];
    if k > 0 {
      var more := DropsReplies(job, max, l.(bwd := l.bwd[1..]), k - 1);
      ms := [ReplyLost(0)] + more;
      assert ms[1..] == more && Without(l.bwd, 0) == l.bwd[1..] && l.bwd[1..][k - 1..] == l.bwd[k..];
    } else {
      assert l.bwd[0..] == l.bwd;
    }
  }

  /** Lose everything in flight but packet i (none if i is beyond the end), and the first k replies. */
  lemma Clears(job: Job, max: nat, l: Link, i: nat, k: nat) returns (ms: seq<Move>)
    requires Sound(job, l) && i <= |l.fwd| && k <= |l.bwd|
    ensures Play(job, max, l, ms) == l.(fwd := if i < |l.fwd| then [l.fwd[i]] else [], bwd := l.bwd[k..])
  {
    var front := DropsPackets(job, max, l, i);
    var l1 := l.(fwd := l.fwd[i..]);
    var back := DropsPacketsBehind(job, max, l1, if i < |l.fwd| then 1 else 0);
    var l2 := l.(fwd := if i < |l.fwd| then [l.fwd[i]] else []);
    assert l1.(fwd := l1.fwd[..if i < |l.fwd| then 1 else 0]) == l2;
    var replies := DropsReplies(job, max, l2, k);
    PlayAppend(job, max, l, front, back);
    PlayAppend(job, max, l, front + back, replies);
    ms := front + back + replies;
  }

  lemma PlayOne(job: Job, max: nat, l: Link, m: Move)
    requires Sound(job, l)
    ensures Play(job, max, l, [m]) == Next(job, max, l, m)
  {
    assert [m][1..] == [];
  }

  // ---- going on from a cleared state ----

  datatype Setting = Setting(job: Job, name: seq<byte>, flash: seq<byte>, dest: nat, max: nat)

  /** What PlayKeeps says of every state that can be reached. */
  predicate Reached(c: Setting, l: Link) {
    && Sendable(c.job, c.name)
    && Synced(c.job, l) && Kept(c.job, c.flash, c.dest, c.max, l)
  }

  predicate CanTake(c: Setting) {
    Admitted(c.job, c.flash, c.dest, c.max)
  }

  lemma Continues(c: Setting, l: Link, first: seq<Move>, rest: seq<Move>)
    requires Sound(c.job, l) && Delivers(c.job, c.max, Play(c.job, c.max, l, first), rest)
    ensures Delivers(c.job, c.max, l, first + rest)
  {
    PlayAppend(c.job, c.max, l, first, rest);
  }

  lemma StaysReached(c: Setting, l: Link, ms: seq<Move>)
    requires Reached(c, l)
    ensures Reached(c, Play(c.job, c.max, l, ms))
  {
    PlayKeeps(c.job, c.name, c.flash, c.dest, c.max, l, ms);
  }

  lemma UndisturbedDelivers(c: Setting, l: Link) returns (ms: seq<Move>)
    requires CanTake(c) && Reached(c, l) && Undisturbed(c.job, l)
    ensures Delivers(c.job, c.max, l, ms)
  {
    ms := CalmFinishes(c.job, c.name, c.flash, c.dest, c.max, l);
    CalmUndisturbed(c.job, c.name, c.flash, c.dest, c.max, l, ms);
  }

  /** One move leads to a state in which one frame is under way and nothing else. */
  lemma MoveDelivers(c: Setting, l: Link, m: Move) returns (ms: seq<Move>)
    requires CanTake(c) && Reached(c, l) && Undisturbed(c.job, Next(c.job, c.max, l, m))
    ensures Delivers(c.job, c.max, l, ms)
  {
    PlayOne(c.job, c.max, l, m);
    StaysReached(c, l, [m]);
    var rest := UndisturbedDelivers(c, Next(c.job, c.max, l, m));
    Continues(c, l, [m], rest);
    ms := [m] + rest;
  }

  lemma CanClear(c: Setting, l: Link, i: nat, k: nat) returns (ms: seq<Move>)
    requires Reached(c, l) && i <= |l.fwd| && k <= |l.bwd|
    ensures var next := l.(fwd := if i < |l.fwd| then [l.fwd[i]] else [], bwd := l.bwd[k..]);
      Reached(c, next) && Play(c.job, c.max, l, ms) == next
  {
    ms := Clears(c.job, c.max, l, i, k);
    StaysReached(c, l, ms);
  }

  /** Nothing in flight, and a timeout of the sender to come that it outlives. */
  lemma TimeoutDelivers(c: Setting, l: Link) returns (ms: seq<Move>)
    requires CanTake(c) && Reached(c, l) && Running(l) && l.fwd == [] && l.bwd == [] && !Stranded(l)
    requires l.s.phase == Handshake || l.s.errors + 1 < RETRIES
    ensures Delivers(c.job, c.max, l, ms)
  {
    TimeoutUndisturbed(c.job, l);
    assert Next(c.job, c.max, l, SenderTimesOut) == SenderTurn(c.job, l, Silence);
    ms := MoveDelivers(c, l, SenderTimesOut);
  }

  lemma TimeoutUndisturbed(job: Job, l: Link)
    requires Synced(job, l) && Running(l) && l.fwd == [] && l.bwd == [] && !Stranded(l)
    requires l.s.phase == Handshake || l.s.errors + 1 < RETRIES
    ensures Undisturbed(job, SenderTurn(job, l, Silence))
  {
    if l.s.phase == Handshake {
      FileStartInStep(job);
    } else {
      RepliesMoveOn(job, l.s, Silence);
    }
  }

  lemma FrameDelivers(c: Setting, l: Link, i: nat) returns (ms: seq<Move>)
    requires CanTake(c) && Reached(c, l) && Running(l) && i < |l.fwd| && l.fwd[i].number == l.st.packets
    ensures Delivers(c.job, c.max, l, ms)
  {
    var clear := CanClear(c, l, i, |l.bwd|);
    var rest := UndisturbedDelivers(c, l.(fwd := [l.fwd[i]], bwd := []));
    Continues(c, l, clear, rest);
    ms := clear + rest;
  }

  /** A header can be had again for nothing: the receiver's own timeout asks for it. */
  lemma HeaderDelivers(c: Setting, l: Link) returns (ms: seq<Move>)
    requires CanTake(c) && Reached(c, l) && Running(l) && l.fwd == [] && l.bwd == []
    requires !Stranded(l) && l.s.phase == Header
    ensures Delivers(c.job, c.max, l, ms)
  {
    var next := Next(c.job, c.max, l, ReceiverTimesOut);
    assert next == l.(st := next.st, bwd := [CRC16]) && next.st.packets == 0 && next.st.result.None?;
    PlayOne(c.job, c.max, l, ReceiverTimesOut);
    StaysReached(c, l, [ReceiverTimesOut]);
    SendsItsFrame(c.job, l.s);
    var rest := MoveDelivers(c, next, ReplyArrives);
    Continues(c, l, [ReceiverTimesOut], rest);
    ms := [ReceiverTimesOut] + rest;
  }

  /** An ACK at the front of the replies, and nothing in flight to the receiver. */
  lemma AckDelivers(c: Setting, l: Link) returns (ms: seq<Move>)
    requires CanTake(c) && Reached(c, l) && Running(l) && l.fwd == [] && l.bwd != [] && l.bwd[0] == ACK
    ensures Delivers(c.job, c.max, l, ms)
  {
    var next := Next(c.job, c.max, l, ReplyArrives);
    AckMoves(c, l);
    PlayOne(c.job, c.max, l, ReplyArrives);
    StaysReached(c, l, [ReplyArrives]);
    var rest;
    if next.s.phase == Handshake {
      var clear := CanClear(c, next, |next.fwd|, |next.bwd|);
      rest := TimeoutDelivers(c, next.(fwd := [], bwd := []));
      Continues(c, next, clear, rest);
      rest := clear + rest;
    } else {
      rest := FrameDelivers(c, next, 0);
    }
    Continues(c, l, [ReplyArrives], rest);
    ms := [ReplyArrives] + rest;
  }

  lemma AckMoves(c: Setting, l: Link)
    requires Reached(c, l) && Running(l) && l.fwd == [] && l.bwd != [] && l.bwd[0] == ACK
    ensures var next := Next(c.job, c.max, l, ReplyArrives);
      && Running(next) && next.st == l.st
      && (if next.s.phase == Handshake then !Stranded(next.(bwd := []))
          else |next.fwd| == 1 && next.fwd[0].number == next.st.packets)
  {
    AckPlace(c.job, l);
    AckTurn(c.job, l.(bwd := l.bwd[1..]));
    assert Next(c.job, c.max, l, ReplyArrives) == SenderTurn(c.job, l.(bwd := l.bwd[1..]), Got(ACK));
  }

  /** An ACK under way is for what the sender has last sent. */
  lemma AckPlace(job: Job, l: Link)
    requires Synced(job, l) && Running(l) && l.bwd != [] && l.bwd[0] == ACK
    ensures l.st.packets == l.top + 1 && (l.s.phase == Header || l.s.phase == Data)
  {
  }

  lemma AckTurn(job: Job, l: Link)
    requires InStep(job, l.s) && l.top == Number(job, l.s) && l.st.packets == l.top + 1 && l.fwd == []
    requires (l.s.phase == Header || l.s.phase == Data) && Running(l)
    ensures var next := SenderTurn(job, l, Got(ACK));
      && Running(next) && next.st == l.st
      && (if next.s.phase == Handshake then !Stranded(next.(bwd := []))
          else |next.fwd| == 1 && next.fwd[0].number == next.st.packets)
  {
    if l.s.phase == Data { AdvancesInStep(job, l.s); }
  }

  lemma {:induction false} AcksIfIn(s: seq<byte>)
    ensures Acks(s) > 0 <==> ACK in s
  {
    if s != [] {
      AcksIfIn(s[1..]);
      assert s == [s[0]] + s[1..];
    }
  }

  lemma RecoverableDelivers(c: Setting, l: Link) returns (ms: seq<Move>)
    requires CanTake(c) && Reached(c, l) && Running(l) && Recoverable(l)
    ensures Delivers(c.job, c.max, l, ms)
  {
    AcksIfIn(l.bwd);
    var clear, rest;
    if AwaitedInFlight(l) {
      var i :| 0 <= i < |l.fwd| && l.fwd[i].number == l.st.packets;
      ms := FrameDelivers(c, l, i);
    } else if ACK in l.bwd {
      var k :| 0 <= k < |l.bwd| && l.bwd[k] == ACK;
      clear := CanClear(c, l, |l.fwd|, k);
      rest := AckDelivers(c, l.(fwd := [], bwd := l.bwd[k..]));
      Continues(c, l, clear, rest);
      ms := clear + rest;
    } else {
      clear := CanClear(c, l, |l.fwd|, |l.bwd|);
      var next := l.(fwd := [], bwd := []);
      if l.s.phase == Header {
        rest := HeaderDelivers(c, next);
      } else {
        rest := TimeoutDelivers(c, next);
      }
      Continues(c, l, clear, rest);
      ms := clear + rest;
    }
  }

  // ---- the states that are lost ----

  /** The last retry is out and gone, without an answer under way. */
  predicate Spent(l: Link) {
    && !l.ended && Acks(l.bwd) == 0 && l.st.packets == l.top && !AwaitedInFlight(l)
    && (l.s.phase == Ended || ((l.s.phase == Data || l.s.phase == Eot) && l.s.errors + 1 >= RETRIES))
  }

  lemma SpentAnswer(max: nat, l: Link, o: Outcome, buf: seq<byte>, said: seq<byte>)
    requires |buf| == BUFFER_SIZE && (o.Packet? ==> o.length <= PACKET_1K_SIZE) && !o.EndOfTransmission?
    requires Spent(l) && Acks(said) == 0
    requires var st := Step(max, l.st, o, buf); st.replies == l.st.replies + said && st.packets == l.st.packets
    ensures Spent(ReceiverTurn(max, l, o, buf))
  {
    AnswerIs(l.st.replies, said);
    AcksAppend(l.bwd, said);
  }

  lemma SpentPacket(job: Job, max: nat, l: Link)
    requires Synced(job, l) && Spent(l) && l.fwd != [] && l.st.result.None?
    ensures Spent(Next(job, max, l, PacketArrives))
  {
    var k := l.fwd[0].number;
    assert k + 1 == l.st.packets;
    RefusesRepeat(job, max, l.st, k, l.buf);
    AcksOf();
    var got := Receive(Events(Frame(job, k)), l.buf);
    var left := l.(fwd := l.fwd[1..]);
    assert forall i :: 0 <= i < |left.fwd| ==> left.fwd[i] == l.fwd[i + 1];
    SpentAnswer(max, left, got.outcome, got.buf, [NAK]);
  }

  lemma SpentTimeout(max: nat, l: Link)
    requires Spent(l) && l.st.result.None? && |l.buf| == BUFFER_SIZE
    ensures Spent(ReceiverTurn(max, l, Failed, l.buf))
  {
    AcksOf();
    SpentAnswer(max, l, Failed, l.buf, if Step(max, l.st, Failed, l.buf).result.Some? then [CA, CA] else [CRC16]);
  }

  lemma SpentSender(job: Job, l: Link, e: Event)
    requires Synced(job, l) && Spent(l) && l.s.phase != Ended && e != Got(ACK)
    ensures Spent(SenderTurn(job, l, e))
  {
    assert SenderTurn(job, l, e) == l.(s := Retry(l.s));
  }

  lemma SpentReply(job: Job, max: nat, l: Link)
    requires Synced(job, l) && Spent(l)
    ensures Spent(Next(job, max, l, ReplyArrives))
  {
    if l.bwd != [] && l.s.phase != Ended {
      SpentSender(job, l.(bwd := l.bwd[1..]), Got(l.bwd[0]));
    }
  }

  lemma SpentPacketLoss(job: Job, max: nat, l: Link, i: nat)
    requires Synced(job, l) && Spent(l)
    ensures Spent(Next(job, max, l, PacketLost(i)))
  {
    var left := Without(l.fwd, i);
    forall j | 0 <= j < |left| ensures left[j].number != l.st.packets {
      if i < |l.fwd| { WithoutAt(l.fwd, i, j); }
    }
  }

  lemma SpentReplyLoss(job: Job, max: nat, l: Link, i: nat)
    requires Synced(job, l) && Spent(l)
    ensures Spent(Next(job, max, l, ReplyLost(i)))
  {
    AcksWithout(l.bwd, i);
  }

  lemma StaysSpent(job: Job, max: nat, l: Link, m: Move)
    requires Synced(job, l) && Spent(l)
    ensures Spent(Next(job, max, l, m))
  {
    match m
    case PacketArrives => if l.fwd != [] && l.st.result.None? { SpentPacket(job, max, l); }
    case ReplyArrives => SpentReply(job, max, l);
    case ReceiverTimesOut => if l.st.result.None? { SpentTimeout(max, l); }
    case SenderTimesOut => if l.s.phase != Ended { SpentSender(job, l, Silence); }
    case PacketLost(i) => SpentPacketLoss(job, max, l, i);
    case ReplyLost(i) => SpentReplyLoss(job, max, l, i);
  }

  lemma {:induction false} SpentForGood(c: Setting, l: Link, ms: seq<Move>)
    requires Reached(c, l) && Spent(l)
    ensures !Play(c.job, c.max, l, ms).ended
    decreases |ms|
  {
    if ms != [] {
      StaysSpent(c.job, c.max, l, ms[0]);
      MoveKeeps(c.job, c.name, c.flash, c.dest, c.max, l, ms[0]);
      SpentForGood(c, Next(c.job, c.max, l, ms[0]), ms[1..]);
    }
  }

  lemma NotRecoverable(c: Setting, l: Link, ms: seq<Move>)
    requires Reached(c, l) && Running(l) && !Recoverable(l)
    ensures !Play(c.job, c.max, l, ms).ended
  {
    if Stranded(l) {
      LostAckNeverRecovers(c.job, c.name, c.flash, c.dest, c.max, l, ms);
    } else {
      AcksIfIn(l.bwd);
      SpentForGood(c, l, ms);
    }
  }

  // ---- the condition ----

  /** In every state that can be reached before the first EOT, with both ends at work: some continuation
      completes the transfer if and only if the file is admitted, no ACK has been lost, and the awaited frame
      is in flight, its ACK is under way, or a retry is left. */
  lemma RecoversIff(job: Job, name: seq<byte>, flash: seq<byte>, dest: nat, max: nat, buf: seq<byte>, ms: seq<Move>)
    requires Sendable(job, name) && |buf| == BUFFER_SIZE
    requires Running(Play(job, max, Begin(job, flash, dest, buf), ms))
    ensures var l := Play(job, max, Begin(job, flash, dest, buf), ms);
      (exists more :: Delivers(job, max, l, more)) <==> Admitted(job, flash, dest, max) && Recoverable(l)
  {
    var c, first := Setting(job, name, flash, dest, max), Begin(job, flash, dest, buf);
    var l := Play(job, max, first, ms);
    BeginsKept(job, flash, dest, max, buf);
    PlayKeeps(job, name, flash, dest, max, first, ms);
    if CanTake(c) && Recoverable(l) {
      var more := RecoverableDelivers(c, l);
    } else {
      forall more ensures !Delivers(job, max, l, more) {
        if Recoverable(l) {
          PlayAppend(job, max, first, ms, more);
          SafeUnderLoss(job, name, flash, dest, max, buf, ms + more);
        } else {
          NotRecoverable(c, l, more);
        }
      }
    }
  }

  /** So losing packets, and NAKs and Cs, never loses a transfer as long as a retry is left. */
  lemma LostPacketRecovers(job: Job, name: seq<byte>, flash: seq<byte>, dest: nat, max: nat, buf: seq<byte>,
          ms: seq<Move>, i: nat)
    requires Sendable(job, name) && Admitted(job, flash, dest, max) && |buf| == BUFFER_SIZE
    requires var l := Play(job, max, Begin(job, flash, dest, buf), ms);
      Running(l) && Recoverable(l) && l.s.errors + 1 < RETRIES
    ensures var l := Play(job, max, Begin(job, flash, dest, buf), ms);
      exists more :: Delivers(job, max, Next(job, max, l, PacketLost(i)), more)
  {
    var c, l := Setting(job, name, flash, dest, max), Play(job, max, Begin(job, flash, dest, buf), ms);
    BeginsKept(job, flash, dest, max, buf);
    PlayKeeps(job, name, flash, dest, max, Begin(job, flash, dest, buf), ms);
    MoveKeeps(job, name, flash, dest, max, l, PacketLost(i));
    LossLeavesRetry(job, max, l, i);
    var more := RecoverableDelivers(c, Next(job, max, l, PacketLost(i)));
  }

  lemma LossLeavesRetry(job: Job, max: nat, l: Link, i: nat)
    requires Sound(job, l) && Running(l) && !Stranded(l) && l.s.errors + 1 < RETRIES
    ensures var next := Next(job, max, l, PacketLost(i)); Running(next) && Recoverable(next)
  {
  }

  /** The header has arrived, and its answer is under way. */
  predicate HeaderAnswered(l: Link) {
    && l.s == Start() && l.fwd == [] && l.bwd == [ACK, CRC16] && l.top == 0
    && l.st.packets == 1 && l.st.result.None? && !l.ended && |l.buf| == BUFFER_SIZE
  }

  lemma HeaderGetsAnswer(job: Job, name: seq<byte>, flash: seq<byte>, dest: nat, max: nat, buf: seq<byte>)
    requires Sendable(job, name) && job.size <= max + 1 && |buf| == BUFFER_SIZE
    ensures HeaderAnswered(Play(job, max, Begin(job, flash, dest, buf), [PacketArrives]))
  {
    var first := Begin(job, flash, dest, buf);
    BeginsKept(job, flash, dest, max, buf);
    TakesHeader(job, name, flash, dest, max, first.st, buf);
    SendsItsFrame(job, first.s);
    PlayOne(job, max, first, PacketArrives);
    AnswerIs(first.st.replies, [ACK, CRC16]);
  }

  /** The smallest lost transfer: the header arrives, its ACK does not. */
  lemma FirstAckLost(job: Job, name: seq<byte>, flash: seq<byte>, dest: nat, max: nat, buf: seq<byte>, more: seq<Move>)
    requires Sendable(job, name) && job.size <= max + 1 && |buf| == BUFFER_SIZE
    ensures var l := Play(job, max, Begin(job, flash, dest, buf), [PacketArrives]);
      && l.bwd == [ACK, CRC16] && Running(l)
      && Stranded(Next(job, max, l, ReplyLost(0)))
      && !Delivers(job, max, Next(job, max, l, ReplyLost(0)), more)
  {
    var first := Begin(job, flash, dest, buf);
    var l := Play(job, max, first, [PacketArrives]);
    HeaderGetsAnswer(job, name, flash, dest, max, buf);
    BeginsKept(job, flash, dest, max, buf);
    PlayKeeps(job, name, flash, dest, max, first, [PacketArrives]);
    LostAckStrands(job, max, l, 0);
    MoveKeeps(job, name, flash, dest, max, l, ReplyLost(0));
    LostAckNeverRecovers(job, name, flash, dest, max, Next(job, max, l, ReplyLost(0)), more);
  }

  // ---- the endless loop behind a lost ACK of the header ----

  /** The sender still offers the header, the receiver has taken it, and the one reply under way is c. */
  predicate Offering(l: Link, c: byte) {
    && l.s == Start() && l.fwd == [] && l.bwd == [c]
    && l.st.packets == 1 && l.st.result.None? && !l.ended && |l.buf| == BUFFER_SIZE
  }

  function Lap(): (ms: seq<Move>) {
    [ReplyArrives, PacketArrives]
  }

  /** A reply that is not ACK makes the sender repeat the header, and the header makes the receiver answer NAK. */
  lemma LapLeadsBack(job: Job, max: nat, l: Link, c: byte)
    requires GoodJob(job) && Offering(l, c) && c != ACK
    ensures Offering(Play(job, max, l, Lap()), NAK)
  {
    var offered := Next(job, max, l, ReplyArrives);
    SendsItsFrame(job, Start());
    assert offered == l.(fwd := [Message(0, Frame(job, 0))], bwd := [], top := 0);
    RefusesRepeat(job, max, l.st, 0, l.buf);
    AnswerIs(l.st.replies, [NAK]);
    PlayOne(job, max, offered, PacketArrives);
    assert Lap()[1..] == [PacketArrives];
  }

  function Laps(k: nat): (ms: seq<Move>) {
    if k == 0 then [] else Laps(k - 1) + Lap()
  }

  lemma {:induction false} LapsLeadBack(job: Job, max: nat, l: Link, k: nat)
    requires GoodJob(job) && Offering(l, CRC16) && k > 0
    ensures Offering(Play(job, max, l, Laps(k)), NAK)
  {
    PlayAppend(job, max, l, Laps(k - 1), Lap());
    if k == 1 {
      LapLeadsBack(job, max, l, CRC16);
    } else {
      LapsLeadBack(job, max, l, k - 1);
      LapLeadsBack(job, max, Play(job, max, l, Laps(k - 1)), NAK);
    }
  }

  lemma LossLeavesOffering(job: Job, max: nat, l: Link)
    requires Sound(job, l) && HeaderAnswered(l)
    ensures Offering(Next(job, max, l, ReplyLost(0)), CRC16)
  {
    assert Without([ACK, CRC16], 0) == [CRC16];
  }

  lemma PlayTwo(job: Job, max: nat, l: Link, m: Move, n: Move)
    requires Sound(job, l)
    ensures Play(job, max, l, [m, n]) == Next(job, max, Play(job, max, l, [m]), n)
  {
    PlayOne(job, max, l, m);
    PlayOne(job, max, Next(job, max, l, m), n);
    assert [m, n][1..] == [n];
  }

  lemma LostHeaderAck(job: Job, name: seq<byte>, flash: seq<byte>, dest: nat, max: nat, buf: seq<byte>)
    requires Sendable(job, name) && job.size <= max + 1 && |buf| == BUFFER_SIZE
    ensures Offering(Play(job, max, Begin(job, flash, dest, buf), [PacketArrives, ReplyLost(0)]), CRC16)
  {
    var first := Begin(job, flash, dest, buf);
    HeaderGetsAnswer(job, name, flash, dest, max, buf);
    PlayTwo(job, max, first, PacketArrives, ReplyLost(0));
    LossLeavesOffering(job, max, Play(job, max, first, [PacketArrives]));
  }

  /** The first ACK is lost, the C behind it makes the sender offer the header again, and from then on the
      two ends go round for as long as nothing times out: after every lap they are where they were. */
  lemma HeaderGoesRound(job: Job, name: seq<byte>, flash: seq<byte>, dest: nat, max: nat, buf: seq<byte>, k: nat)
    requires Sendable(job, name) && job.size <= max + 1 && |buf| == BUFFER_SIZE && k > 0
    ensures Offering(Play(job, max, Begin(job, flash, dest, buf), [PacketArrives, ReplyLost(0)] + Laps(k)), NAK)
  {
    var first := Begin(job, flash, dest, buf);
    LostHeaderAck(job, name, flash, dest, max, buf);
    PlayAppend(job, max, first, [PacketArrives, ReplyLost(0)], Laps(k));
    LapsLeadBack(job, max, Play(job, max, first, [PacketArrives, ReplyLost(0)]), k);
  }
}
