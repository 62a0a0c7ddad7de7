/** What the sender does over whole transfers, for every sequence of replies. */
module YmodemTransfers {
  import opened Flash
  import opened StringUtils
  import opened YmodemPacket
  import opened YmodemSender

  // ---- the blocks of a file ----

  function Concat(bs: seq<Payload>): (data: seq<byte>) {
    if bs == [] then [] else bs[0] + Concat(bs[1..])
  }

  lemma {:induction false} ConcatAppend(bs: seq<Payload>, b: Payload)
    ensures Concat(bs + [b]) == Concat(bs) + b
  {
    if bs == [] {
      assert bs + [b] == [b] && Concat([]) == [];
    } else {
      assert (bs + [b])[1..] == bs[1..] + [b];
      ConcatAppend(bs[1..], b);
    }
  }

  lemma {:induction false} ConcatPrefix(bs: seq<Payload>, k: nat)
    requires k <= |bs|
    ensures |Concat(bs[..k])| <= |Concat(bs)|
    decreases |bs|
  {
    if k == |bs| {
      assert bs[..k] == bs;
    } else {
      var early, last := bs[..|bs| - 1], bs[|bs| - 1];
      ConcatPrefix(early, k);
      ConcatAppend(early, last);
      assert bs == early + [last] && early[..k] == bs[..k];
    }
  }

  function RoundedUp(n: nat): (m: nat)
    ensures n <= m < n + PACKET_SIZE
  {
    (n + 127) / 128 * 128
  }

  lemma RoundsByBlock(n: nat)
    ensures n >= PACKET_SIZE ==> RoundedUp(n) == PACKET_SIZE + RoundedUp(n - PACKET_SIZE)
    ensures n >= PACKET_1K_SIZE ==> RoundedUp(n) == PACKET_1K_SIZE + RoundedUp(n - PACKET_1K_SIZE)
    ensures 0 < n < PACKET_SIZE ==> RoundedUp(n) == PACKET_SIZE
  {
  }

  /** However the 1024- and 128-byte blocks mix, together they are the file and 0x1A up to the next
      multiple of 128. */
  lemma {:induction false} BlocksAreTheFile(left: seq<byte>)
    ensures Concat(Blocks(left)) == left + Padding(RoundedUp(|left|) - |left|)
    ensures |Concat(Blocks(left))| == RoundedUp(|left|)
    decreases |left|
  {
    if left != [] {
      BlocksAreTheFile(Rest(left));
      FirstOfBlocks(left);
      FirstAndPadding(left);
    }
  }

  lemma FirstOfBlocks(left: seq<byte>)
    requires left != []
    ensures Concat(Blocks(left)) == Block(left) + Concat(Blocks(Rest(left)))
  {
    assert Blocks(left)[0] == Block(left) && Blocks(left)[1..] == Blocks(Rest(left));
  }

  lemma FirstAndPadding(left: seq<byte>)
    requires left != []
    ensures Block(left) + (Rest(left) + Padding(RoundedUp(|Rest(left)|) - |Rest(left)|))
         == left + Padding(RoundedUp(|left|) - |left|)
  {
    FirstBlock(left);
    RoundsByBlock(|left|);
    var n, padding := PacketSize(|left|), Padding(RoundedUp(|Rest(left)|) - |Rest(left)|);
    if n <= |left| {
      Regroup(left, n, padding);
    } else {
      assert padding == [];
    }
  }

  lemma Regroup(left: seq<byte>, n: nat, padding: seq<byte>)
    requires n <= |left|
    ensures left[..n] + (left[n..] + padding) == left + padding
  {
  }

  lemma FirstBlock(left: seq<byte>)
    requires left != []
    ensures var n := PacketSize(|left|);
      if n <= |left| then Block(left) == left[..n] && Rest(left) == left[n..]
      else Block(left) == left + Padding(n - |left|) && Rest(left) == []
  {
    assert Padding(0) == [];
  }

  /** The size text is just the digits when the stack cell behind them is NUL, and only then: Int2Str writes
      no terminator. (What the receiver makes of longer texts is another matter.) */
  lemma SizeTextIsDecimal(str: seq<byte>, n: nat)
    requires |Decimal(n)| < |str|
    ensures Overwritten(str, n) == Decimal(n) <==> str[|Decimal(n)|] == 0
  {
    var k, s := |Decimal(n)|, Decimal(n) + str[|Decimal(n)|..];
    assert s[..k] == Decimal(n) && s[k] == str[k];
    TakesUpTo(s, 0, |s|, k);
    assert Overwritten(str, n) == TakeUntil(s, 0, |s|);
  }

  /** The file and its padding, all that the blocks carry. */
  function Padded(job: Job): (data: seq<byte>)
    requires GoodJob(job)
    ensures |data| == RoundedUp(job.size)
  {
    Content(job) + Padding(RoundedUp(job.size) - job.size)
  }

  // ---- numbering what is sent ----

  /** How many blocks the file has. */
  function Count(job: Job): (n: nat)
    requires GoodJob(job)
  {
    |Blocks(Content(job))|
  }

  /** Everything a transfer sends, in order: header, blocks, EOT, closing header, EOT. */
  function Frame(job: Job, k: nat): (f: seq<byte>)
    requires GoodJob(job)
  {
    if k == 0 then Framed(0, job.header, Trailer(job.crcStep, job.header))
    else if k <= Count(job) then
      var block := Blocks(Content(job))[k - 1];
      Framed(k % 0x100, block, Trailer(job.crcStep, block))
    else if k == Count(job) + 2 then Framed(0, NoFile(), Trailer(job.crcStep, NoFile()))
    else [EOT]
  }

  /** The number of what s has sent and waits for; the handshake belongs to the header. */
  function Number(job: Job, s: Sender): (k: nat)
    requires GoodJob(job)
  {
    match s.phase
    case Header => 0
    case Handshake => 0
    case Data => s.blk
    case Eot => Count(job) + 1
    case Closing => Count(job) + 2
    case _ => Count(job) + 3
  }

  /** `tail` is `all` without its first k blocks. */
  predicate Behind(all: seq<Payload>, k: nat, tail: seq<Payload>) {
    |all| == k + |tail| && forall i :: 0 <= i < |tail| ==> tail[i] == all[k + i]
  }

  /** In the middle of the file, what is left is cut into just the blocks not yet sent. */
  predicate InStep(job: Job, s: Sender) {
    && Good(job, s)
    && (s.phase == Data ==>
          1 <= s.blk <= Count(job) && Behind(Blocks(Content(job)), s.blk - 1, Blocks(Left(job, s))))
  }

  lemma SendsItsFrame(job: Job, s: Sender)
    requires InStep(job, s) && s.phase != Handshake && s.phase != Ended
    ensures Outgoing(job, s) == Frame(job, Number(job, s))
  {
    if s.phase == Data {
      assert Blocks(Content(job))[s.blk - 1] == Blocks(Left(job, s))[0];
    }
  }

  lemma DropsOneMore<T>(s: seq<T>, k: nat)
    requires k < |s|
    ensures s[k..][1..] == s[k + 1..]
  {
  }

  lemma SliceOfSlice(chip: seq<byte>, at: nat, k: nat, n: nat)
    requires k <= n && at + n <= |chip|
    ensures Slice(chip, at, n)[k..] == Slice(chip, at + k, n - k)
  {
  }

  lemma AdvancesInStep(job: Job, s: Sender)
    requires InStep(job, s) && s.phase == Data
    ensures InStep(job, OnReply(job, s, Got(ACK))) && Number(job, OnReply(job, s, Got(ACK))) == s.blk + 1
  {
    BlocksBehind(Blocks(Content(job)), s.blk - 1, Left(job, s));
    SomeBlocks(Rest(Left(job, s)));
    RestIsLeft(job, s);
  }

  lemma BlocksBehind(all: seq<Payload>, k: nat, left: seq<byte>)
    requires left != [] && Behind(all, k, Blocks(left))
    ensures Behind(all, k + 1, Blocks(Rest(left)))
  {
    var blocks, rest := Blocks(left), Blocks(Rest(left));
    assert |blocks| == 1 + |rest|;
    forall i | 0 <= i < |rest| ensures rest[i] == all[k + 1 + i] {
      assert rest[i] == blocks[1 + i];
    }
  }

  lemma RestIsLeft(job: Job, s: Sender)
    requires Good(job, s) && s.phase == Data
    ensures var rest, next := Rest(Left(job, s)), OnReply(job, s, Got(ACK));
      if s.size > PacketSize(s.size) then next.phase == Data && rest != [] && rest == Left(job, next) else rest == []
  {
    var n := PacketSize(s.size);
    if s.size > n { SliceOfSlice(job.chip, s.ptr, n, s.size); }
  }

  lemma SomeBlocks(left: seq<byte>)
    ensures |Blocks(left)| > 0 <==> left != []
  {
  }

  /** A reply moves the sender on by one if it is ACK and leaves it where it is if not, until it gives up. */
  lemma RepliesMoveOn(job: Job, s: Sender, e: Event)
    requires InStep(job, s) && s.phase != Ended && s.phase != Handshake
    ensures var next := OnReply(job, s, e);
      && InStep(job, next)
      && (next.phase == Ended ==> s.phase == FinalEot || (e != Got(ACK) && next.errors == RETRIES))
      && (next.phase != Ended && next.phase != Handshake ==>
            Number(job, next) == Number(job, s) + if e == Got(ACK) then 1 else 0)
  {
    if s.phase == Data {
      if e == Got(ACK) {
        AdvancesInStep(job, s);
      } else {
        var next := OnReply(job, s, e);
        assert next == Retry(s) && (next.phase == Data ==> Left(job, next) == Left(job, s));
      }
    }
  }

  lemma FileStartInStep(job: Job)
    requires GoodJob(job)
    ensures InStep(job, FileStart(job)) && Number(job, FileStart(job)) == 1
  {
    SomeBlocks(Content(job));
  }

  lemma DropsNone<T>(s: seq<T>)
    ensures s[0..] == s
  {
  }

  /** Every reply keeps the sender in step; it stops with 0 after the last EOT, and else with ten errors. */
  lemma StaysInStep(job: Job, s: Sender, e: Event)
    requires InStep(job, s) && s.phase != Ended
    ensures var next := OnReply(job, s, e);
      && InStep(job, next)
      && (next.phase == Ended ==> s.phase != Handshake && (next.errors == 0 || next.errors == RETRIES)
                                  && (next.errors == 0 ==> s.phase == FinalEot))
  {
    if s.phase == Handshake {
      FileStartInStep(job);
    } else {
      RepliesMoveOn(job, s, e);
    }
  }

  // ---- whole transfers ----

  /** One thing sent, and what the sender heard when it then waited. */
  datatype Sending = Sending(number: nat, bytes: seq<byte>, reply: Event)

  function History(job: Job, s: Sender, line: seq<Event>): (h: seq<Sending>)
    requires Good(job, s)
    decreases |line|, Rank(s.phase), s.size, RETRIES - s.errors
  {
    if s.phase == Ended then []
    else
      var rest := History(job, OnReply(job, s, Reply(line)), Tail(line));
      if s.phase == Handshake then rest
      else [Sending(Number(job, s), Outgoing(job, s), Reply(line))] + rest
  }

  /** The history shows what was sent. */
  predicate Shows(h: seq<Sending>, sent: seq<seq<byte>>) {
    |sent| == |h| && forall i :: 0 <= i < |h| ==> sent[i] == h[i].bytes
  }

  lemma ShowsOneMore(x: Sending, h: seq<Sending>, sent: seq<seq<byte>>)
    requires Shows(h, sent)
    ensures Shows([x] + h, [x.bytes] + sent)
  {
  }

  /** The history tells what the transfer sends. */
  lemma {:induction false} HistoryOfRun(job: Job, s: Sender, line: seq<Event>)
    requires Good(job, s)
    ensures Shows(History(job, s, line), Run(job, s, line).sent)
    decreases |line|, Rank(s.phase), s.size, RETRIES - s.errors
  {
    if s.phase != Ended {
      var next := OnReply(job, s, Reply(line));
      HistoryOfRun(job, next, Tail(line));
      if s.phase != Handshake {
        var x := Sending(Number(job, s), Outgoing(job, s), Reply(line));
        ShowsOneMore(x, History(job, next, Tail(line)), Run(job, next, Tail(line)).sent);
        assert Outgoing(job, s) != [];
      }
    }
  }

  predicate MovesOn(h: seq<Sending>, i: nat)
    requires 0 < i < |h|
  {
    h[i].number == h[i - 1].number + if h[i - 1].reply == Got(ACK) then 1 else 0
  }

  /** Everything sent is the frame of its number; an ACK and nothing else moves on to the next number,
      anything else repeats the frame byte for byte. */
  predicate InOrder(job: Job, h: seq<Sending>)
    requires GoodJob(job)
  {
    && (forall i :: 0 <= i < |h| ==> h[i].bytes == Frame(job, h[i].number))
    && (forall i :: 0 < i < |h| ==> MovesOn(h, i))
  }

  lemma BeginsInOrder(job: Job, all: seq<Sending>, x: Sending, h: seq<Sending>)
    requires GoodJob(job) && all == [x] + h && InOrder(job, h) && x.bytes == Frame(job, x.number)
    requires h != [] ==> h[0].number == x.number + if x.reply == Got(ACK) then 1 else 0
    ensures InOrder(job, all)
  {
    forall i | 0 <= i < |all| ensures all[i].bytes == Frame(job, all[i].number) {
      assert i > 0 ==> all[i] == h[i - 1];
    }
    forall i | 0 < i < |all| ensures MovesOn(all, i) {
      MovesBehind(all, x, h, i);
    }
  }

  lemma MovesBehind(all: seq<Sending>, x: Sending, h: seq<Sending>, i: nat)
    requires all == [x] + h && 0 < i < |all| && (i > 1 ==> MovesOn(h, i - 1))
    requires h != [] ==> h[0].number == x.number + if x.reply == Got(ACK) then 1 else 0
    ensures MovesOn(all, i)
  {
    assert all[i] == h[i - 1] && (i > 1 ==> all[i - 1] == h[i - 2]);
  }

  lemma {:induction false} StaysInOrder(job: Job, s: Sender, line: seq<Event>)
    requires InStep(job, s)
    ensures InOrder(job, History(job, s, line))
    ensures var h := History(job, s, line);
      s.phase != Ended && s.phase != Handshake ==> h != [] && h[0].number == Number(job, s) && h[0].reply == Reply(line)
    ensures s.phase == Handshake ==> var h := History(job, s, line); h != [] && h[0].number == 1
    decreases |line|, Rank(s.phase), s.size, RETRIES - s.errors
  {
    if s.phase == Handshake {
      FileStartInStep(job);
      StaysInOrder(job, FileStart(job), Tail(line));
    } else if s.phase != Ended {
      RepliesMoveOn(job, s, Reply(line));
      SendsItsFrame(job, s);
      var next := OnReply(job, s, Reply(line));
      StaysInOrder(job, next, Tail(line));
      var x := Sending(Number(job, s), Outgoing(job, s), Reply(line));
      BeginsInOrder(job, History(job, s, line), x, History(job, next, Tail(line)));
    }
  }

  /** How often what s is sending may still be sent, in the phases that count every answer but ACK. */
  lemma {:induction false} FewLeft(job: Job, s: Sender, line: seq<Event>, i: nat)
    requires InStep(job, s) && (s.phase == Data || s.phase == Eot)
    requires i < |History(job, s, line)| && History(job, s, line)[i].number == Number(job, s)
    ensures i < RETRIES - s.errors
    decreases RETRIES - s.errors
  {
    if i > 0 {
      var next, rest := OnReply(job, s, Reply(line)), Tail(line);
      CountsOrMoves(job, s, Reply(line));
      HistoryBehind(job, s, line, i);
      if next.phase == s.phase && next.errors > s.errors {
        FewLeft(job, next, rest, i - 1);
      } else if next.phase != Ended {
        NumbersGrow(job, next, rest, i - 1);
      }
    }
  }

  lemma CountsOrMoves(job: Job, s: Sender, e: Event)
    requires InStep(job, s) && (s.phase == Data || s.phase == Eot)
    ensures var next := OnReply(job, s, e);
      && InStep(job, next) && next.phase != Handshake
      && (|| next.phase == Ended
          || (next.phase == s.phase && next.errors == s.errors + 1 && Number(job, next) == Number(job, s))
          || Number(job, next) > Number(job, s))
  {
    RepliesMoveOn(job, s, e);
  }

  /** Where the rest of a history stands in it. */
  lemma HistoryBehind(job: Job, s: Sender, line: seq<Event>, i: nat)
    requires Good(job, s) && s.phase != Handshake && 0 < i < |History(job, s, line)|
    ensures s.phase != Ended
    ensures var rest := History(job, OnReply(job, s, Reply(line)), Tail(line));
      i - 1 < |rest| && History(job, s, line)[i] == rest[i - 1]
  {
    var x := Sending(Number(job, s), Outgoing(job, s), Reply(line));
    IndexBehind(History(job, s, line), x, History(job, OnReply(job, s, Reply(line)), Tail(line)), i);
  }

  lemma IndexBehind<T>(all: seq<T>, x: T, rest: seq<T>, i: nat)
    requires all == [x] + rest && 0 < i < |all|
    ensures i - 1 < |rest| && all[i] == rest[i - 1]
  {
  }

  lemma {:induction false} NeverGoesBack(h: seq<Sending>, i: nat)
    requires i < |h| && forall k :: 0 < k < |h| ==> MovesOn(h, k)
    ensures h[i].number >= h[0].number
  {
    if i > 0 {
      NeverGoesBack(h, i - 1);
      assert MovesOn(h, i);
    }
  }

  lemma NumbersGrow(job: Job, s: Sender, line: seq<Event>, i: nat)
    requires InStep(job, s) && s.phase != Ended && s.phase != Handshake && i < |History(job, s, line)|
    ensures History(job, s, line)[i].number >= Number(job, s)
  {
    StaysInOrder(job, s, line);
    NeverGoesBack(History(job, s, line), i);
  }

  /** Ten places behind a block or EOT something else is sent. */
  predicate Outgrown(h: seq<Sending>, count: nat, i: nat) {
    i + 10 < |h| && 1 <= h[i].number <= count + 1 ==> h[i + 10].number > h[i].number
  }

  lemma OutgrownBehind(all: seq<Sending>, x: Sending, rest: seq<Sending>, count: nat, i: nat)
    requires all == [x] + rest && Outgrown(rest, count, i)
    ensures Outgrown(all, count, i + 1)
  {
  }

  lemma FirstOutgrown(job: Job, s: Sender, line: seq<Event>)
    requires InStep(job, s) && s.phase != Ended && s.phase != Handshake
    ensures Outgrown(History(job, s, line), Count(job), 0)
  {
    var h := History(job, s, line);
    if RETRIES < |h| && (s.phase == Data || s.phase == Eot) {
      NumbersGrow(job, s, line, RETRIES);
      if h[RETRIES].number == Number(job, s) { FewLeft(job, s, line, RETRIES); }
    }
  }

  lemma OutgrownLater(job: Job, s: Sender, line: seq<Event>, rest: seq<Sending>, count: nat, i: nat)
    requires Good(job, s) && s.phase != Ended && s.phase != Handshake && Outgrown(rest, count, i)
    requires rest == History(job, OnReply(job, s, Reply(line)), Tail(line))
    ensures Outgrown(History(job, s, line), count, i + 1)
  {
    OutgrownBehind(History(job, s, line), Sending(Number(job, s), Outgoing(job, s), Reply(line)), rest, count, i);
  }

  lemma HandshakeSendsNothing(job: Job, s: Sender, line: seq<Event>)
    requires Good(job, s) && s.phase == Handshake
    ensures History(job, s, line) == History(job, FileStart(job), Tail(line))
  {
  }

  /** No block and no EOT is sent more than ten times. */
  lemma {:induction false} AtMostTenTimes(job: Job, s: Sender, line: seq<Event>, i: nat)
    requires InStep(job, s)
    ensures Outgrown(History(job, s, line), Count(job), i)
    decreases |line|, Rank(s.phase), s.size, RETRIES - s.errors
  {
    if s.phase == Ended {
    } else if s.phase == Handshake {
      FileStartInStep(job);
      HandshakeSendsNothing(job, s, line);
      AtMostTenTimes(job, FileStart(job), Tail(line), i);
    } else if i == 0 {
      FirstOutgrown(job, s, line);
    } else {
      var next := OnReply(job, s, Reply(line));
      RepliesMoveOn(job, s, Reply(line));
      AtMostTenTimes(job, next, Tail(line), i - 1);
      OutgrownLater(job, s, line, History(job, next, Tail(line)), Count(job), i - 1);
    }
  }

  /** Something was sent; with code 0 the EOT behind the closing header was the last. */
  predicate EndsWith(h: seq<Sending>, code: nat, last: nat) {
    (code == 0 || code == RETRIES) && h != [] && (code == 0 ==> h[|h| - 1].number == last)
  }

  lemma EndsBehind(all: seq<Sending>, x: Sending, rest: seq<Sending>, code: nat, last: nat)
    requires all == [x] + rest && EndsWith(rest, code, last)
    ensures EndsWith(all, code, last)
  {
  }

  /** The transfer returns 0 or 10, and 0 only when everything up to the last EOT was sent, which takes an
      ACK for the header, for every block, for the first EOT and for the closing header. */
  lemma {:induction false} SuccessMeansAllAcknowledged(job: Job, s: Sender, line: seq<Event>)
    requires InStep(job, s) && s.phase != Ended
    ensures EndsWith(History(job, s, line), Run(job, s, line).code, Count(job) + 3)
    decreases |line|, Rank(s.phase), s.size, RETRIES - s.errors
  {
    var next := OnReply(job, s, Reply(line));
    StaysInStep(job, s, Reply(line));
    if next.phase == Ended {
      LastSending(job, s, line);
    } else {
      SuccessMeansAllAcknowledged(job, next, Tail(line));
      if s.phase != Handshake {
        var x := Sending(Number(job, s), Outgoing(job, s), Reply(line));
        EndsBehind(History(job, s, line), x, History(job, next, Tail(line)), Run(job, s, line).code, Count(job) + 3);
      }
    }
  }

  lemma LastSending(job: Job, s: Sender, line: seq<Event>)
    requires InStep(job, s) && s.phase != Ended && OnReply(job, s, Reply(line)).phase == Ended
    ensures EndsWith(History(job, s, line), Run(job, s, line).code, Count(job) + 3)
  {
    var next := OnReply(job, s, Reply(line));
    StaysInStep(job, s, Reply(line));
    assert History(job, next, Tail(line)) == [] && Run(job, next, Tail(line)) == Trace([], next.errors);
    assert History(job, s, line) == [Sending(Number(job, s), Outgoing(job, s), Reply(line))];
  }

  lemma {:induction false} EachAcknowledged(job: Job, h: seq<Sending>, k: nat)
    requires GoodJob(job) && InOrder(job, h) && h != [] && h[0].number <= k < h[|h| - 1].number
    ensures exists i :: 0 <= i < |h| && h[i].number == k && h[i].reply == Got(ACK)
    decreases |h|
  {
    if h[0].reply == Got(ACK) && h[0].number == k {
    } else {
      var rest := h[1..];
      assert MovesOn(h, 1);
      RestInOrder(job, h);
      EachAcknowledged(job, rest, k);
      var i :| 0 <= i < |rest| && rest[i].number == k && rest[i].reply == Got(ACK);
      assert h[i + 1] == rest[i];
    }
  }

  lemma RestInOrder(job: Job, h: seq<Sending>)
    requires GoodJob(job) && InOrder(job, h) && h != []
    ensures InOrder(job, h[1..])
  {
    var rest := h[1..];
    forall i | 0 <= i < |rest| ensures rest[i].bytes == Frame(job, rest[i].number) {
      assert rest[i] == h[i + 1];
    }
    forall i | 0 < i < |rest| ensures MovesOn(rest, i) {
      assert MovesOn(h, i + 1) && rest[i] == h[i + 1] && rest[i - 1] == h[i];
    }
  }

  /** Every transfer, whatever is heard: frames in order from the header on, each repeated byte for byte
      until it is ACKed, no block or EOT more than ten times; 0 is returned only if header, every block,
      EOT and closing header were ACKed, and 10 otherwise. */
  lemma EveryTransfer(job: Job, line: seq<Event>)
    requires GoodJob(job)
    ensures var t, h := Run(job, Start(), line), History(job, Start(), line);
      && |t.sent| == |h| && (forall i :: 0 <= i < |h| ==> t.sent[i] == Frame(job, h[i].number))
      && InOrder(job, h) && h != [] && h[0].number == 0
      && (forall i :: 0 <= i < |h| ==> Outgrown(h, Count(job), i))
      && (t.code == 0 || t.code == RETRIES)
      && (t.code == 0 ==> forall k :: 0 <= k <= Count(job) + 2 ==> Acknowledged(h, k))
  {
    var t, h := Run(job, Start(), line), History(job, Start(), line);
    HistoryOfRun(job, Start(), line);
    StaysInOrder(job, Start(), line);
    SuccessMeansAllAcknowledged(job, Start(), line);
    forall i | 0 <= i < |h| ensures Outgrown(h, Count(job), i) {
      AtMostTenTimes(job, Start(), line, i);
    }
    if t.code == 0 {
      forall k | 0 <= k <= Count(job) + 2 ensures Acknowledged(h, k) {
        EachAcknowledged(job, h, k);
      }
    }
  }

  predicate Acknowledged(h: seq<Sending>, k: nat) {
    exists i :: 0 <= i < |h| && h[i].number == k && h[i].reply == Got(ACK)
  }
}
