/** When a transfer is a success: the value returned, on the replies that were heard. */
module YmodemOutcome {
  import opened Flash
  import opened YmodemPacket
  import opened YmodemSender
  import opened YmodemTransfers

  /** How often the sender of number k has heard nothing. */
  function Silences(h: seq<Sending>, k: nat): (n: nat) {
    if h == [] then 0
    else (if h[0].number == k && h[0].reply == Silence then 1 else 0) + Silences(h[1..], k)
  }

  /** Everything from number `from` to the closing header was ACKed. */
  predicate AllAcked(h: seq<Sending>, from: nat, count: nat) {
    forall k :: from <= k <= count + 2 ==> Acknowledged(h, k)
  }

  /** The EOT behind the closing header was ACKed, or fewer than nine timeouts came before it. */
  predicate EndsWell(h: seq<Sending>, timeouts: nat) {
    h != [] && (timeouts < 9 || h[|h| - 1].reply == Got(ACK))
  }

  // ---- one sending more at the front of a history ----

  lemma AckedBehind(all: seq<Sending>, x: Sending, rest: seq<Sending>, k: nat)
    requires all == [x] + rest
    ensures Acknowledged(all, k) <==> (x.number == k && x.reply == Got(ACK)) || Acknowledged(rest, k)
  {
    if Acknowledged(all, k) {
      var i :| 0 <= i < |all| && all[i].number == k && all[i].reply == Got(ACK);
      assert i > 0 ==> all[i] == rest[i - 1];
    }
    if Acknowledged(rest, k) {
      var i :| 0 <= i < |rest| && rest[i].number == k && rest[i].reply == Got(ACK);
      assert all[i + 1] == rest[i];
    }
    if x.number == k && x.reply == Got(ACK) { assert all[0] == x; }
  }

  lemma AllAckedBehind(all: seq<Sending>, x: Sending, rest: seq<Sending>, count: nat)
    requires all == [x] + rest
    ensures x.reply == Got(ACK) ==> (AllAcked(all, x.number, count) <==> AllAcked(rest, x.number + 1, count))
    ensures x.reply != Got(ACK) ==> (AllAcked(all, x.number, count) <==> AllAcked(rest, x.number, count))
  {
    forall k: nat
      ensures Acknowledged(all, k) <==> (x.number == k && x.reply == Got(ACK)) || Acknowledged(rest, k)
    {
      AckedBehind(all, x, rest, k);
    }
  }

  lemma SilencesBehind(all: seq<Sending>, x: Sending, rest: seq<Sending>, k: nat)
    requires all == [x] + rest
    ensures Silences(all, k) == (if x.number == k && x.reply == Silence then 1 else 0) + Silences(rest, k)
  {
    assert all[1..] == rest;
  }

  lemma EndsWellBehind(all: seq<Sending>, x: Sending, rest: seq<Sending>, timeouts: nat)
    requires all == [x] + rest && rest != []
    ensures EndsWell(all, timeouts) <==> EndsWell(rest, timeouts)
  {
  }

  // ---- the code ----

  /** The timeouts of the closing loop: those counted so far, and those to come. */
  function ClosingTimeouts(job: Job, s: Sender, h: seq<Sending>): (n: nat)
    requires GoodJob(job)
  {
    (if s.phase == Closing || s.phase == FinalEot then s.errors else 0) + Silences(h, Count(job) + 2)
  }

  /** The first number that is still to be ACKed. */
  function Wanted(job: Job, s: Sender): (k: nat)
    requires GoodJob(job)
  {
    if s.phase == Handshake then 1 else Number(job, s)
  }

  predicate Succeeds(job: Job, s: Sender, h: seq<Sending>)
    requires GoodJob(job)
  {
    AllAcked(h, Wanted(job, s), Count(job)) && EndsWell(h, ClosingTimeouts(job, s, h))
  }

  lemma {:induction false} CodeFrom(job: Job, s: Sender, line: seq<Event>)
    requires InStep(job, s) && s.phase != Ended
    ensures Run(job, s, line).code == 0 <==> Succeeds(job, s, History(job, s, line))
    decreases |line|, Rank(s.phase), s.size, RETRIES - s.errors
  {
    var next := OnReply(job, s, Reply(line));
    StaysInStep(job, s, Reply(line));
    if next.phase == Ended {
      LastReply(job, s, line);
    } else {
      CodeFrom(job, next, Tail(line));
      if s.phase == Handshake {
        FileStartInStep(job);
      } else {
        var x := Sending(Number(job, s), Outgoing(job, s), Reply(line));
        SuccessBehind(job, s, x, History(job, s, line), History(job, next, Tail(line)));
      }
    }
  }

  /** The reply that ends a transfer. */
  lemma LastReply(job: Job, s: Sender, line: seq<Event>)
    requires InStep(job, s) && s.phase != Ended && OnReply(job, s, Reply(line)).phase == Ended
    ensures Run(job, s, line).code == 0 <==> Succeeds(job, s, History(job, s, line))
  {
    var next, h := OnReply(job, s, Reply(line)), History(job, s, line);
    StaysInStep(job, s, Reply(line));
    var x := Sending(Number(job, s), Outgoing(job, s), Reply(line));
    assert History(job, next, Tail(line)) == [] && h == [x] + [];
    SilencesBehind(h, x, [], Count(job) + 2);
    AckedBehind(h, x, [], Count(job) + 2);
    assert Run(job, next, Tail(line)) == Trace([], next.errors);
  }

  /** Any other reply: what is still to come decides. */
  lemma SuccessBehind(job: Job, s: Sender, x: Sending, all: seq<Sending>, rest: seq<Sending>)
    requires InStep(job, s) && s.phase != Ended && s.phase != Handshake
    requires x.number == Number(job, s) && all == [x] + rest && rest != []
    requires var next := OnReply(job, s, x.reply); InStep(job, next) && next.phase != Ended
    ensures Succeeds(job, s, all) <==> Succeeds(job, OnReply(job, s, x.reply), rest)
  {
    var next := OnReply(job, s, x.reply);
    RepliesMoveOn(job, s, x.reply);
    AllAckedBehind(all, x, rest, Count(job));
    SilencesBehind(all, x, rest, Count(job) + 2);
    assert ClosingTimeouts(job, s, all) == ClosingTimeouts(job, next, rest);
    EndsWellBehind(all, x, rest, ClosingTimeouts(job, s, all));
  }

  /** Every transfer, whatever is heard: it returns 0 if and only if header, every block, the first EOT and the
      closing header were ACKed, and either the EOT behind it was or fewer than nine timeouts fell in the loop
      around the closing header. In every other case it returns 10. */
  lemma ZeroIffAcknowledged(job: Job, line: seq<Event>)
    requires GoodJob(job)
    ensures var code, h := Run(job, Start(), line).code, History(job, Start(), line);
      && (code == 0 || code == 10) && h != []
      && (code == 0 <==>
            && (forall k :: 0 <= k <= Count(job) + 2 ==> Acknowledged(h, k))
            && (Silences(h, Count(job) + 2) < 9 || h[|h| - 1].reply == Got(ACK)))
  {
    CodeFrom(job, Start(), line);
    SuccessMeansAllAcknowledged(job, Start(), line);
  }

  // ---- ten tries for each block ----

  /** The last ten things sent, or all if there are not so many, are the same, and none of them was ACKed. */
  predicate LastTenRefused(h: seq<Sending>) {
    forall i :: 0 <= i < |h| && |h| <= i + 10 ==> h[i].number == h[|h| - 1].number && h[i].reply != Got(ACK)
  }

  /** A history that ends with a block or the first EOT has run through its tries, of which some are counted
      already. */
  predicate OutOfTries(h: seq<Sending>, count: nat, counted: nat) {
    h != [] && (1 <= h[|h| - 1].number <= count + 1 ==> |h| + counted >= 10 && LastTenRefused(h))
  }

  /** The tries that count for a block or the first EOT. */
  function Counted(s: Sender): (n: nat) {
    if s.phase == Data || s.phase == Eot then s.errors else 0
  }

  lemma OutOfTriesBehind(all: seq<Sending>, x: Sending, rest: seq<Sending>, count: nat, counted: nat)
    requires all == [x] + rest && OutOfTries(rest, count, counted)
    requires counted == 0 || (counted <= 9 && x.number == rest[0].number && x.reply != Got(ACK))
    ensures OutOfTries(all, count, if counted == 0 then 0 else counted - 1)
  {
    if 1 <= all[|all| - 1].number <= count + 1 {
      forall i | 0 <= i < |all| && |all| <= i + 10
        ensures all[i].number == all[|all| - 1].number && all[i].reply != Got(ACK)
      {
        if i > 0 {
          assert all[i] == rest[i - 1];
        } else {
          assert rest[0].number == rest[|rest| - 1].number;
        }
      }
    }
  }

  lemma GivesUpHere(job: Job, s: Sender, line: seq<Event>)
    requires InStep(job, s) && s.phase != Ended && OnReply(job, s, Reply(line)).phase == Ended
    ensures Run(job, s, line).code != 0 ==> OutOfTries(History(job, s, line), Count(job), Counted(s))
  {
    var next := OnReply(job, s, Reply(line));
    StaysInStep(job, s, Reply(line));
    RepliesMoveOn(job, s, Reply(line));
    assert Run(job, next, Tail(line)) == Trace([], next.errors) && History(job, next, Tail(line)) == [];
    assert History(job, s, line) == [Sending(Number(job, s), Outgoing(job, s), Reply(line))];
  }

  lemma TriesCount(job: Job, s: Sender, e: Event)
    requires InStep(job, s) && s.phase != Ended && s.phase != Handshake
    ensures var next := OnReply(job, s, e);
      && InStep(job, next)
      && (next.phase != Ended ==>
            || (Counted(next) == 0 && Counted(s) <= 9)
            || (Counted(next) == Counted(s) + 1 <= 9 && Number(job, next) == Number(job, s) && e != Got(ACK)))
  {
    RepliesMoveOn(job, s, e);
  }

  lemma FirstNumber(job: Job, s: Sender, line: seq<Event>)
    requires Good(job, s) && s.phase != Ended && s.phase != Handshake
    ensures History(job, s, line) != [] && History(job, s, line)[0].number == Number(job, s)
  {
  }

  lemma {:induction false} GivesUpFrom(job: Job, s: Sender, line: seq<Event>)
    requires InStep(job, s) && s.phase != Ended && Run(job, s, line).code != 0
    ensures OutOfTries(History(job, s, line), Count(job), Counted(s))
    decreases |line|, Rank(s.phase), s.size, RETRIES - s.errors
  {
    var next := OnReply(job, s, Reply(line));
    StaysInStep(job, s, Reply(line));
    if next.phase == Ended {
      GivesUpHere(job, s, line);
    } else {
      GivesUpFrom(job, next, Tail(line));
      if s.phase != Handshake {
        TriesCount(job, s, Reply(line));
        if next.phase != Handshake { FirstNumber(job, next, Tail(line)); }
        var x := Sending(Number(job, s), Outgoing(job, s), Reply(line));
        OutOfTriesBehind(History(job, s, line), x, History(job, next, Tail(line)), Count(job), Counted(next));
      }
    }
  }

  /** A transfer that gives up on a block or the first EOT has sent it ten times in a row, whatever errors came
      before, and none of the ten was ACKed. */
  lemma GivesUpAfterTen(job: Job, line: seq<Event>)
    requires GoodJob(job) && Run(job, Start(), line).code != 0
    ensures var h := History(job, Start(), line); var n := |h|;
      n > 0 && (1 <= h[n - 1].number <= Count(job) + 1 ==>
        n >= 10 && forall i :: n - 10 <= i < n ==> h[i].number == h[n - 1].number && h[i].reply != Got(ACK))
  {
    GivesUpFrom(job, Start(), line);
  }

  // ---- the transfer in which everything is ACKed ----

  function Acks(n: nat): (line: seq<Event>) {
    if n == 0 then [] else [Got(ACK)] + Acks(n - 1)
  }

  /** n things were sent, and each was ACKed at once. */
  predicate AckedAtOnce(h: seq<Sending>, n: nat) {
    |h| == n && forall i :: 0 <= i < |h| ==> h[i].reply == Got(ACK)
  }

  lemma AckedAtOnceBehind(all: seq<Sending>, x: Sending, rest: seq<Sending>, n: nat)
    requires all == [x] + rest && x.reply == Got(ACK) && AckedAtOnce(rest, n)
    ensures AckedAtOnce(all, n + 1)
  {
  }

  lemma OneMoreAcked(job: Job, s: Sender, line: seq<Event>, rest: seq<Event>, n: nat)
    requires Good(job, s) && s.phase != Handshake && s.phase != Ended && Reply(line) == Got(ACK) && rest == Tail(line)
    requires var next := OnReply(job, s, Got(ACK));
      Run(job, next, rest).code == 0 && AckedAtOnce(History(job, next, rest), n)
    ensures Run(job, s, line).code == 0 && AckedAtOnce(History(job, s, line), n + 1)
  {
    var x := Sending(Number(job, s), Outgoing(job, s), Got(ACK));
    AckedAtOnceBehind(History(job, s, line), x, History(job, OnReply(job, s, Got(ACK)), rest), n);
  }

  lemma {:induction false} AckedFrom(job: Job, s: Sender, n: nat)
    requires InStep(job, s) && s.errors == 0 && s.phase != Header && s.phase != Handshake
    requires n == if s.phase == Ended then 0 else Count(job) + 4 - Number(job, s)
    ensures Run(job, s, Acks(n)).code == 0 && AckedAtOnce(History(job, s, Acks(n)), n)
    decreases n
  {
    if s.phase != Ended {
      var next := OnReply(job, s, Got(ACK));
      AckMovesOn(job, s);
      AckedFrom(job, next, n - 1);
      RepliesAre(n);
      OneMoreAcked(job, s, Acks(n), Acks(n - 1), n - 1);
    }
  }

  lemma RepliesAre(n: nat)
    requires n > 0
    ensures Reply(Acks(n)) == Got(ACK) && Tail(Acks(n)) == Acks(n - 1)
  {
  }

  lemma AckMovesOn(job: Job, s: Sender)
    requires InStep(job, s) && s.errors == 0 && s.phase != Header && s.phase != Handshake && s.phase != Ended
    ensures Number(job, s) <= Count(job) + 3
    ensures var next := OnReply(job, s, Got(ACK));
      && InStep(job, next) && next.errors == 0 && next.phase != Header && next.phase != Handshake
      && (if s.phase == FinalEot then next.phase == Ended
          else next.phase != Ended && Number(job, next) == Number(job, s) + 1)
  {
    RepliesMoveOn(job, s, Got(ACK));
  }

  lemma {:induction false} NumbersCount(h: seq<Sending>, i: nat)
    requires i < |h| && h[0].number == 0 && AckedAtOnce(h, |h|) && forall k :: 0 < k < |h| ==> MovesOn(h, k)
    ensures h[i].number == i
  {
    if i > 0 {
      NumbersCount(h, i - 1);
      assert MovesOn(h, i);
    }
  }

  /** The header and the byte behind its ACK. */
  lemma HeaderAckedFirst(job: Job, handshake: Event, rest: seq<Event>)
    requires GoodJob(job)
    requires Run(job, FileStart(job), rest).code == 0 && AckedAtOnce(History(job, FileStart(job), rest), Count(job) + 3)
    ensures var line := [Got(ACK), handshake] + rest;
      Run(job, Start(), line).code == 0 && AckedAtOnce(History(job, Start(), line), Count(job) + 4)
  {
    var line, offered := [Got(ACK), handshake] + rest, OnReply(job, Start(), Got(ACK));
    assert Tail(line) == [handshake] + rest && Tail([handshake] + rest) == rest;
    assert Run(job, offered, [handshake] + rest).code == Run(job, FileStart(job), rest).code;
    assert History(job, offered, [handshake] + rest) == History(job, FileStart(job), rest);
    var x := Sending(0, Outgoing(job, Start()), Got(ACK));
    AckedAtOnceBehind(History(job, Start(), line), x, History(job, FileStart(job), rest), Count(job) + 3);
  }

  /** ACK for the header, any one reply behind it, and ACK from then on: every frame goes out once, in order,
      and the transfer returns 0. */
  lemma AllAcknowledged(job: Job, handshake: Event)
    requires GoodJob(job)
    ensures var t := Run(job, Start(), [Got(ACK), handshake] + Acks(Count(job) + 3));
      t.code == 0 && |t.sent| == Count(job) + 4 && forall k :: 0 <= k < |t.sent| ==> t.sent[k] == Frame(job, k)
  {
    var line := [Got(ACK), handshake] + Acks(Count(job) + 3);
    FileStartInStep(job);
    AckedFrom(job, FileStart(job), Count(job) + 3);
    HeaderAckedFirst(job, handshake, Acks(Count(job) + 3));
    EveryTransfer(job, line);
    var h := History(job, Start(), line);
    forall k | 0 <= k < |h| ensures h[k].number == k { NumbersCount(h, k); }
  }
}
