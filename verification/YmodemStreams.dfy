/** The sender on replies that never end: which of its loops are sure to be left. */
module YmodemStreams {
  import opened Flash
  import opened YmodemPacket
  import opened YmodemSender
  import opened YmodemTransfers

  /** An endless line of replies. */
  type Stream = nat -> Event

  /** The sender once it has heard one more reply, if it still listens, and what it sent before that. */
  function HeardNext(job: Job, s: Sender, e: Event): (r: Sender)
    requires Good(job, s)
    ensures Good(job, r)
  {
    if s.phase == Ended then s else OnReply(job, s, e)
  }

  function SentNext(job: Job, s: Sender): (sent: seq<seq<byte>>)
    requires Good(job, s)
  {
    if s.phase == Ended then [] else Sent(Outgoing(job, s))
  }

  /** The sender once it has heard the first k replies. */
  function After(job: Job, s: Sender, line: Stream, k: nat): (r: Sender)
    requires Good(job, s)
    ensures Good(job, r)
  {
    if k == 0 then s else HeardNext(job, After(job, s, line, k - 1), line(k - 1))
  }

  /** Everything it has sent by then, each time before it waited. */
  function SentBefore(job: Job, s: Sender, line: Stream, k: nat): (sent: seq<seq<byte>>)
    requires Good(job, s)
  {
    if k == 0 then [] else SentBefore(job, s, line, k - 1) + SentNext(job, After(job, s, line, k - 1))
  }

  /** `all` is a transfer that has sent this so far, and goes on from s with what is left of the line. */
  predicate GoesOn(all: Trace, sent: seq<seq<byte>>, job: Job, s: Sender, left: seq<Event>)
    requires Good(job, s)
  {
    all.sent == sent + Run(job, s, left).sent && all.code == Run(job, s, left).code
  }

  lemma RunUnfolds(job: Job, s: Sender, left: seq<Event>)
    requires Good(job, s) && left != []
    ensures var rest := Run(job, HeardNext(job, s, left[0]), left[1..]);
      Run(job, s, left).sent == SentNext(job, s) + rest.sent && Run(job, s, left).code == rest.code
  {
  }

  lemma GoesOnNext(all: Trace, job: Job, sent: seq<seq<byte>>, s: Sender, left: seq<Event>,
          sent': seq<seq<byte>>, s': Sender, left': seq<Event>)
    requires Good(job, s) && left != [] && GoesOn(all, sent, job, s, left)
    requires sent' == sent + SentNext(job, s) && s' == HeardNext(job, s, left[0]) && left' == left[1..]
    ensures GoesOn(all, sent', job, s', left')
  {
    RunUnfolds(job, s, left);
    Regroups(sent, SentNext(job, s), Run(job, s', left').sent);
  }

  lemma Regroups<T>(a: seq<T>, b: seq<T>, c: seq<T>)
    ensures a + (b + c) == a + b + c
  {
  }

  predicate Begins(stream: Stream, line: seq<Event>, k: nat) {
    k <= |line| && forall i :: 0 <= i < k ==> stream(i) == line[i]
  }

  lemma BeginsShorter(stream: Stream, line: seq<Event>, k: nat)
    requires k > 0 && Begins(stream, line, k)
    ensures Begins(stream, line, k - 1) && stream(k - 1) == line[k - 1..][0]
  {
  }

  /** On the first replies of a finite line the transfer does what it does on any stream that begins so. */
  lemma {:induction false} RunFollows(job: Job, s: Sender, line: seq<Event>, stream: Stream, k: nat)
    requires Good(job, s) && Begins(stream, line, k)
    ensures GoesOn(Run(job, s, line), SentBefore(job, s, stream, k), job, After(job, s, stream, k), line[k..])
  {
    if k == 0 {
      DropsNone(line);
    } else {
      BeginsShorter(stream, line, k);
      RunFollows(job, s, line, stream, k - 1);
      DropsOneMore(line, k - 1);
      GoesOnNext(Run(job, s, line), job, SentBefore(job, s, stream, k - 1), After(job, s, stream, k - 1), line[k - 1..],
        SentBefore(job, s, stream, k), After(job, s, stream, k), line[k..]);
    }
  }

  // ---- the loops that count every answer but ACK ----

  predicate Counting(s: Sender) {
    s.phase == Data || s.phase == Eot
  }

  /** How many more replies the block loops and the EOT loop can hear. */
  function Budget(job: Job, s: Sender): (n: int)
    requires GoodJob(job)
  {
    if s.phase == Data then RETRIES * (Count(job) + 2 - s.blk) - s.errors else RETRIES - s.errors
  }

  lemma ReplySpends(job: Job, s: Sender, e: Event)
    requires InStep(job, s) && s.phase != Ended && (Counting(OnReply(job, s, e)) ==> s.phase != Handshake)
    ensures var next := OnReply(job, s, e);
      InStep(job, next) && (Counting(next) ==> Counting(s) && 0 < Budget(job, next) < Budget(job, s))
  {
    if s.phase == Handshake {
      FileStartInStep(job);
    } else {
      RepliesMoveOn(job, s, e);
    }
  }

  lemma {:induction false} StreamSpends(job: Job, s: Sender, line: Stream, k: nat)
    requires InStep(job, s) && Counting(s)
    ensures var r := After(job, s, line, k);
      && InStep(job, r) && r.phase != Header && r.phase != Handshake
      && (Counting(r) ==> 0 < Budget(job, r) <= Budget(job, s) - k)
  {
    if k > 0 {
      StreamSpends(job, s, line, k - 1);
      var before := After(job, s, line, k - 1);
      if before.phase != Ended { ReplySpends(job, before, line(k - 1)); }
    }
  }

  /** Whatever is heard, without end: the file and its EOT take at most ten sends a block and ten for the EOT. */
  lemma DataPhaseEnds(job: Job, line: Stream, k: nat)
    requires GoodJob(job) && k >= 10 * (Count(job) + 1)
    ensures !Counting(After(job, FileStart(job), line, k))
  {
    FileStartInStep(job);
    StreamSpends(job, FileStart(job), line, k);
  }

  // ---- the loops around the header and the closing header ----

  function Silences(line: Stream, k: nat): (n: nat)
    ensures n <= k
  {
    if k == 0 then 0 else Silences(line, k - 1) + if line(k - 1) == Silence then 1 else 0
  }

  predicate NoAck(line: Stream, k: nat) {
    forall i :: 0 <= i < k ==> line(i) != Got(ACK)
  }

  predicate GoesOnOffering(line: Stream, k: nat) {
    NoAck(line, k) && Silences(line, k) < RETRIES
  }

  function Copies(f: seq<byte>, k: nat): (sent: seq<seq<byte>>) {
    seq(k, _ => f)
  }

  /** These loops go on exactly as long as there is no ACK and fewer than ten timeouts, however many other
      bytes arrive; each of them makes the packet go out again. */
  lemma OfferGoesOnIff(job: Job, s: Sender, line: Stream, k: nat)
    requires Good(job, s) && (s.phase == Header || s.phase == Closing) && s.errors == 0
    ensures var goesOn := NoAck(line, k) && Silences(line, k) < 10;
      && (After(job, s, line, k).phase == s.phase <==> goesOn)
      && (!goesOn ==> Rank(After(job, s, line, k).phase) < Rank(s.phase))
      && (goesOn ==> After(job, s, line, k) == s.(errors := Silences(line, k))
                     && SentBefore(job, s, line, k) == Copies(Outgoing(job, s), k))
  {
    if GoesOnOffering(line, k) {
      StillOffering(job, s, line, k);
    } else {
      OfferLeft(job, s, line, k);
    }
  }

  lemma {:induction false} StillOffering(job: Job, s: Sender, line: Stream, k: nat)
    requires Good(job, s) && (s.phase == Header || s.phase == Closing) && s.errors == 0 && GoesOnOffering(line, k)
    ensures After(job, s, line, k) == s.(errors := Silences(line, k))
    ensures SentBefore(job, s, line, k) == Copies(Outgoing(job, s), k)
  {
    if k > 0 {
      StillOffering(job, s, line, k - 1);
      OfferedAgain(job, s, line(k - 1), Silences(line, k - 1));
      OneMoreCopy(Outgoing(job, s), k);
    }
  }

  lemma OfferedAgain(job: Job, s: Sender, e: Event, n: nat)
    requires Good(job, s) && (s.phase == Header || s.phase == Closing) && s.errors == 0 && n < RETRIES && e != Got(ACK)
    ensures var now := s.(errors := n); var silent := if e == Silence then 1 else 0;
      && SentNext(job, now) == [Outgoing(job, s)]
      && if n + silent < RETRIES then HeardNext(job, now, e) == s.(errors := n + silent)
         else HeardNext(job, now, e).phase == Ended
  {
  }

  lemma OneMoreCopy(f: seq<byte>, k: nat)
    requires k > 0
    ensures Copies(f, k - 1) + [f] == Copies(f, k)
  {
  }

  lemma {:induction false} OfferLeft(job: Job, s: Sender, line: Stream, k: nat)
    requires Good(job, s) && (s.phase == Header || s.phase == Closing) && s.errors == 0 && !GoesOnOffering(line, k)
    ensures Rank(After(job, s, line, k).phase) < Rank(s.phase)
  {
    if k > 0 {
      OffersLonger(line, k);
      if GoesOnOffering(line, k - 1) {
        StillOffering(job, s, line, k - 1);
        LastOffer(job, s, line(k - 1), Silences(line, k - 1));
      } else {
        OfferLeft(job, s, line, k - 1);
        PhasesFall(job, After(job, s, line, k - 1), line(k - 1));
      }
    }
  }

  lemma OffersLonger(line: Stream, k: nat)
    requires k > 0
    ensures var silent := if line(k - 1) == Silence then 1 else 0;
      GoesOnOffering(line, k) <==>
        GoesOnOffering(line, k - 1) && line(k - 1) != Got(ACK) && Silences(line, k - 1) + silent < RETRIES
  {
  }

  lemma LastOffer(job: Job, s: Sender, e: Event, n: nat)
    requires Good(job, s) && (s.phase == Header || s.phase == Closing) && s.errors == 0 && n < RETRIES
    requires e == Got(ACK) || n + (if e == Silence then 1 else 0) >= RETRIES
    ensures Rank(HeardNext(job, s.(errors := n), e).phase) < Rank(s.phase)
  {
  }

  lemma PhasesFall(job: Job, s: Sender, e: Event)
    requires Good(job, s)
    ensures Rank(HeardNext(job, s, e).phase) <= Rank(s.phase)
  {
  }

  /** What a lost ACK of the header leads to: the receiver answers each repeated header with NAK, and the
      sender repeats the header for each NAK, without end. */
  lemma HeaderLivelock(job: Job, k: nat)
    requires GoodJob(job)
    ensures var naks: Stream := _ => Got(NAK);
      && After(job, Start(), naks, k) == Start()
      && SentBefore(job, Start(), naks, k) == Copies(Frame(job, 0), k)
  {
    var naks: Stream := _ => Got(NAK);
    NoSilence(k);
    OfferGoesOnIff(job, Start(), naks, k);
    SendsItsFrame(job, Start());
  }

  lemma {:induction false} NoSilence(k: nat)
    ensures Silences(_ => Got(NAK), k) == 0
  {
    if k > 0 { NoSilence(k - 1); }
  }
}
