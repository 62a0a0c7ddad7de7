/** The region a file is received into, and the writes behind its end. The receiver erases the region and
    holds the announced size against it, but the data only against the device. */
module YmodemRegion {
  import opened Flash
  import opened CheckSum
  import opened StringUtils
  import opened YmodemPacket
  import opened YmodemReceiver
  import opened YmodemSessions
  import opened YmodemSender
  import opened YmodemTransfers
  import opened YmodemLink
  import opened YmodemLinkSafety
  import opened YmodemRecovery

  // ---- any sender ----

  /** The writes of a session stay inside the region if and only if all it accepts fits. */
  lemma StaysInRegionIff(max: nat, flash: seq<byte>, dest: nat, ts: Turns)
    ensures var stores := Session(max, Initial(flash, dest), ts).stores;
      (forall s :: s in stores ==> InRegion(s, dest, max)) <==> |Joined(stores)| <= max
  {
    WritesAreContiguous(max, flash, dest, ts);
    RegionIff(Session(max, Initial(flash, dest), ts).stores, dest, max);
  }

  /** What is written comes in multiples of 128 bytes and inside the device. */
  predicate Whole(st: State) {
    WholeBlocks(|Joined(st.stores)|) && (st.stores != [] ==> st.dest <= |st.flash|)
  }

  predicate WholeBlocks(n: nat) {
    n % PACKET_SIZE == 0
  }

  lemma {:induction false} SessionsAreWhole(max: nat, flash: seq<byte>, dest: nat, ts: Turns)
    ensures Whole(Session(max, Initial(flash, dest), ts))
    decreases |ts|
  {
    if ts != [] {
      SessionsAreWhole(max, flash, dest, ts[..|ts| - 1]);
      SessionLast(max, Initial(flash, dest), ts);
      var before, t := Session(max, Initial(flash, dest), ts[..|ts| - 1]), ts[|ts| - 1];
      if before.result.None? { StepIsWhole(max, before, t); }
    }
  }

  lemma StepIsWhole(max: nat, st: State, t: Turn)
    requires Whole(st) && GoodTurn(t)
    ensures Whole(Step(max, st, t.outcome, t.buf))
  {
    if t.outcome.Packet? && t.buf[1] == st.packets % 0x100 && st.packets > 0 {
      DataIsWhole(st.(errors := 0), t.buf, t.outcome.length);
    }
  }

  lemma DataIsWhole(st: State, buf: seq<byte>, len: nat)
    requires Whole(st) && |buf| == BUFFER_SIZE && (len == PACKET_SIZE || len == PACKET_1K_SIZE)
    ensures Whole(OnData(st, buf, len))
  {
    if st.dest + len <= |st.flash| {
      var s := Store(st.dest, buf[1], buf[PACKET_HEADER..PACKET_HEADER + len]);
      JoinedNext(st.stores, s);
      WholeSum(|Joined(st.stores)|, len);
    }
  }

  lemma WholeSum(a: nat, len: nat)
    requires WholeBlocks(a) && (len == PACKET_SIZE || len == PACKET_1K_SIZE)
    ensures WholeBlocks(a + len)
  {
  }

  /** Some sender can make the receiver write behind the region. */
  ghost predicate CanOverrun(max: nat, flash: seq<byte>, dest: nat) {
    exists ts: Turns, s :: s in Session(max, Initial(flash, dest), ts).stores && !InRegion(s, dest, max)
  }

  /** Block i of nothing but zeros. */
  function ZeroBlock(i: nat): (t: Turn)
    ensures GoodTurn(t)
  {
    Turn(Packet(128), Framed(i % 0x100, Zeros(128), [0, 0]) + Zeros(896))
  }

  /** A header that announces an empty file, and k blocks all the same. */
  function Flood(k: nat): (ts: Turns) {
    if k == 0 then [HeaderOf(0)] else Flood(k - 1) + [ZeroBlock(k)]
  }

  /** Behind k blocks, with the next one wanted. */
  predicate HasWritten(st: State, size: nat, dest: nat, k: nat) {
    && st.result.None? && st.packets == k + 1 && st.dest == dest + PACKET_SIZE * k && |st.flash| == size
    && |Joined(st.stores)| == PACKET_SIZE * k
  }

  lemma {:induction false} FloodWrites(max: nat, flash: seq<byte>, dest: nat, k: nat)
    requires dest + PACKET_SIZE * k <= |flash|
    ensures HasWritten(Session(max, Initial(flash, dest), Flood(k)), |flash|, dest, k)
  {
    if k == 0 {
      FloodStarts(max, flash, dest);
    } else {
      FloodWrites(max, flash, dest, k - 1);
      SessionExtends(max, Initial(flash, dest), Flood(k - 1), ZeroBlock(k));
      BlockWrites(max, Session(max, Initial(flash, dest), Flood(k - 1)), |flash|, dest, k);
    }
  }

  lemma FloodStarts(max: nat, flash: seq<byte>, dest: nat)
    ensures HasWritten(Session(max, Initial(flash, dest), Flood(0)), |flash|, dest, 0)
  {
    SessionExtends(max, Initial(flash, dest), [], HeaderOf(0));
    assert [] + [HeaderOf(0)] == Flood(0);
    HeaderAccepted(max, flash, dest, 0);
  }

  lemma BlockWrites(max: nat, st: State, size: nat, dest: nat, k: nat)
    requires k > 0 && HasWritten(st, size, dest, k - 1) && dest + PACKET_SIZE * k <= size
    ensures HasWritten(Step(max, st, ZeroBlock(k).outcome, ZeroBlock(k).buf), size, dest, k)
  {
    JoinedNext(st.stores, Store(st.dest, k % 0x100, ZeroBlock(k).buf[PACKET_HEADER..PACKET_HEADER + 128]));
  }

  /** Whether some sender can make the receiver write behind the region: exactly if the device has room for
      the first multiple of 128 bytes that does not fit the region. */
  lemma CanOverrunIff(max: nat, flash: seq<byte>, dest: nat)
    ensures CanOverrun(max, flash, dest) <==> dest + PACKET_SIZE * (max / PACKET_SIZE + 1) <= |flash|
  {
    var k := max / PACKET_SIZE + 1;
    if dest + PACKET_SIZE * k <= |flash| {
      FloodWrites(max, flash, dest, k);
      StaysInRegionIff(max, flash, dest, Flood(k));
    }
    if CanOverrun(max, flash, dest) {
      var ts: Turns, s :| s in Session(max, Initial(flash, dest), ts).stores && !InRegion(s, dest, max);
      StaysInRegionIff(max, flash, dest, ts);
      SessionsAreWhole(max, flash, dest, ts);
      WritesAreContiguous(max, flash, dest, ts);
    }
  }

  // ---- this sender ----

  /** Once the EOT is through, the writes have stayed inside the region if and only if the padded file fits
      it; cells behind the region that the file runs over have lost bits, and the others have not. */
  lemma RegionKeptIff(job: Job, name: seq<byte>, flash: seq<byte>, dest: nat, max: nat, buf: seq<byte>, ms: seq<Move>)
    requires Sendable(job, name) && |buf| == BUFFER_SIZE
    requires Play(job, max, Begin(job, flash, dest, buf), ms).ended
    ensures var st := Play(job, max, Begin(job, flash, dest, buf), ms).st;
      && ((forall s :: s in st.stores ==> InRegion(s, dest, max)) <==> RoundedUp(job.size) <= max)
      && |st.flash| == |flash|
      && (dest + max <= |flash| ==> forall i :: dest + max <= i < |flash| ==>
            st.flash[i] == if i < dest + RoundedUp(job.size) then And(flash[i], Padded(job)[i - dest]) else flash[i])
  {
    var st := Play(job, max, Begin(job, flash, dest, buf), ms).st;
    SafeUnderLoss(job, name, flash, dest, max, buf, ms);
    RegionIff(st.stores, dest, max);
    if dest + max <= |flash| {
      forall i | dest + max <= i < |flash|
        ensures st.flash[i] ==
          if i < dest + RoundedUp(job.size) then And(flash[i], Padded(job)[i - dest]) else flash[i]
      {
        assert dest + |Padded(job)| <= |flash|;
        LaidCells(flash, dest, max, Padded(job), i);
      }
    }
  }

  /** Which files can be delivered at all: those the receiver admits, whether they stay in the region or not. */
  lemma DeliverableIff(job: Job, name: seq<byte>, flash: seq<byte>, dest: nat, max: nat, buf: seq<byte>)
    requires Sendable(job, name) && |buf| == BUFFER_SIZE
    ensures (exists ms :: Delivers(job, max, Begin(job, flash, dest, buf), ms)) <==> Admitted(job, flash, dest, max)
  {
    var first := Begin(job, flash, dest, buf);
    assert Play(job, max, first, []) == first;
    assert Position(first) == Acks(first.bwd) == first.st.packets == 0;
    RecoversIff(job, name, flash, dest, max, buf, []);
  }

  // ---- one byte too long ----

  /** The run delivers the file, and the cell behind the region has taken the file's last byte. */
  predicate DeliversOver(job: Job, flash: seq<byte>, dest: nat, max: nat, buf: seq<byte>, ms: seq<Move>)
    requires GoodJob(job) && |buf| == BUFFER_SIZE && job.size == max + 1
  {
    var end := Play(job, max, Begin(job, flash, dest, buf), ms);
    && end.st.result == Some(job.size) && dest + max < |end.st.flash| == |flash|
    && end.st.flash[dest + max] == And(flash[dest + max], Content(job)[max])
  }

  /** A file one byte longer than the region is admitted wherever the device goes on; without any loss it is
      delivered, and its last byte programmed over what stands behind the region. */
  lemma OneByteTooLong(job: Job, name: seq<byte>, flash: seq<byte>, dest: nat, max: nat, buf: seq<byte>)
    requires Sendable(job, name) && InDevice(job, flash, dest) && job.size == max + 1 && |buf| == BUFFER_SIZE
    ensures exists ms :: Calm(ms) && DeliversOver(job, flash, dest, max, buf, ms)
  {
    var first := Begin(job, flash, dest, buf);
    LossFreeDelivers(job, name, flash, dest, max, buf, []);
    var ms :| Finishes(job, max, first, [] + ms);
    assert [] + ms == ms;
    CalmSinceBegin(job, name, flash, dest, max, buf, ms);
    RegionKeptIff(job, name, flash, dest, max, buf, ms);
    assert Padded(job)[max] == Content(job)[max];
    assert DeliversOver(job, flash, dest, max, buf, ms);
  }

  lemma CalmSinceBegin(job: Job, name: seq<byte>, flash: seq<byte>, dest: nat, max: nat, buf: seq<byte>, ms: seq<Move>)
    requires Sendable(job, name) && Admitted(job, flash, dest, max) && |buf| == BUFFER_SIZE
    requires Finishes(job, max, Begin(job, flash, dest, buf), ms)
    ensures Play(job, max, Begin(job, flash, dest, buf), ms).ended
  {
    BeginsKept(job, flash, dest, max, buf);
    CalmUndisturbed(job, name, flash, dest, max, Begin(job, flash, dest, buf), ms);
  }

  /** Such a file: 129 zeros for a region of 128 bytes, of whose byte behind the region nothing is left. */
  function LongJob(crcStep: (int, byte) -> int): (job: Job) {
    Job(Zeros(129), 0, 129, HeaderPayload([97], Decimal(129)), crcStep)
  }

  lemma LongJobTooLong(crcStep: (int, byte) -> int, flash: seq<byte>)
    requires |flash| >= 256
    ensures var job := LongJob(crcStep);
      && Sendable(job, [97]) && InDevice(job, flash, 0) && job.size == 128 + 1
      && And(flash[128], Content(job)[128]) == 0
  {
    ShortDecimal(129);
  }
}
