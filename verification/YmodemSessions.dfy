/** What the receiver keeps over whole sessions, for every incoming byte stream. */
module YmodemSessions {
  import opened Flash
  import opened StringUtils
  import opened YmodemPacket
  import opened YmodemReceiver

  lemma {:induction false} SessionAppend(max: nat, st: State, ts: Turns, us: Turns)
    ensures Session(max, st, ts + us) == Session(max, Session(max, st, ts), us)
    decreases |ts|
  {
    if ts == [] {
      assert ts + us == us;
    } else if st.result.None? {
      assert (ts + us)[1..] == ts[1..] + us;
      SessionAppend(max, Step(max, st, ts[0].outcome, ts[0].buf), ts[1..], us);
    } else {
      assert Session(max, st, us) == st;
    }
  }

  /** The last turn of a session. */
  lemma SessionLast(max: nat, st: State, ts: Turns)
    requires ts != []
    ensures var before, t := Session(max, st, ts[..|ts| - 1]), ts[|ts| - 1];
      Session(max, st, ts) == if before.result.Some? then before else Step(max, before, t.outcome, t.buf)
  {
    assert ts == ts[..|ts| - 1] + [ts[|ts| - 1]];
    SessionAppend(max, st, ts[..|ts| - 1], [ts[|ts| - 1]]);
  }

  lemma SessionExtends(max: nat, st: State, ts: Turns, t: Turn)
    requires GoodTurn(t) && Session(max, st, ts).result.None?
    ensures Session(max, st, ts + [t]) == Step(max, Session(max, st, ts), t.outcome, t.buf)
  {
    SessionLast(max, st, ts + [t]);
    assert (ts + [t])[..|ts|] == ts;
  }

  // ---- what is written, and where ----

  function Joined(stores: seq<Store>): (data: seq<byte>) {
    if stores == [] then [] else Joined(stores[..|stores| - 1]) + stores[|stores| - 1].data
  }

  /** The stores lie end to end from `start`. */
  predicate Contiguous(stores: seq<Store>, start: nat) {
    stores == [] ||
    (Contiguous(stores[..|stores| - 1], start)
     && stores[|stores| - 1].addr == start + |Joined(stores[..|stores| - 1])|)
  }

  lemma {:induction false} ContiguousAt(stores: seq<Store>, start: nat, k: nat)
    requires Contiguous(stores, start) && k < |stores|
    ensures stores[k].addr == start + |Joined(stores[..k])|
    decreases |stores|
  {
    if k < |stores| - 1 {
      ContiguousAt(stores[..|stores| - 1], start, k);
      assert stores[..|stores| - 1][..k] == stores[..k];
    }
  }

  /** Over a whole session of any number of files, each write begins where the last one ended: the
      address is the start plus everything accepted so far, and is never set back between files. */
  lemma {:induction false} WritesAreContiguous(max: nat, flash: seq<byte>, dest: nat, ts: Turns)
    ensures EndToEnd(Session(max, Initial(flash, dest), ts), dest, |flash|)
    decreases |ts|
  {
    if ts != [] {
      WritesAreContiguous(max, flash, dest, ts[..|ts| - 1]);
      SessionLast(max, Initial(flash, dest), ts);
      StepStaysContiguous(max, dest, |flash|, Session(max, Initial(flash, dest), ts[..|ts| - 1]), ts[|ts| - 1]);
    }
  }

  lemma JoinedNext(stores: seq<Store>, s: Store)
    ensures Joined(stores + [s]) == Joined(stores) + s.data
  {
    assert (stores + [s])[..|stores|] == stores;
  }

  predicate EndToEnd(st: State, start: nat, size: nat) {
    Contiguous(st.stores, start) && st.dest == start + |Joined(st.stores)| && |st.flash| == size
  }

  lemma DataStaysContiguous(start: nat, size: nat, st: State, buf: seq<byte>, len: nat)
    requires EndToEnd(st, start, size) && |buf| == BUFFER_SIZE && len <= PACKET_1K_SIZE
    ensures EndToEnd(OnData(st, buf, len), start, size)
  {
    ContiguousNext(st.stores, start, Store(st.dest, buf[1], buf[PACKET_HEADER..PACKET_HEADER + len]));
  }

  lemma ContiguousNext(stores: seq<Store>, start: nat, s: Store)
    requires Contiguous(stores, start) && s.addr == start + |Joined(stores)|
    ensures Contiguous(stores + [s], start) && Joined(stores + [s]) == Joined(stores) + s.data
  {
    var all := stores + [s];
    assert all[..|all| - 1] == stores && all[|all| - 1] == s;
  }

  lemma StepStaysContiguous(max: nat, start: nat, size: nat, st: State, t: Turn)
    requires GoodTurn(t) && EndToEnd(st, start, size)
    ensures EndToEnd(Step(max, st, t.outcome, t.buf), start, size)
  {
    if t.outcome.Packet? {
      DataStaysContiguous(start, size, st.(errors := 0), t.buf, t.outcome.length);
    }
  }

  /** The writes of one file carry the block numbers 1, 2, 3, ... modulo 256. */
  predicate Numbered(stores: seq<Store>) {
    forall k :: 0 <= k < |stores| ==> stores[k].seqno == (k + 1) % 0x100
  }

  /** `data` at the beginning of an erased region, and the rest of the device as it was. */
  function Image(flash: seq<byte>, start: nat, max: nat, data: seq<byte>): (r: seq<byte>)
    requires start + max <= |flash| && |data| <= max
    ensures |r| == |flash|
  {
    flash[..start] + data + Filled(max - |data|) + flash[start + max..]
  }

  /** `data` programmed over what is there. */
  function Laid(flash: seq<byte>, start: nat, data: seq<byte>): (r: seq<byte>)
    ensures |r| == |flash|
  {
    if start + |data| <= |flash| then Programmed(flash, start, data) else flash
  }

  /** The device after a header was accepted and `data` received: the region erased, if the device has it
      whole, and the data programmed from its start, wherever it ends. */
  function OnFlash(flash: seq<byte>, start: nat, max: nat, data: seq<byte>): (r: seq<byte>)
    ensures |r| == |flash|
  {
    Laid(Erased(flash, start, max), start, data)
  }

  lemma LaidGrows(flash: seq<byte>, start: nat, data: seq<byte>, more: seq<byte>)
    requires start + |data| + |more| <= |flash|
    ensures Programmed(Laid(flash, start, data), start + |data|, more) == Laid(flash, start, data + more)
  {
  }

  lemma StoreGrowsFlash(flash: seq<byte>, start: nat, max: nat, stores: seq<Store>, s: Store, was: seq<byte>,
          stores': seq<Store>, now: seq<byte>)
    requires start + |Joined(stores)| + |s.data| <= |flash| && stores' == stores + [s]
    requires was == OnFlash(flash, start, max, Joined(stores))
    requires now == Programmed(was, start + |Joined(stores)|, s.data)
    ensures now == OnFlash(flash, start, max, Joined(stores'))
  {
    JoinedNext(stores, s);
    LaidGrows(Erased(flash, start, max), start, Joined(stores), s.data);
  }

  /** The writes of a file in progress: one for each packet behind the header, numbered in order, end to end. */
  predicate Counted(start: nat, size: nat, st: State) {
    && Numbered(st.stores) && |st.stores| == (if st.packets > 0 then st.packets - 1 else 0)
    && st.dest == start + |Joined(st.stores)|
    && (st.stores != [] ==> st.dest <= size)
    && (st.packets > 0 ==> st.begun)
  }

  /** A file in progress: before its header nothing is written or erased; after it, flash is the device with
      the region erased and everything accepted programmed from `start` on, wherever that ends. */
  predicate OneFile(flash: seq<byte>, start: nat, max: nat, st: State) {
    && Counted(start, |flash|, st)
    && (st.packets == 0 ==> st.flash == flash)
    && (st.packets > 0 ==> st.flash == OnFlash(flash, start, max, Joined(st.stores)))
  }

  /** As long as what was accepted fits the region, the region holds just that and nothing else changes. */
  lemma LaidInside(flash: seq<byte>, start: nat, max: nat, data: seq<byte>)
    requires start + max <= |flash| && |data| <= max
    ensures OnFlash(flash, start, max, data) == Image(flash, start, max, data)
  {
    var now := Laid(Erased(flash, start, max), start, data);
    forall i | start <= i < start + |data| ensures now[i] == data[i - start] {
      ProgramsBlank(data[i - start]);
    }
  }

  lemma DataKeepsOneFile(flash: seq<byte>, start: nat, max: nat, st: State, buf: seq<byte>, len: nat)
    requires OneFile(flash, start, max, st) && st.packets > 0 && |buf| == BUFFER_SIZE && len <= PACKET_1K_SIZE
    requires buf[1] == st.packets % 0x100 && st.dest + len <= |st.flash|
    ensures OneFile(flash, start, max, OnData(st, buf, len))
  {
    var s := Store(st.dest, buf[1], buf[PACKET_HEADER..PACKET_HEADER + len]);
    NumberedNext(st.stores, s);
    StoreKeepsOneFile(flash, start, max, st, s, OnData(st, buf, len));
  }

  lemma StoreKeepsOneFile(flash: seq<byte>, start: nat, max: nat, st: State, s: Store, next: State)
    requires OneFile(flash, start, max, st) && st.packets > 0
    requires Numbered(next.stores) && st.dest + |s.data| <= |flash|
    requires next.stores == st.stores + [s] && next.dest == st.dest + |s.data|
    requires next.packets == st.packets + 1 && next.begun
    requires next.flash == Programmed(st.flash, st.dest, s.data)
    ensures OneFile(flash, start, max, next)
  {
    OneMoreCounted(start, |flash|, st, s, next);
    StoreGrowsFlash(flash, start, max, st.stores, s, st.flash, next.stores, next.flash);
  }

  lemma OneMoreCounted(start: nat, size: nat, st: State, s: Store, next: State)
    requires Counted(start, size, st) && st.packets > 0 && Numbered(next.stores) && st.dest + |s.data| <= size
    requires next.stores == st.stores + [s] && next.dest == st.dest + |s.data|
    requires next.packets == st.packets + 1 && next.begun
    ensures Counted(start, size, next)
  {
    JoinedNext(st.stores, s);
  }

  lemma NumberedNext(stores: seq<Store>, s: Store)
    requires Numbered(stores) && s.seqno == (|stores| + 1) % 0x100
    ensures Numbered(stores + [s])
  {
  }

  lemma HeaderKeepsOneFile(flash: seq<byte>, start: nat, max: nat, st: State, buf: seq<byte>)
    requires OneFile(flash, start, max, st) && st.packets == 0 && |buf| == BUFFER_SIZE
    ensures OneFile(flash, start, max, OnHeader(max, st, buf))
  {
    assert Laid(Erased(flash, start, max), start, []) == Erased(flash, start, max);
  }

  lemma StepKeepsOneFile(flash: seq<byte>, start: nat, max: nat, st: State, t: Turn)
    requires OneFile(flash, start, max, st) && GoodTurn(t) && !t.outcome.EndOfTransmission?
    ensures OneFile(flash, start, max, Step(max, st, t.outcome, t.buf))
  {
    match t.outcome
    case Packet(len) =>
      var ok := st.(errors := 0);
      if t.buf[1] == st.packets % 0x100 {
        if st.packets == 0 {
          HeaderKeepsOneFile(flash, start, max, ok, t.buf);
        } else if st.dest + len <= |st.flash| {
          DataKeepsOneFile(flash, start, max, ok, t.buf, len);
        }
      }
    case _ =>
  }

  /** The first file of every session, whatever arrives: its writes are the payloads of packets accepted
      with consecutive numbers, none before the header was accepted and the region erased. */
  lemma {:induction false} FirstFileInOrder(max: nat, flash: seq<byte>, dest: nat, ts: Turns)
    requires forall k :: 0 <= k < |ts| ==> !ts[k].outcome.EndOfTransmission?
    ensures OneFile(flash, dest, max, Session(max, Initial(flash, dest), ts))
    decreases |ts|
  {
    if ts != [] {
      FirstFileInOrder(max, flash, dest, ts[..|ts| - 1]);
      SessionLast(max, Initial(flash, dest), ts);
      var before := Session(max, Initial(flash, dest), ts[..|ts| - 1]);
      StepKeepsOneFile(flash, dest, max, before, ts[|ts| - 1]);
    }
  }

  /** Where the writes of the first file leave flash: inside the region what was accepted, outside it the
      cells that the data runs over, and those only, lose bits. */
  lemma FirstFileCells(max: nat, flash: seq<byte>, dest: nat, ts: Turns, i: nat)
    requires forall k :: 0 <= k < |ts| ==> !ts[k].outcome.EndOfTransmission?
    requires dest + max <= |flash| && i < |flash| && Session(max, Initial(flash, dest), ts).packets > 0
    ensures var st := Session(max, Initial(flash, dest), ts); var data := Joined(st.stores);
      |st.flash| == |flash| && st.flash[i] ==
        if dest <= i < dest + |data| then And(if i < dest + max then BLANK else flash[i], data[i - dest])
        else if dest <= i < dest + max then BLANK else flash[i]
  {
    FirstFileInOrder(max, flash, dest, ts);
    LaidCells(flash, dest, max, Joined(Session(max, Initial(flash, dest), ts).stores), i);
  }

  lemma LaidCells(flash: seq<byte>, start: nat, max: nat, data: seq<byte>, i: nat)
    requires start + max <= |flash| && start + |data| <= |flash| && i < |flash|
    ensures OnFlash(flash, start, max, data)[i] ==
      if start <= i < start + |data| then And(if i < start + max then BLANK else flash[i], data[i - start])
      else if start <= i < start + max then BLANK else flash[i]
  {
    var erased := Erased(flash, start, max);
    ErasedCell(flash, start, max, i);
    if start <= i < start + |data| {
      assert Laid(erased, start, data)[i] == And(erased[i], data[i - start]);
    } else {
      assert Laid(erased, start, data)[i] == erased[i];
    }
  }

  lemma ErasedCell(flash: seq<byte>, start: nat, max: nat, i: nat)
    requires start + max <= |flash| && i < |flash|
    ensures Erased(flash, start, max)[i] == if start <= i < start + max then BLANK else flash[i]
  {
  }

  predicate InRegion(s: Store, start: nat, max: nat) {
    start <= s.addr && s.addr + |s.data| <= start + max
  }

  lemma {:induction false} JoinedGrows(stores: seq<Store>, k: nat)
    requires k <= |stores|
    ensures |Joined(stores[..k])| <= |Joined(stores)|
    decreases |stores|
  {
    if k < |stores| {
      JoinedGrows(stores[..|stores| - 1], k);
      assert stores[..|stores| - 1][..k] == stores[..k];
    } else {
      assert stores[..k] == stores;
    }
  }

  lemma RegionIff(stores: seq<Store>, start: nat, max: nat)
    requires Contiguous(stores, start)
    ensures (forall s :: s in stores ==> InRegion(s, start, max)) <==> |Joined(stores)| <= max
  {
    forall k | 0 <= k < |stores| ensures stores[k].addr == start + |Joined(stores[..k])|
      ensures stores[k].addr + |stores[k].data| <= start + |Joined(stores)|
    {
      ContiguousAt(stores, start, k);
      JoinedGrows(stores, k + 1);
      assert stores[..k + 1][..k] == stores[..k];
    }
    if stores != [] {
      assert stores[|stores| - 1] in stores;
    }
  }

  /** The header of a file "a" of n bytes. */
  function HeaderOf(n: nat): (t: Turn)
    ensures GoodTurn(t)
  {
    Turn(Packet(128), Framed(0, HeaderPayload([97], Decimal(n)), [0, 0]) + Zeros(896))
  }

  lemma HeaderAccepted(max: nat, flash: seq<byte>, dest: nat, n: nat)
    requires n < 0x8000_0000 && n <= max + 1
    ensures var st := Step(max, Initial(flash, dest), HeaderOf(n).outcome, HeaderOf(n).buf);
      && st.replies == [ACK, CRC16] && st.result.None? && st.packets == 1 && st.dest == dest
      && |st.flash| == |flash| && st.stores == []
  {
    ShortDecimal(n);
    HeaderRoundTrip([97], n, [0, 0], Zeros(896));
  }

  /** Block 1, a thousand zeros and more. */
  function BlockTurn(): (t: Turn)
    ensures GoodTurn(t)
  {
    Turn(Packet(1024), Framed(1, Zeros(1024), [0, 0]))
  }

  /** A region of 128 bytes and one block of 1024 behind an accepted header: the block is ACKed, and cells
      that were never part of the region are cleared. */
  lemma OverrunsRegion(flash: seq<byte>)
    requires flash == Filled(2048)
    ensures var end := Session(128, Initial(flash, 0), [HeaderOf(100), BlockTurn()]);
      end.replies == [ACK, CRC16, ACK] && |end.flash| == 2048 && end.flash[500] == 0
  {
    var first := Step(128, Initial(flash, 0), HeaderOf(100).outcome, HeaderOf(100).buf);
    HeaderAccepted(128, flash, 0, 100);
    BlockTurnClears(first);
    var ts: Turns := [HeaderOf(100), BlockTurn()];
    assert ts[1..] == [BlockTurn()] && ts[1..][1..] == [];
    assert Session(128, Initial(flash, 0), ts) == Session(128, first, ts[1..]);
  }

  lemma BlockTurnClears(st: State)
    requires st.packets == 1 && st.dest == 0 && |st.flash| == 2048
    ensures var next := Step(128, st, BlockTurn().outcome, BlockTurn().buf);
      next.replies == st.replies + [ACK] && |next.flash| == 2048 && next.flash[500] == 0
  {
    assert BlockTurn().buf[PACKET_HEADER..PACKET_HEADER + 1024] == Zeros(1024);
    assert OnData(st.(errors := 0), BlockTurn().buf, 1024).flash[500] == And(st.flash[500], 0) == 0;
  }

  function Zeros(n: nat): (s: seq<byte>)
    ensures |s| == n
  {
    seq(n, _ => 0)
  }

  // ---- which packets are written ----

  /** A packet of data with the number the receiver waits for, which the device has room for. */
  predicate TakesData(st: State, t: Turn)
    requires GoodTurn(t)
  {
    && st.result.None? && st.packets > 0 && t.outcome.Packet? && t.buf[1] == st.packets % 0x100
    && st.dest + t.outcome.length <= |st.flash|
  }

  predicate StoreOf(s: Store, t: Turn)
    requires GoodTurn(t)
  {
    t.outcome.Packet? && s.seqno == t.buf[1] && s.data == t.buf[PACKET_HEADER..PACKET_HEADER + t.outcome.length]
  }

  /** The turns that bring such a packet. */
  function DataTurns(max: nat, st: State, ts: Turns): (turns: seq<nat>)
    decreases |ts|
  {
    if ts == [] then [] else
    var early, last := ts[..|ts| - 1], |ts| - 1;
    DataTurns(max, st, early) + if TakesData(Session(max, st, early), ts[last]) then [last] else []
  }

  /** The writes of a session are the payloads of the in-sequence data packets: all of them, each once, in
      the order in which they came. */
  lemma StoresAreTheDataTurns(max: nat, flash: seq<byte>, dest: nat, ts: Turns)
    ensures var stores := Session(max, Initial(flash, dest), ts).stores;
      var turns := DataTurns(max, Initial(flash, dest), ts);
      && |turns| == |stores|
      && Ascending(turns, |ts|) && (forall k :: 0 <= k < |turns| ==> StoreOf(stores[k], ts[turns[k]]))
    ensures forall i :: 0 <= i < |ts| ==>
      (TakesData(Session(max, Initial(flash, dest), ts[..i]), ts[i]) <==> i in DataTurns(max, Initial(flash, dest), ts))
  {
    DataTurnsStore(max, flash, dest, ts);
    DataTurnsAscend(max, Initial(flash, dest), ts);
    forall i | 0 <= i < |ts|
      ensures TakesData(Session(max, Initial(flash, dest), ts[..i]), ts[i])
         <==> i in DataTurns(max, Initial(flash, dest), ts)
    {
      DataTurnsCover(max, Initial(flash, dest), ts, i);
    }
  }

  lemma {:induction false} DataTurnsStore(max: nat, flash: seq<byte>, dest: nat, ts: Turns)
    ensures var stores := Session(max, Initial(flash, dest), ts).stores;
      var turns := DataTurns(max, Initial(flash, dest), ts);
      |turns| == |stores| && (forall k :: 0 <= k < |turns| ==> turns[k] < |ts| && StoreOf(stores[k], ts[turns[k]]))
    decreases |ts|
  {
    if ts != [] {
      DataTurnsStore(max, flash, dest, ts[..|ts| - 1]);
      SessionLast(max, Initial(flash, dest), ts);
    }
  }

  predicate Ascending(turns: seq<nat>, bound: nat) {
    && (forall k :: 0 <= k < |turns| ==> turns[k] < bound)
    && (forall j, k :: 0 <= j < k < |turns| ==> turns[j] < turns[k])
  }

  lemma {:induction false} DataTurnsAscend(max: nat, st: State, ts: Turns)
    ensures Ascending(DataTurns(max, st, ts), |ts|)
    decreases |ts|
  {
    if ts != [] {
      DataTurnsAscend(max, st, ts[..|ts| - 1]);
    }
  }

  lemma {:induction false} DataTurnsCover(max: nat, st: State, ts: Turns, i: nat)
    requires i < |ts|
    ensures TakesData(Session(max, st, ts[..i]), ts[i]) <==> i in DataTurns(max, st, ts)
    decreases |ts|
  {
    var early := ts[..|ts| - 1];
    DataTurnsAscend(max, st, early);
    if i < |early| {
      DataTurnsCover(max, st, early, i);
      assert early[..i] == ts[..i];
    }
  }

  // ---- the error budget ----

  function TrailingFailures(ts: Turns): (n: nat)
    ensures n <= |ts|
    decreases |ts|
  {
    if ts == [] || !ts[|ts| - 1].outcome.Failed? then 0 else 1 + TrailingFailures(ts[..|ts| - 1])
  }

  /** Once a session has begun the error count is the number of failed receives since the last packet
      of any kind, in sequence or not; it never passes 20 while the session goes on. */
  lemma {:induction false} ErrorBudget(max: nat, flash: seq<byte>, dest: nat, ts: Turns)
    ensures var st := Session(max, Initial(flash, dest), ts);
      st.result.None? ==> st.errors == (if st.begun then TrailingFailures(ts) else 0) <= 20
    decreases |ts|
  {
    if ts != [] {
      ErrorBudget(max, flash, dest, ts[..|ts| - 1]);
      SessionLast(max, Initial(flash, dest), ts);
    }
  }

  function Silent(k: nat): (line: seq<Event>) {
    seq(k, _ => Silence)
  }

  /** On a line that stays silent a begun session ends with 0, and does so exactly when the 21st
      failure in a row is reached; a session that has not begun waits for ever. */
  lemma {:induction false} SilenceEndsSession(max: nat, st: State, buf: seq<byte>, k: nat)
    requires st.result.None? && st.errors <= 20 && |buf| == BUFFER_SIZE
    ensures var end := Session(max, st, TurnsOf(Silent(k), buf));
      && end.result == (if st.begun && st.errors + k > 20 then Some(0) else None)
      && end.flash == st.flash && end.stores == st.stores && end.size == st.size
    decreases k
  {
    if k > 0 {
      var line := Silent(k);
      assert Tail(line) == Silent(k - 1);
      assert TurnsOf(line, buf) == [Turn(Failed, buf)] + TurnsOf(Silent(k - 1), buf);
      var next := Step(max, st, Failed, buf);
      if next.result.None? {
        SilenceEndsSession(max, next, buf, k - 1);
      }
    }
  }

  function Repeated(c: byte, k: nat): (s: seq<byte>) {
    seq(k, _ => c)
  }

  /** However often EOT is repeated, each one is answered with ACK and none touches flash or size. */
  lemma {:induction false} RepeatedEot(max: nat, st: State, buf: seq<byte>, k: nat)
    requires st.result.None? && |buf| == BUFFER_SIZE
    ensures var end := Session(max, st, TurnsOf(Events(Repeated(EOT, k)), buf));
      && end.replies == st.replies + Repeated(ACK, k) && end.result.None?
      && end.flash == st.flash && end.stores == st.stores && end.size == st.size && end.dest == st.dest
    decreases k
  {
    if k == 0 {
      assert Repeated(ACK, k) == [];
    } else {
      var line := Events(Repeated(EOT, k));
      assert line[0] == Got(EOT) && Tail(line) == Events(Repeated(EOT, k - 1));
      assert TurnsOf(line, buf) == [Turn(EndOfTransmission, buf)] + TurnsOf(Events(Repeated(EOT, k - 1)), buf);
      RepeatedEot(max, Step(max, st, EndOfTransmission, buf), buf, k - 1);
      assert [ACK] + Repeated(ACK, k - 1) == Repeated(ACK, k);
    }
  }
}
