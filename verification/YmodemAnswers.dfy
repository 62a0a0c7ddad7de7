/** What the receiver makes of the bytes on its line, and what it answers, in numbers. */
module YmodemAnswers {
  import opened Flash
  import opened StringUtils
  import opened YmodemPacket
  import opened YmodemReceiver
  import opened YmodemSessions

  // ---- one receive ----

  /** Bytes i.. of a packet of n come from the line, the others from the buffer. */
  predicate Took(line: seq<Event>, buf: seq<byte>, i: nat, n: nat, now: seq<byte>) {
    && |now| == |buf| && i <= n <= |buf|
    && forall j :: 0 <= j < |buf| ==> if i <= j < n then Delivers(line, j - i, now[j]) else now[j] == buf[j]
  }

  predicate Delivers(line: seq<Event>, k: nat, b: byte) {
    k < |line| && line[k] == Got(b)
  }

  /** The line begins with k bytes. */
  predicate Bytes(line: seq<Event>, k: nat) {
    k <= |line| && forall j :: 0 <= j < k ==> line[j].Got?
  }

  lemma BytesBehind(line: seq<Event>, k: nat)
    requires k > 0
    ensures Bytes(line, k) <==> Head(line).Some? && Bytes(Tail(line), k - 1)
  {
    if Head(line).Some? && Bytes(Tail(line), k - 1) {
      forall j | 0 <= j < k ensures line[j].Got? {
        if j > 0 { assert line[j] == Tail(line)[j - 1]; }
      }
    }
    if Bytes(line, k) {
      assert line[0].Got?;
      assert forall j :: 0 <= j < k - 1 ==> Tail(line)[j] == line[j + 1];
    }
  }

  lemma TookBehind(line: seq<Event>, buf: seq<byte>, b: byte, i: nat, n: nat, now: seq<byte>)
    requires i < n <= |buf| && Head(line) == Some(b) && Took(Tail(line), buf[i := b], i + 1, n, now)
    ensures Took(line, buf, i, n, now)
  {
    forall j | 0 <= j < |buf| ensures if i <= j < n then Delivers(line, j - i, now[j]) else now[j] == buf[j] {
      if i < j < n { assert Delivers(Tail(line), j - (i + 1), now[j]); }
    }
  }

  /** The byte loop fills the buffer from the line if there are bytes enough, and looks at the complement. */
  lemma {:induction false} FillIff(line: seq<Event>, buf: seq<byte>, i: nat, n: nat)
    requires PACKET_OVERHEAD <= n <= |buf| && i <= n
    ensures var r := Fill(line, buf, i, n);
      && (r.outcome.Packet? || r.outcome.Failed?)
      && (r.outcome.Packet? <==> Bytes(line, n - i) && r.buf[1] as int + r.buf[2] as int == 255)
      && (Bytes(line, n - i) ==> Took(line, buf, i, n, r.buf) && r.rest == line[n - i..])
    decreases n - i
  {
    if i < n {
      BytesBehind(line, n - i);
      if Head(line).Some? {
        var b := Head(line).value;
        FillIff(Tail(line), buf[i := b], i + 1, n);
        if Bytes(line, n - i) {
          TookBehind(line, buf, b, i, n, Fill(line, buf, i, n).buf);
          assert Tail(line)[n - i - 1..] == line[n - i..];
        }
      }
    } else {
      assert line[0..] == line;
    }
  }

  /** How many bytes come before the first silence. */
  function Leading(line: seq<Event>): (k: nat)
    ensures k <= |line| && (forall j :: 0 <= j < k ==> line[j].Got?) && (k < |line| ==> line[k] == Silence)
  {
    if Head(line).None? then 0 else 1 + Leading(Tail(line))
  }

  /** What is left behind that silence. */
  predicate Resumes(line: seq<Event>, k: nat, rest: seq<Event>) {
    if k < |line| then rest == line[k + 1..] else rest == []
  }

  /** The byte loop leaves off at the first silence, with the bytes before it in the buffer. */
  lemma {:induction false} FillCut(line: seq<Event>, buf: seq<byte>, i: nat, n: nat)
    requires PACKET_OVERHEAD <= n <= |buf| && i <= n && !Bytes(line, n - i)
    ensures var r, k := Fill(line, buf, i, n), Leading(line);
      i + k < n && r.outcome == Failed && Took(line, buf, i, i + k, r.buf) && Resumes(line, k, r.rest)
    decreases n - i
  {
    if i < n {
      BytesBehind(line, n - i);
      if Head(line).Some? {
        var b := Head(line).value;
        FillCut(Tail(line), buf[i := b], i + 1, n);
        TookBehind(line, buf, b, i, i + Leading(line), Fill(line, buf, i, n).buf);
      }
    }
  }

  /** The line begins with the start byte of a packet with n bytes of payload. */
  predicate Starts(line: seq<Event>, n: nat) {
    (n == 128 && Head(line) == Some(1)) || (n == 1024 && Head(line) == Some(2))
  }

  lemma WholePacket(line: seq<Event>, buf: seq<byte>, b: byte, n: nat, now: seq<byte>, rest: seq<Event>)
    requires 3 <= n <= |buf| && n <= |line| && Head(line) == Some(b) && rest == Tail(line)[n - 1..]
    requires Took(Tail(line), buf[0 := b], 1, n, now)
    ensures Took(line, buf, 0, n, now) && rest == line[n..]
    ensures line[1] == Got(now[1]) && line[2] == Got(now[2])
  {
    TookBehind(line, buf, b, 0, n, now);
    assert Delivers(line, 1, now[1]) && Delivers(line, 2, now[2]);
  }

  /** A receive is a packet of n bytes if and only if the line begins with its start byte and n + 4 bytes more,
      of which the first two add up to 255. They are in the buffer then, and the rest stays on the line. */
  lemma PacketIff(line: seq<Event>, buf: seq<byte>, n: nat)
    requires |buf| == BUFFER_SIZE && Starts(line, n)
    ensures var r := Receive(line, buf);
      && (r.outcome == Packet(n) || r.outcome == Failed)
      && (Bytes(line, n + 5) ==> Took(line, buf, 0, n + 5, r.buf) && r.rest == line[n + 5..])
      && (r.outcome == Packet(n) <==> Bytes(line, n + 5) && line[1].b as int + line[2].b as int == 255)
  {
    var b := Head(line).value;
    BytesBehind(line, n + 5);
    FillIff(Tail(line), buf[0 := b], 1, n + 5);
    if Bytes(line, n + 5) {
      var r := Receive(line, buf);
      WholePacket(line, buf, b, n + 5, r.buf, r.rest);
    }
  }

  /** Any other beginning is dealt with at once, and the buffer is left alone: EOT, CA twice, A or a, and all
      else, silence included, is a failure. */
  lemma OtherwiseByFirstByte(line: seq<Event>, buf: seq<byte>)
    requires |buf| == BUFFER_SIZE && Head(line) != Some(1) && Head(line) != Some(2)
    ensures var r, first := Receive(line, buf), Head(line); var second := Head(Tail(line));
      && r.buf == buf && r.rest == (if first == Some(0x18) then Tail(Tail(line)) else Tail(line))
      && (r.outcome == EndOfTransmission <==> first == Some(0x04))
      && (r.outcome == SenderAbort <==> first == Some(0x18) && second == Some(0x18))
      && (r.outcome == UserAbort <==> first == Some(0x41) || first == Some(0x61))
      && !r.outcome.Packet?
  {
  }

  /** So whatever comes, a packet is taken only with a number and its complement. */
  lemma PacketsHaveComplements(line: seq<Event>, buf: seq<byte>)
    requires |buf| == BUFFER_SIZE && Receive(line, buf).outcome.Packet?
    ensures var r := Receive(line, buf); r.buf[1] as int + r.buf[2] as int == 255
  {
    if Head(line) == Some(1) {
      FillIff(Tail(line), buf[0 := 1], 1, 133);
    } else if Head(line) == Some(2) {
      FillIff(Tail(line), buf[0 := 2], 1, 1029);
    }
  }

  // ---- one turn of a session ----

  /** The receiver once it has received from this line. */
  function Hears(max: nat, st: State, line: seq<Event>, buf: seq<byte>): (next: State)
    requires |buf| == BUFFER_SIZE
  {
    var r := Receive(line, buf);
    Step(max, st, r.outcome, r.buf)
  }

  /** Nothing but what is said and counted has changed. */
  predicate SameFile(st: State, next: State) {
    && next.flash == st.flash && next.stores == st.stores && next.dest == st.dest
    && next.size == st.size && next.begun == st.begun
  }

  /** A failed receive is answered with C, up to twenty in a row once the session has begun, and the next one
      with CA twice, which ends the session with 0. Nothing is written. */
  lemma FailureAsksAgain(max: nat, st: State, line: seq<Event>, buf: seq<byte>)
    requires |buf| == BUFFER_SIZE && Receive(line, buf).outcome.Failed?
    ensures var next := Hears(max, st, line, buf);
      && SameFile(st, next) && next.packets == st.packets
      && next.errors == st.errors + (if st.begun then 1 else 0)
      && if next.errors > 20 then next.replies == st.replies + [0x18, 0x18] && next.result == Some(0)
         else next.replies == st.replies + [0x43] && next.result == st.result
  {
  }

  /** A whole packet with a wrong complement, whatever it carries: that is such a failure. */
  lemma WrongComplement(max: nat, st: State, f: seq<byte>, rest: seq<Event>, buf: seq<byte>)
    requires |buf| == BUFFER_SIZE && ((|f| == 133 && f[0] == 1) || (|f| == 1029 && f[0] == 2))
    requires f[1] as int + f[2] as int != 255
    ensures Receive(Events(f) + rest, buf).outcome == Failed
    ensures st.errors < 20 ==> var next := Hears(max, st, Events(f) + rest, buf);
      && next.replies == st.replies + [0x43] && next.result == st.result
      && SameFile(st, next) && next.packets == st.packets
  {
    var line := Events(f) + rest;
    assert line[0] == Got(f[0]) && line[1] == Got(f[1]) && line[2] == Got(f[2]);
    PacketIff(line, buf, |f| - 5);
    FailureAsksAgain(max, st, line, buf);
  }

  lemma FillsFromSecond(line: seq<Event>, buf: seq<byte>, n: nat)
    requires |buf| == BUFFER_SIZE && Starts(line, n)
    ensures Receive(line, buf) == Fill(Tail(line), buf[0 := Head(line).value], 1, n + 5)
  {
  }

  lemma CutBehind(line: seq<Event>, buf: seq<byte>, b: byte, n: nat, r: Reception)
    requires PACKET_OVERHEAD <= n <= |buf| && Head(line) == Some(b) && !Bytes(line, n)
    requires r == Fill(Tail(line), buf[0 := b], 1, n)
    ensures var k := Leading(line);
      k < n && r.outcome == Failed && Took(line, buf, 0, k, r.buf) && Resumes(line, k, r.rest)
  {
    BytesBehind(line, n);
    FillCut(Tail(line), buf[0 := b], 1, n);
    TookBehind(line, buf, b, 0, Leading(line), r.buf);
  }

  /** A packet that breaks off is one too: the bytes before the silence are in the buffer, and what comes behind
      it is still on the line. */
  lemma CutShort(line: seq<Event>, buf: seq<byte>, n: nat)
    requires |buf| == BUFFER_SIZE && Starts(line, n) && !Bytes(line, n + 5)
    ensures var r, k := Receive(line, buf), Leading(line);
      k < n + 5 && r.outcome == Failed && Took(line, buf, 0, k, r.buf) && Resumes(line, k, r.rest)
  {
    FillsFromSecond(line, buf, n);
    CutBehind(line, buf, Head(line).value, n + 5, Receive(line, buf));
  }

  /** EOT is ACKed and ends the file; CA twice is ACKed and ends the session with 0; A or a ends it with -3. */
  lemma SignalsAnswered(max: nat, st: State, line: seq<Event>, buf: seq<byte>)
    requires |buf| == BUFFER_SIZE
    ensures var next := Hears(max, st, line, buf);
      && (Head(line) == Some(0x04) ==>
            next == st.(errors := 0, replies := st.replies + [0x06], packets := 0))
      && (Head(line) == Some(0x18) && Head(Tail(line)) == Some(0x18) ==>
            next == st.(errors := 0, replies := st.replies + [0x06], result := Some(0)))
      && (Head(line) == Some(0x41) || Head(line) == Some(0x61) ==>
            next == st.(replies := st.replies + [0x18, 0x18], result := Some(-3)))
  {
    if Head(line) != Some(1) && Head(line) != Some(2) { OtherwiseByFirstByte(line, buf); }
  }

  /** A packet whose number is not the low byte of the count is answered with NAK, and nothing else happens. */
  lemma OtherNumberRefused(max: nat, st: State, line: seq<Event>, buf: seq<byte>)
    requires |buf| == BUFFER_SIZE && Receive(line, buf).outcome.Packet?
    requires Receive(line, buf).buf[1] as int != st.packets % 256
    ensures Hears(max, st, line, buf) == st.(errors := 0, replies := st.replies + [0x15])
  {
  }

  /** The expected packet of data: ACKed and programmed at the cursor if the device has room, and refused for
      good with CA twice and -2 if not. */
  lemma DataAnswered(max: nat, st: State, line: seq<Event>, buf: seq<byte>, n: nat)
    requires |buf| == BUFFER_SIZE && Receive(line, buf).outcome == Packet(n) && st.packets > 0
    requires Receive(line, buf).buf[1] as int == st.packets % 256
    ensures var next, data := Hears(max, st, line, buf), Receive(line, buf).buf[3..3 + n];
      if st.dest + n <= |st.flash| then
        next == st.(errors := 0, replies := st.replies + [0x06], packets := st.packets + 1, begun := true,
                    flash := Programmed(st.flash, st.dest, data), dest := st.dest + n,
                    stores := st.stores + [Store(st.dest, Receive(line, buf).buf[1], data)])
      else next == st.(errors := 0, replies := st.replies + [0x18, 0x18], result := Some(-2))
  {
  }

  /** The bytes of buf from `from` on, up to a stop and at most `limit` of them. */
  predicate UpToStop(buf: seq<byte>, from: nat, stop: byte, limit: nat, field: seq<byte>) {
    && |field| <= limit && from + |field| <= |buf|
    && (forall i :: 0 <= i < |field| ==> field[i] == buf[from + i] && field[i] != stop)
    && (|field| < limit && from + |field| < |buf| ==> buf[from + |field|] == stop)
  }

  lemma TakenUpToStop(buf: seq<byte>, from: nat, stop: byte, limit: nat)
    requires from <= |buf|
    ensures UpToStop(buf, from, stop, limit, TakeUntil(buf[from..], stop, limit))
  {
    var rest, field := buf[from..], TakeUntil(buf[from..], stop, limit);
    forall i | 0 <= i < |field| ensures field[i] == buf[from + i] && field[i] != stop {
      assert field[i] == rest[..|field|][i] == rest[i];
      assert field[i] in field;
    }
  }

  /** The size text, with zeros up to its 17 cells. */
  predicate IsSizeText(s: seq<byte>, text: seq<byte>) {
    |s| == 17 && |text| <= 16 && forall i :: 0 <= i < 17 ==> s[i] == if i < |text| then text[i] else 0
  }

  /** Where the fields of a header stand: the name from the fourth byte on, up to a zero and at most 256 bytes;
      then, one further, the text of the size, up to a space and at most 16 bytes. */
  lemma HeaderFields(buf: seq<byte>)
    requires |buf| == BUFFER_SIZE
    ensures UpToStop(buf, 3, 0, 256, HeaderName(buf))
    ensures exists text: seq<byte> ::
      UpToStop(buf, 3 + |HeaderName(buf)| + 1, 0x20, 16, text) && IsSizeText(SizeText(buf), text)
  {
    TakenUpToStop(buf, 3, 0, 256);
    var from := 3 + |HeaderName(buf)| + 1;
    TakenUpToStop(buf, from, 0x20, 16);
    assert IsSizeText(SizeText(buf), TakeUntil(buf[from..], 0x20, 16));
  }

  /** Packet 0: without a name it ends the session with the size known so far. With one the size it announces
      counts, or the size known so far if it announces no number; one more than the region is still let in, and
      then the region is erased at the cursor. */
  lemma HeaderAnswered(max: nat, st: State, line: seq<Event>, buf: seq<byte>)
    requires |buf| == BUFFER_SIZE && Receive(line, buf).outcome.Packet? && st.packets == 0
    requires Receive(line, buf).buf[1] == 0
    ensures var next, got := Hears(max, st, line, buf), Receive(line, buf).buf;
      var size := if HeaderSize(got).Some? then HeaderSize(got).value else st.size;
      && (got[3] == 0 ==> next == st.(errors := 0, replies := st.replies + [0x06], result := Some(st.size)))
      && (got[3] != 0 && size <= max + 1 ==>
            && next.replies == st.replies + [0x06, 0x43] && next.packets == 1 && next.begun
            && next.size == size && next.result == st.result && next.errors == 0
            && next.dest == st.dest && next.stores == st.stores && next.flash == Erased(st.flash, st.dest, max))
      && (got[3] != 0 && size > max + 1 ==>
            && next.replies == st.replies + [0x18, 0x18] && next.result == Some(-1) && next.packets == 0
            && next.size == size && next.dest == st.dest && next.flash == st.flash && next.stores == st.stores)
  {
  }
}
