/** The deadline supervisor of MICO/system/mico_system_monitor.c and the watchdog behind it. */
module SystemMonitor {

  const CLOCK: nat := 0x1_0000_0000
  const MAXIMUM_MONITORS: nat := 5
  const PERIOD: nat := 2000
  const WATCHDOG: nat := PERIOD + 1000
  const RELOAD_LIMIT: nat := 5000
  const RELOAD_TIMER: nat := 2500

  // ---- the supervisor on values ----

  /** A registered monitor: when, in true time, it was last updated, and the delay it was then allowed. */
  datatype Slot = Slot(since: nat, delay: nat)

  /** `reload` is the true time of the last watchdog reload; `hung` the endless loop after a miss. */
  datatype Board = Board(slots: seq<Slot>, reload: nat, hung: bool)

  datatype Event = Register(at: nat, delay: nat) | Update(at: nat, i: nat, delay: nat) | Check(at: nat)

  /** What the 32-bit clock shows between two true times. */
  function Elapsed(now: nat, since: nat): (e: nat)
    ensures e < CLOCK
  {
    (now % CLOCK - since % CLOCK) % CLOCK
  }

  predicate Late(s: Slot, now: nat) {
    Elapsed(now, s.since) > s.delay
  }

  predicate NoneLate(slots: seq<Slot>, now: nat) {
    forall i :: 0 <= i < |slots| ==> !Late(slots[i], now)
  }

  function OnEvent(b: Board, e: Event): (r: Board) {
    match e
    case Register(at, delay) => if |b.slots| < MAXIMUM_MONITORS then b.(slots := b.slots + [Slot(at, delay)]) else b
    case Update(at, i, delay) =>
      if i < |b.slots| && !Late(b.slots[i], at) then b.(slots := b.slots[i := Slot(at, delay)]) else b
    case Check(at) => if b.hung then b else if NoneLate(b.slots, at) then b.(reload := at) else b.(hung := true)
  }

  function Run(b: Board, es: seq<Event>): (r: Board)
    decreases |es|
  {
    if es == [] then b else Run(OnEvent(b, es[0]), es[1..])
  }

  /** A run that the watchdog does not cut short: time does not go back, and nothing happens once the
      watchdog has been left alone for its 3000 ms. */
  predicate Alive(b: Board, now: nat, es: seq<Event>)
    decreases |es|
  {
    es == [] || (now <= es[0].at < b.reload + WATCHDOG && Alive(OnEvent(b, es[0]), es[0].at, es[1..]))
  }

  lemma TrueElapsed(now: nat, since: nat)
    requires since <= now < since + CLOCK
    ensures Elapsed(now, since) == now - since
  {
  }

  // ---- no miss goes unnoticed ----

  /** Delays for which a miss is seen before the clock comes round again. */
  predicate Bounded(delay: nat) {
    delay + WATCHDOG <= CLOCK
  }

  predicate BoundedEvent(e: Event) {
    e.Check? || Bounded(e.delay)
  }

  predicate GuardedSlot(s: Slot, reload: nat, now: nat) {
    s.since <= now && Bounded(s.delay) && reload <= s.since + s.delay
  }

  /** No slot's deadline lies before the last reload. */
  predicate Guarded(b: Board, now: nat) {
    b.reload <= now && forall i :: 0 <= i < |b.slots| ==> GuardedSlot(b.slots[i], b.reload, now)
  }

  lemma SlotSeen(b: Board, now: nat, i: nat, at: nat)
    requires Guarded(b, now) && i < |b.slots| && now <= at < b.reload + WATCHDOG
    ensures Late(b.slots[i], at) <==> at > b.slots[i].since + b.slots[i].delay
  {
    TrueElapsed(at, b.slots[i].since);
  }

  lemma EventKeepsGuard(b: Board, now: nat, e: Event)
    requires Guarded(b, now) && now <= e.at < b.reload + WATCHDOG && BoundedEvent(e)
    ensures Guarded(OnEvent(b, e), e.at)
  {
    if e.Check? && NoneLate(b.slots, e.at) {
      forall i | 0 <= i < |b.slots| ensures e.at <= b.slots[i].since + b.slots[i].delay {
        SlotSeen(b, now, i, e.at);
      }
    }
  }

  function Last(now: nat, es: seq<Event>): (at: nat) {
    if es == [] then now else es[|es| - 1].at
  }

  lemma {:induction false} RunKeepsGuard(b: Board, now: nat, es: seq<Event>)
    requires Guarded(b, now) && Alive(b, now, es) && forall k :: 0 <= k < |es| ==> BoundedEvent(es[k])
    ensures Guarded(Run(b, es), Last(now, es))
    decreases |es|
  {
    if es != [] {
      EventKeepsGuard(b, now, es[0]);
      RunKeepsGuard(OnEvent(b, es[0]), es[0].at, es[1..]);
    }
  }

  /** In every run from the start of the supervision, across any number of clock rollovers: no deadline
      lies before the last reload. So the watchdog expires less than 3000 ms after the first moment at
      which a deadline has been missed, and whatever happens, happens before that. */
  lemma NoReloadAfterMiss(start: nat, es: seq<Event>, i: nat, e: Event)
    requires var b := Board([], start, false);
      Alive(b, start, es + [e]) && forall k :: 0 <= k < |es| ==> BoundedEvent(es[k])
    requires i < |Run(Board([], start, false), es).slots|
    ensures var end := Run(Board([], start, false), es); var deadline := end.slots[i].since + end.slots[i].delay;
      end.reload <= deadline && e.at < deadline + 3000
  {
    AliveSplit(Board([], start, false), start, es, [e]);
    RunKeepsGuard(Board([], start, false), start, es);
  }

  lemma {:induction false} AliveSplit(b: Board, now: nat, es: seq<Event>, more: seq<Event>)
    requires Alive(b, now, es + more)
    ensures Alive(b, now, es) && Alive(Run(b, es), Last(now, es), more)
    decreases |es|
  {
    if es == [] {
      assert es + more == more;
    } else {
      assert (es + more)[0] == es[0] && (es + more)[1..] == es[1..] + more;
      AliveSplit(OnEvent(b, es[0]), es[0].at, es[1..], more);
    }
  }

  /** A miss is for good: after it no update of that monitor is accepted and no check pass reloads. */
  lemma {:induction false} MissIsSticky(b: Board, now: nat, i: nat, es: seq<Event>)
    requires Guarded(b, now) && i < |b.slots| && now > b.slots[i].since + b.slots[i].delay
    requires Alive(b, now, es) && forall k :: 0 <= k < |es| ==> BoundedEvent(es[k])
    ensures var end := Run(b, es);
      |end.slots| > i && end.slots[i] == b.slots[i] && end.reload == b.reload
    decreases |es|
  {
    if es != [] {
      SlotSeen(b, now, i, es[0].at);
      EventKeepsGuard(b, now, es[0]);
      MissIsSticky(OnEvent(b, es[0]), es[0].at, i, es[1..]);
    }
  }

  /** Once a pass has found a miss nothing reloads the watchdog again, not even when the clock has come round. */
  lemma {:induction false} HangIsForGood(b: Board, es: seq<Event>)
    requires b.hung
    ensures Run(b, es).hung && Run(b, es).reload == b.reload
    decreases |es|
  {
    if es != [] { HangIsForGood(OnEvent(b, es[0]), es[1..]); }
  }

  // ---- the bound is exact ----

  function Fresh(start: nat, delay: nat): (b: Board) {
    Board([Slot(start, delay)], start, false)
  }

  predicate OnlyChecks(es: seq<Event>) {
    forall k :: 0 <= k < |es| ==> es[k].Check?
  }

  /** The check passes of the thread are a sleep of 2000 ms apart or more, the last one at `pass`. */
  predicate Spaced(pass: nat, es: seq<Event>)
    decreases |es|
  {
    es == [] || if es[0].Check? then pass + PERIOD <= es[0].at && Spaced(es[0].at, es[1..]) else Spaced(pass, es[1..])
  }

  /** A monitor that is never updated gets no reload past its deadline, in any run the thread can make. */
  ghost predicate Supervises(delay: nat) {
    forall start: nat, es :: OnlyChecks(es) && Spaced(start, es) && Alive(Fresh(start, delay), start, es) ==>
      Run(Fresh(start, delay), es).reload <= start + delay
  }

  /** k check passes, each one period behind the last, and a further one. */
  function Patrol(t: nat, k: nat, last: nat): (es: seq<Event>)
    ensures OnlyChecks(es)
    decreases k
  {
    if k == 0 then [Check(last)] else [Check(t + PERIOD)] + Patrol(t + PERIOD, k - 1, last)
  }

  lemma {:induction false} PatrolEscapes(delay: nat, t: nat, k: nat)
    requires CLOCK - WATCHDOG < delay < CLOCK && t + k * PERIOD == CLOCK - WATCHDOG + 1
    ensures var b := Board([Slot(0, delay)], t, false);
      && Alive(b, t, Patrol(t, k, CLOCK)) && Spaced(t, Patrol(t, k, CLOCK))
      && Run(b, Patrol(t, k, CLOCK)).reload == CLOCK
    decreases k
  {
    var b, es := Board([Slot(0, delay)], t, false), Patrol(t, k, CLOCK);
    if k == 0 {
      assert Elapsed(CLOCK, 0) == 0;
      assert es[1..] == [] && OnEvent(b, es[0]).reload == CLOCK;
    } else {
      TrueElapsed(t + PERIOD, 0);
      assert es[1..] == Patrol(t + PERIOD, k - 1, CLOCK);
      assert OnEvent(b, es[0]) == Board([Slot(0, delay)], t + PERIOD, false);
      PatrolEscapes(delay, t + PERIOD, k - 1);
    }
  }

  /** From 0 the thread gets to the last millisecond before the alias in 2147481 periods, after a first
      one of 2297 ms. */
  lemma RunEscapes(delay: nat)
    requires CLOCK - WATCHDOG < delay < CLOCK
    ensures var es := [Check(2297)] + Patrol(2297, 2147481, CLOCK);
      && OnlyChecks(es) && Spaced(0, es) && Alive(Fresh(0, delay), 0, es) && Run(Fresh(0, delay), es).reload == CLOCK
  {
    var es := [Check(2297)] + Patrol(2297, 2147481, CLOCK);
    TrueElapsed(2297, 0);
    assert es[1..] == Patrol(2297, 2147481, CLOCK);
    assert OnEvent(Fresh(0, delay), es[0]) == Board([Slot(0, delay)], 2297, false);
    PatrolEscapes(delay, 2297, 2147481);
  }

  lemma {:induction false} ChecksKeepSlots(b: Board, es: seq<Event>)
    requires OnlyChecks(es)
    ensures Run(b, es).slots == b.slots
    decreases |es|
  {
    if es != [] {
      assert OnlyChecks(es[1..]);
      ChecksKeepSlots(OnEvent(b, es[0]), es[1..]);
    }
  }

  /** Of the delays a client can ask for, just those up to 2^32 - 3000 are supervised: beyond, the clock
      comes round before the watchdog has expired, and a check pass reloads it after the miss. */
  lemma SupervisedExactly(delay: nat)
    requires delay < CLOCK
    ensures Supervises(delay) <==> delay <= 0x1_0000_0000 - 3000
  {
    if Bounded(delay) {
      forall start: nat, es | OnlyChecks(es) && Spaced(start, es) && Alive(Fresh(start, delay), start, es)
        ensures Run(Fresh(start, delay), es).reload <= start + delay
      {
        RunKeepsGuard(Fresh(start, delay), start, es);
        ChecksKeepSlots(Fresh(start, delay), es);
        assert Run(Fresh(start, delay), es).slots[0] == Slot(start, delay);
      }
    } else {
      RunEscapes(delay);
    }
  }

  // ---- no false alarm ----

  /** At every event each monitor is within its current delay on the true clock. */
  predicate Punctual(b: Board, es: seq<Event>)
    decreases |es|
  {
    es == [] ||
    ((forall i :: 0 <= i < |b.slots| ==> InTime(b.slots[i], es[0].at)) && Punctual(OnEvent(b, es[0]), es[1..]))
  }

  predicate InTime(s: Slot, now: nat) {
    s.since <= now <= s.since + s.delay < s.since + CLOCK
  }

  /** Every check pass reloads the watchdog and every update is accepted. */
  predicate Served(b: Board, es: seq<Event>)
    decreases |es|
  {
    es == [] || (ServedNow(b, es[0]) && Served(OnEvent(b, es[0]), es[1..]))
  }

  predicate ServedNow(b: Board, e: Event) {
    match e
    case Check(at) => OnEvent(b, e) == Board(b.slots, at, false)
    case Update(at, i, delay) => i < |b.slots| ==> OnEvent(b, e) == b.(slots := b.slots[i := Slot(at, delay)])
    case Register(_, _) => true
  }

  lemma {:induction false} NoFalseAlarm(b: Board, es: seq<Event>)
    requires !b.hung && Punctual(b, es)
    ensures Served(b, es) && !Run(b, es).hung
    decreases |es|
  {
    if es != [] {
      forall i | 0 <= i < |b.slots| ensures !Late(b.slots[i], es[0].at) {
        assert InTime(b.slots[i], es[0].at);
        TrueElapsed(es[0].at, b.slots[i].since);
      }
      NoFalseAlarm(OnEvent(b, es[0]), es[1..]);
    }
  }

  /** The built-in monitor after k firings of its timer: firing m comes at start + 2500 m, or up to `jitter`
      later, and updates slot 0; check passes come in between. */
  predicate Ticking(start: nat, k: nat, now: nat, jitter: nat, es: seq<Event>)
    decreases |es|
  {
    es == [] ||
    (now <= es[0].at <= start + RELOAD_TIMER * (k + 1) + jitter &&
     match es[0]
     case Check(at) => Ticking(start, k, at, jitter, es[1..])
     case Update(at, i, delay) =>
       && i == 0 && delay == RELOAD_LIMIT && at >= start + RELOAD_TIMER * (k + 1)
       && Ticking(start, k + 1, at, jitter, es[1..])
     case Register(_, _) => false)
  }

  lemma {:induction false} TickingIsPunctual(start: nat, k: nat, now: nat, jitter: nat, reload: nat, since: nat,
          es: seq<Event>)
    requires jitter <= RELOAD_LIMIT - RELOAD_TIMER && start + RELOAD_TIMER * k <= since <= now
    requires Ticking(start, k, now, jitter, es)
    ensures Punctual(Board([Slot(since, RELOAD_LIMIT)], reload, false), es)
    decreases |es|
  {
    if es != [] {
      var b, e := Board([Slot(since, RELOAD_LIMIT)], reload, false), es[0];
      assert InTime(b.slots[0], e.at);
      TrueElapsed(e.at, since);
      if e.Check? {
        assert OnEvent(b, e) == Board([Slot(since, RELOAD_LIMIT)], e.at, false);
        TickingIsPunctual(start, k, e.at, jitter, e.at, since, es[1..]);
      } else {
        assert OnEvent(b, e) == Board([Slot(e.at, RELOAD_LIMIT)], reload, false);
        TickingIsPunctual(start, k + 1, e.at, jitter, reload, e.at, es[1..]);
      }
    }
  }

  /** No timer as late as `jitter` at most ever raises an alarm, in any run the thread can make. */
  ghost predicate Tolerated(jitter: nat) {
    forall start: nat, es ::
      Ticking(start, 0, start, jitter, es) && Spaced(start, es) && Alive(Fresh(start, RELOAD_LIMIT), start, es) ==>
        !Run(Fresh(start, RELOAD_LIMIT), es).hung
  }

  /** The 2500 ms timer against the limit of 5000 ms tolerates a jitter of up to 2500 ms and no more. */
  lemma JitterTolerated(jitter: nat)
    ensures Tolerated(jitter) <==> jitter <= 2500
  {
    if jitter <= RELOAD_LIMIT - RELOAD_TIMER {
      forall start: nat, es | Ticking(start, 0, start, jitter, es) ensures !Run(Fresh(start, RELOAD_LIMIT), es).hung {
        TickingIsPunctual(start, 0, start, jitter, start, start, es);
        NoFalseAlarm(Fresh(start, RELOAD_LIMIT), es);
      }
    } else {
      LateTimerHangs(jitter);
    }
  }

  /** A pass at 2500 ms is in time; by the next one at 5001 ms a timer 2501 ms late has not fired. */
  lemma LateTimerHangs(jitter: nat)
    requires jitter > RELOAD_LIMIT - RELOAD_TIMER
    ensures var es := [Check(2500), Check(5001)];
      && Ticking(0, 0, 0, jitter, es) && Spaced(0, es) && Alive(Fresh(0, RELOAD_LIMIT), 0, es)
      && Run(Fresh(0, RELOAD_LIMIT), es).hung
  {
    var b, es := Fresh(0, RELOAD_LIMIT), [Check(2500), Check(5001)];
    TrueElapsed(2500, 0);
    TrueElapsed(5001, 0);
    assert es[1..] == [Check(5001)] && [Check(5001)][1..] == [];
    assert OnEvent(b, es[0]) == Board(b.slots, 2500, false);
    assert Late(b.slots[0], 5001);
  }

  // ---- the code ----

  /** mico_system_monitor_t: the two fields its owner and the supervisor share, both of 32 bits. */
  class Monitor {
    var lastUpdate: nat
    var longestPermittedDelay: nat

    constructor ()
      ensures lastUpdate == 0 && longestPermittedDelay == 0
    {
      lastUpdate, longestPermittedDelay := 0, 0;
    }
  }

  class Supervisor {
    const monitors: array<Monitor?>
    var reload: nat
    var hung: bool

    /** MICOStartSystemMonitor: the watchdog starts and every slot is free. */
    constructor (now: nat)
      ensures fresh(monitors) && Shows(Board([], now, false))
    {
      monitors := new Monitor?[MAXIMUM_MONITORS](_ => null);
      reload, hung := now, false;
    }

    /** The registered monitors fill a prefix of the array, and no monitor has two slots. */
    predicate Shows(b: Board)
      reads this, monitors, set i | 0 <= i < monitors.Length && monitors[i] != null :: monitors[i]
    {
      && monitors.Length == MAXIMUM_MONITORS && |b.slots| <= MAXIMUM_MONITORS && reload == b.reload && hung == b.hung
      && (forall i :: 0 <= i < MAXIMUM_MONITORS ==> (monitors[i] != null <==> i < |b.slots|))
      && (forall i, j :: 0 <= i < j < |b.slots| ==> monitors[i] != monitors[j])
      && (forall i :: 0 <= i < |b.slots| ==> ShowsSlot(monitors[i], b.slots[i]))
    }

    /** mico_system_monitor_register, which does not look whether the monitor has a slot already. */
    method Register(systemMonitor: Monitor, initialPermittedDelay: nat, now: nat, ghost b: Board) returns (ok: bool)
      requires Shows(b)
      modifies monitors, systemMonitor
      ensures ok == (|b.slots| < 5)
      ensures systemMonitor !in old(monitors[..]) ==> Shows(OnEvent(b, Event.Register(now, initialPermittedDelay)))
      ensures monitors[..] == if ok then old(monitors[..])[|b.slots| := systemMonitor] else old(monitors[..])
      ensures ok ==>
        systemMonitor.lastUpdate == now % CLOCK && systemMonitor.longestPermittedDelay == initialPermittedDelay
      ensures !ok ==> unchanged(systemMonitor)
    {
      var a := 0;
      while a < monitors.Length && monitors[a] != null
        invariant a <= |b.slots|
      {
        a := a + 1;
      }
      ok := a < monitors.Length;
      if ok {
        systemMonitor.lastUpdate := now % CLOCK;
        systemMonitor.longestPermittedDelay := initialPermittedDelay;
        monitors[a] := systemMonitor;
      }
    }

    /** One pass of the supervising thread; `hung` is its endless loop. */
    method CheckPass(now: nat, ghost b: Board)
      requires Shows(b) && !hung
      modifies this
      ensures Shows(OnEvent(b, Check(now)))
    {
      var currentTime := now % CLOCK;
      var a := 0;
      while a < monitors.Length && !hung
        invariant a <= monitors.Length && Shows(b.(hung := hung))
        invariant
          if hung then !NoneLate(b.slots, now)
          else forall i :: 0 <= i < a && i < |b.slots| ==> !Late(b.slots[i], now)
      {
        var m := monitors[a];
        if m != null {
          if (currentTime - m.lastUpdate) % CLOCK > m.longestPermittedDelay {
            assert Late(b.slots[a], now);
            hung := true;
          }
        }
        a := a + 1;
      }
      if !hung { reload := now; }
    }

    /** mico_system_monitor_daemen_start: the supervisor and its own monitor. */
    static method DaemonStart(now: nat, micoMonitor: Monitor) returns (s: Supervisor)
      modifies micoMonitor
      ensures fresh(s) && fresh(s.monitors) && s.Shows(Fresh(now, 5000)) && s.monitors[0] == micoMonitor
    {
      s := new Supervisor(now);
      var ok := s.Register(micoMonitor, RELOAD_LIMIT, now, Board([], now, false));
    }
  }

  predicate ShowsSlot(m: Monitor?, s: Slot)
    reads m
  {
    m != null && m.lastUpdate == s.since % CLOCK && m.longestPermittedDelay == s.delay
  }

  /** mico_system_monitor_update of the monitor in slot i. */
  method UpdateMonitor(systemMonitor: Monitor, permittedDelay: nat, now: nat, s: Supervisor, ghost b: Board,
          ghost i: nat)
    requires s.Shows(b) && i < |b.slots| && s.monitors[i] == systemMonitor
    modifies systemMonitor
    ensures s.Shows(OnEvent(b, Update(now, i, permittedDelay)))
  {
    var currentTime := now % CLOCK;
    if (currentTime - systemMonitor.lastUpdate) % CLOCK <= systemMonitor.longestPermittedDelay {
      systemMonitor.lastUpdate := currentTime;
      systemMonitor.longestPermittedDelay := permittedDelay;
    }
  }
}
