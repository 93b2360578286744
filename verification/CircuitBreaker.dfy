/** The sliding-window circuit breaker and its interleaved callers (crates/ciel-fork/src/rpc.rs). */
module CircuitBreaker {
  import opened Prelude

  // Durations in nanoseconds.
  const FAILURE_THRESHOLD := 5
  const FAILURE_WINDOW := 10_000_000_000
  const OPEN_DURATION := 30_000_000_000

  datatype CircuitState = Closed | Open | HalfOpen

  /** The breaker's fields as one value. */
  datatype Breaker = Breaker(state: CircuitState, failures: seq<nat>, openedAt: Option<nat>)

  const NEW_BREAKER := Breaker(Closed, [], None)

  /* ---------- the three operations on values ---------- */

  function Prune(failures: seq<nat>, now: nat): (r: seq<nat>)
  {
    if failures != [] && now - failures[0] > FAILURE_WINDOW then Prune(failures[1..], now) else failures
  }

  predicate ProbeDue(b: Breaker, now: nat)
  {
    b.openedAt.Some? && now - b.openedAt.value >= OPEN_DURATION
  }

  predicate Admits(b: Breaker, now: nat)
  {
    b.state != Open || ProbeDue(b, now)
  }

  function AfterAvailable(b: Breaker, now: nat): (r: Breaker)
  {
    if b.state == Open && ProbeDue(b, now) then b.(state := HalfOpen) else b
  }

  function AfterFailure(b: Breaker, now: nat): (r: Breaker)
  {
    match b.state
    case HalfOpen => b.(state := Open, openedAt := Some(now))
    case Open => b.(openedAt := Some(now))
    case Closed =>
      var recent := Prune(b.failures, now) + [now];
      if |recent| >= FAILURE_THRESHOLD then Breaker(Open, recent, Some(now)) else b.(failures := recent)
  }

  class CircuitBreaker {
    var state: CircuitState
    var failures: seq<nat>
    var openedAt: Option<nat>

    function View(): (b: Breaker)
      reads this
    {
      Breaker(state, failures, openedAt)
    }

    constructor ()
      ensures View() == NEW_BREAKER
    {
      state, failures, openedAt := Closed, [], None;
    }

    method IsAvailable(now: nat) returns (available: bool)
      modifies this
      ensures available == Admits(old(View()), now)
      ensures View() == AfterAvailable(old(View()), now)
    {
      match state {
        case Closed => return true;
        case HalfOpen => return true;
        case Open =>
          if openedAt.Some? && now - openedAt.value >= OPEN_DURATION {
            state := HalfOpen;
            return true;
          }
          return false;
      }
    }

    method RecordSuccess()
      modifies this
      ensures View() == NEW_BREAKER
    {
      state := Closed;
      failures := [];
      openedAt := None;
    }

    method RecordFailure(now: nat)
      modifies this
      ensures View() == AfterFailure(old(View()), now)
    {
      match state {
        case HalfOpen =>
          state := Open;
          openedAt := Some(now);
        case Closed =>
          while failures != [] && now - failures[0] > FAILURE_WINDOW
            invariant state == old(state) && openedAt == old(openedAt)
            invariant Prune(failures, now) == Prune(old(failures), now)
            decreases |failures|
          {
            failures := failures[1..];
          }
          failures := failures + [now];
          if |failures| >= FAILURE_THRESHOLD {
            state := Open;
            openedAt := Some(now);
          }
        case Open =>
          openedAt := Some(now);
      }
    }
  }

  /* ---------- runs ---------- */

  datatype Event = Available(at: nat) | Success(at: nat) | Failure(at: nat)

  function Step(b: Breaker, e: Event): (r: Breaker)
  {
    match e
    case Available(t) => AfterAvailable(b, t)
    case Success(_) => NEW_BREAKER
    case Failure(t) => AfterFailure(b, t)
  }

  function Init<T>(s: seq<T>): (r: seq<T>)
    requires s != []
  {
    s[..|s| - 1]
  }

  function Last<T>(s: seq<T>): (r: T)
    requires s != []
  {
    s[|s| - 1]
  }

  function Run(es: seq<Event>): (b: Breaker)
  {
    if es == [] then NEW_BREAKER else Step(Run(Init(es)), Last(es))
  }

  ghost predicate Monotone(es: seq<Event>)
  {
    forall i, j :: 0 <= i < j < |es| ==> es[i].at <= es[j].at
  }

  /* ---------- what the trace alone says ---------- */

  /** Times of every failure since the last success: nothing is pruned. */
  function FailuresSince(es: seq<Event>): (h: seq<nat>)
  {
    if es == [] then [] else
      match Last(es)
      case Available(_) => FailuresSince(Init(es))
      case Success(_) => []
      case Failure(t) => FailuresSince(Init(es)) + [t]
  }

  /** Some five consecutive failures lie within one window. */
  ghost predicate Tripped(h: seq<nat>)
  {
    exists j :: TripsAt(h, j)
  }

  predicate TripsAt(h: seq<nat>, j: int)
  {
    FAILURE_THRESHOLD - 1 <= j < |h| && h[j] - h[j - (FAILURE_THRESHOLD - 1)] <= FAILURE_WINDOW
  }

  /** Since the last failure, some caller asked after the open period. */
  function Probed(es: seq<Event>): (p: bool)
  {
    es != [] && Last(es).Available? &&
    (Probed(Init(es)) || var h := FailuresSince(Init(es)); h != [] && Last(es).at - Last(h) >= OPEN_DURATION)
  }

  ghost function StateFrom(h: seq<nat>, probed: bool): (s: CircuitState)
  {
    if !Tripped(h) then Closed else if probed then HalfOpen else Open
  }

  ghost predicate Ascending(h: seq<nat>, bound: nat)
  {
    && (forall i, j :: 0 <= i < j < |h| ==> h[i] <= h[j])
    && forall i :: 0 <= i < |h| ==> h[i] <= bound
  }

  /** `recent` is a suffix of `h`, and everything before it is out of the last failure's window. */
  ghost predicate PrunedFrom(recent: seq<nat>, h: seq<nat>)
  {
    && |recent| <= |h|
    && recent == h[|h| - |recent|..]
    && forall i :: 0 <= i < |h| - |recent| ==> Last(h) - h[i] > FAILURE_WINDOW
  }

  /** The breaker agrees with the unpruned history and with whether somebody has probed. */
  ghost predicate Matches(b: Breaker, h: seq<nat>, probed: bool)
  {
    && b.state == StateFrom(h, probed)
    && (Tripped(h) ==> h != [] && b.openedAt == Some(Last(h)) && |b.failures| == FAILURE_THRESHOLD)
    && (!Tripped(h) ==> b.openedAt == None && |b.failures| < FAILURE_THRESHOLD && PrunedFrom(b.failures, h))
  }

  ghost predicate Refines(b: Breaker, es: seq<Event>)
  {
    Matches(b, FailuresSince(es), Probed(es))
  }

  lemma {:induction false} PruneDropsExactlyTheOld(fs: seq<nat>, now: nat)
    requires Ascending(fs, now)
    ensures var r := Prune(fs, now);
      && |r| <= |fs| && r == fs[|fs| - |r|..]
      && (forall i :: 0 <= i < |fs| - |r| ==> now - fs[i] > FAILURE_WINDOW)
      && (r != [] ==> now - r[0] <= FAILURE_WINDOW)
  {
    if fs != [] && now - fs[0] > FAILURE_WINDOW {
      PruneDropsExactlyTheOld(fs[1..], now);
    }
  }

  /** Appending a failure trips the history exactly when it completes a window of five. */
  lemma TrippedSnoc(h: seq<nat>, now: nat)
    ensures Tripped(h + [now]) <==> Tripped(h) || TripsAt(h + [now], |h|)
  {
    var h' := h + [now];
    forall j | 0 <= j < |h| ensures TripsAt(h', j) <==> TripsAt(h, j) {}
    if Tripped(h') {
      var j :| TripsAt(h', j);
      assert j < |h| ==> TripsAt(h, j);
    }
    if Tripped(h) {
      var j :| TripsAt(h, j);
      assert TripsAt(h', j);
    }
  }

  /** Pruning at the next failure drops exactly what is out of that failure's window. */
  lemma PrunedByNextFailure(recent: seq<nat>, h: seq<nat>, now: nat)
    requires Ascending(h, now) && PrunedFrom(recent, h)
    ensures var kept := Prune(recent, now);
      && |kept| <= |recent|
      && kept == h[|h| - |kept|..]
      && (forall i :: 0 <= i < |h| - |kept| ==> now - h[i] > FAILURE_WINDOW)
      && (kept != [] ==> now - kept[0] <= FAILURE_WINDOW)
  {
    var shift := |h| - |recent|;
    assert forall i :: 0 <= i < |recent| ==> recent[i] == h[shift + i];
    assert Ascending(recent, now);
    PruneDropsExactlyTheOld(recent, now);
    var kept := Prune(recent, now);
    forall i | 0 <= i < |h| - |kept| ensures now - h[i] > FAILURE_WINDOW {
      if i >= shift {
        assert h[i] == recent[i - shift];
      } else {
        assert Last(h) - h[i] > FAILURE_WINDOW;
      }
    }
  }

  lemma FullExactlyWhenTripped(kept: seq<nat>, h: seq<nat>, now: nat)
    requires |kept| < FAILURE_THRESHOLD && |kept| <= |h| && kept == h[|h| - |kept|..]
    requires forall i :: 0 <= i < |h| - |kept| ==> now - h[i] > FAILURE_WINDOW
    requires kept != [] ==> now - kept[0] <= FAILURE_WINDOW
    ensures |kept| + 1 == FAILURE_THRESHOLD <==> TripsAt(h + [now], |h|)
  {
    if |h| >= 4 {
      assert (h + [now])[|h| - 4] == h[|h| - 4];
      assert |kept| == 4 ==> kept[0] == h[|h| - 4];
    }
  }

  lemma ClosedFailureStep(recent: seq<nat>, h: seq<nat>, now: nat)
    requires Ascending(h, now) && !Tripped(h) && |recent| < FAILURE_THRESHOLD && PrunedFrom(recent, h)
    ensures var recent' := Prune(recent, now) + [now];
      && |recent'| <= FAILURE_THRESHOLD
      && (|recent'| == FAILURE_THRESHOLD <==> Tripped(h + [now]))
      && PrunedFrom(recent', h + [now])
  {
    PrunedByNextFailure(recent, h, now);
    var kept := Prune(recent, now);
    FullExactlyWhenTripped(kept, h, now);
    TrippedSnoc(h, now);
    assert kept + [now] == (h + [now])[|h| - |kept|..];
  }

  lemma {:induction false} HistoryIsAscending(es: seq<Event>, now: nat)
    requires Monotone(es) && forall i :: 0 <= i < |es| ==> es[i].at <= now
    ensures Ascending(FailuresSince(es), now)
  {
    if es != [] {
      HistoryIsAscending(Init(es), Last(es).at);
    }
  }

  lemma FailureKeepsMatch(b: Breaker, h: seq<nat>, probed: bool, t: nat)
    requires Matches(b, h, probed) && Ascending(h, t)
    ensures Matches(AfterFailure(b, t), h + [t], false)
  {
    TrippedSnoc(h, t);
    if !Tripped(h) {
      ClosedFailureStep(b.failures, h, t);
    }
  }

  lemma QuestionKeepsMatch(b: Breaker, h: seq<nat>, probed: bool, t: nat)
    requires Matches(b, h, probed)
    ensures Matches(AfterAvailable(b, t), h, probed || (h != [] && t - Last(h) >= OPEN_DURATION))
  {
  }

  /** What one more event does to the trace's own record. */
  lemma TraceSnoc(es: seq<Event>, e: Event)
    ensures e.Available? ==> FailuresSince(es + [e]) == FailuresSince(es)
    ensures e.Success? ==> FailuresSince(es + [e]) == []
    ensures e.Failure? ==> FailuresSince(es + [e]) == FailuresSince(es) + [e.at]
    ensures Probed(es + [e]) <==>
            e.Available? && (Probed(es) || (FailuresSince(es) != [] && e.at - Last(FailuresSince(es)) >= OPEN_DURATION))
  {
    assert Init(es + [e]) == es;
  }

  lemma NothingTrips()
    ensures !Tripped([])
  {
    assert forall j :: !TripsAt([], j);
  }

  /** On every run with a monotone clock the pruned breaker is where the unpruned trace says it is. */
  lemma {:induction false} RunRefinesTrace(es: seq<Event>)
    requires Monotone(es)
    ensures Refines(Run(es), es)
  {
    NothingTrips();
    if es != [] {
      var before, e := Init(es), Last(es);
      var b, h, probed := Run(before), FailuresSince(before), Probed(before);
      RunRefinesTrace(before);
      assert es == before + [e];
      TraceSnoc(before, e);
      match e {
        case Success(_) =>
        case Available(t) => QuestionKeepsMatch(b, h, probed, t);
        case Failure(t) =>
          HistoryIsAscending(before, t);
          FailureKeepsMatch(b, h, probed, t);
      }
    }
  }

  /** What the fields say about each other after any run: every interleaving of callers is one. */
  lemma BreakerInvariant(es: seq<Event>)
    requires Monotone(es)
    ensures var b := Run(es);
      && (b.state == Closed <==> b.openedAt == None)
      && (b.state == Closed ==> |b.failures| < FAILURE_THRESHOLD)
      && (b.state != Closed ==> |b.failures| == FAILURE_THRESHOLD)
      && (b.state != Closed ==> FailuresSince(es) != [] && b.openedAt == Some(Last(FailuresSince(es))))
  {
    RunRefinesTrace(es);
  }

  /* ---------- five failures, in terms of event positions ---------- */

  ghost predicate NoSuccessFrom(es: seq<Event>, i: nat)
  {
    forall k :: i <= k < |es| ==> !es[k].Success?
  }

  /** Five failures at increasing positions, no success after the first, the last within a window of the first. */
  ghost predicate FiveInWindow(es: seq<Event>, five: seq<nat>)
  {
    && |five| == 5
    && (forall i, j :: 0 <= i < j < |five| ==> five[i] < five[j])
    && (forall i :: 0 <= i < |five| ==> five[i] < |es| && es[five[i]].Failure?)
    && NoSuccessFrom(es, five[0])
    && es[five[4]].at - es[five[0]].at <= 10_000_000_000
  }

  lemma {:induction false} HistoryGrows(es: seq<Event>, i: nat)
    requires i <= |es| && NoSuccessFrom(es, i)
    ensures FailuresSince(es[..i]) <= FailuresSince(es)
  {
    if i == |es| {
      assert es[..i] == es;
    } else {
      assert Init(es)[..i] == es[..i];
      HistoryGrows(Init(es), i);
    }
  }

  /** The place of the failure at position `i` in the history. */
  lemma PlaceOf(es: seq<Event>, i: nat) returns (p: nat)
    requires i < |es| && es[i].Failure? && NoSuccessFrom(es, i)
    ensures p == |FailuresSince(es[..i])| < |FailuresSince(es)|
    ensures FailuresSince(es)[p] == es[i].at
  {
    p := |FailuresSince(es[..i])|;
    assert Init(es[..i + 1]) == es[..i];
    HistoryGrows(es, i + 1);
  }

  lemma PlacesIncrease(es: seq<Event>, i: nat, j: nat)
    requires i < j < |es| && es[i].Failure? && NoSuccessFrom(es, i)
    ensures |FailuresSince(es[..i])| < |FailuresSince(es[..j])|
  {
    assert Init(es[..i + 1]) == es[..i];
    assert es[..j][..i + 1] == es[..i + 1];
    HistoryGrows(es[..j], i + 1);
  }

  /** The position of the history's entry `p`. */
  lemma {:induction false} PositionOf(es: seq<Event>, p: nat) returns (i: nat)
    requires p < |FailuresSince(es)|
    ensures i < |es| && es[i] == Failure(FailuresSince(es)[p])
    ensures NoSuccessFrom(es, i) && |FailuresSince(es[..i])| == p
  {
    if Last(es).Failure? && p == |FailuresSince(es)| - 1 {
      i := |es| - 1;
      assert es[..i] == Init(es);
    } else {
      i := PositionOf(Init(es), p);
      assert Init(es)[..i] == es[..i];
    }
  }

  lemma PositionsIncrease(es: seq<Event>, i: nat, j: nat)
    requires i < |es| && j < |es| && NoSuccessFrom(es, j)
    requires es[j].Failure?
    requires |FailuresSince(es[..i])| < |FailuresSince(es[..j])|
    ensures i < j
  {
    if j < i {
      PlacesIncrease(es, j, i);
    }
  }

  lemma FiveFromTrip(es: seq<Event>, j: nat) returns (five: seq<nat>)
    requires TripsAt(FailuresSince(es), j)
    ensures FiveInWindow(es, five)
  {
    var a := PositionOf(es, j - 4);
    var b := PositionOf(es, j - 3);
    var c := PositionOf(es, j - 2);
    var d := PositionOf(es, j - 1);
    var e := PositionOf(es, j);
    PositionsIncrease(es, a, b);
    PositionsIncrease(es, b, c);
    PositionsIncrease(es, c, d);
    PositionsIncrease(es, d, e);
    five := [a, b, c, d, e];
  }

  lemma TripFromFive(es: seq<Event>, five: seq<nat>)
    requires Monotone(es) && FiveInWindow(es, five)
    ensures Tripped(FailuresSince(es))
  {
    var first := PlaceOf(es, five[0]);
    var last := PlaceOf(es, five[4]);
    assert first + 4 <= last by {
      PlacesIncrease(es, five[0], five[1]);
      PlacesIncrease(es, five[1], five[2]);
      PlacesIncrease(es, five[2], five[3]);
      PlacesIncrease(es, five[3], five[4]);
    }
    TripFromPlaces(es, first, last);
  }

  lemma TripFromPlaces(es: seq<Event>, first: nat, last: nat)
    requires Monotone(es) && first + 4 <= last < |FailuresSince(es)|
    requires FailuresSince(es)[last] - FailuresSince(es)[first] <= FAILURE_WINDOW
    ensures Tripped(FailuresSince(es))
  {
    HistoryIsAscending(es, Last(es).at);
    assert TripsAt(FailuresSince(es), last);
  }

  /**
   * After any run the breaker has left Closed exactly when some five failures, with no success after the
   * first of them, lie within ten seconds of each other.
   */
  lemma OpenedIffFiveFailures(es: seq<Event>)
    requires Monotone(es)
    ensures Run(es).state != Closed <==> exists five :: FiveInWindow(es, five)
  {
    RunRefinesTrace(es);
    if Run(es).state != Closed {
      var j :| TripsAt(FailuresSince(es), j);
      var five := FiveFromTrip(es, j);
    }
    if five :| FiveInWindow(es, five) {
      TripFromFive(es, five);
    }
  }

  /* ---------- the open period ---------- */

  /** From Open, with no success and no time past the open period, every question is answered no. */
  lemma {:induction false} BlockedWhileOpen(es: seq<Event>, more: seq<Event>, t: nat, now: nat)
    requires Run(es).state == Open && Run(es).openedAt.Some? && Run(es).openedAt.value >= t
    requires forall e :: e in more ==> !e.Success? && t <= e.at < t + OPEN_DURATION
    requires t <= now < t + OPEN_DURATION
    ensures Run(es + more).state == Open && Run(es + more).openedAt.Some? && Run(es + more).openedAt.value >= t
    ensures !Admits(Run(es + more), now)
  {
    if more == [] {
      assert es + more == es;
    } else {
      assert Init(es + more) == es + Init(more) && Last(es + more) == Last(more);
      assert Last(more) in more;
      BlockedWhileOpen(es, Init(more), t, now);
    }
  }

  /** A failure that leaves the breaker Open keeps callers away for the whole open period after it. */
  lemma FailureBlocks(es: seq<Event>, t: nat, more: seq<Event>, now: nat)
    requires Monotone(es + [Failure(t)]) && Run(es + [Failure(t)]).state == Open
    requires forall e :: e in more ==> !e.Success? && t <= e.at < t + 30_000_000_000
    requires t <= now < t + 30_000_000_000
    ensures !Admits(Run(es + [Failure(t)] + more), now)
  {
    BreakerInvariant(es + [Failure(t)]);
    assert Last(es + [Failure(t)]) == Failure(t);
    BlockedWhileOpen(es + [Failure(t)], more, t, now);
  }

  /* ---------- interleaved callers ---------- */

  /** A caller locks the breaker twice: to ask, and, if admitted, to report how the primary answered. */
  datatype Action = Ask(caller: nat, at: nat) | Report(caller: nat, ok: bool, at: nat)

  datatype System = System(breaker: Breaker, inFlight: set<nat>)

  predicate Enabled(s: System, a: Action)
  {
    match a
    case Ask(c, _) => c !in s.inFlight
    case Report(c, _, _) => c in s.inFlight
  }

  function EventOf(a: Action): (e: Event)
  {
    match a
    case Ask(_, t) => Available(t)
    case Report(_, ok, t) => if ok then Success(t) else Failure(t)
  }

  function Next(s: System, a: Action): (r: System)
  {
    var b := Step(s.breaker, EventOf(a));
    match a
    case Ask(c, t) => System(b, if Admits(s.breaker, t) then s.inFlight + {c} else s.inFlight)
    case Report(c, _, _) => System(b, s.inFlight - {c})
  }

  function Execute(schedule: seq<Action>): (s: System)
  {
    if schedule == [] then System(NEW_BREAKER, {}) else Next(Execute(Init(schedule)), Last(schedule))
  }

  ghost predicate Clocked(schedule: seq<Action>)
  {
    forall i, j :: 0 <= i < j < |schedule| ==> schedule[i].at <= schedule[j].at
  }

  /** Each action is enabled when it is taken, at a time no earlier than the action before it. */
  ghost predicate ValidSchedule(schedule: seq<Action>)
  {
    schedule == [] || (
      && ValidSchedule(Init(schedule)) && Enabled(Execute(Init(schedule)), Last(schedule))
      && (Init(schedule) != [] ==> Last(Init(schedule)).at <= Last(schedule).at))
  }

  lemma {:induction false} ValidIsClocked(schedule: seq<Action>)
    requires ValidSchedule(schedule)
    ensures Clocked(schedule)
  {
    if schedule != [] {
      ValidIsClocked(Init(schedule));
    }
  }

  function EventsOf(schedule: seq<Action>): (es: seq<Event>)
    ensures |es| == |schedule|
    ensures forall i :: 0 <= i < |es| ==> es[i] == EventOf(schedule[i])
  {
    seq(|schedule|, i requires 0 <= i < |schedule| => EventOf(schedule[i]))
  }

  lemma {:induction false} ScheduleIsRun(schedule: seq<Action>)
    ensures Execute(schedule).breaker == Run(EventsOf(schedule))
  {
    if schedule != [] {
      ScheduleIsRun(Init(schedule));
      assert Init(EventsOf(schedule)) == EventsOf(Init(schedule));
    }
  }

  /**
   * Over every interleaving of callers: a caller asking at `now` is sent to the primary exactly when the
   * trace of reports shows no window of five failures since the last success, or somebody has already
   * probed since the last failure, or the open period since the last failure is over.
   */
  lemma AdmissionFromTrace(schedule: seq<Action>, now: nat)
    requires ValidSchedule(schedule)
    ensures var es := EventsOf(schedule); var h := FailuresSince(es);
      Admits(Execute(schedule).breaker, now) <==>
        (|| !(exists five :: FiveInWindow(es, five))
         || Probed(es)
         || (h != [] && now - Last(h) >= 30_000_000_000))
  {
    var es := EventsOf(schedule);
    ScheduleIsRun(schedule);
    assert Monotone(es) by {
      ValidIsClocked(schedule);
      forall i, j | 0 <= i < j < |es| ensures es[i].at <= es[j].at {
        assert es[i].at == schedule[i].at && es[j].at == schedule[j].at;
      }
    }
    RunRefinesTrace(es);
    OpenedIffFiveFailures(es);
  }

  /* ---------- probes ---------- */

  function Callers(actions: seq<Action>): (s: set<nat>)
  {
    set a | a in actions :: a.caller
  }

  lemma {:induction false} ScheduleSnoc(schedule: seq<Action>, a: Action)
    requires ValidSchedule(schedule) && Enabled(Execute(schedule), a)
    requires schedule != [] ==> Last(schedule).at <= a.at
    ensures ValidSchedule(schedule + [a]) && Execute(schedule + [a]) == Next(Execute(schedule), a)
  {
    assert Init(schedule + [a]) == schedule;
  }

  lemma {:induction false} ScheduleUnsnoc(schedule: seq<Action>, a: Action)
    requires ValidSchedule(schedule + [a])
    ensures ValidSchedule(schedule) && Enabled(Execute(schedule), a)
    ensures Execute(schedule + [a]) == Next(Execute(schedule), a)
  {
    assert Init(schedule + [a]) == schedule;
  }

  lemma AppendLast<T>(s: seq<T>, more: seq<T>)
    requires more != []
    ensures s + more == s + Init(more) + [Last(more)]
  {
    assert more == Init(more) + [Last(more)];
  }

  lemma ClockedInit(schedule: seq<Action>, a: Action)
    requires Clocked(schedule + [a])
    ensures Clocked(schedule) && (schedule != [] ==> Last(schedule).at <= a.at)
  {
    var all := schedule + [a];
    assert forall i :: 0 <= i < |schedule| ==> all[i] == schedule[i];
    assert all[|schedule|] == a;
  }

  lemma CallersSnoc(actions: seq<Action>)
    requires actions != []
    ensures Callers(actions) == Callers(Init(actions)) + {Last(actions).caller}
  {
    assert actions == Init(actions) + [Last(actions)];
  }

  /** New callers may always ask, one after another. */
  lemma {:induction false} NewCallersMayAsk(schedule: seq<Action>, asks: seq<Action>)
    requires ValidSchedule(schedule) && Clocked(schedule + asks)
    requires forall a :: a in asks ==> a.Ask? && a.caller !in Execute(schedule).inFlight
    requires forall i, j :: 0 <= i < j < |asks| ==> asks[i].caller != asks[j].caller
    ensures ValidSchedule(schedule + asks)
    ensures Execute(schedule + asks).inFlight <= Execute(schedule).inFlight + Callers(asks)
  {
    if asks == [] {
      assert schedule + asks == schedule;
    } else {
      var before, a := schedule + Init(asks), Last(asks);
      AppendLast(schedule, asks);
      ClockedInit(before, a);
      NewCallersMayAsk(schedule, Init(asks));
      CallersSnoc(asks);
      assert a.caller !in Callers(Init(asks));
      ScheduleSnoc(before, a);
    }
  }

  /** Since `b`, the breaker has at most gone HalfOpen, and the `added` callers have been let in. */
  ghost predicate LetIn(b: Breaker, before: set<nat>, s: System, added: set<nat>)
  {
    s.inFlight == before + added && before !! added && (s.breaker == b || s.breaker.state == HalfOpen)
  }

  lemma LetInOneMore(b: Breaker, before: set<nat>, s: System, added: set<nat>, a: Action)
    requires LetIn(b, before, s, added) && a.Ask? && Enabled(s, a) && Admits(b, a.at)
    ensures LetIn(b, before, Next(s, a), added + {a.caller}) && |added + {a.caller}| == |added| + 1
  {
  }

  /** If the breaker would admit each of them alone, it admits all of them together. */
  lemma {:induction false} AdmittedTogether(schedule: seq<Action>, asks: seq<Action>)
    requires ValidSchedule(schedule + asks)
    requires forall a :: a in asks ==> a.Ask? && Admits(Execute(schedule).breaker, a.at)
    ensures LetIn(Execute(schedule).breaker, Execute(schedule).inFlight, Execute(schedule + asks), Callers(asks))
    ensures |Callers(asks)| == |asks|
  {
    if asks == [] {
      assert schedule + asks == schedule;
    } else {
      var s, before, a := Execute(schedule), schedule + Init(asks), Last(asks);
      AppendLast(schedule, asks);
      ScheduleUnsnoc(before, a);
      AdmittedTogether(schedule, Init(asks));
      LetInOneMore(s.breaker, s.inFlight, Execute(before), Callers(Init(asks)), a);
      CallersSnoc(asks);
    }
  }

  /**
   * HalfOpen lets through not one probe but all of them: any valid schedule that ends in HalfOpen can be
   * extended by any new callers, and every one of them is in flight afterwards.
   */
  lemma HalfOpenAdmitsEveryone(schedule: seq<Action>, asks: seq<Action>)
    requires ValidSchedule(schedule) && Execute(schedule).breaker.state == HalfOpen
    requires Clocked(schedule + asks)
    requires forall a :: a in asks ==> a.Ask? && a.caller !in Execute(schedule).inFlight
    requires forall i, j :: 0 <= i < j < |asks| ==> asks[i].caller != asks[j].caller
    ensures ValidSchedule(schedule + asks)
    ensures Execute(schedule + asks).inFlight == Execute(schedule).inFlight + Callers(asks)
    ensures |Callers(asks)| == |asks|
  {
    NewCallersMayAsk(schedule, asks);
    AdmittedTogether(schedule, asks);
  }

  /**
   * From Open, once the open period is over and before anybody reports: at most one probe is in flight if and
   * only if at most one caller has asked.
   */
  lemma OneProbeIff(schedule: seq<Action>, asks: seq<Action>)
    requires ValidSchedule(schedule + asks) && Execute(schedule).breaker.state == Open
    requires forall a :: a in asks ==> a.Ask? && ProbeDue(Execute(schedule).breaker, a.at)
    ensures |Execute(schedule + asks).inFlight - Execute(schedule).inFlight| <= 1 <==> |asks| <= 1
  {
    AdmittedTogether(schedule, asks);
    assert Execute(schedule + asks).inFlight - Execute(schedule).inFlight == Callers(asks);
  }

  /** One caller fails `n` times at time 0. */
  function Failing(n: nat): (schedule: seq<Action>)
    ensures forall i :: 0 <= i < |schedule| ==> schedule[i].at == 0
  {
    if n == 0 then [] else Failing(n - 1) + [Ask(0, 0)] + [Report(0, false, 0)]
  }

  function Zeros(n: nat): (s: seq<nat>)
    ensures |s| == n
  {
    if n == 0 then [] else Zeros(n - 1) + [0]
  }

  lemma {:induction false} ZerosAreZero(n: nat)
    ensures forall i :: 0 <= i < n ==> Zeros(n)[i] == 0
  {
    if n > 0 {
      ZerosAreZero(n - 1);
    }
  }

  function AfterFailing(n: nat): (b: Breaker)
    requires n <= FAILURE_THRESHOLD
  {
    Breaker(if n < 5 then Closed else Open, Zeros(n), if n < 5 then None else Some(0))
  }

  lemma OneMoreFailure(n: nat)
    requires n < FAILURE_THRESHOLD
    ensures AfterFailure(AfterFailing(n), 0) == AfterFailing(n + 1)
  {
    ZerosAreZero(n);
  }

  lemma AskAndFail(b: Breaker)
    requires b.state == Closed
    ensures Next(System(b, {}), Ask(0, 0)) == System(b, {0})
    ensures Next(System(b, {0}), Report(0, false, 0)) == System(AfterFailure(b, 0), {})
  {
    assert {0} - {0} == {};
  }

  lemma {:induction false} FailOnce(schedule: seq<Action>, b: Breaker)
    requires ValidSchedule(schedule) && forall i :: 0 <= i < |schedule| ==> schedule[i].at == 0
    requires Execute(schedule) == System(b, {}) && b.state == Closed
    ensures var more := schedule + [Ask(0, 0)] + [Report(0, false, 0)];
      ValidSchedule(more) && Execute(more) == System(AfterFailure(b, 0), {})
  {
    AskAndFail(b);
    ScheduleSnoc(schedule, Ask(0, 0));
    ScheduleSnoc(schedule + [Ask(0, 0)], Report(0, false, 0));
  }

  lemma {:induction false} FailingTrips(n: nat)
    requires n <= FAILURE_THRESHOLD
    ensures ValidSchedule(Failing(n)) && Execute(Failing(n)) == System(AfterFailing(n), {})
  {
    if n > 0 {
      FailingTrips(n - 1);
      FailOnce(Failing(n - 1), AfterFailing(n - 1));
      OneMoreFailure(n - 1);
    }
  }

  lemma SomeTrippedSchedule() returns (schedule: seq<Action>, b: Breaker)
    ensures ValidSchedule(schedule) && forall i :: 0 <= i < |schedule| ==> schedule[i].at == 0
    ensures Execute(schedule) == System(b, {}) && b.state == Open && b.openedAt == Some(0)
  {
    var n: nat := FAILURE_THRESHOLD;
    schedule, b := Failing(n), AfterFailing(n);
    FailingTrips(n);
  }

  /** From a new breaker, a valid schedule leads to HalfOpen with two probes in flight together. */
  lemma {:induction false} TwoProbesInFlight() returns (schedule: seq<Action>)
    ensures ValidSchedule(schedule)
    ensures Execute(schedule).breaker.state == HalfOpen && Execute(schedule).inFlight == {1, 2}
  {
    var tripped, b := SomeTrippedSchedule();
    ScheduleSnoc(tripped, Ask(1, OPEN_DURATION));
    var once := tripped + [Ask(1, OPEN_DURATION)];
    assert Execute(once) == System(b.(state := HalfOpen), {1});
    ScheduleSnoc(once, Ask(2, OPEN_DURATION));
    schedule := once + [Ask(2, OPEN_DURATION)];
  }
}
