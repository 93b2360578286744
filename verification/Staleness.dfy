/** How stale the account stream is (crates/ciel-fork/src/staleness.rs). */
module Staleness {
  import opened Prelude

  datatype StalenessState = Fresh | Degraded | Expired

  datatype StalenessConfig = StalenessConfig(warnThreshold: nat, timeoutThreshold: nat)

  datatype Update = Update(slot: U64, at: nat)

  /** Everything that ever happened to a tracker: when it was made, and the updates it was told of. */
  datatype Stream = Stream(created: nat, updates: seq<Update>, config: StalenessConfig)

  /** The clock does not run backwards, and `now` comes last. */
  ghost predicate Timely(s: Stream, now: nat)
  {
    && s.created <= now
    && (forall u :: u in s.updates ==> s.created <= u.at <= now)
    && forall i, j :: 0 <= i < j < |s.updates| ==> s.updates[i].at <= s.updates[j].at
  }

  function LastHeard(s: Stream): (t: nat)
  {
    if s.updates == [] then s.created else s.updates[|s.updates| - 1].at
  }

  function LastSlot(s: Stream): (slot: U64)
  {
    if s.updates == [] then 0 else s.updates[|s.updates| - 1].slot
  }

  /** The tracker was made, or some update arrived, no longer than `span` ago. */
  ghost predicate HeardWithin(s: Stream, span: nat, now: nat)
  {
    now - s.created <= span || exists u :: u in s.updates && now - u.at <= span
  }

  /** Looking at the last update alone is enough. */
  lemma LastHeardDecides(s: Stream, span: nat, now: nat)
    requires Timely(s, now)
    ensures HeardWithin(s, span, now) <==> now - LastHeard(s) <= span
  {
    if s.updates != [] {
      var last := s.updates[|s.updates| - 1];
      assert last in s.updates;
      forall u | u in s.updates ensures u.at <= last.at {
        var i :| 0 <= i < |s.updates| && s.updates[i] == u;
      }
    }
  }

  function StateOf(s: Stream, now: nat): (r: StalenessState)
  {
    if now - LastHeard(s) > s.config.timeoutThreshold then Expired
    else if now - LastHeard(s) > s.config.warnThreshold then Degraded
    else Fresh
  }

  /** Fresh, or Expired, according to whether anything at all was heard within the thresholds. */
  lemma StateFromUpdates(s: Stream, now: nat)
    requires Timely(s, now)
    ensures StateOf(s, now) == Fresh <==>
      HeardWithin(s, s.config.warnThreshold, now) && HeardWithin(s, s.config.timeoutThreshold, now)
    ensures StateOf(s, now) == Expired <==> !HeardWithin(s, s.config.timeoutThreshold, now)
  {
    LastHeardDecides(s, s.config.warnThreshold, now);
    LastHeardDecides(s, s.config.timeoutThreshold, now);
  }

  class StalenessTracker {
    var lastUpdate: nat
    var lastSlot: U64
    const config: StalenessConfig

    /** The fields are what the stream's last event left in them. */
    predicate Follows(s: Stream)
      reads this
    {
      lastUpdate == LastHeard(s) && lastSlot == LastSlot(s) && config == s.config
    }

    constructor (config: StalenessConfig, now: nat)
      ensures Follows(Stream(now, [], config))
    {
      this.config := config;
      lastUpdate, lastSlot := now, 0;
    }

    method RecordUpdate(slot: U64, now: nat, ghost s: Stream)
      requires Follows(s)
      modifies this
      ensures Follows(s.(updates := s.updates + [Update(slot, now)]))
    {
      lastUpdate := now;
      lastSlot := slot;
    }

    /**
     * Fresh exactly when some event lies within both thresholds, Expired exactly when none lies within the timeout
     * threshold.
     */
    method State(now: nat, ghost s: Stream) returns (state: StalenessState)
      requires Follows(s) && Timely(s, now)
      ensures state == StateOf(s, now)
      ensures state == Fresh <==>
        HeardWithin(s, s.config.warnThreshold, now) && HeardWithin(s, s.config.timeoutThreshold, now)
      ensures state == Expired <==> !HeardWithin(s, s.config.timeoutThreshold, now)
    {
      var elapsed := now - lastUpdate;
      if elapsed > config.timeoutThreshold {
        state := Expired;
      } else if elapsed > config.warnThreshold {
        state := Degraded;
      } else {
        state := Fresh;
      }
      StateFromUpdates(s, now);
    }
  }

  /** A stream that was not Fresh is Fresh again only through an update that arrived within the warn threshold. */
  lemma FreshNeedsUpdate(s: Stream, more: seq<Update>, before: nat, now: nat)
    requires before <= now && Timely(s, before) && Timely(s.(updates := s.updates + more), now)
    requires StateOf(s, before) != Fresh && StateOf(s.(updates := s.updates + more), now) == Fresh
    ensures exists u :: u in more && now - u.at <= s.config.warnThreshold
  {
    assert more == [] ==> s.updates + more == s.updates;
    assert more != [] ==> more[|more| - 1] in more;
  }
}
