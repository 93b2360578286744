/** The dual-TTL account cache against a log that never evicts (crates/ciel-fork/src/cache.rs). */
module AccountCache {
  import opened Prelude
  import opened Chain

  datatype Entry = Entry(account: Account, insertedAt: nat, monitored: bool)

  datatype Ttls = Ttls(plain: nat, monitored: nat)

  type Store = map<Pubkey, Entry>

  /* ---------- the operations on values ---------- */

  function TtlOf(e: Entry, ttls: Ttls): (ttl: nat)
  {
    if e.monitored then ttls.monitored else ttls.plain
  }

  predicate Expired(e: Entry, now: nat, ttls: Ttls)
  {
    now - e.insertedAt > TtlOf(e, ttls)
  }

  function Lookup(s: Store, k: Pubkey, now: nat, ttls: Ttls): (r: Option<Account>)
  {
    if k in s && !Expired(s[k], now, ttls) then Some(s[k].account) else None
  }

  function AfterGet(s: Store, k: Pubkey, now: nat, ttls: Ttls): (r: Store)
  {
    if k in s && Expired(s[k], now, ttls) then s - {k} else s
  }

  function AfterMark(s: Store, k: Pubkey): (r: Store)
  {
    if k in s then s[k := s[k].(monitored := true)] else s
  }

  function AfterEvict(s: Store, now: nat, ttls: Ttls): (r: Store)
  {
    map k | k in s && !Expired(s[k], now, ttls) :: s[k]
  }

  function ExpiredKeys(s: Store, now: nat, ttls: Ttls): (r: set<Pubkey>)
  {
    set k | k in s && Expired(s[k], now, ttls)
  }

  class AccountCache {
    var inner: Store
    const ttls: Ttls

    constructor (ttls: Ttls)
      ensures inner == map[] && this.ttls == ttls
    {
      inner := map[];
      this.ttls := ttls;
    }

    method Get(k: Pubkey, now: nat) returns (account: Option<Account>)
      modifies this
      ensures account == Lookup(old(inner), k, now, ttls)
      ensures inner == AfterGet(old(inner), k, now, ttls)
    {
      if k !in inner {
        return None;
      }
      var entry := inner[k];
      var ttl := if entry.monitored then ttls.monitored else ttls.plain;
      if now - entry.insertedAt > ttl {
        inner := inner - {k};
        return None;
      }
      return Some(entry.account);
    }

    method Insert(k: Pubkey, account: Account, monitored: bool, now: nat)
      modifies this
      ensures inner == old(inner)[k := Entry(account, now, monitored)]
    {
      inner := inner[k := Entry(account, now, monitored)];
    }

    method MarkMonitored(k: Pubkey)
      modifies this
      ensures inner == AfterMark(old(inner), k)
    {
      if k in inner {
        inner := inner[k := inner[k].(monitored := true)];
      }
    }

    method EvictStale(now: nat) returns (evicted: nat)
      modifies this
      ensures inner == AfterEvict(old(inner), now, ttls)
      ensures evicted == |ExpiredKeys(old(inner), now, ttls)|
    {
      var before := inner;
      inner := map k | k in inner && !Expired(inner[k], now, ttls) :: inner[k];
      ghost var gone := ExpiredKeys(before, now, ttls);
      assert before.Keys == inner.Keys + gone && inner.Keys !! gone;
      assert |before.Keys| == |inner.Keys| + |gone|;
      evicted := |before| - |inner|;
    }
  }

  /* ---------- runs and the log ---------- */

  /**
   * A `get` that finds a stale entry releases it and removes the key in a second step. `Get` is both steps with
   * nothing in between; `Check` is the first alone, and `DropStale` the second, naming its check by position.
   */
  datatype Op =
    | Insert(key: Pubkey, account: Account, monitored: bool, at: nat)
    | Mark(key: Pubkey, at: nat)
    | Get(key: Pubkey, at: nat)
    | Evict(at: nat)
    | Check(key: Pubkey, at: nat)
    | DropStale(key: Pubkey, at: nat, check: nat)

  function Apply(s: Store, op: Op, ttls: Ttls): (r: Store)
  {
    match op
    case Insert(k, a, m, t) => s[k := Entry(a, t, m)]
    case Mark(k, _) => AfterMark(s, k)
    case Get(k, t) => AfterGet(s, k, t, ttls)
    case Evict(t) => AfterEvict(s, t, ttls)
    case Check(_, _) => s
    case DropStale(k, _, _) => s - {k}
  }

  function Run(ops: seq<Op>, ttls: Ttls): (s: Store)
  {
    if ops == [] then map[] else Apply(Run(ops[..|ops| - 1], ttls), ops[|ops| - 1], ttls)
  }

  /** What a log of insertions and marks says about a key; gets and evictions leave no trace in it. */
  function Logged(ops: seq<Op>, k: Pubkey): (e: Option<Entry>)
  {
    if ops == [] then None else
      var before := Logged(ops[..|ops| - 1], k);
      match ops[|ops| - 1]
      case Insert(k', a, m, t) => if k' == k then Some(Entry(a, t, m)) else before
      case Mark(k', _) => if k' == k && before.Some? then Some(before.value.(monitored := true)) else before
      case _ => before
  }

  function LogLookup(ops: seq<Op>, k: Pubkey, now: nat, ttls: Ttls): (r: Option<Account>)
  {
    var e := Logged(ops, k);
    if e.Some? && !Expired(e.value, now, ttls) then Some(e.value.account) else None
  }

  /** Whatever the run, races included, a stored entry is the logged one. */
  lemma {:induction false} StoredIsLogged(ops: seq<Op>, ttls: Ttls, k: Pubkey)
    requires k in Run(ops, ttls)
    ensures Logged(ops, k) == Some(Run(ops, ttls)[k])
  {
    var before := Run(ops[..|ops| - 1], ttls);
    if k in before {
      StoredIsLogged(ops[..|ops| - 1], ttls, k);
    }
  }

  lemma {:induction false} LoggedIsLatestInsert(ops: seq<Op>, k: Pubkey) returns (i: nat)
    requires Logged(ops, k).Some?
    ensures i < |ops| && ops[i].Insert? && ops[i].key == k
    ensures ops[i].account == Logged(ops, k).value.account && ops[i].at == Logged(ops, k).value.insertedAt
    ensures forall j :: i < j < |ops| ==> !(ops[j].Insert? && ops[j].key == k)
  {
    var last := ops[|ops| - 1];
    if last.Insert? && last.key == k {
      i := |ops| - 1;
    } else {
      i := LoggedIsLatestInsert(ops[..|ops| - 1], k);
    }
  }

  /** On every run, with no restriction: a hit is the latest insertion, no older than the larger TTL. */
  lemma HitIsLatestAndYoung(ops: seq<Op>, ttls: Ttls, k: Pubkey, now: nat)
    requires Lookup(Run(ops, ttls), k, now, ttls).Some?
    ensures LogLookup(ops, k, now, ttls) == Lookup(Run(ops, ttls), k, now, ttls)
    ensures exists i :: 0 <= i < |ops| && ops[i].Insert? && ops[i].key == k
              && Lookup(Run(ops, ttls), k, now, ttls) == Some(ops[i].account)
              && (now - ops[i].at <= ttls.plain || now - ops[i].at <= ttls.monitored)
              && forall j :: i < j < |ops| ==> !(ops[j].Insert? && ops[j].key == k)
  {
    StoredIsLogged(ops, ttls, k);
    var i := LoggedIsLatestInsert(ops, k);
    assert 0 <= i < |ops|;
  }

  /* ---------- when eviction cannot be seen ---------- */

  /** The clock does not run backwards. */
  ghost predicate Timed(ops: seq<Op>)
  {
    forall i, j :: 0 <= i < j < |ops| ==> ops[i].at <= ops[j].at
  }

  /** One operation at a time: no get is overtaken between its two steps. */
  ghost predicate Sequential(ops: seq<Op>)
  {
    (forall i :: 0 <= i < |ops| ==> !ops[i].DropStale?) && Timed(ops)
  }

  /** A mark at `t` brings `e` back: too old for the plain TTL, young enough for the monitored one. */
  predicate Revives(e: Option<Entry>, t: nat, ttls: Ttls)
  {
    e.Some? && !e.value.monitored && ttls.plain < t - e.value.insertedAt <= ttls.monitored
  }

  predicate Alive(e: Option<Entry>, t: nat, ttls: Ttls)
  {
    e.Some? && !Expired(e.value, t, ttls)
  }

  ghost predicate NoRevival(ops: seq<Op>, ttls: Ttls)
  {
    forall i :: 0 <= i < |ops| && ops[i].Mark? ==> !Revives(Logged(ops[..i], ops[i].key), ops[i].at, ttls)
  }

  /** A mark that brings an entry back comes before anything has removed that entry. */
  ghost predicate RevivalsInTime(ops: seq<Op>, ttls: Ttls)
  {
    forall i :: 0 <= i < |ops| && ops[i].Mark? && Revives(Logged(ops[..i], ops[i].key), ops[i].at, ttls) ==>
      ops[i].key in Run(ops[..i], ttls)
  }

  /** An overtaken get removes nothing that is alive when it removes it. */
  ghost predicate HarmlessDrops(ops: seq<Op>, ttls: Ttls)
  {
    forall i :: 0 <= i < |ops| && ops[i].DropStale? ==> !Alive(Logged(ops[..i], ops[i].key), ops[i].at, ttls)
  }

  /** Entries the store has lost are expired, and stay so. */
  lemma {:induction false} LostIsExpired(ops: seq<Op>, ttls: Ttls, k: Pubkey)
    requires Timed(ops) && RevivalsInTime(ops, ttls) && HarmlessDrops(ops, ttls)
    requires k !in Run(ops, ttls) && Logged(ops, k).Some?
    ensures ops != [] && Expired(Logged(ops, k).value, ops[|ops| - 1].at, ttls)
  {
    var init, last := ops[..|ops| - 1], ops[|ops| - 1];
    assert forall i :: 0 <= i < |init| ==> init[i] == ops[i] && init[..i] == ops[..i];
    if k in Run(init, ttls) {
      StoredIsLogged(init, ttls, k);
    } else if Logged(init, k).Some? {
      LostIsExpired(init, ttls, k);
    }
  }

  lemma AgreesNow(ops: seq<Op>, ttls: Ttls, k: Pubkey, now: nat)
    requires Timed(ops) && RevivalsInTime(ops, ttls) && HarmlessDrops(ops, ttls)
    requires forall i :: 0 <= i < |ops| ==> ops[i].at <= now
    ensures Lookup(Run(ops, ttls), k, now, ttls) == LogLookup(ops, k, now, ttls)
  {
    if k in Run(ops, ttls) {
      StoredIsLogged(ops, ttls, k);
    } else if Logged(ops, k).Some? {
      LostIsExpired(ops, ttls, k);
    }
  }

  /** After each prefix of the run, a get of any key at any later time answers what the log answers. */
  ghost predicate AgreesThroughout(ops: seq<Op>, ttls: Ttls)
  {
    forall n: nat, k: Pubkey, now: nat :: n <= |ops| && (forall i :: 0 <= i < n ==> ops[i].at <= now) ==>
      Lookup(Run(ops[..n], ttls), k, now, ttls) == LogLookup(ops[..n], k, now, ttls)
  }

  lemma PrefixIsHarmless(ops: seq<Op>, ttls: Ttls, n: nat)
    requires n <= |ops| && Timed(ops) && RevivalsInTime(ops, ttls) && HarmlessDrops(ops, ttls)
    ensures Timed(ops[..n]) && RevivalsInTime(ops[..n], ttls) && HarmlessDrops(ops[..n], ttls)
  {
    assert forall i :: 0 <= i < n ==> ops[..n][i] == ops[i] && ops[..n][..i] == ops[..i];
  }

  lemma AgreementShowsHarmless(ops: seq<Op>, ttls: Ttls, i: nat)
    requires Timed(ops) && AgreesThroughout(ops, ttls) && i < |ops|
    ensures ops[i].DropStale? ==> !Alive(Logged(ops[..i], ops[i].key), ops[i].at, ttls)
    ensures ops[i].Mark? && Revives(Logged(ops[..i], ops[i].key), ops[i].at, ttls) ==> ops[i].key in Run(ops[..i], ttls)
  {
    var op := ops[i];
    assert ops[..i + 1][..i] == ops[..i];
    if op.DropStale? || op.Mark? {
      assert Lookup(Run(ops[..i + 1], ttls), op.key, op.at, ttls) == LogLookup(ops[..i + 1], op.key, op.at, ttls);
    }
  }

  /**
   * On any timed run, overtaken gets included, gets answer throughout what the log answers if and only if no
   * mark revives an entry already removed and no overtaken get removes an entry that is alive.
   */
  lemma AgreesThroughoutIff(ops: seq<Op>, ttls: Ttls)
    requires Timed(ops)
    ensures AgreesThroughout(ops, ttls) <==> RevivalsInTime(ops, ttls) && HarmlessDrops(ops, ttls)
  {
    if AgreesThroughout(ops, ttls) {
      forall i | 0 <= i < |ops|
        ensures ops[i].DropStale? ==> !Alive(Logged(ops[..i], ops[i].key), ops[i].at, ttls)
        ensures (ops[i].Mark? && Revives(Logged(ops[..i], ops[i].key), ops[i].at, ttls)) ==>
                  ops[i].key in Run(ops[..i], ttls)
      {
        AgreementShowsHarmless(ops, ttls, i);
      }
    } else if RevivalsInTime(ops, ttls) && HarmlessDrops(ops, ttls) {
      forall n: nat, k: Pubkey, now: nat | n <= |ops| && (forall i :: 0 <= i < n ==> ops[i].at <= now)
        ensures Lookup(Run(ops[..n], ttls), k, now, ttls) == LogLookup(ops[..n], k, now, ttls)
      {
        PrefixIsHarmless(ops, ttls, n);
        AgreesNow(ops[..n], ttls, k, now);
      }
    }
  }

  lemma GetsAgreeWithLog(ops: seq<Op>, ttls: Ttls, k: Pubkey, now: nat)
    requires Sequential(ops) && NoRevival(ops, ttls)
    requires forall i :: 0 <= i < |ops| ==> ops[i].at <= now
    ensures Lookup(Run(ops, ttls), k, now, ttls) == LogLookup(ops, k, now, ttls)
  {
    AgreesNow(ops, ttls, k, now);
  }

  /* ---------- gets overtaken between their two steps ---------- */

  /** Each removal belongs to an earlier check that found its key's entry stale. */
  ghost predicate Genuine(ops: seq<Op>, ttls: Ttls)
  {
    forall j :: 0 <= j < |ops| && ops[j].DropStale? ==> SawStale(ops, ops[j].check, j, ops[j].key, ttls)
  }

  ghost predicate SawStale(ops: seq<Op>, i: nat, j: nat, k: Pubkey, ttls: Ttls)
  {
    && i < j <= |ops| && ops[i].Check? && ops[i].key == k
    && k in Run(ops[..i], ttls) && Expired(Run(ops[..i], ttls)[k], ops[i].at, ttls)
  }

  /** What can bring an expired key back to life: an insertion, or a mark within the monitored TTL. */
  ghost predicate Refreshes(ops: seq<Op>, m: nat, k: Pubkey, ttls: Ttls)
    requires m < |ops|
  {
    || (ops[m].Insert? && ops[m].key == k)
    || (ops[m].Mark? && ops[m].key == k && Revives(Logged(ops[..m], k), ops[m].at, ttls))
  }

  /** From a time at which the log shows a key expired, only an insertion or a reviving mark makes it alive again. */
  lemma {:induction false} StaysExpired(ops: seq<Op>, i: nat, j: nat, k: Pubkey, t: nat, ttls: Ttls)
    requires Timed(ops) && i < j <= |ops|
    requires Logged(ops[..i], k).Some? && Expired(Logged(ops[..i], k).value, ops[i].at, ttls)
    requires forall m :: i <= m < j ==> !Refreshes(ops, m, k, ttls)
    requires ops[j - 1].at <= t
    ensures Logged(ops[..j], k).Some? && Expired(Logged(ops[..j], k).value, t, ttls)
    decreases j
  {
    assert ops[..j][..j - 1] == ops[..j - 1];
    if i < j - 1 {
      StaysExpired(ops, i, j - 1, k, ops[j - 1].at, ttls);
    }
    assert !Refreshes(ops, j - 1, k, ttls);
  }

  lemma UnrefreshedDropIsHarmless(ops: seq<Op>, ttls: Ttls, j: nat)
    requires Timed(ops) && j < |ops| && ops[j].DropStale? && SawStale(ops, ops[j].check, j, ops[j].key, ttls)
    requires forall m :: ops[j].check < m < j ==> !Refreshes(ops, m, ops[j].key, ttls)
    ensures !Alive(Logged(ops[..j], ops[j].key), ops[j].at, ttls)
  {
    var i, k := ops[j].check, ops[j].key;
    StoredIsLogged(ops[..i], ttls, k);
    StaysExpired(ops, i, j, k, ops[j].at, ttls);
  }

  /** Operation `m` refreshes the key between the check and the removal `j`, and the key is still alive at `j`. */
  ghost predicate Overtakes(ops: seq<Op>, m: nat, j: nat, ttls: Ttls)
  {
    && m < j < |ops| && ops[j].DropStale? && ops[j].check < m
    && Refreshes(ops, m, ops[j].key, ttls) && Alive(Logged(ops[..j], ops[j].key), ops[j].at, ttls)
  }

  /**
   * Racing gets. When every removal follows a check that saw a stale entry, gets answer throughout what the log
   * answers if and only if reviving marks come in time and no key that an insertion or a mark brought back to
   * life between a get's check and its removal is still alive at the removal.
   */
  lemma RacingGetsAgreeIff(ops: seq<Op>, ttls: Ttls)
    requires Timed(ops) && Genuine(ops, ttls)
    ensures AgreesThroughout(ops, ttls) <==> RevivalsInTime(ops, ttls) && forall m, j :: !Overtakes(ops, m, j, ttls)
  {
    AgreesThroughoutIff(ops, ttls);
    forall j | 0 <= j < |ops| && ops[j].DropStale?
      ensures Alive(Logged(ops[..j], ops[j].key), ops[j].at, ttls) <==> exists m :: Overtakes(ops, m, j, ttls)
    {
      if forall m :: ops[j].check < m < j ==> !Refreshes(ops, m, ops[j].key, ttls) {
        UnrefreshedDropIsHarmless(ops, ttls, j);
      } else {
        var m :| ops[j].check < m < j && Refreshes(ops, m, ops[j].key, ttls);
        assert Overtakes(ops, m, j, ttls) <==> Alive(Logged(ops[..j], ops[j].key), ops[j].at, ttls);
      }
    }
  }

  /** In particular: no reviving marks, and no insertion of a key between a get's check of it and its removal. */
  lemma UndisturbedGetsAgree(ops: seq<Op>, ttls: Ttls)
    requires Timed(ops) && Genuine(ops, ttls) && NoRevival(ops, ttls)
    requires forall m, j :: 0 <= m < j < |ops| && ops[j].DropStale? && ops[j].check < m ==>
               !(ops[m].Insert? && ops[m].key == ops[j].key)
    ensures AgreesThroughout(ops, ttls)
  {
    RacingGetsAgreeIff(ops, ttls);
  }

  /** The insertions and marks of a run. */
  function Base(ops: seq<Op>): (r: seq<Op>)
  {
    if ops == [] then [] else
      var last := ops[|ops| - 1];
      Base(ops[..|ops| - 1]) + if last.Insert? || last.Mark? then [last] else []
  }

  lemma {:induction false} LoggedOfBase(ops: seq<Op>, k: Pubkey)
    ensures Logged(Base(ops), k) == Logged(ops, k)
  {
    if ops != [] {
      var init, last := ops[..|ops| - 1], ops[|ops| - 1];
      LoggedOfBase(init, k);
      if last.Insert? || last.Mark? {
        assert Base(ops)[..|Base(ops)| - 1] == Base(init);
      } else {
        assert Base(ops) == Base(init);
      }
    }
  }

  lemma {:induction false} NoRevivalOfBase(ops: seq<Op>, base: seq<Op>, ttls: Ttls)
    requires NoRevival(base, ttls) && Base(ops) <= base
    ensures NoRevival(ops, ttls)
  {
    if ops != [] {
      var init, last := ops[..|ops| - 1], ops[|ops| - 1];
      NoRevivalOfBase(init, base, ttls);
      forall i | 0 <= i < |ops| && ops[i].Mark? ensures !Revives(Logged(ops[..i], ops[i].key), ops[i].at, ttls) {
        if i < |init| {
          assert init[..i] == ops[..i] && init[i] == ops[i];
        } else {
          LoggedOfBase(init, last.key);
          var n := |Base(init)|;
          assert base[..n] == Base(init) && base[n] == last;
        }
      }
    }
  }

  /**
   * However gets and evictions are interleaved with the insertions and marks of `base` (or of any prefix
   * of it), each get answers what the log answers.
   */
  ghost predicate EvictionUnobservable(base: seq<Op>, ttls: Ttls)
  {
    forall ops: seq<Op>, k: Pubkey, now: nat ::
      (Sequential(ops) && Base(ops) <= base && forall i :: 0 <= i < |ops| ==> ops[i].at <= now)
      ==> Lookup(Run(ops, ttls), k, now, ttls) == LogLookup(ops, k, now, ttls)
  }

  lemma {:induction false} BaseOfBase(base: seq<Op>)
    requires forall i :: 0 <= i < |base| ==> base[i].Insert? || base[i].Mark?
    ensures Base(base) == base
  {
    if base != [] {
      BaseOfBase(base[..|base| - 1]);
    }
  }

  lemma OneMore(ops: seq<Op>, op: Op, ttls: Ttls, k: Pubkey)
    ensures Run(ops + [op], ttls) == Apply(Run(ops, ttls), op, ttls)
    ensures Base(ops + [op]) == Base(ops) + if op.Insert? || op.Mark? then [op] else []
    ensures op == Mark(k, op.at) && Logged(ops, k).Some? ==>
      Logged(ops + [op], k) == Some(Logged(ops, k).value.(monitored := true))
    ensures op.Evict? ==> Logged(ops + [op], k) == Logged(ops, k)
  {
    assert (ops + [op])[..|ops|] == ops;
  }

  /** Evict, then mark: the store has lost the entry that the log brings back. */
  lemma EvictThenMark(ops: seq<Op>, k: Pubkey, t: nat, ttls: Ttls)
    requires Revives(Logged(ops, k), t, ttls)
    ensures var after := ops + [Evict(t)] + [Mark(k, t)];
      && Lookup(Run(after, ttls), k, t, ttls) == None && LogLookup(after, k, t, ttls).Some?
      && Base(after) == Base(ops) + [Mark(k, t)]
  {
    OneMore(ops, Evict(t), ttls, k);
    OneMore(ops + [Evict(t)], Mark(k, t), ttls, k);
    if k in Run(ops, ttls) {
      StoredIsLogged(ops, ttls, k);
    }
  }

  /** An eviction just before a reviving mark makes the next get differ from the log. */
  lemma RevivalIsObservable(base: seq<Op>, ttls: Ttls, i: nat)
    requires Sequential(base) && forall j :: 0 <= j < |base| ==> base[j].Insert? || base[j].Mark?
    requires i < |base| && base[i].Mark? && Revives(Logged(base[..i], base[i].key), base[i].at, ttls)
    ensures !EvictionUnobservable(base, ttls)
  {
    var k, t := base[i].key, base[i].at;
    var ops := base[..i] + [Evict(t)] + [Mark(k, t)];
    EvictThenMark(base[..i], k, t, ttls);
    BaseOfBase(base[..i]);
    assert Base(ops) == base[..i + 1];
    assert Sequential(ops) && forall j :: 0 <= j < |ops| ==> ops[j].at <= t;
  }

  /** Eviction cannot be observed exactly when no mark comes between an entry's two expiry times. */
  lemma EvictionUnobservableIff(base: seq<Op>, ttls: Ttls)
    requires Sequential(base) && forall j :: 0 <= j < |base| ==> base[j].Insert? || base[j].Mark?
    ensures EvictionUnobservable(base, ttls) <==> NoRevival(base, ttls)
  {
    if NoRevival(base, ttls) {
      forall ops: seq<Op>, k: Pubkey, now: nat | Sequential(ops) && Base(ops) <= base
        && (forall i :: 0 <= i < |ops| ==> ops[i].at <= now)
        ensures Lookup(Run(ops, ttls), k, now, ttls) == LogLookup(ops, k, now, ttls)
      {
        NoRevivalOfBase(ops, base, ttls);
        GetsAgreeWithLog(ops, ttls, k, now);
      }
    } else {
      var i :| 0 <= i < |base| && base[i].Mark? && Revives(Logged(base[..i], base[i].key), base[i].at, ttls);
      RevivalIsObservable(base, ttls, i);
    }
  }

  /** The smallest harm: a stale get, overtaken by an insertion, throws the new entry away. */
  lemma OvertakenGetLosesInsert(stale: Account, newer: Account, k: Pubkey, ttls: Ttls, t: nat)
    requires t > ttls.plain
    ensures var ops := [Insert(k, stale, false, 0), Check(k, t), Insert(k, newer, false, t), DropStale(k, t, 1)];
      && Timed(ops) && Genuine(ops, ttls) && RevivalsInTime(ops, ttls)
      && Overtakes(ops, 2, 3, ttls) && !AgreesThroughout(ops, ttls)
  {
    var ops := [Insert(k, stale, false, 0), Check(k, t), Insert(k, newer, false, t), DropStale(k, t, 1)];
    assert ops[..1][..0] == [] && ops[..2][..1] == ops[..1] && ops[..3][..2] == ops[..2];
    assert Run(ops[..1], ttls) == map[k := Entry(stale, 0, false)];
    assert SawStale(ops, 1, 3, k, ttls);
    assert Alive(Logged(ops[..3], k), t, ttls);
    assert Overtakes(ops, 2, 3, ttls);
    RacingGetsAgreeIff(ops, ttls);
  }
}
