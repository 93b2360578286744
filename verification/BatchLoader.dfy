/** Batch loading: scatter cache misses to the RPC, gather answers by index (crates/ciel-fork/src/simulator.rs). */
module BatchLoader {
  import opened Prelude
  import opened Chain
  import opened AccountCache

  /** `Panicked` is an index out of bounds or an `unwrap` of None. */
  datatype LoadResult =
    | Loaded(accounts: seq<Account>)
    | AccountNotFound(key: Pubkey)
    | FetchFailed
    | SvmRejected
    | Panicked

  /* ---------- scatter ---------- */

  /** What each get answers, against the store as it was before the load. */
  function Hits(store: Store, keys: seq<Pubkey>, clock: seq<nat>, ttls: Ttls): (r: seq<Option<Account>>)
    requires |clock| == |keys|
    ensures |r| == |keys|
    ensures forall i :: 0 <= i < |r| ==> r[i] == Lookup(store, keys[i], clock[i], ttls)
  {
    seq(|keys|, i requires 0 <= i < |keys| => Lookup(store, keys[i], clock[i], ttls))
  }

  /** The positions below `n` without a hit, in order. */
  function Misses(hits: seq<Option<Account>>, n: nat): (r: seq<nat>)
    requires n <= |hits|
    ensures forall p :: 0 <= p < |r| ==> r[p] < n && hits[r[p]].None?
    ensures forall p, q :: 0 <= p < q < |r| ==> r[p] < r[q]
  {
    if n == 0 then [] else Misses(hits, n - 1) + if hits[n - 1].None? then [n - 1] else []
  }

  lemma {:induction false} EveryMissIsListed(hits: seq<Option<Account>>, n: nat, i: nat)
    requires i < n <= |hits| && hits[i].None?
    ensures |Misses(hits, i)| < |Misses(hits, n)| && Misses(hits, n)[|Misses(hits, i)|] == i
  {
    if i < n - 1 {
      EveryMissIsListed(hits, n - 1, i);
    }
  }

  /** Exactly one position has `p` misses before it and is itself a miss. */
  lemma PlaceIsUnique(hits: seq<Option<Account>>, p: nat)
    requires p < |Misses(hits, |hits|)|
    ensures forall i :: 0 <= i < |hits| && hits[i].None? ==> (|Misses(hits, i)| == p <==> i == Misses(hits, |hits|)[p])
  {
    var missing := Misses(hits, |hits|);
    forall i | 0 <= i < |hits| && hits[i].None? ensures |Misses(hits, i)| == p <==> i == missing[p] {
      EveryMissIsListed(hits, |hits|, i);
    }
  }

  /** `inner` is `store` less some entries found expired by one of the first `n` gets. */
  ghost predicate Trimmed(store: Store, inner: Store, keys: seq<Pubkey>, clock: seq<nat>, ttls: Ttls, n: nat)
    requires n <= |keys| == |clock|
  {
    && (forall k :: k in inner ==> k in store && inner[k] == store[k])
    && (forall k :: k in store && k !in inner ==>
      exists j :: 0 <= j < n && keys[j] == k && Expired(store[k], clock[j], ttls))
  }

  lemma GetOnTrimmed(store: Store, inner: Store, keys: seq<Pubkey>, clock: seq<nat>, ttls: Ttls, n: nat)
    requires n < |keys| == |clock| && forall i, j :: 0 <= i < j < |clock| ==> clock[i] <= clock[j]
    requires Trimmed(store, inner, keys, clock, ttls, n)
    ensures Lookup(inner, keys[n], clock[n], ttls) == Lookup(store, keys[n], clock[n], ttls)
    ensures Trimmed(store, AfterGet(inner, keys[n], clock[n], ttls), keys, clock, ttls, n + 1)
  {
    if keys[n] in store && keys[n] !in inner {
      var j :| 0 <= j < n && keys[j] == keys[n] && Expired(store[keys[n]], clock[j], ttls);
      assert clock[j] <= clock[n];
    }
  }

  function KeysAt(keys: seq<Pubkey>, idx: seq<nat>): (r: seq<Pubkey>)
    requires forall p :: 0 <= p < |idx| ==> idx[p] < |keys|
    ensures |r| == |idx|
    ensures forall p :: 0 <= p < |r| ==> r[p] == keys[idx[p]]
  {
    seq(|idx|, p requires 0 <= p < |idx| => keys[idx[p]])
  }

  /* ---------- gather ---------- */

  /** The cache after the first `n` answers have been inserted. */
  function Cached(store: Store, keys: seq<Pubkey>, answers: seq<Option<Account>>, n: nat, at: nat): (r: Store)
    requires n <= |keys| && n <= |answers|
  {
    if n == 0 then store
    else
      var before := Cached(store, keys, answers, n - 1, at);
      match answers[n - 1]
      case Some(a) => before[keys[n - 1] := Entry(a, at, false)]
      case None => before
  }

  /** Slot `i` once the first `n` answers are in. */
  function SlotAfter(hits: seq<Option<Account>>, answers: seq<Option<Account>>, n: nat, i: nat): (a: Option<Account>)
    requires i < |hits| && n <= |answers|
  {
    if hits[i].None? && |Misses(hits, i)| < n then answers[|Misses(hits, i)|] else hits[i]
  }

  /** Slot `i` once all answers are in: its hit, or the answer at its place among the misses. */
  function Filled(hits: seq<Option<Account>>, answers: seq<Option<Account>>, i: nat): (a: Option<Account>)
    requires i < |hits|
  {
    SlotAfter(hits, answers, |answers|, i)
  }

  ghost predicate SlotsAt(results: seq<Option<Account>>, hits: seq<Option<Account>>, answers: seq<Option<Account>>,
                          n: nat)
  {
    && n <= |answers| && |results| == |hits|
    && forall i :: 0 <= i < |hits| ==> results[i] == SlotAfter(hits, answers, n, i)
  }

  lemma SlotsStep(results: seq<Option<Account>>, hits: seq<Option<Account>>, answers: seq<Option<Account>>, n: nat)
    requires SlotsAt(results, hits, answers, n) && n < |answers| && n < |Misses(hits, |hits|)|
    ensures SlotsAt(results[Misses(hits, |hits|)[n] := answers[n]], hits, answers, n + 1)
  {
    PlaceIsUnique(hits, n);
  }

  /** The slots after the first `n` answers have been written to the missing positions. */
  function Placed(hits: seq<Option<Account>>, missing: seq<nat>, answers: seq<Option<Account>>,
                  n: nat): (r: seq<Option<Account>>)
    requires n <= |missing| && n <= |answers| && forall p :: 0 <= p < |missing| ==> missing[p] < |hits|
    ensures |r| == |hits|
  {
    if n == 0 then hits else Placed(hits, missing, answers, n - 1)[missing[n - 1] := answers[n - 1]]
  }

  lemma {:induction false} PlacedIsSlots(hits: seq<Option<Account>>, answers: seq<Option<Account>>, n: nat)
    requires n <= |answers| && n <= |Misses(hits, |hits|)|
    ensures SlotsAt(Placed(hits, Misses(hits, |hits|), answers, n), hits, answers, n)
  {
    if n > 0 {
      PlacedIsSlots(hits, answers, n - 1);
      SlotsStep(Placed(hits, Misses(hits, |hits|), answers, n - 1), hits, answers, n - 1);
    }
  }

  lemma {:induction false} CachedHoldsAnswers(store: Store, keys: seq<Pubkey>, answers: seq<Option<Account>>, n: nat,
                                              at: nat, p: nat)
    requires p < n <= |keys| && n <= |answers| && answers[p].Some?
    requires forall q, r :: 0 <= q < n && 0 <= r < n && keys[q] == keys[r] ==> answers[q] == answers[r]
    ensures keys[p] in Cached(store, keys, answers, n, at)
    ensures Cached(store, keys, answers, n, at)[keys[p]] == Entry(answers[p].value, at, false)
  {
    if p < n - 1 {
      CachedHoldsAnswers(store, keys, answers, n - 1, at, p);
      assert keys[n - 1] == keys[p] ==> answers[n - 1] == answers[p];
    }
  }

  lemma {:induction false} CachedKeepsOthers(store: Store, keys: seq<Pubkey>, answers: seq<Option<Account>>, n: nat,
                                             at: nat, k: Pubkey)
    requires n <= |keys| && n <= |answers| && forall p :: 0 <= p < n ==> keys[p] != k
    ensures k in Cached(store, keys, answers, n, at) <==> k in store
    ensures k in store ==> Cached(store, keys, answers, n, at)[k] == store[k]
  {
    if n > 0 {
      CachedKeepsOthers(store, keys, answers, n - 1, at, k);
    }
  }

  /** The prefix of answers before the first missing account. */
  function FirstNone(answers: seq<Option<Account>>): (n: nat)
    ensures n <= |answers| && (forall p :: 0 <= p < n ==> answers[p].Some?) && (n < |answers| ==> answers[n].None?)
  {
    if answers == [] || answers[0].None? then 0 else 1 + FirstNone(answers[1..])
  }

  function Min(a: nat, b: nat): (m: nat)
  {
    if a < b then a else b
  }

  /** The SVM's accounts after the first `n` slots have been offered to it. */
  function Injected(svm: map<Pubkey, Account>, keys: seq<Pubkey>, results: seq<Option<Account>>,
                    n: nat): (r: map<Pubkey, Account>)
    requires n <= |keys| == |results|
  {
    if n == 0 then svm
    else
      var before := Injected(svm, keys, results, n - 1);
      match results[n - 1]
      case Some(a) => before[keys[n - 1] := a]
      case None => before
  }

  lemma {:induction false} InjectedHoldsResults(svm: map<Pubkey, Account>, keys: seq<Pubkey>,
                                                results: seq<Option<Account>>, n: nat, i: nat)
    requires i < n <= |keys| == |results| && results[i].Some?
    requires forall j :: i <= j < n && keys[j] == keys[i] ==> results[j] == results[i]
    ensures keys[i] in Injected(svm, keys, results, n) && Some(Injected(svm, keys, results, n)[keys[i]]) == results[i]
  {
    if i < n - 1 {
      InjectedHoldsResults(svm, keys, results, n - 1, i);
    }
  }

  lemma SvmHoldsResults(svm: map<Pubkey, Account>, keys: seq<Pubkey>, results: seq<Option<Account>>,
                        accounts: seq<Account>)
    requires |results| == |keys| && AgreeOnEqualKeys(keys, accounts)
    requires forall i :: 0 <= i < |keys| ==> results[i] == Some(accounts[i])
    ensures var after := Injected(svm, keys, results, |keys|);
      forall i :: 0 <= i < |keys| ==> keys[i] in after && after[keys[i]] == accounts[i]
  {
    forall i | 0 <= i < |keys|
      ensures var after := Injected(svm, keys, results, |keys|); keys[i] in after && after[keys[i]] == accounts[i]
    {
      InjectedHoldsResults(svm, keys, results, |keys|, i);
    }
  }

  class ForkSimulator {
    const cache: AccountCache
    var svm: map<Pubkey, Account>

    constructor (cache: AccountCache)
      ensures this.cache == cache && svm == map[]
    {
      this.cache := cache;
      svm := map[];
    }

    /** Ask the cache for every key; note the positions it does not answer. */
    method Partition(keys: seq<Pubkey>, clock: seq<nat>) returns (results: seq<Option<Account>>, missing: seq<nat>)
      requires |clock| == |keys| && forall i, j :: 0 <= i < j < |clock| ==> clock[i] <= clock[j]
      modifies cache
      ensures results == Hits(old(cache.inner), keys, clock, cache.ttls)
      ensures missing == Misses(results, |results|)
      ensures forall k :: k in cache.inner ==> k in old(cache.inner) && cache.inner[k] == old(cache.inner)[k]
      ensures forall i :: 0 <= i < |keys| && keys[i] in old(cache.inner) && keys[i] !in cache.inner ==>
                exists j :: 0 <= j < |keys| && keys[j] == keys[i] && results[j].None?
    {
      results, missing := [], [];
      ghost var store := cache.inner;
      ghost var hits := Hits(store, keys, clock, cache.ttls);
      for i := 0 to |keys|
        invariant results == hits[..i]
        invariant missing == Misses(hits, i)
        invariant Trimmed(store, cache.inner, keys, clock, cache.ttls, i)
      {
        GetOnTrimmed(store, cache.inner, keys, clock, cache.ttls, i);
        var account := cache.Get(keys[i], clock[i]);
        results := results + [account];
        if account.None? {
          missing := missing + [i];
        }
      }
      assert results == hits;
    }

    /** Put each answer into the cache and into its slot. */
    method Gather(keys: seq<Pubkey>, hits: seq<Option<Account>>, missing: seq<nat>, answers: seq<Option<Account>>,
                  at: nat)
      returns (results: seq<Option<Account>>, problem: Option<LoadResult>)
      requires |hits| == |keys| && forall p :: 0 <= p < |missing| ==> missing[p] < |keys|
      modifies cache
      ensures problem == None <==> FirstNone(answers) == |answers| <= |missing|
      ensures problem != None ==>
                problem == Some(if FirstNone(answers) < |missing|
                  then AccountNotFound(keys[missing[FirstNone(answers)]]) else Panicked)
      ensures cache.inner == Cached(old(cache.inner), KeysAt(keys, missing), answers,
        Min(FirstNone(answers), |missing|), at)
      ensures problem == None ==> results == Placed(hits, missing, answers, |answers|)
    {
      results, problem := hits, None;
      for pos := 0 to |answers|
        invariant pos <= |missing| && pos <= FirstNone(answers)
        invariant cache.inner == Cached(old(cache.inner), KeysAt(keys, missing), answers, pos, at)
        invariant results == Placed(hits, missing, answers, pos)
      {
        if pos >= |missing| {
          problem := Some(Panicked);
          return;
        }
        var idx := missing[pos];
        match answers[pos] {
          case Some(account) =>
            cache.Insert(keys[idx], account, false, at);
            results := results[idx := Some(account)];
          case None =>
            problem := Some(AccountNotFound(keys[idx]));
            return;
        }
      }
    }

    /** Give every account found to the SVM. */
    method Inject(keys: seq<Pubkey>, results: seq<Option<Account>>, accepts: (Pubkey, Account) -> bool)
      returns (problem: Option<LoadResult>)
      requires |results| == |keys|
      modifies this`svm
      ensures problem == None <==>
        forall i :: 0 <= i < |keys| && results[i].Some? ==> accepts(keys[i], results[i].value)
      ensures problem != None ==> problem == Some(SvmRejected)
      ensures problem != None ==>
                exists n :: 0 <= n < |keys| && results[n].Some? && !accepts(keys[n], results[n].value)
                            && svm == Injected(old(svm), keys, results, n)
      ensures problem == None ==> svm == Injected(old(svm), keys, results, |keys|)
    {
      for n := 0 to |keys|
        invariant forall i :: 0 <= i < n && results[i].Some? ==> accepts(keys[i], results[i].value)
        invariant svm == Injected(old(svm), keys, results, n)
      {
        if results[n].Some? {
          if !accepts(keys[n], results[n].value) {
            problem := Some(SvmRejected);
            return;
          }
          svm := svm[keys[n] := results[n].value];
        }
      }
      problem := None;
    }

    /** `results.into_iter().map(|opt| opt.unwrap())` */
    static method UnwrapAll(results: seq<Option<Account>>) returns (r: LoadResult)
      ensures (exists i :: 0 <= i < |results| && results[i].None?) ==> r == Panicked
      ensures (forall i :: 0 <= i < |results| ==> results[i].Some?) ==>
                && r.Loaded? && |r.accounts| == |results|
                && forall i :: 0 <= i < |results| ==> results[i] == Some(r.accounts[i])
    {
      var accounts: seq<Account> := [];
      for n := 0 to |results|
        invariant |accounts| == n && forall i :: 0 <= i < n ==> results[i] == Some(accounts[i])
      {
        if results[n].None? {
          return Panicked;
        }
        accounts := accounts + [results[n].value];
      }
      return Loaded(accounts);
    }

    /** Inject, then unwrap. */
    method Deliver(keys: seq<Pubkey>, results: seq<Option<Account>>, accepts: (Pubkey, Account) -> bool)
      returns (r: LoadResult)
      requires |results| == |keys|
      modifies this`svm
      ensures r.SvmRejected? || r == Panicked || r.Loaded?
      ensures r.SvmRejected? <==> exists i :: 0 <= i < |keys| && results[i].Some? && !accepts(keys[i], results[i].value)
      ensures r == Panicked ==> exists i :: 0 <= i < |keys| && results[i].None?
      ensures r.Loaded? ==> |r.accounts| == |keys| && forall i :: 0 <= i < |keys| ==> results[i] == Some(r.accounts[i])
      ensures r.Loaded? && AgreeOnEqualKeys(keys, r.accounts) ==>
                forall i :: 0 <= i < |keys| ==> keys[i] in svm && svm[keys[i]] == r.accounts[i]
    {
      var problem := Inject(keys, results, accepts);
      if problem.Some? {
        return problem.value;
      }
      r := UnwrapAll(results);
      if r.Loaded? && AgreeOnEqualKeys(keys, r.accounts) {
        SvmHoldsResults(old(svm), keys, results, r.accounts);
      }
    }

    /** Gather the answers, then deliver. */
    method Complete(keys: seq<Pubkey>, hits: seq<Option<Account>>, missing: seq<nat>, answers: seq<Option<Account>>,
                    at: nat, accepts: (Pubkey, Account) -> bool) returns (r: LoadResult)
      requires |hits| == |keys| && missing == Misses(hits, |hits|)
      modifies cache, this`svm
      ensures Explained(r, keys, hits, answers)
      ensures r.Loaded? ==> cache.inner == Cached(old(cache.inner), KeysAt(keys, missing), answers, |answers|, at)
      ensures r.Loaded? && AgreeOnEqualKeys(keys, r.accounts) ==>
                forall i :: 0 <= i < |keys| ==> keys[i] in svm && svm[keys[i]] == r.accounts[i]
    {
      var results, problem := Gather(keys, hits, missing, answers, at);
      if problem.Some? {
        return problem.value;
      }
      PlacedIsSlots(hits, answers, |answers|);
      SlotsFilledIff(hits, answers);
      assert forall i :: 0 <= i < |keys| ==> results[i] == Filled(hits, answers, i);
      r := Deliver(keys, results, accepts);
    }

    /**
     * `load_accounts`. The RPC answers any list (None is a failed or absent provider). The load succeeds only
     * with as many answers as were asked for, none missing; then every slot holds its hit or its own answer,
     * and, when slots of equal keys agree, the cache and the SVM hold each slot's account at its key.
     */
    method LoadAccounts(keys: seq<Pubkey>, clock: seq<nat>, rpc: seq<Pubkey> -> Option<seq<Option<Account>>>,
                        fetchedAt: nat, accepts: (Pubkey, Account) -> bool) returns (r: LoadResult)
      requires |clock| == |keys| && forall i, j :: 0 <= i < j < |clock| ==> clock[i] <= clock[j]
      modifies cache, this`svm
      ensures var hits := Hits(old(cache.inner), keys, clock, cache.ttls);
        match AnswersTo(keys, hits, rpc)
        case None => r == FetchFailed
        case Some(answers) => Explained(r, keys, hits, answers)
      ensures r.Loaded? && AgreeOnEqualKeys(keys, r.accounts) ==> forall i :: 0 <= i < |keys| ==>
        && keys[i] in svm && svm[keys[i]] == r.accounts[i]
        && keys[i] in cache.inner && cache.inner[keys[i]].account == r.accounts[i]
    {
      var hits, missing := Partition(keys, clock);
      var answers: seq<Option<Account>> := [];
      if missing != [] {
        match rpc(KeysAt(keys, missing)) {
          case None => return FetchFailed;
          case Some(fetched) => answers := fetched;
        }
      }
      ghost var store := cache.inner;
      r := Complete(keys, hits, missing, answers, fetchedAt, accepts);
      if r.Loaded? && AgreeOnEqualKeys(keys, r.accounts) {
        CacheHoldsResults(keys, hits, answers, r.accounts, old(cache.inner), clock, cache.ttls, store, fetchedAt);
      }
    }
  }

  /** What the RPC says when asked for the misses; it is not asked when there are none. */
  function AnswersTo(keys: seq<Pubkey>, hits: seq<Option<Account>>,
                     rpc: seq<Pubkey> -> Option<seq<Option<Account>>>): (a: Option<seq<Option<Account>>>)
    requires |hits| == |keys|
  {
    var missing := Misses(hits, |hits|);
    if missing == [] then Some([]) else rpc(KeysAt(keys, missing))
  }

  /** How a load ends, given the hits and the RPC's answers. With one answer per miss it never panics. */
  ghost predicate Explained(r: LoadResult, keys: seq<Pubkey>, hits: seq<Option<Account>>, answers: seq<Option<Account>>)
    requires |hits| == |keys|
  {
    var missing := Misses(hits, |hits|);
    var found := FirstNone(answers);
    && r != FetchFailed
    && (r.AccountNotFound? <==> found < |answers| && found < |missing|)
    && (r.AccountNotFound? ==> r.key == keys[missing[found]])
    && (r.Loaded? ==> found == |answers| == |missing|)
    && (r.Loaded? ==> |r.accounts| == |keys|)
    && (r.Loaded? ==> forall i :: 0 <= i < |keys| ==> Some(r.accounts[i]) == Filled(hits, answers, i))
    && (r == Panicked ==> |answers| != |missing|)
    && (found == |answers| == |missing| ==> r.Loaded? || r.SvmRejected?)
  }

  predicate AgreeOnEqualKeys(keys: seq<Pubkey>, accounts: seq<Account>)
  {
    |accounts| == |keys| && forall i, j :: 0 <= i < j < |keys| && keys[i] == keys[j] ==> accounts[i] == accounts[j]
  }

  /** With answers present and at most as many as misses, every slot is filled exactly when there is one per miss. */
  lemma SlotsFilledIff(hits: seq<Option<Account>>, answers: seq<Option<Account>>)
    requires FirstNone(answers) == |answers| <= |Misses(hits, |hits|)|
    ensures (forall i :: 0 <= i < |hits| ==> Filled(hits, answers, i).Some?) <==> |answers| == |Misses(hits, |hits|)|
  {
    var missing := Misses(hits, |hits|);
    forall i | 0 <= i < |hits| && hits[i].None?
      ensures |Misses(hits, i)| < |missing| && missing[|Misses(hits, i)|] == i
    {
      EveryMissIsListed(hits, |hits|, i);
    }
    if |answers| < |missing| {
      var i := missing[|answers|];
      PlaceIsUnique(hits, |answers|);
      assert Filled(hits, answers, i).None?;
    }
  }

  lemma CacheHoldsResults(keys: seq<Pubkey>, hits: seq<Option<Account>>, answers: seq<Option<Account>>,
                          accounts: seq<Account>, original: Store, clock: seq<nat>, ttls: Ttls, store: Store, at: nat)
    requires |clock| == |keys| && hits == Hits(original, keys, clock, ttls)
    requires |answers| == |Misses(hits, |hits|)| && FirstNone(answers) == |answers|
    requires AgreeOnEqualKeys(keys, accounts)
    requires forall i :: 0 <= i < |keys| ==> Some(accounts[i]) == Filled(hits, answers, i)
    requires forall k :: k in store ==> k in original && store[k] == original[k]
    requires forall i :: 0 <= i < |keys| && keys[i] in original && keys[i] !in store ==>
               exists j :: 0 <= j < |keys| && keys[j] == keys[i] && hits[j].None?
    ensures var final := Cached(store, KeysAt(keys, Misses(hits, |hits|)), answers, |answers|, at);
      forall i :: 0 <= i < |keys| ==> keys[i] in final && final[keys[i]].account == accounts[i]
  {
    var missing := Misses(hits, |hits|);
    AnswersAreResults(hits, answers, accounts);
    forall i | 0 <= i < |keys| ensures Accounted(keys, missing, store, accounts, i) {
      if hits[i].None? {
        EveryMissIsListed(hits, |hits|, i);
      } else if keys[i] !in store {
        var j :| 0 <= j < |keys| && keys[j] == keys[i] && hits[j].None?;
        EveryMissIsListed(hits, |hits|, j);
      }
    }
    forall i | 0 <= i < |keys|
      ensures var final := Cached(store, KeysAt(keys, missing), answers, |answers|, at);
        keys[i] in final && final[keys[i]].account == accounts[i]
    {
      AccountedIsHeld(keys, missing, answers, accounts, store, at, i);
    }
  }

  /** Key `i` was fetched, or is in the store with the right account. */
  ghost predicate Accounted(keys: seq<Pubkey>, missing: seq<nat>, store: Store, accounts: seq<Account>, i: nat)
    requires i < |keys| == |accounts| && forall p :: 0 <= p < |missing| ==> missing[p] < |keys|
  {
    || (exists p :: 0 <= p < |missing| && keys[missing[p]] == keys[i])
    || (keys[i] in store && store[keys[i]].account == accounts[i])
  }

  lemma AccountedIsHeld(keys: seq<Pubkey>, missing: seq<nat>, answers: seq<Option<Account>>, accounts: seq<Account>,
                        store: Store, at: nat, i: nat)
    requires AgreeOnEqualKeys(keys, accounts) && i < |keys|
    requires |answers| == |missing| && forall p :: 0 <= p < |missing| ==> missing[p] < |keys|
    requires forall p :: 0 <= p < |missing| ==> answers[p] == Some(accounts[missing[p]])
    requires Accounted(keys, missing, store, accounts, i)
    ensures var final := Cached(store, KeysAt(keys, missing), answers, |answers|, at);
      keys[i] in final && final[keys[i]].account == accounts[i]
  {
    var asked := KeysAt(keys, missing);
    AskedAgree(keys, missing, answers, accounts);
    if p :| 0 <= p < |missing| && keys[missing[p]] == keys[i] {
      CachedHoldsAnswers(store, asked, answers, |answers|, at, p);
      assert accounts[missing[p]] == accounts[i];
    } else {
      CachedKeepsOthers(store, asked, answers, |answers|, at, keys[i]);
    }
  }

  lemma AskedAgree(keys: seq<Pubkey>, missing: seq<nat>, answers: seq<Option<Account>>, accounts: seq<Account>)
    requires AgreeOnEqualKeys(keys, accounts)
    requires |answers| == |missing| && forall p :: 0 <= p < |missing| ==> missing[p] < |keys|
    requires forall p :: 0 <= p < |missing| ==> answers[p] == Some(accounts[missing[p]])
    ensures var asked := KeysAt(keys, missing);
      forall q, r :: 0 <= q < |answers| && 0 <= r < |answers| && asked[q] == asked[r] ==> answers[q] == answers[r]
  {
    forall q, r | 0 <= q < |answers| && 0 <= r < |answers| && keys[missing[q]] == keys[missing[r]]
      ensures answers[q] == answers[r]
    {
      assert accounts[missing[q]] == accounts[missing[r]];
    }
  }

  lemma AnswersAreResults(hits: seq<Option<Account>>, answers: seq<Option<Account>>, accounts: seq<Account>)
    requires |accounts| == |hits| && |answers| == |Misses(hits, |hits|)|
    requires forall i :: 0 <= i < |hits| ==> Some(accounts[i]) == Filled(hits, answers, i)
    ensures forall p :: 0 <= p < |answers| ==> answers[p] == Some(accounts[Misses(hits, |hits|)[p]])
  {
    var missing := Misses(hits, |hits|);
    forall p | 0 <= p < |answers| ensures answers[p] == Some(accounts[missing[p]]) {
      PlaceIsUnique(hits, p);
      assert Some(accounts[missing[p]]) == Filled(hits, answers, missing[p]);
    }
  }

  /* ---------- when slots of equal keys agree ---------- */

  /** The provider gave every miss an account, and equal keys the same one. */
  ghost predicate Consistent(keys: seq<Pubkey>, hits: seq<Option<Account>>, answers: seq<Option<Account>>)
    requires |hits| == |keys|
  {
    var asked := KeysAt(keys, Misses(hits, |hits|));
    && |answers| == |asked|
    && (forall p :: 0 <= p < |answers| ==> answers[p].Some?)
    && forall p, q :: 0 <= p < q < |answers| && asked[p] == asked[q] ==> answers[p] == answers[q]
  }

  ghost predicate EqualKeysEqualSlots(keys: seq<Pubkey>, hits: seq<Option<Account>>, answers: seq<Option<Account>>)
    requires |hits| == |keys|
  {
    forall i, j :: 0 <= i < |keys| && 0 <= j < |keys| && keys[i] == keys[j] ==>
      Filled(hits, answers, i) == Filled(hits, answers, j)
  }

  /** The cached entry of `keys[i]` was alive when slot `i` was read and expired when slot `j` was. */
  predicate Straddles(store: Store, keys: seq<Pubkey>, clock: seq<nat>, ttls: Ttls, i: nat, j: nat)
    requires i < |keys| == |clock| && j < |keys|
  {
    keys[i] == keys[j] && keys[i] in store && !Expired(store[keys[i]], clock[i], ttls)
      && Expired(store[keys[i]], clock[j], ttls)
  }

  lemma SlotsAgree(keys: seq<Pubkey>, hits: seq<Option<Account>>, answers: seq<Option<Account>>, i: nat, j: nat)
    requires |hits| == |keys| && Consistent(keys, hits, answers)
    requires i < |keys| && j < |keys| && keys[i] == keys[j] && hits[i].None? && hits[j].None?
    ensures Filled(hits, answers, i) == Filled(hits, answers, j)
  {
    EveryMissIsListed(hits, |hits|, i);
    EveryMissIsListed(hits, |hits|, j);
  }

  lemma StraddlingSlotsDiffer(keys: seq<Pubkey>, hits: seq<Option<Account>>, i: nat, j: nat)
    returns (answers: seq<Option<Account>>)
    requires |hits| == |keys| && i < |keys| && j < |keys| && keys[i] == keys[j] && hits[i].Some? && hits[j].None?
    ensures Consistent(keys, hits, answers) && !EqualKeysEqualSlots(keys, hits, answers)
  {
    var cached := hits[i].value;
    var newer := cached.(executable := !cached.executable);
    answers := seq(|Misses(hits, |hits|)|, p => Some(newer));
    EveryMissIsListed(hits, |hits|, j);
    assert Filled(hits, answers, i) == Some(cached) && Filled(hits, answers, j) == Some(newer);
  }

  /**
   * Whatever a consistent provider answers, slots of equal keys agree: exactly when no entry is asked for
   * twice in one load with its expiry in between.
   */
  lemma SlotsAgreeIff(store: Store, keys: seq<Pubkey>, clock: seq<nat>, ttls: Ttls)
    requires |clock| == |keys|
    ensures var hits := Hits(store, keys, clock, ttls);
      (forall answers :: Consistent(keys, hits, answers) ==> EqualKeysEqualSlots(keys, hits, answers)) <==>
      (forall i, j :: 0 <= i < |keys| && 0 <= j < |keys| ==> !Straddles(store, keys, clock, ttls, i, j))
  {
    var hits := Hits(store, keys, clock, ttls);
    if i, j :| 0 <= i < |keys| && 0 <= j < |keys| && Straddles(store, keys, clock, ttls, i, j) {
      var answers := StraddlingSlotsDiffer(keys, hits, i, j);
    } else {
      forall answers, i, j | Consistent(keys, hits, answers) && 0 <= i < |keys| && 0 <= j < |keys| && keys[i] == keys[j]
        ensures Filled(hits, answers, i) == Filled(hits, answers, j)
      {
        assert !Straddles(store, keys, clock, ttls, i, j) && !Straddles(store, keys, clock, ttls, j, i);
        if hits[i].None? {
          SlotsAgree(keys, hits, answers, i, j);
        }
      }
    }
  }
}
