/** The oracle cross-reference checker (crates/ciel-checkers/src/oracle_sanity.rs). Prices are reals. */
module OracleSanity {
  import opened Prelude
  import opened Chain
  import opened CheckerTypes
  import opened OracleFeeds

  datatype OraclePrice = OraclePrice(kind: OracleType, price: real, confidence: real, timestamp: int, asset: string)

  datatype OracleCache = OracleCache(prices: map<Pubkey, OraclePrice>, reference: int)

  datatype Config = Config(sigma: real, staleAfter: int, wideRatio: real, feeds: FeedMap)

  /** An oracle account the transaction read, and the kind of oracle the trace took it for. */
  datatype OracleRead = OracleRead(key: Pubkey, kind: string)

  type Pair = (Pubkey, Pubkey)

  datatype OracleFlag =
    | UnknownOracle(read: OracleRead)
    | StaleFeed(key: Pubkey, age: int)
    | WideConfidence(key: Pubkey)
    | Deviation(pair: Pair, asset: string, sbPrice: real, pythPrice: real, sbConfidence: real, pythConfidence: real)

  function FlagSeverity(f: OracleFlag): (s: Severity)
  {
    match f
    case Deviation(_, _, _, _, _, _) => Critical
    case UnknownOracle(_) => High
    case StaleFeed(_, _) => High
    case WideConfidence(_) => Medium
  }

  /* ---------- the tests on one read ---------- */

  function Normalize(a: Pubkey, b: Pubkey): (p: Pair)
  {
    if a < b then (a, b) else (b, a)
  }

  function Max(a: real, b: real): (m: real)
  {
    if a < b then b else a
  }

  function Abs(x: real): (r: real)
  {
    if x < 0.0 then -x else x
  }

  predicate Deviates(p: OraclePrice, q: OraclePrice, sigma: real)
  {
    var spread := Max(p.confidence, q.confidence);
    spread > 0.0 && Abs(p.price - q.price) / spread > sigma
  }

  lemma DeviatesIsSymmetric(p: OraclePrice, q: OraclePrice, sigma: real)
    ensures Deviates(p, q, sigma) <==> Deviates(q, p, sigma)
  {
    assert Max(p.confidence, q.confidence) == Max(q.confidence, p.confidence);
    assert Abs(p.price - q.price) == Abs(q.price - p.price);
  }

  predicate IsStale(p: OraclePrice, cache: OracleCache, cfg: Config)
  {
    cache.reference - p.timestamp > cfg.staleAfter
  }

  predicate IsWide(p: OraclePrice, cfg: Config)
  {
    p.price > 0.0 && p.confidence / p.price > cfg.wideRatio
  }

  function DeviationFlag(pair: Pair, p: OraclePrice, q: OraclePrice): (f: OracleFlag)
  {
    if p.kind == Switchboard then Deviation(pair, p.asset, p.price, q.price, p.confidence, q.confidence)
    else Deviation(pair, p.asset, q.price, p.price, q.confidence, p.confidence)
  }

  /* ---------- the scan ---------- */

  datatype Scan = Scan(flags: seq<OracleFlag>, checked: set<Pair>)

  function FeedFlags(k: Pubkey, p: OraclePrice, cache: OracleCache, cfg: Config): (fs: seq<OracleFlag>)
  {
    (if IsStale(p, cache, cfg) then [StaleFeed(k, cache.reference - p.timestamp)] else [])
    + (if IsWide(p, cfg) then [WideConfidence(k)] else [])
  }

  function CrossFlags(k: Pubkey, c: Pubkey, p: OraclePrice, cache: OracleCache, cfg: Config): (fs: seq<OracleFlag>)
  {
    if c in cache.prices && Deviates(p, cache.prices[c], cfg.sigma)
    then [DeviationFlag(Normalize(k, c), p, cache.prices[c])]
    else []
  }

  function ScanRead(s: Scan, read: OracleRead, cache: OracleCache, cfg: Config): (r: Scan)
  {
    var k := read.key;
    if k !in cache.prices then
      if IsKnown(cfg.feeds, k) then s else s.(flags := s.flags + [UnknownOracle(read)])
    else
      var p := cache.prices[k];
      var seen := s.flags + FeedFlags(k, p, cache, cfg);
      match CrossReference(cfg.feeds, k)
      case None => s.(flags := seen)
      case Some(c) =>
        if Normalize(k, c) in s.checked then s.(flags := seen)
        else Scan(seen + CrossFlags(k, c, p, cache, cfg), s.checked + {Normalize(k, c)})
  }

  function ScanAll(accessed: seq<OracleRead>, cache: OracleCache, cfg: Config): (s: Scan)
  {
    if accessed == [] then Scan([], {})
    else ScanRead(ScanAll(accessed[..|accessed| - 1], cache, cfg), accessed[|accessed| - 1], cache, cfg)
  }

  function Worst(fs: seq<OracleFlag>): (s: Severity)
  {
    if fs == [] then NoSeverity
    else
      var before, last := Worst(fs[..|fs| - 1]), FlagSeverity(fs[|fs| - 1]);
      if last.Rank() > before.Rank() then last else before
  }

  method Check(accessed: seq<OracleRead>, cache: OracleCache, cfg: Config)
    returns (flags: seq<OracleFlag>, severity: Severity)
    ensures flags == ScanAll(accessed, cache, cfg).flags
    ensures severity == Worst(flags)
  {
    flags, severity := [], NoSeverity;
    if accessed == [] {
      return;
    }
    var checked: set<Pair> := {};
    for i := 0 to |accessed|
      invariant Scan(flags, checked) == ScanAll(accessed[..i], cache, cfg)
    {
      assert accessed[..i + 1][..i] == accessed[..i];
      var k := accessed[i].key;
      if k !in cache.prices {
        if !IsKnown(cfg.feeds, k) {
          flags := flags + [UnknownOracle(accessed[i])];
        }
        continue;
      }
      var p := cache.prices[k];
      flags := flags + FeedFlags(k, p, cache, cfg);
      var cross := CrossReference(cfg.feeds, k);
      if cross.Some? {
        var pair := Normalize(k, cross.value);
        if pair !in checked {
          checked := checked + {pair};
          flags := flags + CrossFlags(k, cross.value, p, cache, cfg);
        }
      }
    }
    assert accessed[..|accessed|] == accessed;
    for i := 0 to |flags|
      invariant severity == Worst(flags[..i])
    {
      assert flags[..i + 1][..i] == flags[..i];
      if FlagSeverity(flags[i]).Rank() > severity.Rank() {
        severity := FlagSeverity(flags[i]);
      }
    }
    assert flags[..|flags|] == flags;
  }

  /* ---------- what the scan finds, from the set of keys read ---------- */

  ghost predicate DeviatingPair(keys: set<Pubkey>, pair: Pair, cache: OracleCache, cfg: Config)
  {
    exists k :: k in keys && DeviatesFrom(k, pair, cache, cfg)
  }

  predicate DeviatesFrom(k: Pubkey, pair: Pair, cache: OracleCache, cfg: Config)
  {
    var c := CrossReference(cfg.feeds, k);
    && c.Some? && k in cache.prices && c.value in cache.prices
    && pair == Normalize(k, c.value) && Deviates(cache.prices[k], cache.prices[c.value], cfg.sigma)
  }

  function Reads(accessed: seq<OracleRead>): (s: set<OracleRead>)
  {
    set r | r in accessed
  }

  function Keys(accessed: seq<OracleRead>): (s: set<Pubkey>)
  {
    set r | r in accessed :: r.key
  }

  /** A pair of cached feeds whose prices disagree. */
  predicate PairDeviates(p: Pair, cache: OracleCache, cfg: Config)
  {
    p.0 in cache.prices && p.1 in cache.prices && Deviates(cache.prices[p.0], cache.prices[p.1], cfg.sigma)
  }

  predicate HasDeviation(fs: seq<OracleFlag>, pair: Pair)
  {
    exists f :: f in fs && f.Deviation? && f.pair == pair
  }

  predicate LooksAt(k: Pubkey, p: Pair, cache: OracleCache, cfg: Config)
  {
    k in cache.prices && CrossReference(cfg.feeds, k).Some? && p == Normalize(k, CrossReference(cfg.feeds, k).value)
  }

  /**
   * The pairs looked at come from cached keys that were read; they have a flag exactly when they deviate, and one
   * only.
   */
  ghost predicate Settled(s: Scan, accessed: seq<OracleRead>, cache: OracleCache, cfg: Config)
  {
    && (forall p: Pair :: p in s.checked <==> exists r :: r in accessed && LooksAt(r.key, p, cache, cfg))
    && (forall p: Pair :: HasDeviation(s.flags, p) <==> p in s.checked && PairDeviates(p, cache, cfg))
    && OneFlagPerPair(s.flags)
  }

  ghost predicate OneFlagPerPair(fs: seq<OracleFlag>)
  {
    forall i, j :: 0 <= i < j < |fs| && fs[i].Deviation? && fs[j].Deviation? ==> fs[i].pair != fs[j].pair
  }

  lemma HasDeviationConcat(a: seq<OracleFlag>, b: seq<OracleFlag>, pair: Pair)
    ensures HasDeviation(a + b, pair) <==> HasDeviation(a, pair) || HasDeviation(b, pair)
  {
    if HasDeviation(a, pair) {
      var f :| f in a && f.Deviation? && f.pair == pair;
      assert f in a + b;
    }
    if HasDeviation(b, pair) {
      var f :| f in b && f.Deviation? && f.pair == pair;
      assert f in a + b;
    }
  }

  lemma NormalizedDeviates(k: Pubkey, c: Pubkey, cache: OracleCache, cfg: Config)
    requires k in cache.prices
    ensures PairDeviates(Normalize(k, c), cache, cfg) <==>
      c in cache.prices && Deviates(cache.prices[k], cache.prices[c], cfg.sigma)
  {
    if c in cache.prices {
      DeviatesIsSymmetric(cache.prices[k], cache.prices[c], cfg.sigma);
    }
  }

  /** Flags that are not deviations neither add to nor take from the pairs. */
  lemma QuietFlags(fs: seq<OracleFlag>, more: seq<OracleFlag>)
    requires OneFlagPerPair(fs) && forall f :: f in more ==> !f.Deviation?
    ensures OneFlagPerPair(fs + more)
    ensures forall p: Pair :: HasDeviation(fs + more, p) <==> HasDeviation(fs, p)
  {
    forall p: Pair ensures HasDeviation(fs + more, p) <==> HasDeviation(fs, p) {
      HasDeviationConcat(fs, more, p);
    }
    assert forall x :: 0 <= x < |more| ==> more[x] in more;
  }

  lemma NewPair(fs: seq<OracleFlag>, k: Pubkey, c: Pubkey, cache: OracleCache, cfg: Config)
    requires k in cache.prices && OneFlagPerPair(fs) && !HasDeviation(fs, Normalize(k, c))
    ensures var r := fs + CrossFlags(k, c, cache.prices[k], cache, cfg);
      && OneFlagPerPair(r)
      && forall p: Pair :: HasDeviation(r, p) <==>
        HasDeviation(fs, p) || (p == Normalize(k, c) && PairDeviates(p, cache, cfg))
  {
    var more := CrossFlags(k, c, cache.prices[k], cache, cfg);
    NormalizedDeviates(k, c, cache, cfg);
    forall p: Pair
      ensures HasDeviation(fs + more, p) <==>
        HasDeviation(fs, p) || (p == Normalize(k, c) && PairDeviates(p, cache, cfg))
    {
      HasDeviationConcat(fs, more, p);
      if p == Normalize(k, c) && PairDeviates(p, cache, cfg) {
        assert more[0] in more;
      }
    }
    forall i, j | 0 <= i < j < |fs + more| && (fs + more)[i].Deviation? && (fs + more)[j].Deviation?
      ensures (fs + more)[i].pair != (fs + more)[j].pair
    {
      if j >= |fs| {
        assert (fs + more)[i] in fs;
      }
    }
  }

  lemma SettledStep(s: Scan, accessed: seq<OracleRead>, read: OracleRead, cache: OracleCache, cfg: Config)
    requires Settled(s, accessed, cache, cfg)
    ensures Settled(ScanRead(s, read, cache, cfg), accessed + [read], cache, cfg)
  {
    var r, all, k := ScanRead(s, read, cache, cfg), accessed + [read], read.key;
    forall p: Pair ensures (exists x :: x in all && LooksAt(x.key, p, cache, cfg))
      <==> (exists x :: x in accessed && LooksAt(x.key, p, cache, cfg)) || LooksAt(k, p, cache, cfg)
    {
      if x :| x in accessed && LooksAt(x.key, p, cache, cfg) {
        assert x in all;
      }
      if LooksAt(k, p, cache, cfg) {
        assert all[|accessed|] == read;
      }
    }
    forall p: Pair ensures p in r.checked <==> p in s.checked || LooksAt(k, p, cache, cfg) {
    }
    if k !in cache.prices {
      QuietFlags(s.flags, [UnknownOracle(read)]);
    } else {
      var p := cache.prices[k];
      var seen := s.flags + FeedFlags(k, p, cache, cfg);
      QuietFlags(s.flags, FeedFlags(k, p, cache, cfg));
      var c := CrossReference(cfg.feeds, k);
      if c.Some? && Normalize(k, c.value) !in s.checked {
        NewPair(seen, k, c.value, cache, cfg);
      }
    }
  }

  lemma {:induction false} ScanIsSettled(accessed: seq<OracleRead>, cache: OracleCache, cfg: Config)
    ensures Settled(ScanAll(accessed, cache, cfg), accessed, cache, cfg)
  {
    if accessed != [] {
      var init, last := accessed[..|accessed| - 1], accessed[|accessed| - 1];
      ScanIsSettled(init, cache, cfg);
      SettledStep(ScanAll(init, cache, cfg), init, last, cache, cfg);
      assert init + [last] == accessed;
    }
  }

  /** At most one deviation flag per unordered pair, whatever is read, in whatever order, however often. */
  lemma OneDeviationPerPair(accessed: seq<OracleRead>, cache: OracleCache, cfg: Config)
    ensures OneFlagPerPair(ScanAll(accessed, cache, cfg).flags)
  {
    ScanIsSettled(accessed, cache, cfg);
  }

  /** The deviating pairs are those of the keys read: order and repetition do not matter. */
  lemma DeviationsFromKeys(accessed: seq<OracleRead>, cache: OracleCache, cfg: Config, pair: Pair)
    ensures HasDeviation(ScanAll(accessed, cache, cfg).flags, pair) <==> DeviatingPair(Keys(accessed), pair, cache, cfg)
  {
    ScanIsSettled(accessed, cache, cfg);
    if HasDeviation(ScanAll(accessed, cache, cfg).flags, pair) {
      var r :| r in accessed && LooksAt(r.key, pair, cache, cfg);
      NormalizedDeviates(r.key, CrossReference(cfg.feeds, r.key).value, cache, cfg);
      assert r.key in Keys(accessed) && DeviatesFrom(r.key, pair, cache, cfg);
    }
    if DeviatingPair(Keys(accessed), pair, cache, cfg) {
      var k :| k in Keys(accessed) && DeviatesFrom(k, pair, cache, cfg);
      NormalizedDeviates(k, CrossReference(cfg.feeds, k).value, cache, cfg);
      assert LooksAt(k, pair, cache, cfg);
    }
  }

  /* ---------- the severity ---------- */

  /** The flags a read raises by itself. */
  function OwnFlags(read: OracleRead, cache: OracleCache, cfg: Config): (fs: seq<OracleFlag>)
  {
    if read.key in cache.prices then FeedFlags(read.key, cache.prices[read.key], cache, cfg)
    else if IsKnown(cfg.feeds, read.key) then [] else [UnknownOracle(read)]
  }

  lemma {:induction false} OwnFlagsFromReads(accessed: seq<OracleRead>, cache: OracleCache, cfg: Config, f: OracleFlag)
    requires !f.Deviation?
    ensures f in ScanAll(accessed, cache, cfg).flags <==> exists r :: r in accessed && f in OwnFlags(r, cache, cfg)
  {
    if accessed != [] {
      var init, last := accessed[..|accessed| - 1], accessed[|accessed| - 1];
      OwnFlagsFromReads(init, cache, cfg, f);
      OwnFlagsStep(ScanAll(init, cache, cfg), last, cache, cfg, f);
      assert accessed == init + [last];
    }
  }

  lemma OwnFlagsStep(s: Scan, read: OracleRead, cache: OracleCache, cfg: Config, f: OracleFlag)
    requires !f.Deviation?
    ensures f in ScanRead(s, read, cache, cfg).flags <==> f in s.flags || f in OwnFlags(read, cache, cfg)
  {
  }

  lemma {:induction false} WorstBounds(fs: seq<OracleFlag>)
    ensures forall f :: f in fs ==> FlagSeverity(f).Rank() <= Worst(fs).Rank()
    ensures fs != [] ==> exists f :: f in fs && FlagSeverity(f) == Worst(fs)
  {
    if fs != [] {
      WorstBounds(fs[..|fs| - 1]);
      assert fs == fs[..|fs| - 1] + [fs[|fs| - 1]];
      if |fs| == 1 || FlagSeverity(fs[|fs| - 1]).Rank() > Worst(fs[..|fs| - 1]).Rank() {
        assert fs[|fs| - 1] in fs;
      }
    }
  }

  lemma KeysOfReads(a: seq<OracleRead>, b: seq<OracleRead>)
    requires Reads(a) <= Reads(b)
    ensures Keys(a) <= Keys(b)
  {
    forall r | r in a ensures r in b {
      assert r in Reads(a);
    }
  }

  lemma NoMilder(a: seq<OracleRead>, b: seq<OracleRead>, cache: OracleCache, cfg: Config)
    requires Reads(a) <= Reads(b)
    ensures Worst(ScanAll(a, cache, cfg).flags).Rank() <= Worst(ScanAll(b, cache, cfg).flags).Rank()
  {
    var fa, fb := ScanAll(a, cache, cfg).flags, ScanAll(b, cache, cfg).flags;
    WorstBounds(fa);
    WorstBounds(fb);
    if fa != [] {
      var f :| f in fa && FlagSeverity(f) == Worst(fa);
      if f.Deviation? {
        KeysOfReads(a, b);
        DeviationsFromKeys(a, cache, cfg, f.pair);
        assert HasDeviation(fa, f.pair);
        var k :| k in Keys(a) && DeviatesFrom(k, f.pair, cache, cfg);
        assert k in Keys(b);
        DeviationsFromKeys(b, cache, cfg, f.pair);
      } else {
        OwnFlagSurvives(a, b, cache, cfg, f);
      }
    }
  }

  lemma OwnFlagSurvives(a: seq<OracleRead>, b: seq<OracleRead>, cache: OracleCache, cfg: Config, f: OracleFlag)
    requires Reads(a) <= Reads(b) && !f.Deviation? && f in ScanAll(a, cache, cfg).flags
    ensures f in ScanAll(b, cache, cfg).flags
  {
    OwnFlagsFromReads(a, cache, cfg, f);
    OwnFlagsFromReads(b, cache, cfg, f);
    var r :| r in a && f in OwnFlags(r, cache, cfg);
    assert r in Reads(a) && r in Reads(b);
  }

  /** Permuting or repeating the reads changes neither the deviating pairs nor the overall severity. */
  lemma OrderDoesNotMatter(a: seq<OracleRead>, b: seq<OracleRead>, cache: OracleCache, cfg: Config)
    requires Reads(a) == Reads(b)
    ensures forall p: Pair :: HasDeviation(ScanAll(a, cache, cfg).flags, p) <==>
      HasDeviation(ScanAll(b, cache, cfg).flags, p)
    ensures Worst(ScanAll(a, cache, cfg).flags) == Worst(ScanAll(b, cache, cfg).flags)
  {
    KeysOfReads(a, b);
    KeysOfReads(b, a);
    forall p: Pair
      ensures HasDeviation(ScanAll(a, cache, cfg).flags, p) <==> HasDeviation(ScanAll(b, cache, cfg).flags, p)
    {
      DeviationsFromKeys(a, cache, cfg, p);
      DeviationsFromKeys(b, cache, cfg, p);
    }
    NoMilder(a, b, cache, cfg);
    NoMilder(b, a, cache, cfg);
  }

  /* ---------- the flags themselves ---------- */

  /** Each cached price of a feed paired with another carries the asset and the side that feed is registered under. */
  ghost predicate Labelled(cache: OracleCache, cfg: Config)
  {
    forall k :: k in cache.prices && IsKnown(cfg.feeds, k) && CrossReference(cfg.feeds, k) != Some(k) ==>
      cfg.feeds.byKey[k] == (cache.prices[k].asset, cache.prices[k].kind)
  }

  /** `f` is the flag raised when `k` is the first of its pair to be read. */
  predicate RaisedBy(f: OracleFlag, k: Pubkey, cache: OracleCache, cfg: Config)
  {
    var c := CrossReference(cfg.feeds, k);
    && c.Some? && k in cache.prices && c.value in cache.prices
    && f == DeviationFlag(Normalize(k, c.value), cache.prices[k], cache.prices[c.value])
  }

  lemma {:induction false} DeviationHasSource(accessed: seq<OracleRead>, cache: OracleCache, cfg: Config, f: OracleFlag)
    requires f in ScanAll(accessed, cache, cfg).flags && f.Deviation?
    ensures exists r :: r in accessed && RaisedBy(f, r.key, cache, cfg)
  {
    var init, last := accessed[..|accessed| - 1], accessed[|accessed| - 1];
    assert accessed == init + [last];
    if f in ScanAll(init, cache, cfg).flags {
      DeviationHasSource(init, cache, cfg, f);
    } else {
      assert RaisedBy(f, last.key, cache, cfg);
    }
  }

  /** Both feeds of a pair raise the same flag: the report says which price is whose, not which was read first. */
  lemma PairRaisesOneFlag(f: OracleFlag, g: OracleFlag, k: Pubkey, l: Pubkey, cache: OracleCache, cfg: Config)
    requires PairsUp(cfg.feeds) && Labelled(cache, cfg)
    requires RaisedBy(f, k, cache, cfg) && RaisedBy(g, l, cache, cfg) && f.pair == g.pair
    ensures f == g
  {
    var c := CrossReference(cfg.feeds, k).value;
    assert IsKnown(cfg.feeds, k);
    assert CrossReference(cfg.feeds, c) == Some(k);
    assert l == k || l == c;
  }

  lemma FlagSurvivesReordering(a: seq<OracleRead>, b: seq<OracleRead>, cache: OracleCache, cfg: Config, f: OracleFlag)
    requires Reads(a) == Reads(b) && PairsUp(cfg.feeds) && Labelled(cache, cfg)
    requires f in ScanAll(a, cache, cfg).flags
    ensures f in ScanAll(b, cache, cfg).flags
  {
    if f.Deviation? {
      DeviationHasSource(a, cache, cfg, f);
      var k :| k in a && RaisedBy(f, k.key, cache, cfg);
      assert HasDeviation(ScanAll(a, cache, cfg).flags, f.pair);
      OrderDoesNotMatter(a, b, cache, cfg);
      var g :| g in ScanAll(b, cache, cfg).flags && g.Deviation? && g.pair == f.pair;
      DeviationHasSource(b, cache, cfg, g);
      var l :| l in b && RaisedBy(g, l.key, cache, cfg);
      PairRaisesOneFlag(f, g, k.key, l.key, cache, cfg);
    } else {
      OwnFlagSurvives(a, b, cache, cfg, f);
    }
  }

  /**
   * On feeds that pair up, with labelled prices, permuting or repeating the reads changes no flag at all, prices
   * included.
   */
  lemma SameFlags(a: seq<OracleRead>, b: seq<OracleRead>, cache: OracleCache, cfg: Config)
    requires Reads(a) == Reads(b) && PairsUp(cfg.feeds) && Labelled(cache, cfg)
    ensures forall f :: f in ScanAll(a, cache, cfg).flags <==> f in ScanAll(b, cache, cfg).flags
  {
    forall f ensures f in ScanAll(a, cache, cfg).flags <==> f in ScanAll(b, cache, cfg).flags {
      if f in ScanAll(a, cache, cfg).flags {
        FlagSurvivesReordering(a, b, cache, cfg, f);
      }
      if f in ScanAll(b, cache, cfg).flags {
        FlagSurvivesReordering(b, a, cache, cfg, f);
      }
    }
  }

  /* ---------- what each flag means ---------- */

  lemma QuotientExceeds(x: real, y: real, s: real)
    requires y > 0.0
    ensures x / y > s <==> x > s * y
  {
    var q := x / y;
    assert x == q * y;
    if q > s {
      assert (q - s) * y > 0.0;
    } else {
      assert (s - q) * y >= 0.0;
    }
  }

  lemma TimesGrows(s: real, a: real, b: real)
    requires s >= 0.0 && a <= b
    ensures s * a <= s * b
  {
    assert s * (b - a) >= 0.0;
  }

  /** Prices deviate when some confidence is positive and they differ by more than sigma times either. */
  lemma DeviatesIff(p: OraclePrice, q: OraclePrice, sigma: real)
    requires sigma >= 0.0
    ensures Deviates(p, q, sigma) <==>
      var apart := if p.price < q.price then q.price - p.price else p.price - q.price;
      (p.confidence > 0.0 || q.confidence > 0.0) && apart > sigma * p.confidence && apart > sigma * q.confidence
  {
    var spread := Max(p.confidence, q.confidence);
    if spread > 0.0 {
      QuotientExceeds(Abs(p.price - q.price), spread, sigma);
      TimesGrows(sigma, p.confidence, spread);
      TimesGrows(sigma, q.confidence, spread);
    }
  }

  /** A feed is flagged as stale exactly when it was read and its price is older than allowed. */
  lemma {:induction false} StaleIff(accessed: seq<OracleRead>, cache: OracleCache, cfg: Config, k: Pubkey, age: int)
    ensures StaleFeed(k, age) in ScanAll(accessed, cache, cfg).flags <==>
      && (exists r :: r in accessed && r.key == k)
      && k in cache.prices && age == cache.reference - cache.prices[k].timestamp && age > cfg.staleAfter
  {
    OwnFlagsFromReads(accessed, cache, cfg, StaleFeed(k, age));
    if r :| r in accessed && r.key == k {
      assert k in cache.prices && age == cache.reference - cache.prices[k].timestamp && age > cfg.staleAfter ==>
        OwnFlags(r, cache, cfg)[0] == StaleFeed(k, age);
    }
  }

  lemma WideMeans(p: OraclePrice, cfg: Config)
    ensures IsWide(p, cfg) <==> p.price > 0.0 && p.confidence > cfg.wideRatio * p.price
  {
    if p.price > 0.0 {
      QuotientExceeds(p.confidence, p.price, cfg.wideRatio);
    }
  }

  lemma {:induction false} WideFlagIff(accessed: seq<OracleRead>, cache: OracleCache, cfg: Config, k: Pubkey)
    ensures WideConfidence(k) in ScanAll(accessed, cache, cfg).flags <==>
      (exists r :: r in accessed && r.key == k) && k in cache.prices && IsWide(cache.prices[k], cfg)
  {
    OwnFlagsFromReads(accessed, cache, cfg, WideConfidence(k));
    if r :| r in accessed && r.key == k {
      var own := OwnFlags(r, cache, cfg);
      assert k in cache.prices && IsWide(cache.prices[k], cfg) ==> own[|own| - 1] == WideConfidence(k);
    }
  }

  /** A feed is flagged as wide exactly when it was read, its price is positive, and its confidence too large a part. */
  lemma {:induction false} WideIff(accessed: seq<OracleRead>, cache: OracleCache, cfg: Config, k: Pubkey)
    ensures WideConfidence(k) in ScanAll(accessed, cache, cfg).flags <==>
      && (exists r :: r in accessed && r.key == k)
      && k in cache.prices && cache.prices[k].price > 0.0
      && cache.prices[k].confidence > cfg.wideRatio * cache.prices[k].price
  {
    WideFlagIff(accessed, cache, cfg, k);
    if k in cache.prices {
      WideMeans(cache.prices[k], cfg);
    }
  }

  /** A read is flagged as unknown exactly when its account is neither cached nor registered. */
  lemma {:induction false} UnknownIff(accessed: seq<OracleRead>, cache: OracleCache, cfg: Config, r: OracleRead)
    ensures UnknownOracle(r) in ScanAll(accessed, cache, cfg).flags <==>
      r in accessed && r.key !in cache.prices && r.key !in cfg.feeds.byKey
  {
    OwnFlagsFromReads(accessed, cache, cfg, UnknownOracle(r));
    if r in accessed && r.key !in cache.prices && r.key !in cfg.feeds.byKey {
      assert OwnFlags(r, cache, cfg)[0] == UnknownOracle(r);
    }
  }

  /** Critical for a deviation; else High for a stale or unknown feed; else Medium for a wide one; else None. */
  lemma {:induction false} SeverityIff(fs: seq<OracleFlag>)
    ensures Worst(fs) ==
      if exists f :: f in fs && f.Deviation? then Critical
      else if exists f :: f in fs && (f.StaleFeed? || f.UnknownOracle?) then High
      else if exists f :: f in fs && f.WideConfidence? then Medium
      else NoSeverity
  {
    WorstBounds(fs);
  }

  /** Another read only appends flags: at most a stale one, then a wide one, then a deviation, or an unknown one. */
  lemma {:induction false} ScanAppends(accessed: seq<OracleRead>, read: OracleRead, cache: OracleCache, cfg: Config)
    ensures var before, after := ScanAll(accessed, cache, cfg).flags, ScanAll(accessed + [read], cache, cfg).flags;
      && before <= after
      && (forall i :: |before| <= i < |after| && after[i].UnknownOracle? ==> i == |before| == |after| - 1)
      && (forall i :: |before| <= i < |after| && after[i].StaleFeed? ==> i == |before|)
      && (forall i :: |before| <= i < |after| && after[i].Deviation? ==> i == |after| - 1)
  {
    assert (accessed + [read])[..|accessed|] == accessed;
  }

  /** A deviation flag reports, as Switchboard's and as Pyth's, the prices of the feeds registered as such. */
  lemma DeviationReports(accessed: seq<OracleRead>, cache: OracleCache, cfg: Config, f: OracleFlag)
    returns (sb: Pubkey, py: Pubkey)
    requires PairsUp(cfg.feeds) && Labelled(cache, cfg) && cfg.sigma >= 0.0
    requires f in ScanAll(accessed, cache, cfg).flags && f.Deviation?
    ensures f.pair == (if sb < py then (sb, py) else (py, sb))
    ensures IsKnown(cfg.feeds, sb) && cfg.feeds.byKey[sb] == (f.asset, Switchboard)
    ensures IsKnown(cfg.feeds, py) && cfg.feeds.byKey[py] == (f.asset, Pyth)
    ensures sb in cache.prices && f.sbPrice == cache.prices[sb].price && f.sbConfidence == cache.prices[sb].confidence
    ensures py in cache.prices && f.pythPrice == cache.prices[py].price
    ensures py in cache.prices && f.pythConfidence == cache.prices[py].confidence
  {
    DeviationHasSource(accessed, cache, cfg, f);
    var r :| r in accessed && RaisedBy(f, r.key, cache, cfg);
    assert HasDeviation(ScanAll(accessed, cache, cfg).flags, f.pair);
    DeviationsFromKeys(accessed, cache, cfg, f.pair);
    var l :| l in Keys(accessed) && DeviatesFrom(l, f.pair, cache, cfg);
    var k, c := r.key, CrossReference(cfg.feeds, r.key).value;
    assert IsKnown(cfg.feeds, k) && IsKnown(cfg.feeds, c) && CrossReference(cfg.feeds, c) == Some(k);
    if k == c {
      SelfPairedKeyNeverDeviates(k, l, f.pair, cache, cfg);
    }
    if cfg.feeds.byKey[k].1 == Switchboard {
      sb, py := k, c;
    } else {
      sb, py := c, k;
    }
  }

  /* ---------- how often each flag is raised ---------- */

  lemma {:induction false} DeviationCount(fs: seq<OracleFlag>, f: OracleFlag)
    requires OneFlagPerPair(fs) && f.Deviation?
    ensures multiset(fs)[f] == if f in fs then 1 else 0
  {
    if fs != [] {
      var init, last := fs[..|fs| - 1], fs[|fs| - 1];
      assert fs == init + [last];
      DeviationCount(init, f);
      assert last == f ==> f !in init;
    }
  }

  function CountIn(read: OracleRead, cache: OracleCache, cfg: Config, f: OracleFlag): (n: int)
  {
    multiset(OwnFlags(read, cache, cfg))[f]
  }

  lemma OwnCountStep(s: Scan, read: OracleRead, cache: OracleCache, cfg: Config, f: OracleFlag)
    requires !f.Deviation?
    ensures multiset(ScanRead(s, read, cache, cfg).flags)[f] == multiset(s.flags)[f] + CountIn(read, cache, cfg, f)
  {
    var own := OwnFlags(read, cache, cfg);
    var r := ScanRead(s, read, cache, cfg);
    if r.flags == s.flags + own {
      assert multiset(r.flags) == multiset(s.flags) + multiset(own);
    } else {
      var c := CrossReference(cfg.feeds, read.key).value;
      var more := CrossFlags(read.key, c, cache.prices[read.key], cache, cfg);
      assert r.flags == s.flags + own + more;
      assert multiset(r.flags) == multiset(s.flags) + multiset(own) + multiset(more);
      assert f !in more;
    }
  }

  /** A flag other than a deviation is raised as often as the reads by themselves raise it. */
  lemma {:induction false} OwnCount(accessed: seq<OracleRead>, cache: OracleCache, cfg: Config, f: OracleFlag)
    requires !f.Deviation?
    ensures multiset(ScanAll(accessed, cache, cfg).flags)[f] == SumLast(accessed, r => CountIn(r, cache, cfg, f))
  {
    if accessed != [] {
      var init, last := accessed[..|accessed| - 1], accessed[|accessed| - 1];
      OwnCount(init, cache, cfg, f);
      OwnCountStep(ScanAll(init, cache, cfg), last, cache, cfg, f);
    }
  }

  lemma SameReads(a: seq<OracleRead>, b: seq<OracleRead>)
    requires multiset(a) == multiset(b)
    ensures Reads(a) == Reads(b)
  {
    forall r ensures r in a <==> r in b {
      assert r in multiset(a) <==> r in multiset(b);
    }
  }

  /**
   * Permuting the reads permutes the flags: each is raised equally often. Repeating a read is another matter, since
   * a stale, wide or unknown feed is flagged at every read.
   */
  lemma {:induction false} PermutedReadsPermuteFlags(a: seq<OracleRead>, b: seq<OracleRead>, cache: OracleCache,
                                                     cfg: Config)
    requires multiset(a) == multiset(b) && PairsUp(cfg.feeds) && Labelled(cache, cfg)
    ensures multiset(ScanAll(a, cache, cfg).flags) == multiset(ScanAll(b, cache, cfg).flags)
  {
    var fa, fb := ScanAll(a, cache, cfg).flags, ScanAll(b, cache, cfg).flags;
    SameReads(a, b);
    SameFlags(a, b, cache, cfg);
    OneDeviationPerPair(a, cache, cfg);
    OneDeviationPerPair(b, cache, cfg);
    forall f: OracleFlag ensures multiset(fa)[f] == multiset(fb)[f] {
      if f.Deviation? {
        DeviationCount(fa, f);
        DeviationCount(fb, f);
      } else {
        OwnCount(a, cache, cfg, f);
        OwnCount(b, cache, cfg, f);
        SumLastPermutation(a, b, r => CountIn(r, cache, cfg, f));
      }
    }
  }

  /* ---------- feeds that cannot deviate ---------- */

  /** A feed that is its own cross reference is in no deviating pair. */
  lemma SelfPairedKeyNeverDeviates(k: Pubkey, l: Pubkey, pair: Pair, cache: OracleCache, cfg: Config)
    requires PairsUp(cfg.feeds) && CrossReference(cfg.feeds, k) == Some(k) && cfg.sigma >= 0.0
    requires DeviatesFrom(l, pair, cache, cfg)
    ensures pair.0 != k && pair.1 != k
  {
    var c := CrossReference(cfg.feeds, l).value;
    assert IsKnown(cfg.feeds, l) && CrossReference(cfg.feeds, c) == Some(l);
    assert l != c;
  }

  lemma {:induction false} SelfPairedRegistration(rs: seq<Registration>, i: nat)
    requires WhollyReplaced(rs) && i < |rs| && rs[i].sb == rs[i].py && LastUse(rs, rs[i].sb, i)
    ensures CrossReference(RegisterAll(rs), rs[i].sb) == Some(rs[i].sb)
  {
    var j := CrossReferenceFrom(rs, rs[i].sb, i);
    assert Untouched(rs, i) && j == i;
  }

  /**
   * A feed registered as both sides of its asset is compared with itself: whatever is read and whatever the
   * prices are, no deviation flag ever names it.
   */
  lemma {:induction false} SelfPairedFeedNeverDeviates(rs: seq<Registration>, i: nat, accessed: seq<OracleRead>,
                                                      cache: OracleCache, cfg: Config, pair: Pair)
    requires WhollyReplaced(rs) && cfg.feeds == RegisterAll(rs) && cfg.sigma >= 0.0
    requires i < |rs| && rs[i].sb == rs[i].py && LastUse(rs, rs[i].sb, i)
    requires HasDeviation(ScanAll(accessed, cache, cfg).flags, pair)
    ensures pair.0 != rs[i].sb && pair.1 != rs[i].sb
  {
    DeviationsFromKeys(accessed, cache, cfg, pair);
    var l :| l in Keys(accessed) && DeviatesFrom(l, pair, cache, cfg);
    WhollyReplacedPairsUp(rs);
    SelfPairedRegistration(rs, i);
    SelfPairedKeyNeverDeviates(rs[i].sb, l, pair, cache, cfg);
  }

  ghost predicate Names(pair: Pair, k: Pubkey)
  {
    pair.0 == k || pair.1 == k
  }

  /** Some reads and some prices make the checker raise a deviation flag that names `k`. */
  ghost predicate CanDeviate(k: Pubkey, cfg: Config)
  {
    exists accessed, cache, pair ::
      HasDeviation(ScanAll(accessed, cache, cfg).flags, pair) && Names(pair, k)
  }

  /** Prices zero and sigma + 1, with confidence one, deviate. */
  lemma FarApart(cfg: Config, asset: string)
    requires cfg.sigma >= 0.0
    ensures Deviates(OraclePrice(Pyth, 0.0, 1.0, 0, asset), OraclePrice(Pyth, cfg.sigma + 1.0, 1.0, 0, asset),
                     cfg.sigma)
  {
  }

  lemma PairedFeedDeviates(k: Pubkey, c: Pubkey, cfg: Config)
    requires cfg.sigma >= 0.0 && CrossReference(cfg.feeds, k) == Some(c) && k != c
    ensures CanDeviate(k, cfg)
  {
    var near, far := OraclePrice(Pyth, 0.0, 1.0, 0, ""), OraclePrice(Pyth, cfg.sigma + 1.0, 1.0, 0, "");
    var cache, accessed, pair := OracleCache(map[k := near, c := far], 0), [OracleRead(k, "")], Normalize(k, c);
    FarApart(cfg, "");
    assert accessed[0].key in Keys(accessed) && DeviatesFrom(k, pair, cache, cfg);
    DeviationsFromKeys(accessed, cache, cfg, pair);
    assert HasDeviation(ScanAll(accessed, cache, cfg).flags, pair) && Names(pair, k);
  }

  /** Among feeds that pair up, a known feed can deviate if and only if it is not its own cross reference. */
  lemma {:induction false} CanDeviateIff(k: Pubkey, cfg: Config)
    requires PairsUp(cfg.feeds) && cfg.sigma >= 0.0 && IsKnown(cfg.feeds, k)
    ensures CanDeviate(k, cfg) <==> CrossReference(cfg.feeds, k) != Some(k)
  {
    var c := CrossReference(cfg.feeds, k).value;
    if c != k {
      PairedFeedDeviates(k, c, cfg);
    } else if CanDeviate(k, cfg) {
      var accessed, cache, pair :| HasDeviation(ScanAll(accessed, cache, cfg).flags, pair) && Names(pair, k);
      DeviationsFromKeys(accessed, cache, cfg, pair);
      var l :| l in Keys(accessed) && DeviatesFrom(l, pair, cache, cfg);
      SelfPairedKeyNeverDeviates(k, l, pair, cache, cfg);
    }
  }

  const NO_PRICES := OracleCache(map[], 0)

  /** On an empty price cache the only findings are reads of feeds nobody registered; nothing can deviate. */
  lemma EmptyCacheFindsUnknownOnly(accessed: seq<OracleRead>, cfg: Config)
    ensures forall f :: f in ScanAll(accessed, NO_PRICES, cfg).flags ==> f.UnknownOracle?
    ensures Worst(ScanAll(accessed, NO_PRICES, cfg).flags)
         == if exists r :: r in accessed && !IsKnown(cfg.feeds, r.key) then High else NoSeverity
  {
    var fs := ScanAll(accessed, NO_PRICES, cfg).flags;
    WorstBounds(fs);
    forall f | f in fs ensures f.UnknownOracle? && f.read in accessed && !IsKnown(cfg.feeds, f.read.key) {
      if f.Deviation? {
        DeviationHasSource(accessed, NO_PRICES, cfg, f);
      } else {
        OwnFlagsFromReads(accessed, NO_PRICES, cfg, f);
      }
    }
    if r :| r in accessed && !IsKnown(cfg.feeds, r.key) {
      OwnFlagsFromReads(accessed, NO_PRICES, cfg, UnknownOracle(r));
    }
  }
}
