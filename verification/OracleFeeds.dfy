/** The map of canonical oracle feeds (crates/ciel-checkers/src/oracle_cache.rs). */
module OracleFeeds {
  import opened Prelude
  import opened Chain

  datatype OracleType = Switchboard | Pyth

  datatype FeedMap = FeedMap(
    byKey: map<Pubkey, (string, OracleType)>,
    switchboard: map<string, Pubkey>,
    pyth: map<string, Pubkey>)

  const EMPTY_FEEDS := FeedMap(map[], map[], map[])

  function AfterRegister(m: FeedMap, asset: string, sb: Pubkey, py: Pubkey): (r: FeedMap)
  {
    FeedMap(m.byKey[sb := (asset, Switchboard)][py := (asset, Pyth)], m.switchboard[asset := sb], m.pyth[asset := py])
  }

  predicate IsKnown(m: FeedMap, k: Pubkey)
  {
    k in m.byKey
  }

  /** The paired feed of a known feed. */
  function CrossReference(m: FeedMap, k: Pubkey): (r: Option<Pubkey>)
  {
    if k !in m.byKey then None
    else
      var (asset, kind) := m.byKey[k];
      var other := if kind == Switchboard then m.pyth else m.switchboard;
      if asset in other then Some(other[asset]) else None
  }

  class CanonicalFeedMap {
    var byKey: map<Pubkey, (string, OracleType)>
    var switchboard: map<string, Pubkey>
    var pyth: map<string, Pubkey>

    function View(): (m: FeedMap)
      reads this
    {
      FeedMap(byKey, switchboard, pyth)
    }

    constructor ()
      ensures View() == EMPTY_FEEDS
    {
      byKey, switchboard, pyth := map[], map[], map[];
    }

    method Register(asset: string, sb: Pubkey, py: Pubkey)
      modifies this
      ensures View() == AfterRegister(old(View()), asset, sb, py)
    {
      byKey := byKey[sb := (asset, Switchboard)];
      byKey := byKey[py := (asset, Pyth)];
      switchboard := switchboard[asset := sb];
      pyth := pyth[asset := py];
    }
  }

  /* ---------- registration histories ---------- */

  datatype Registration = Registration(asset: string, sb: Pubkey, py: Pubkey)

  function RegisterAll(rs: seq<Registration>): (m: FeedMap)
  {
    if rs == [] then EMPTY_FEEDS
    else
      var r := rs[|rs| - 1];
      AfterRegister(RegisterAll(rs[..|rs| - 1]), r.asset, r.sb, r.py)
  }

  predicate Uses(r: Registration, k: Pubkey)
  {
    r.sb == k || r.py == k
  }

  ghost predicate LastUse(rs: seq<Registration>, k: Pubkey, i: nat)
  {
    i < |rs| && Uses(rs[i], k) && forall j :: i < j < |rs| ==> !Uses(rs[j], k)
  }

  ghost predicate LastOfAsset(rs: seq<Registration>, asset: string, i: nat)
  {
    i < |rs| && rs[i].asset == asset && forall j :: i < j < |rs| ==> rs[j].asset != asset
  }

  function SideIn(r: Registration, k: Pubkey): (t: OracleType)
  {
    if r.py == k then Pyth else Switchboard
  }

  function OtherFeed(r: Registration, t: OracleType): (k: Pubkey)
  {
    if t == Switchboard then r.py else r.sb
  }

  /** A feed is known by its last registration. */
  lemma {:induction false} KnownByLastUse(rs: seq<Registration>, k: Pubkey, i: nat)
    requires LastUse(rs, k, i)
    ensures IsKnown(RegisterAll(rs), k) && RegisterAll(rs).byKey[k] == (rs[i].asset, SideIn(rs[i], k))
  {
    if i < |rs| - 1 {
      KnownByLastUse(rs[..|rs| - 1], k, i);
    }
  }

  /** An asset's feeds are those of its last registration. */
  lemma {:induction false} SidesOfLast(rs: seq<Registration>, asset: string, i: nat)
    requires LastOfAsset(rs, asset, i)
    ensures var m := RegisterAll(rs);
      asset in m.switchboard && m.switchboard[asset] == rs[i].sb && asset in m.pyth && m.pyth[asset] == rs[i].py
  {
    if i < |rs| - 1 {
      SidesOfLast(rs[..|rs| - 1], asset, i);
    }
  }

  lemma {:induction false} SomeLastUse(rs: seq<Registration>, k: Pubkey) returns (i: nat)
    requires IsKnown(RegisterAll(rs), k)
    ensures LastUse(rs, k, i)
  {
    i := |rs| - 1;
    if !Uses(rs[i], k) {
      i := SomeLastUse(rs[..|rs| - 1], k);
    }
  }

  lemma {:induction false} SomeLastOfAsset(rs: seq<Registration>, i: nat) returns (j: nat)
    requires i < |rs|
    ensures i <= j && LastOfAsset(rs, rs[i].asset, j)
  {
    j := |rs| - 1;
    if rs[j].asset != rs[i].asset {
      j := SomeLastOfAsset(rs[..|rs| - 1], i);
    }
  }

  /** Crossing over leads from a feed's last registration `i` to the last registration `j` of that asset. */
  lemma CrossReferenceFrom(rs: seq<Registration>, k: Pubkey, i: nat) returns (j: nat)
    requires LastUse(rs, k, i)
    ensures i <= j && LastOfAsset(rs, rs[i].asset, j)
    ensures CrossReference(RegisterAll(rs), k) == Some(OtherFeed(rs[j], SideIn(rs[i], k)))
  {
    KnownByLastUse(rs, k, i);
    j := SomeLastOfAsset(rs, i);
    SidesOfLast(rs, rs[i].asset, j);
  }

  /* ---------- when crossing over twice comes back ---------- */

  ghost predicate Involution(m: FeedMap)
  {
    forall k: Pubkey :: IsKnown(m, k) ==>
      CrossReference(m, k).Some? && CrossReference(m, CrossReference(m, k).value) == Some(k)
  }

  predicate Overlaps(r: Registration, later: Registration)
  {
    r.asset == later.asset || Uses(later, r.sb) || Uses(later, r.py)
  }

  /** No later registration shares the asset or a feed of registration `i`. */
  ghost predicate Untouched(rs: seq<Registration>, i: nat)
    requires i < |rs|
  {
    forall j :: i < j < |rs| ==> !Overlaps(rs[i], rs[j])
  }

  /** A registration that a later one overlaps is wholly replaced: neither of its feeds was last registered by it. */
  ghost predicate WhollyReplaced(rs: seq<Registration>)
  {
    forall i: nat, k: Pubkey :: LastUse(rs, k, i) ==> Untouched(rs, i)
  }

  /** Each known feed and its cross reference know each other, under one asset and on opposite sides. */
  ghost predicate PairsUp(m: FeedMap)
  {
    forall k: Pubkey :: IsKnown(m, k) ==>
      var c := CrossReference(m, k);
      && c.Some? && IsKnown(m, c.value) && CrossReference(m, c.value) == Some(k)
      && m.byKey[c.value].0 == m.byKey[k].0
      && (c.value != k ==> m.byKey[c.value].1 != m.byKey[k].1)
  }

  lemma WhollyReplacedPairsUp(rs: seq<Registration>)
    requires WhollyReplaced(rs)
    ensures PairsUp(RegisterAll(rs))
  {
    var m := RegisterAll(rs);
    forall k: Pubkey | IsKnown(m, k)
      ensures var c := CrossReference(m, k);
        && c.Some? && IsKnown(m, c.value) && CrossReference(m, c.value) == Some(k)
        && m.byKey[c.value].0 == m.byKey[k].0
        && (c.value != k ==> m.byKey[c.value].1 != m.byKey[k].1)
    {
      var i := SomeLastUse(rs, k);
      assert Untouched(rs, i);
      var j := CrossReferenceFrom(rs, k, i);
      assert j == i;
      var c := OtherFeed(rs[i], SideIn(rs[i], k));
      assert LastUse(rs, c, i);
      var j' := CrossReferenceFrom(rs, c, i);
      KnownByLastUse(rs, k, i);
      KnownByLastUse(rs, c, i);
    }
  }

  /** Going out and back only ever moves forward in the history, so a round trip stays at one registration. */
  lemma RoundTripStaysPut(rs: seq<Registration>, k: Pubkey, i: nat)
    requires Involution(RegisterAll(rs)) && LastUse(rs, k, i)
    ensures Untouched(rs, i)
  {
    KnownByLastUse(rs, k, i);
    var j := CrossReferenceFrom(rs, k, i);
    var c := OtherFeed(rs[j], SideIn(rs[i], k));
    var i' := LastUseFrom(rs, c, j);
    var j' := CrossReferenceFrom(rs, c, i');
    assert Uses(rs[j'], k);
    assert i == j == i' == j';
  }

  lemma {:induction false} LastUseFrom(rs: seq<Registration>, k: Pubkey, j: nat) returns (i: nat)
    requires j < |rs| && Uses(rs[j], k)
    ensures j <= i && LastUse(rs, k, i)
  {
    i := |rs| - 1;
    if !Uses(rs[i], k) {
      i := LastUseFrom(rs[..|rs| - 1], k, j);
    }
  }

  /**
   * After any registration history, crossing over and back returns to the feed one started from, for every
   * known feed, if and only if overlapped registrations are wholly replaced.
   */
  lemma InvolutionIff(rs: seq<Registration>)
    ensures Involution(RegisterAll(rs)) <==> WhollyReplaced(rs)
  {
    if WhollyReplaced(rs) {
      WhollyReplacedPairsUp(rs);
    }
    if Involution(RegisterAll(rs)) {
      forall i: nat, k: Pubkey | LastUse(rs, k, i) ensures Untouched(rs, i) {
        RoundTripStaysPut(rs, k, i);
      }
    }
  }

  /** Assets are registered once, and no feed serves two assets; one feed may be both sides of its own asset. */
  ghost predicate Clean(rs: seq<Registration>)
  {
    forall i, j :: 0 <= i < j < |rs| ==> !Overlaps(rs[i], rs[j])
  }

  lemma CleanHistoryIsInvolution(rs: seq<Registration>)
    requires Clean(rs)
    ensures Involution(RegisterAll(rs)) && PairsUp(RegisterAll(rs))
  {
    assert WhollyReplaced(rs);
    WhollyReplacedPairsUp(rs);
  }

  /** A feed shared by two assets breaks the pairing: the first asset's other feed no longer comes back. */
  lemma SharedFeedBreaksPairing(a: string, b: string, shared: Pubkey, first: Pubkey, second: Pubkey)
    requires a != b && shared != first && shared != second && first != second
    ensures !Involution(RegisterAll([Registration(a, shared, first), Registration(b, shared, second)]))
  {
    var rs := [Registration(a, shared, first), Registration(b, shared, second)];
    assert LastUse(rs, first, 0) && Overlaps(rs[0], rs[1]);
    InvolutionIff(rs);
  }
}
