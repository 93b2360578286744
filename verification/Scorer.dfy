/** Penalty scoring, in hundredths (crates/ciel-pipeline/src/scorer_stub.rs). */
module Scorer {
  import opened Prelude
  import opened CheckerTypes
  import opened Attestation

  function SeverityPenalty(s: Severity): (p: nat)
  {
    match s
    case NoSeverity => 0
    case Low => 5
    case Medium => 15
    case High => 40
    case Critical => 100
  }

  function Penalty(s: CheckerStatus): (p: nat)
  {
    match s
    case Completed(o) => SeverityPenalty(o.severity)
    case TimedOut => 10
  }

  function Penalties(results: CheckerResults): (m: map<Bytes, int>)
  {
    map k | k in results :: Penalty(results[k])
  }

  function Clamp(x: int): (r: nat)
  {
    if x < 0 then 0 else if x > 100 then 100 else x
  }

  /** The score as a function of the results alone. */
  ghost function SafetyScore(results: CheckerResults): (s: nat)
  {
    Clamp(100 - MapSum(Penalties(results)))
  }

  /** The loop subtracts in whatever order the hash map yields; the score does not depend on it. */
  method ComputeSafetyScore(results: CheckerResults, order: seq<Bytes>) returns (score: nat)
    requires Enumerates(order, results.Keys)
    ensures score == SafetyScore(results)
  {
    var running: int := 100;
    ghost var f := k => ValueOrZero(Penalties(results), k);
    for i := 0 to |order|
      invariant running == 100 - SumBy(order[..i], f)
    {
      SumByConcat(order[..i], [order[i]], f);
      assert order[..i + 1] == order[..i] + [order[i]];
      assert SumBy([order[i]], f) == f(order[i]) + SumBy([order[i]][1..], f);
      match results[order[i]] {
        case Completed(output) => running := running - SeverityPenalty(output.severity);
        case TimedOut => running := running - 10;
      }
    }
    assert order[..|order|] == order;
    MapSumOfEnumeration(Penalties(results), order);
    score := Clamp(running);
  }

  predicate HasCritical(results: CheckerResults)
  {
    exists k :: k in results && results[k].Completed? && results[k].output.severity == Critical
  }

  /** The thresholds alone. */
  function Threshold(score: nat): (v: Verdict)
  {
    if score >= 70 then Approve else if score >= 40 then Warn else Block
  }

  function ScoreToVerdict(score: nat, results: CheckerResults): (v: Verdict)
  {
    if HasCritical(results) then Block else Threshold(score)
  }

  /** Four decimal digits: a score in hundredths times one hundred. */
  function EncodeScore(score: nat): (n: U16)
    requires score <= 100
  {
    score * 100
  }

  ghost function Judge(results: CheckerResults): (v: Verdict)
  {
    ScoreToVerdict(SafetyScore(results), results)
  }

  /** How far from approval a verdict of the scorer is. */
  function Strictness(v: Verdict): (n: nat)
  {
    match v
    case Approve => 0
    case Warn => 1
    case Block => 2
    case Timeout => 3
  }

  lemma PenaltyIsCounted(results: CheckerResults, k: Bytes)
    requires k in results
    ensures MapSum(Penalties(results)) >= Penalty(results[k])
  {
    var one: map<Bytes, int> := map[k := Penalty(results[k])];
    MapSumRemove(one, k);
    assert one - {k} == map[];
    MapSumMonotone(one, Penalties(results));
  }

  /** The Critical short-circuit never changes a verdict: the score is already below every threshold. */
  lemma CriticalAgreesWithThreshold(results: CheckerResults)
    ensures Judge(results) == Threshold(SafetyScore(results))
  {
    if k :| k in results && results[k].Completed? && results[k].output.severity == Critical {
      PenaltyIsCounted(results, k);
    }
  }

  /** The verdict follows from the total penalty. */
  lemma JudgeByTotal(results: CheckerResults)
    ensures var total := MapSum(Penalties(results));
      Judge(results) == if total <= 30 then Approve else if total <= 60 then Warn else Block
  {
    CriticalAgreesWithThreshold(results);
    MapSumMonotone(map[], Penalties(results));
  }

  /** Raising penalties, or adding checkers, never moves the verdict towards approval. */
  lemma HarsherIsNoMilder(a: CheckerResults, b: CheckerResults)
    requires forall k :: k in a ==> k in b && Penalty(a[k]) <= Penalty(b[k])
    ensures SafetyScore(b) <= SafetyScore(a)
    ensures Strictness(Judge(a)) <= Strictness(Judge(b))
  {
    MapSumMonotone(Penalties(a), Penalties(b));
    JudgeByTotal(a);
    JudgeByTotal(b);
  }

  /** The encoded score stays in 0..10000 and decides the verdict before any downgrade. */
  lemma EncodedScoreDecides(results: CheckerResults)
    ensures var n := EncodeScore(SafetyScore(results));
      && n <= 10_000
      && Judge(results) == if n >= 7_000 then Approve else if n >= 4_000 then Warn else Block
  {
    CriticalAgreesWithThreshold(results);
  }

  /** One High or Critical finding rules out approval; one Critical finding forces a block. */
  lemma SevereFindingDecides(results: CheckerResults, k: Bytes)
    requires k in results && results[k].Completed?
    ensures results[k].output.severity.Rank() >= High.Rank() ==> Judge(results) != Approve
    ensures results[k].output.severity == Critical ==> Judge(results) == Block
  {
    PenaltyIsCounted(results, k);
    JudgeByTotal(results);
  }

  /* ---------- the score by counting ---------- */

  function CompletedAt(results: CheckerResults, s: Severity): (ks: set<Bytes>)
  {
    set k | k in results && results[k].Completed? && results[k].output.severity == s
  }

  function TimedOutIn(results: CheckerResults): (ks: set<Bytes>)
  {
    set k | k in results && results[k].TimedOut?
  }

  lemma OneLess(a: set<Bytes>, b: set<Bytes>, k: Bytes)
    requires b == a - {k}
    ensures |a| == |b| + if k in a then 1 else 0
  {
    if k in a {
      assert a == b + {k};
    } else {
      assert a == b;
    }
  }

  /** What is taken off a full score of 100, by counting findings. */
  function TakenOff(results: CheckerResults): (n: int)
  {
    5 * |CompletedAt(results, Low)| + 15 * |CompletedAt(results, Medium)| + 40 * |CompletedAt(results, High)|
    + 100 * |CompletedAt(results, Critical)| + 10 * |TimedOutIn(results)|
  }

  lemma CountWithout(results: CheckerResults, k: Bytes, s: Severity)
    requires k in results
    ensures |CompletedAt(results, s)| == |CompletedAt(results - {k}, s)| + if k in CompletedAt(results, s) then 1 else 0
  {
    OneLess(CompletedAt(results, s), CompletedAt(results - {k}, s), k);
  }

  lemma TakenOffWithout(results: CheckerResults, k: Bytes)
    requires k in results
    ensures TakenOff(results) == TakenOff(results - {k}) + Penalty(results[k])
  {
    CountWithout(results, k, Low);
    CountWithout(results, k, Medium);
    CountWithout(results, k, High);
    CountWithout(results, k, Critical);
    OneLess(TimedOutIn(results), TimedOutIn(results - {k}), k);
  }

  lemma {:induction false} PenaltiesByCounting(results: CheckerResults)
    ensures MapSum(Penalties(results)) == TakenOff(results)
    decreases |results|
  {
    if results == map[] {
      assert Penalties(results) == map[];
      assert CompletedAt(results, Low) == CompletedAt(results, Medium) == {};
      assert CompletedAt(results, High) == CompletedAt(results, Critical) == TimedOutIn(results) == {};
    } else {
      var k :| k in results;
      var rest := results - {k};
      assert results.Keys == rest.Keys + {k};
      PenaltiesByCounting(rest);
      TakenOffWithout(results, k);
      MapSumRemove(Penalties(results), k);
      assert Penalties(results) - {k} == Penalties(rest);
    }
  }

  /**
   * From a hundred, 5 is taken off for each Low, 15 for each Medium, 40 for each High and 100 for each Critical
   * completed check, and 10 for each that timed out; the score stays between 0 and 100.
   */
  lemma ScoreByCounting(results: CheckerResults)
    ensures var left := 100 - TakenOff(results);
      SafetyScore(results) == if left < 0 then 0 else if left > 100 then 100 else left
  {
    PenaltiesByCounting(results);
  }

  /** Time-outs alone are approved up to three of them, and warned about up to six. */
  lemma TimeoutsAlone(results: CheckerResults)
    requires forall k :: k in results ==> results[k].TimedOut?
    ensures Judge(results) == if |results| <= 3 then Approve else if |results| <= 6 then Warn else Block
  {
    assert TimedOutIn(results) == results.Keys;
    assert CompletedAt(results, Low) == CompletedAt(results, Medium) == {};
    assert CompletedAt(results, High) == CompletedAt(results, Critical) == {};
    PenaltiesByCounting(results);
    JudgeByTotal(results);
  }
}
