/** From transaction to attestation (crates/ciel-pipeline/src/pipeline.rs, crates/ciel-checkers/src/runner.rs). */
module Pipeline {
  import opened Prelude
  import opened Chain
  import opened CheckerTypes
  import opened Attestation
  import opened Staleness
  import ApprovalAbuse
  import AuthorityDiff
  import Executor
  import OracleFeeds
  import OracleSanity
  import OutputsHash
  import Scorer

  /* ---------- the checker fan-out ---------- */

  /** What the checkers see. The intent is absent and the oracle price cache is empty on every evaluation. */
  datatype Context = Context(
    graph: seq<CpiCall>, oracleReads: seq<OracleSanity.OracleRead>, tx: Transaction, slot: U64, registry: Registry)

  datatype Checker = Checker(name: Bytes, run: Context -> CheckerOutput)

  /** Each checker either finishes by its deadline or not; a later checker of the same name replaces an earlier one. */
  function RunCheckers(ctx: Context, checkers: seq<Checker>, finishes: nat -> bool): (r: CheckerResults)
  {
    if checkers == [] then map[]
    else
      var n := |checkers| - 1;
      RunCheckers(ctx, checkers[..n], finishes)
        [checkers[n].name := if finishes(n) then Completed(checkers[n].run(ctx)) else TimedOut]
  }

  /** A checker writes its own name into its output. */
  ghost predicate Honest(c: Checker)
  {
    forall ctx :: c.run(ctx).name == c.name
  }

  lemma {:induction false} ResultsAreKeyedByName(ctx: Context, checkers: seq<Checker>, finishes: nat -> bool)
    requires forall i :: 0 <= i < |checkers| ==> Honest(checkers[i])
    ensures OutputsHash.KeyedByName(RunCheckers(ctx, checkers, finishes))
  {
    if checkers != [] {
      ResultsAreKeyedByName(ctx, checkers[..|checkers| - 1], finishes);
    }
  }

  lemma {:induction false} UniqueCheckerResult(ctx: Context, checkers: seq<Checker>, finishes: nat -> bool, i: nat)
    requires i < |checkers| && forall j :: i < j < |checkers| ==> checkers[j].name != checkers[i].name
    ensures checkers[i].name in RunCheckers(ctx, checkers, finishes)
    ensures RunCheckers(ctx, checkers, finishes)[checkers[i].name]
         == if finishes(i) then Completed(checkers[i].run(ctx)) else TimedOut
  {
    if i < |checkers| - 1 {
      UniqueCheckerResult(ctx, checkers[..|checkers| - 1], finishes, i);
    }
  }

  /* ---------- one evaluation ---------- */

  datatype Simulation = Simulation(inner: seq<seq<Executor.InnerInstruction>>,
                                   oracleReads: seq<OracleSanity.OracleRead>)

  /** Everything the pipeline asks of the outside: hashes, locks, clocks, the simulator, the signer. */
  datatype World = World(
    txHash: Option<Bytes32>,
    deadlineFires: bool,
    stream: Stream,
    sampledAt: nat,
    slot: Option<U64>,
    simulation: Option<Simulation>,
    finishes: nat -> bool,
    order: set<Bytes> -> seq<Bytes>,
    sha256: Bytes -> Bytes32,
    sign: Bytes -> Bytes64,
    signer: Bytes32,
    timestamp: I64,
    elapsedMs: nat)

  ghost predicate ValidWorld(w: World)
  {
    (forall s :: Enumerates(w.order(s), s)) && Timely(w.stream, w.sampledAt)
  }

  /** The one sample of the stream's staleness that an evaluation takes. */
  function Sampled(w: World): (s: StalenessState)
  {
    StateOf(w.stream, w.sampledAt)
  }

  datatype PipelineError = Serialization | ForkPoisoned | SimulationFailed | HashPanicked

  datatype Response = Response(verdict: Verdict, safetyScore: nat, attestation: Bytes, signature: Bytes64, slot: U64,
                               results: CheckerResults, downgraded: bool)

  const ZERO_HASH: Bytes32 := seq(32, i => 0)

  function SaturateU16(n: nat): (r: U16)
  {
    if n < TWO_16 then n else TWO_16 - 1
  }

  function TimeoutResponse(w: World): (r: Result<Response, PipelineError>)
  {
    if w.txHash.None? then Err(Serialization)
    else if w.slot.None? then Err(ForkPoisoned)
    else
      var bytes := Encode(NewTimeout(w.txHash.value, ZERO_HASH, w.slot.value, w.signer, w.timestamp,
        SaturateU16(w.elapsedMs)));
      Ok(Response(Timeout, 0, bytes, w.sign(bytes), w.slot.value, map[], false))
  }

  function ContextOf(tx: Transaction, w: World): (ctx: Context)
    requires w.simulation.Some? && w.slot.Some?
  {
    var sim := w.simulation.value;
    Context(Executor.GraphOf(tx, sim.inner), sim.oracleReads, tx, w.slot.value, MainnetRegistry())
  }

  function ResultsOf(tx: Transaction, checkers: seq<Checker>, w: World): (r: CheckerResults)
    requires w.simulation.Some? && w.slot.Some?
  {
    RunCheckers(ContextOf(tx, w), checkers, w.finishes)
  }

  function Downgrade(v: Verdict, s: StalenessState): (r: Verdict)
  {
    if s != Fresh && v == Approve then Warn else v
  }

  ghost function Evaluate(tx: Transaction, checkers: seq<Checker>, w: World): (r: Result<Response, PipelineError>)
  {
    if w.deadlineFires then TimeoutResponse(w)
    else if w.txHash.None? then Err(Serialization)
    else if Sampled(w) == Expired then TimeoutResponse(w)
    else if w.slot.None? then Err(ForkPoisoned)
    else if w.simulation.None? then Err(SimulationFailed)
    else
      var results := ResultsOf(tx, checkers, w);
      var verdict := Downgrade(Scorer.Judge(results), Sampled(w));
      match OutputsHash.Preimage(results, w.order(results.Keys))
      case None => Err(HashPanicked)
      case Some(preimage) =>
        var score := Scorer.SafetyScore(results);
        var bytes := Encode(NewAttestation(w.txHash.value, verdict, Scorer.EncodeScore(score), 0, w.sha256(preimage),
                                           w.slot.value, w.signer, w.timestamp, 0));
        Ok(Response(verdict, score, bytes, w.sign(bytes), w.slot.value, results, Sampled(w) != Fresh))
  }

  method EvaluateRawTx(tx: Transaction, checkers: seq<Checker>, w: World, tracker: StalenessTracker)
    returns (r: Result<Response, PipelineError>)
    requires ValidWorld(w) && tracker.Follows(w.stream)
    ensures r == Evaluate(tx, checkers, w)
  {
    if w.deadlineFires {
      return TimeoutResponse(w);
    }
    if w.txHash.None? {
      return Err(Serialization);
    }
    var downgradeReason := false;
    var staleness := tracker.State(w.sampledAt, w.stream);
    match staleness {
      case Fresh =>
      case Degraded => downgradeReason := true;
      case Expired => return TimeoutResponse(w);
    }
    if w.slot.None? {
      return Err(ForkPoisoned);
    }
    if w.simulation.None? {
      return Err(SimulationFailed);
    }
    var graph := Executor.ExtractCpiGraph(tx, w.simulation.value.inner);
    var results := RunCheckers(
      Context(graph, w.simulation.value.oracleReads, tx, w.slot.value, MainnetRegistry()), checkers, w.finishes);
    var score := Scorer.ComputeSafetyScore(results, w.order(results.Keys));
    var verdict := Scorer.ScoreToVerdict(score, results);
    if downgradeReason && verdict == Approve {
      verdict := Warn;
    }
    var preimage := OutputsHash.HashPreimage(results, w.order(results.Keys));
    if preimage.None? {
      return Err(HashPanicked);
    }
    var bytes := Encode(NewAttestation(w.txHash.value, verdict, Scorer.EncodeScore(score), 0, w.sha256(preimage.value),
                                       w.slot.value, w.signer, w.timestamp, 0));
    r := Ok(Response(verdict, score, bytes, w.sign(bytes), w.slot.value, results, downgradeReason));
  }

  /* ---------- what a response guarantees ---------- */

  /**
   * An attestation of the response's verdict and slot, expiring two slots on; each score field is the sentinel
   * exactly when the verdict is TIMEOUT.
   */
  predicate Attests(a: CielAttestation, r: Response, signer: Bytes32)
  {
    && a.verdict == r.verdict.Code() && a.slot == r.slot && a.signer == signer
    && (a.expirySlot == r.slot + 2 <==> r.slot < TWO_64 - 2)
    && (a.safetyScore == TIMEOUT_SENTINEL <==> r.verdict == Timeout)
    && (a.optimalityScore == TIMEOUT_SENTINEL <==> r.verdict == Timeout)
    && (r.verdict != Timeout ==> a.safetyScore == r.safetyScore * 100 <= 10_000)
  }

  /** The response's bytes decode to an attestation of that kind. */
  predicate Faithful(r: Response, signer: Bytes32)
  {
    Decode(r.attestation).Some? && Attests(Decode(r.attestation).value, r, signer)
  }

  lemma DecodesTo(bytes: Bytes, a: CielAttestation)
    requires bytes == Encode(a)
    ensures Decode(bytes) == Some(a)
  {
    DecodeEncode(a);
  }

  lemma FaithfulFrom(r: Response, signer: Bytes32, a: CielAttestation)
    requires r.attestation == Encode(a) && Attests(a, r, signer)
    ensures Faithful(r, signer)
  {
    DecodesTo(r.attestation, a);
  }

  lemma TimedOutIsFaithful(r: Response, txHash: Bytes32, hash: Bytes32, signer: Bytes32, timestamp: I64, elapsed: U16)
    requires r.verdict == Timeout
    requires r.attestation == Encode(NewTimeout(txHash, hash, r.slot, signer, timestamp, elapsed))
    ensures Faithful(r, signer)
  {
    FaithfulFrom(r, signer, NewTimeout(txHash, hash, r.slot, signer, timestamp, elapsed));
  }

  lemma TimeoutIsFaithful(w: World)
    requires TimeoutResponse(w).Ok?
    ensures Faithful(TimeoutResponse(w).value, w.signer)
  {
    TimedOutIsFaithful(TimeoutResponse(w).value, w.txHash.value, ZERO_HASH, w.signer, w.timestamp,
                       SaturateU16(w.elapsedMs));
  }

  lemma JudgedIsFaithful(r: Response, txHash: Bytes32, hash: Bytes32, signer: Bytes32, timestamp: I64)
    requires r.verdict != Timeout && r.safetyScore <= 100
    requires r.attestation == Encode(NewAttestation(txHash, r.verdict, Scorer.EncodeScore(r.safetyScore), 0, hash,
                                                    r.slot, signer, timestamp, 0))
    ensures Faithful(r, signer)
  {
    FaithfulFrom(r, signer, NewAttestation(txHash, r.verdict, Scorer.EncodeScore(r.safetyScore), 0, hash,
                                           r.slot, signer, timestamp, 0));
  }

  /** Every response is faithful to the attestation it carries. */
  lemma ResponseMatchesAttestation(tx: Transaction, checkers: seq<Checker>, w: World)
    requires Evaluate(tx, checkers, w).Ok?
    ensures Faithful(Evaluate(tx, checkers, w).value, w.signer)
  {
    if w.deadlineFires || Sampled(w) == Expired {
      TimeoutIsFaithful(w);
    } else {
      var r, results := Evaluate(tx, checkers, w).value, ResultsOf(tx, checkers, w);
      var hash := w.sha256(OutputsHash.Preimage(results, w.order(results.Keys)).value);
      JudgedIsFaithful(r, w.txHash.value, hash, w.signer, w.timestamp);
    }
  }

  /* ---------- what is signed, byte by byte ---------- */

  /**
   * The 132 bytes: CIEL, version 1, the transaction's hash, the verdict as 0, 1, 2 or 3, the scores, the outputs
   * hash, the slot and the one two slots on, the signer, the time and the time-out.
   */
  predicate WireBytes(b: Bytes, txHash: Bytes32, verdict: Verdict, safety: int, optimality: int, outputsHash: Bytes32,
                      slot: int, signer: Bytes32, timestamp: int, timeoutAtMs: int)
  {
    && |b| == 132 && b[0..5] == [0x43, 0x49, 0x45, 0x4C, 1] && b[5..37] == txHash
    && (b[37] == 0 <==> verdict == Approve) && (b[37] == 1 <==> verdict == Warn)
    && (b[37] == 2 <==> verdict == Block) && (b[37] == 3 <==> verdict == Timeout)
    && b[38] + 256 * (b[39] as int) == safety && b[40] + 256 * (b[41] as int) == optimality
    && b[42..74] == outputsHash
    && LeNat(b[74..82]) == slot && LeNat(b[82..90]) == (slot + 2) % 0x1_0000_0000_0000_0000
    && b[90..122] == signer && b[130] + 256 * (b[131] as int) == timeoutAtMs
    && LeNat(b[122..130]) == (if timestamp < 0 then timestamp + 0x1_0000_0000_0000_0000 else timestamp)
  }

  lemma WireBytesFrom(b: Bytes, txHash: Bytes32, verdict: Verdict, safety: U16, optimality: U16, outputsHash: Bytes32,
                      slot: U64, signer: Bytes32, timestamp: I64, timeoutAtMs: U16)
    requires b == Encode(NewAttestation(txHash, verdict, safety, optimality, outputsHash, slot, signer, timestamp,
                                        timeoutAtMs))
    ensures WireBytes(b, txHash, verdict, safety, optimality, outputsHash, slot, signer, timestamp, timeoutAtMs)
  {
    ConstructedBytes(txHash, verdict, safety, optimality, outputsHash, slot, signer, timestamp, timeoutAtMs);
  }

  /** A TIMEOUT signs 0xFFFF for both scores, a zero hash and the time taken, cut off at 0xFFFF. */
  lemma TimeoutBytes(w: World)
    requires TimeoutResponse(w).Ok?
    ensures w.txHash.Some? && w.slot.Some?
    ensures var r := TimeoutResponse(w).value;
      && r.verdict == Timeout && r.safetyScore == 0 && r.slot == w.slot.value && r.results == map[] && !r.downgraded
      && r.signature == w.sign(r.attestation)
      && WireBytes(r.attestation, w.txHash.value, Timeout, 0xFFFF, 0xFFFF, seq(32, i => 0), r.slot, w.signer,
                   w.timestamp, if w.elapsedMs > 0xFFFF then 0xFFFF else w.elapsedMs)
  {
    var r := TimeoutResponse(w).value;
    WireBytesFrom(r.attestation, w.txHash.value, Timeout, 0xFFFF, 0xFFFF, ZERO_HASH, r.slot, w.signer, w.timestamp,
                  SaturateU16(w.elapsedMs));
  }

  /** What an evaluation that is not timed out returns. */
  lemma Judged(tx: Transaction, checkers: seq<Checker>, w: World) returns (hash: Bytes32)
    requires Evaluate(tx, checkers, w).Ok? && !w.deadlineFires && Sampled(w) != Expired
    ensures w.txHash.Some? && w.slot.Some? && w.simulation.Some?
    ensures var r := Evaluate(tx, checkers, w).value;
      && r.slot == w.slot.value && r.signature == w.sign(r.attestation) && r.results == ResultsOf(tx, checkers, w)
      && r.verdict != Timeout && r.safetyScore <= 100
      && OutputsHash.Preimage(r.results, w.order(r.results.Keys)).Some?
      && hash == w.sha256(OutputsHash.Preimage(r.results, w.order(r.results.Keys)).value)
      && r.attestation == Encode(NewAttestation(w.txHash.value, r.verdict, Scorer.EncodeScore(r.safetyScore), 0, hash,
                                                r.slot, w.signer, w.timestamp, 0))
  {
    var results := ResultsOf(tx, checkers, w);
    hash := w.sha256(OutputsHash.Preimage(results, w.order(results.Keys)).value);
  }

  lemma JudgedBytes(r: Response, txHash: Bytes32, hash: Bytes32, signer: Bytes32, timestamp: I64)
    requires r.safetyScore <= 100
    requires r.attestation == Encode(NewAttestation(txHash, r.verdict, Scorer.EncodeScore(r.safetyScore), 0, hash,
                                                    r.slot, signer, timestamp, 0))
    ensures WireBytes(r.attestation, txHash, r.verdict, 100 * r.safetyScore, 0, hash, r.slot, signer, timestamp, 0)
  {
    WireBytesFrom(r.attestation, txHash, r.verdict, Scorer.EncodeScore(r.safetyScore), 0, hash, r.slot, signer,
                  timestamp, 0);
  }

  /**
   * Every response is signed over bytes that say its verdict; any other verdict than TIMEOUT comes with the score in
   * ten-thousandths, zero for optimality, the hash of the preimage of its results, and zero for the time-out.
   */
  lemma SignedBytes(tx: Transaction, checkers: seq<Checker>, w: World)
    requires Evaluate(tx, checkers, w).Ok?
    ensures w.txHash.Some? && w.slot.Some?
    ensures var r := Evaluate(tx, checkers, w).value;
      && r.slot == w.slot.value && r.signature == w.sign(r.attestation)
      && (w.deadlineFires || Sampled(w) == Expired ==> Evaluate(tx, checkers, w) == TimeoutResponse(w))
      && (r.verdict == Timeout <==> w.deadlineFires || Sampled(w) == Expired)
      && (r.verdict != Timeout ==>
            && OutputsHash.Preimage(r.results, w.order(r.results.Keys)).Some?
            && WireBytes(r.attestation, w.txHash.value, r.verdict, 100 * r.safetyScore, 0,
                         w.sha256(OutputsHash.Preimage(r.results, w.order(r.results.Keys)).value), r.slot, w.signer,
                         w.timestamp, 0))
  {
    if !w.deadlineFires && Sampled(w) != Expired {
      var hash := Judged(tx, checkers, w);
      JudgedBytes(Evaluate(tx, checkers, w).value, w.txHash.value, hash, w.signer, w.timestamp);
    }
  }

  /** The verdict byte alone. */
  lemma VerdictByte(tx: Transaction, checkers: seq<Checker>, w: World)
    requires Evaluate(tx, checkers, w).Ok?
    ensures var r := Evaluate(tx, checkers, w).value;
      && |r.attestation| == 132 && r.attestation[0..5] == [0x43, 0x49, 0x45, 0x4C, 1]
      && (r.attestation[37] == 0 <==> r.verdict == Approve) && (r.attestation[37] == 1 <==> r.verdict == Warn)
      && (r.attestation[37] == 2 <==> r.verdict == Block) && (r.attestation[37] == 3 <==> r.verdict == Timeout)
  {
    SignedBytes(tx, checkers, w);
    if w.deadlineFires || Sampled(w) == Expired {
      TimeoutBytes(w);
    }
  }

  /** Exactly when an evaluation fails, and how. */
  lemma ErrorIff(tx: Transaction, checkers: seq<Checker>, w: World)
    requires ValidWorld(w)
    ensures var r := Evaluate(tx, checkers, w);
      var judged := w.txHash.Some? && w.slot.Some? && !w.deadlineFires && Sampled(w) != Expired;
      && (r == Err(Serialization) <==> w.txHash.None?)
      && (r == Err(ForkPoisoned) <==> w.txHash.Some? && w.slot.None?)
      && (r == Err(SimulationFailed) <==> judged && w.simulation.None?)
      && (r == Err(HashPanicked) <==> judged && w.simulation.Some? && !OutputsHash.AllFit(ResultsOf(tx, checkers, w)))
  {
    if w.simulation.Some? && w.slot.Some? {
      var results := ResultsOf(tx, checkers, w);
      OutputsHash.PreimageIsSome(results, w.order(results.Keys));
    }
  }

  /**
   * Which verdict is given. TIMEOUT when the deadline passed or nothing was heard within the timeout threshold; else
   * BLOCK when more than 60 is taken off, WARN when more than 30 is, or when nothing was heard within the warn
   * threshold; else APPROVE.
   */
  lemma VerdictIs(tx: Transaction, checkers: seq<Checker>, w: World)
    requires ValidWorld(w) && Evaluate(tx, checkers, w).Ok?
    ensures var r, c := Evaluate(tx, checkers, w).value, w.stream.config;
      var late := w.deadlineFires || !HeardWithin(w.stream, c.timeoutThreshold, w.sampledAt);
      && (late ==> r.verdict == Timeout)
      && (!late ==>
            && w.simulation.Some? && w.slot.Some? && r.results == ResultsOf(tx, checkers, w)
            && (r.downgraded <==> !HeardWithin(w.stream, c.warnThreshold, w.sampledAt))
            && r.verdict == if Scorer.TakenOff(r.results) > 60 then Block
                            else if Scorer.TakenOff(r.results) > 30 || r.downgraded then Warn
                            else Approve)
  {
    StateFromUpdates(w.stream, w.sampledAt);
    if !w.deadlineFires && Sampled(w) != Expired {
      Scorer.JudgeByTotal(ResultsOf(tx, checkers, w));
      Scorer.PenaltiesByCounting(ResultsOf(tx, checkers, w));
    }
  }

  /**
   * Exactly when an APPROVE is signed: in time, with the stream heard from within both thresholds of the sample,
   * and with a total penalty of at most 0.30.
   */
  lemma ApproveIff(tx: Transaction, checkers: seq<Checker>, w: World)
    requires ValidWorld(w) && Evaluate(tx, checkers, w).Ok?
    ensures Evaluate(tx, checkers, w).value.verdict == Approve <==>
      && !w.deadlineFires
      && HeardWithin(w.stream, w.stream.config.warnThreshold, w.sampledAt)
      && HeardWithin(w.stream, w.stream.config.timeoutThreshold, w.sampledAt)
      && w.simulation.Some? && w.slot.Some?
      && Scorer.TakenOff(ResultsOf(tx, checkers, w)) <= 30
  {
    VerdictIs(tx, checkers, w);
    StateFromUpdates(w.stream, w.sampledAt);
  }

  /** APPROVE does happen: here with no checkers, on a stream heard from at the very moment of the sample. */
  lemma ApproveHappens(tx: Transaction, config: StalenessConfig) returns (w: World)
    ensures ValidWorld(w) && Evaluate(tx, [], w).Ok? && Evaluate(tx, [], w).value.verdict == Approve
  {
    var hash: Bytes32, signature: Bytes64 := ZERO_HASH, seq(64, i => 0);
    w := World(Some(hash), false, Stream(0, [], config), 0, Some(0), Some(Simulation([], [])), (i: nat) => true,
               (s: set<Bytes>) => SomeEnumeration(s), (b: Bytes) => hash, (b: Bytes) => signature, hash, 0, 0);
    var results := ResultsOf(tx, [], w);
    assert results == map[];
    OutputsHash.PreimageIsSome(results, w.order(results.Keys));
    Scorer.JudgeByTotal(results);
  }

  /** An APPROVE carries no completed checker at High or Critical. */
  lemma ApproveMeansNothingSevere(tx: Transaction, checkers: seq<Checker>, w: World, k: Bytes)
    requires Evaluate(tx, checkers, w).Ok? && Evaluate(tx, checkers, w).value.verdict == Approve
    requires k in Evaluate(tx, checkers, w).value.results && Evaluate(tx, checkers, w).value.results[k].Completed?
    ensures Evaluate(tx, checkers, w).value.results[k].output.severity.Rank() < High.Rank()
  {
    Scorer.SevereFindingDecides(ResultsOf(tx, checkers, w), k);
  }

  /* ---------- the durable-nonce multisig handoff, end to end ---------- */

  /** A checker that reports the severity of the authority check; the pipeline supplies no intent. */
  ghost predicate RunsAuthorityDiff(c: Checker)
  {
    forall ctx :: c.run(ctx).severity
      == AuthorityDiff.ReportOn(ctx.graph, ctx.registry, AuthorityDiff.HasDurableNoncePrecursor(ctx.tx), None).severity
  }

  /** The first signed instruction is the System Program's AdvanceNonce, first byte 4. */
  predicate OpensWithAdvanceNonce(tx: Transaction)
  {
    && |tx.instructions| > 0 && tx.instructions[0].programIdIndex < |tx.accountKeys|
    && tx.accountKeys[tx.instructions[0].programIdIndex] == SYSTEM_PROGRAM_ID
    && |tx.instructions[0].data| > 0 && tx.instructions[0].data[0] == 4
  }

  lemma NonceIff(tx: Transaction)
    ensures AuthorityDiff.HasDurableNoncePrecursor(tx) <==> OpensWithAdvanceNonce(tx)
  {
  }

  /** Signed instruction `i` is a Squads call whose accounts name another registry-known program. */
  ghost predicate HandsOff(tx: Transaction, i: nat)
  {
    && i < |tx.instructions| && tx.instructions[i].programIdIndex < |tx.accountKeys|
    && tx.accountKeys[tx.instructions[i].programIdIndex] == SQUADS_V4_PROGRAM_ID
    && exists j :: 0 <= j < |tx.instructions[i].accounts| && tx.instructions[i].accounts[j] < |tx.accountKeys|
         && tx.accountKeys[tx.instructions[i].accounts[j]] != SQUADS_V4_PROGRAM_ID
         && tx.accountKeys[tx.instructions[i].accounts[j]] in MainnetRegistry()
  }

  lemma HandoffCarries(tx: Transaction, i: nat)
    requires HandsOff(tx, i)
    ensures AuthorityDiff.CarriesKnownProgram(Executor.TopCall(tx, i), MainnetRegistry())
  {
    var c := Executor.TopCall(tx, i);
    var j :| 0 <= j < |tx.instructions[i].accounts| && tx.instructions[i].accounts[j] < |tx.accountKeys|
      && tx.accountKeys[tx.instructions[i].accounts[j]] != SQUADS_V4_PROGRAM_ID
      && tx.accountKeys[tx.instructions[i].accounts[j]] in MainnetRegistry();
    assert c.accounts[j] != SQUADS_V4_PROGRAM_ID && c.accounts[j] in MainnetRegistry();
  }

  /**
   * A transaction that opens with AdvanceNonce and carries such a call is never approved or merely warned
   * about once the authority check has finished, whatever simulation did, whatever the inner calls are,
   * and whatever the other checkers say.
   */
  lemma HandoffIsBlocked(tx: Transaction, checkers: seq<Checker>, w: World, c: nat, i: nat)
    requires Evaluate(tx, checkers, w).Ok?
    requires c < |checkers| && RunsAuthorityDiff(checkers[c]) && w.finishes(c)
    requires forall j :: c < j < |checkers| ==> checkers[j].name != checkers[c].name
    requires OpensWithAdvanceNonce(tx) && HandsOff(tx, i)
    ensures Evaluate(tx, checkers, w).value.verdict in {Block, Timeout}
  {
    if !w.deadlineFires && Sampled(w) != Expired {
      var ctx := ContextOf(tx, w);
      Executor.GraphStartsWithInstructions(tx, w.simulation.value.inner, i);
      HandoffCarries(tx, i);
      NonceIff(tx);
      AuthorityDiff.HandoffIsCritical(ctx.graph, ctx.graph[i], MainnetRegistry(), None);
      assert checkers[c].run(ctx).severity == Critical;
      UniqueCheckerResult(ctx, checkers, w.finishes, c);
      Scorer.SevereFindingDecides(ResultsOf(tx, checkers, w), checkers[c].name);
    }
  }

  lemma UpgradeIsSevere(call: CpiCall, registry: Registry, nonce: bool)
    requires call.programId == BPF_LOADER_UPGRADEABLE_PROGRAM_ID && |call.data| > 0 && call.data[0] == 3
    ensures AuthorityDiff.FinalFlag(call, registry, nonce, None).Some?
    ensures AuthorityDiff.Recover(AuthorityDiff.FinalFlag(call, registry, nonce, None).value).Rank() >= 3
  {
    AuthorityDiff.FlaggedIff(call, registry, nonce, None);
    var start := AuthorityDiff.SeverityByNumbers(call, registry, nonce, None);
  }

  /** A signed program upgrade is never approved once the authority check has finished. */
  lemma UpgradeIsNotApproved(tx: Transaction, checkers: seq<Checker>, w: World, c: nat, i: nat)
    requires Evaluate(tx, checkers, w).Ok?
    requires c < |checkers| && RunsAuthorityDiff(checkers[c]) && w.finishes(c)
    requires forall j :: c < j < |checkers| ==> checkers[j].name != checkers[c].name
    requires i < |tx.instructions| && tx.instructions[i].programIdIndex < |tx.accountKeys|
    requires tx.accountKeys[tx.instructions[i].programIdIndex] == BPF_LOADER_UPGRADEABLE_PROGRAM_ID
    requires |tx.instructions[i].data| > 0 && tx.instructions[i].data[0] == 3
    ensures Evaluate(tx, checkers, w).value.verdict != Approve
  {
    if !w.deadlineFires && Sampled(w) != Expired {
      var ctx := ContextOf(tx, w);
      var nonce := AuthorityDiff.HasDurableNoncePrecursor(tx);
      Executor.GraphStartsWithInstructions(tx, w.simulation.value.inner, i);
      UpgradeIsSevere(ctx.graph[i], ctx.registry, nonce);
      AuthorityDiff.CallBoundsReport(ctx.graph, ctx.graph[i], ctx.registry, nonce, None);
      assert checkers[c].run(ctx).severity.Rank() >= 3;
      UniqueCheckerResult(ctx, checkers, w.finishes, c);
      Scorer.SevereFindingDecides(ResultsOf(tx, checkers, w), checkers[c].name);
    }
  }

  /* ---------- other findings, end to end ---------- */

  ghost predicate RunsApprovalAbuse(c: Checker)
  {
    forall ctx :: c.run(ctx).severity == ApprovalAbuse.SeverityOn(ctx.graph, ctx.registry)
  }

  /**
   * A signed instruction that approves an unknown delegate without limit, and that no later entry of the call
   * list revokes, is never approved once the approval check has finished.
   */
  lemma AbusiveApprovalIsNotApproved(tx: Transaction, checkers: seq<Checker>, w: World, c: nat, i: nat)
    requires Evaluate(tx, checkers, w).Ok?
    requires c < |checkers| && RunsApprovalAbuse(checkers[c]) && w.finishes(c)
    requires forall j :: c < j < |checkers| ==> checkers[j].name != checkers[c].name
    requires i < |tx.instructions|
    requires ApprovalAbuse.InspectApprove(Executor.TopCall(tx, i), MainnetRegistry()).Some?
    requires w.simulation.Some? ==>
               !ApprovalAbuse.RevokedAfter(Executor.GraphOf(tx, w.simulation.value.inner), i,
                 ApprovalAbuse.InspectApprove(Executor.TopCall(tx, i), MainnetRegistry()).value.source)
    ensures Evaluate(tx, checkers, w).value.verdict != Approve
  {
    if !w.deadlineFires && Sampled(w) != Expired {
      var ctx := ContextOf(tx, w);
      Executor.GraphStartsWithInstructions(tx, w.simulation.value.inner, i);
      var f := ApprovalAbuse.FlagAt(ctx.graph, ctx.registry, i);
      ApprovalAbuse.FlagsMembers(ctx.graph, ctx.registry, 0, i, f.value);
      assert checkers[c].run(ctx).severity == High;
      UniqueCheckerResult(ctx, checkers, w.finishes, c);
      Scorer.SevereFindingDecides(ResultsOf(tx, checkers, w), checkers[c].name);
    }
  }

  /** The oracle check as the pipeline runs it: on a price cache that nothing ever fills. */
  ghost predicate RunsOracleSanity(c: Checker, cfg: OracleSanity.Config)
  {
    forall ctx: Context ::
      var scan := OracleSanity.ScanAll(ctx.oracleReads, OracleSanity.NO_PRICES, cfg);
      c.run(ctx).severity == OracleSanity.Worst(scan.flags)
  }

  /**
   * End to end no price deviation is ever found: the oracle check says High for unregistered feeds and else nothing.
   */
  lemma OracleCheckSeesNoPrices(tx: Transaction, checkers: seq<Checker>, w: World, c: nat, cfg: OracleSanity.Config)
    requires w.simulation.Some? && w.slot.Some?
    requires c < |checkers| && RunsOracleSanity(checkers[c], cfg) && w.finishes(c)
    requires forall j :: c < j < |checkers| ==> checkers[j].name != checkers[c].name
    ensures var results := ResultsOf(tx, checkers, w);
      && checkers[c].name in results && results[checkers[c].name].Completed?
      && results[checkers[c].name].output.severity ==
         if exists r :: r in w.simulation.value.oracleReads && !OracleFeeds.IsKnown(cfg.feeds, r.key)
         then High
         else NoSeverity
  {
    UniqueCheckerResult(ContextOf(tx, w), checkers, w.finishes, c);
    OracleSanity.EmptyCacheFindsUnknownOnly(w.simulation.value.oracleReads, cfg);
  }

  /* ---------- the commitment ---------- */

  /** The attestation of a verdict other than TIMEOUT carries the hash of the preimage of the results it rests on. */
  lemma SignedHash(tx: Transaction, checkers: seq<Checker>, w: World) returns (preimage: Bytes)
    requires ValidWorld(w) && Evaluate(tx, checkers, w).Ok? && Evaluate(tx, checkers, w).value.verdict != Timeout
    ensures w.simulation.Some? && w.slot.Some?
    ensures var r := Evaluate(tx, checkers, w).value;
      && r.results == ResultsOf(tx, checkers, w) && OutputsHash.AllFit(r.results)
      && OutputsHash.Preimage(r.results, w.order(r.results.Keys)) == Some(preimage)
      && Decode(r.attestation).Some? && Decode(r.attestation).value.outputsHash == w.sha256(preimage)
  {
    var r, results := Evaluate(tx, checkers, w).value, ResultsOf(tx, checkers, w);
    OutputsHash.PreimageIsSome(results, w.order(results.Keys));
    preimage := OutputsHash.Preimage(results, w.order(results.Keys)).value;
    DecodesTo(r.attestation,
              NewAttestation(w.txHash.value, r.verdict, Scorer.EncodeScore(r.safetyScore), 0, w.sha256(preimage),
                             r.slot, w.signer, w.timestamp, 0));
  }

  /**
   * Two attestations of honest checkers carry the hashes of two preimages, and those preimages are equal if and
   * only if the same checkers completed with the same outputs. So equal outputs sign equal hashes, and, short of
   * a SHA-256 collision between the two, equal hashes mean equal outputs.
   */
  lemma CommitmentIff(tx1: Transaction, cs1: seq<Checker>, w1: World, tx2: Transaction, cs2: seq<Checker>, w2: World)
    returns (p1: Bytes, p2: Bytes)
    requires ValidWorld(w1) && Evaluate(tx1, cs1, w1).Ok? && Evaluate(tx1, cs1, w1).value.verdict != Timeout
    requires ValidWorld(w2) && Evaluate(tx2, cs2, w2).Ok? && Evaluate(tx2, cs2, w2).value.verdict != Timeout
    requires forall i :: 0 <= i < |cs1| ==> Honest(cs1[i])
    requires forall i :: 0 <= i < |cs2| ==> Honest(cs2[i])
    ensures var r1, r2 := Evaluate(tx1, cs1, w1).value, Evaluate(tx2, cs2, w2).value;
      && OutputsHash.Preimage(r1.results, w1.order(r1.results.Keys)) == Some(p1)
      && OutputsHash.Preimage(r2.results, w2.order(r2.results.Keys)) == Some(p2)
      && Decode(r1.attestation).Some? && Decode(r1.attestation).value.outputsHash == w1.sha256(p1)
      && Decode(r2.attestation).Some? && Decode(r2.attestation).value.outputsHash == w2.sha256(p2)
      && (p1 == p2 <==> OutputsHash.CompletedPart(r1.results) == OutputsHash.CompletedPart(r2.results))
  {
    p1 := SignedHash(tx1, cs1, w1);
    p2 := SignedHash(tx2, cs2, w2);
    var r1, r2 := ResultsOf(tx1, cs1, w1), ResultsOf(tx2, cs2, w2);
    ResultsAreKeyedByName(ContextOf(tx1, w1), cs1, w1.finishes);
    ResultsAreKeyedByName(ContextOf(tx2, w2), cs2, w2.finishes);
    OutputsHash.SamePreimageIff(r1, w1.order(r1.Keys), r2, w2.order(r2.Keys));
  }
}
