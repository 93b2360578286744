/** The intent checker: simulated balance deltas against stated amounts (crates/ciel-checkers/src/intent_diff.rs). */
module IntentDiff {
  import opened Prelude
  import opened Chain
  import Executor

  const I128_MAX := 0x7FFF_FFFF_FFFF_FFFF_FFFF_FFFF_FFFF_FFFF
  const TWO_128 := 0x1_0000_0000_0000_0000_0000_0000_0000_0000

  type I128 = n: int | -I128_MAX - 1 <= n <= I128_MAX
  type U128 = n: int | 0 <= n < TWO_128

  const SWAP_TOLERANCE_BPS: U16 := 100
  const TRANSFER_TOLERANCE_BPS: U16 := 10
  const DEPOSIT_TOLERANCE_BPS: U16 := 100

  function AsI128(n: U128): (i: I128)
  {
    if n <= I128_MAX then n else n - TWO_128
  }

  function Abs(x: int): (r: nat)
  {
    if x < 0 then -x else x
  }

  /* ---------- tolerance ---------- */

  function SaturatingMul(a: nat, b: nat): (p: nat)
  {
    if a * b > I128_MAX then I128_MAX else a * b
  }

  /** None is an arithmetic overflow of the subtraction or of `abs`. */
  function WithinTolerance(actual: I128, expected: I128, bps: U16): (ok: Option<bool>)
  {
    var diff := actual - expected;
    if Abs(diff) > I128_MAX || Abs(expected) > I128_MAX then None
    else Some(SaturatingMul(Abs(diff), 10_000) <= SaturatingMul(Abs(expected), bps))
  }

  /** The inequality the code comment states, in unbounded integers. */
  predicate InBand(actual: int, expected: int, bps: nat)
  {
    Abs(actual - expected) * 10_000 <= Abs(expected) * bps
  }

  /** What saturation does: it accepts exactly the band, plus everything once the allowance itself saturates. */
  lemma ToleranceIff(actual: I128, expected: I128, bps: U16)
    requires WithinTolerance(actual, expected, bps).Some?
    ensures WithinTolerance(actual, expected, bps).value <==>
      InBand(actual, expected, bps) || Abs(expected) * bps >= I128_MAX
  {
  }

  /** A wrong answer is always an acceptance, and takes both products to the top of the range. */
  lemma SaturationOnlyAccepts(actual: I128, expected: I128, bps: U16)
    requires WithinTolerance(actual, expected, bps).Some?
    requires WithinTolerance(actual, expected, bps).value != InBand(actual, expected, bps)
    ensures WithinTolerance(actual, expected, bps).value
    ensures Abs(expected) * bps >= I128_MAX && Abs(actual - expected) * 10_000 > I128_MAX
  {
    ToleranceIff(actual, expected, bps);
  }

  lemma MulMonotone(a: nat, b: nat, c: nat)
    requires a <= b
    ensures a * c <= b * c
  {
  }

  lemma ExactForSmallAmounts(actual: I128, expected: I128, bps: U16)
    requires Abs(expected) <= TWO_64 && Abs(actual) <= I128_MAX - TWO_64
    ensures WithinTolerance(actual, expected, bps) == Some(InBand(actual, expected, bps))
  {
    MulMonotone(Abs(expected), TWO_64, bps);
    ToleranceIff(actual, expected, bps);
  }

  /* ---------- delta sums ---------- */

  datatype TokenDelta = TokenDelta(owner: Pubkey, mint: Pubkey, delta: I128)

  datatype Trace = Trace(tokenDeltas: seq<TokenDelta>, balanceDeltas: map<Pubkey, int>)

  /** A delta counts towards one mint. */
  function Counted(d: TokenDelta, mint: Pubkey): (n: int)
  {
    if d.mint == mint then d.delta else 0
  }

  /** All token deltas of the mint, and for wrapped SOL all lamport deltas too. */
  ghost function SumMintDelta(trace: Trace, mint: Pubkey): (n: int)
  {
    var lamports := if mint == WSOL_MINT then MapSum(trace.balanceDeltas) else 0;
    SumBy(trace.tokenDeltas, (d: TokenDelta) => Counted(d, mint)) + lamports
  }

  /** A token delta counts for its own mint and for no other; lamport deltas count for wrapped SOL alone. */
  lemma DeltaCounts(trace: Trace, d: TokenDelta, mint: Pubkey)
    ensures SumMintDelta(Trace(trace.tokenDeltas + [d], trace.balanceDeltas), mint)
         == SumMintDelta(trace, mint) + if d.mint == mint then d.delta else 0
    ensures SumMintDelta(Trace([], trace.balanceDeltas), mint)
         == if mint == WSOL_MINT then MapSum(trace.balanceDeltas) else 0
  {
    SumBySnoc(trace.tokenDeltas, d, (e: TokenDelta) => Counted(e, mint));
  }

  predicate FitsI128(n: int)
  {
    -I128_MAX - 1 <= n <= I128_MAX
  }

  /** Each running sum of token deltas, in list order, and the total stay in range. */
  ghost predicate SumsInRange(trace: Trace, mint: Pubkey)
  {
    && (forall n :: 0 <= n <= |trace.tokenDeltas| ==>
          FitsI128(SumBy(trace.tokenDeltas[..n], (d: TokenDelta) => Counted(d, mint))))
    && FitsI128(SumMintDelta(trace, mint))
  }

  /** Token balances are u64, lamport deltas are i64, and lists fit in memory. */
  ghost predicate Bounded(trace: Trace)
  {
    && |trace.tokenDeltas| < TWO_32 && |trace.balanceDeltas| < TWO_32
    && (forall d :: d in trace.tokenDeltas ==> Abs(d.delta) < TWO_64)
    && (forall k :: k in trace.balanceDeltas ==> Abs(trace.balanceDeltas[k]) <= TWO_63)
  }

  lemma {:induction false} TokenSumBound(ds: seq<TokenDelta>, mint: Pubkey)
    requires forall d :: d in ds ==> Abs(d.delta) < TWO_64
    ensures Abs(SumBy(ds, (d: TokenDelta) => Counted(d, mint))) <= |ds| * TWO_64
  {
    if ds != [] {
      assert ds[0] in ds;
      TokenSumBound(ds[1..], mint);
    }
  }

  lemma {:induction false} LamportSumBound(m: map<Pubkey, int>)
    requires forall k :: k in m ==> Abs(m[k]) <= TWO_63
    ensures Abs(MapSum(m)) <= |m| * TWO_63
  {
    if m != map[] {
      var k :| k in m;
      MapSumRemove(m, k);
      assert (m - {k}).Keys == m.Keys - {k};
      assert |m - {k}| == |m| - 1;
      LamportSumBound(m - {k});
    }
  }

  /** On bounded traces the i128 sums cannot overflow. */
  lemma SumsFit(trace: Trace, mint: Pubkey)
    requires Bounded(trace)
    ensures Abs(SumMintDelta(trace, mint)) <= I128_MAX - TWO_64 && SumsInRange(trace, mint)
  {
    TokenSumBound(trace.tokenDeltas, mint);
    LamportSumBound(trace.balanceDeltas);
    forall n | 0 <= n <= |trace.tokenDeltas|
      ensures FitsI128(SumBy(trace.tokenDeltas[..n], (d: TokenDelta) => Counted(d, mint)))
    {
      TokenSumBound(trace.tokenDeltas[..n], mint);
    }
  }

  /* ---------- the verifiers ---------- */

  datatype Reason = InputOutsideTolerance | OutputDirection | OutputBelowMinimum | OutflowOutsideTolerance

  /** `ReceiptUnverified` passes, with an inconclusive flag. */
  datatype Finding = Matches | ReceiptUnverified | Mismatch(reason: Reason) | ArithmeticOverflow

  ghost function VerifySwap(trace: Trace, amountIn: I128, mintIn: Pubkey, mintOut: Pubkey, minOut: Option<I128>,
                            bps: U16): (f: Finding)
  {
    var actualIn, actualOut := SumMintDelta(trace, mintIn), SumMintDelta(trace, mintOut);
    if !SumsInRange(trace, mintIn) || !SumsInRange(trace, mintOut) || !FitsI128(0 - amountIn) then ArithmeticOverflow
    else match WithinTolerance(actualIn, 0 - amountIn, bps)
      case None => ArithmeticOverflow
      case Some(inputOk) =>
        if !inputOk then Mismatch(InputOutsideTolerance)
        else if actualOut <= 0 then Mismatch(OutputDirection)
        else if minOut.Some? && actualOut < minOut.value then Mismatch(OutputBelowMinimum)
        else Matches
  }

  ghost function VerifyOutflow(trace: Trace, amount: I128, mint: Pubkey, bps: U16, pass: Finding): (f: Finding)
  {
    var actual := SumMintDelta(trace, mint);
    if !SumsInRange(trace, mint) || !FitsI128(0 - amount) then ArithmeticOverflow
    else match WithinTolerance(actual, 0 - amount, bps)
      case None => ArithmeticOverflow
      case Some(ok) => if ok then pass else Mismatch(OutflowOutsideTolerance)
  }

  datatype IntentSpec =
    | Swap(amountIn: U128, mintIn: Pubkey, mintOut: Pubkey, minAmountOut: Option<U128>)
    | Transfer(amount: U128, mint: Pubkey, recipient: Pubkey)
    | Deposit(amount: U128, mint: Pubkey, protocol: Pubkey)

  ghost function VerifySpec(trace: Trace, spec: IntentSpec): (f: Finding)
  {
    match spec
    case Swap(amountIn, mintIn, mintOut, minOut) =>
      var minimum := match minOut case Some(n) => Some(AsI128(n)) case None => None;
      VerifySwap(trace, AsI128(amountIn), mintIn, mintOut, minimum, SWAP_TOLERANCE_BPS)
    case Transfer(amount, mint, _) => VerifyOutflow(trace, AsI128(amount), mint, TRANSFER_TOLERANCE_BPS, Matches)
    case Deposit(amount, mint, _) => VerifyOutflow(trace, AsI128(amount), mint, DEPOSIT_TOLERANCE_BPS,
      ReceiptUnverified)
  }

  /**
   * A swap of a u64 amount, on a bounded trace: the net outflow must be within one percent, something must come
   * in, and enough of it; the first of these that fails is the reason given.
   */
  lemma SwapPassesIff(trace: Trace, amountIn: U64, mintIn: Pubkey, mintOut: Pubkey, minOut: Option<U64>)
    requires Bounded(trace)
    ensures var minimum := match minOut case Some(n) => Some(n as U128) case None => None;
      var out := SumMintDelta(trace, mintOut);
      VerifySpec(trace, Swap(amountIn, mintIn, mintOut, minimum)) ==
        if Abs(SumMintDelta(trace, mintIn) + amountIn) * 10_000 > amountIn as int * 100
        then Mismatch(InputOutsideTolerance)
        else if out <= 0 then Mismatch(OutputDirection)
        else if minOut.Some? && out < minOut.value then Mismatch(OutputBelowMinimum)
        else Matches
  {
    SumsFit(trace, mintIn);
    SumsFit(trace, mintOut);
    ExactForSmallAmounts(SumMintDelta(trace, mintIn), 0 - amountIn, SWAP_TOLERANCE_BPS);
  }

  /**
   * A transfer of a u64 amount, on a bounded trace, matches exactly when the net outflow is within a tenth of a
   * percent; a deposit passes, unverified, exactly when it is within one percent. Otherwise they mismatch.
   */
  lemma OutflowPassesIff(trace: Trace, amount: U64, mint: Pubkey, other: Pubkey)
    requires Bounded(trace)
    ensures VerifySpec(trace, Transfer(amount, mint, other)) ==
      if Abs(SumMintDelta(trace, mint) + amount) * 10_000 <= amount as int * 10 then Matches
      else Mismatch(OutflowOutsideTolerance)
    ensures VerifySpec(trace, Deposit(amount, mint, other)) ==
      if Abs(SumMintDelta(trace, mint) + amount) * 10_000 <= amount as int * 100 then ReceiptUnverified
      else Mismatch(OutflowOutsideTolerance)
  {
    SumsFit(trace, mint);
    ExactForSmallAmounts(SumMintDelta(trace, mint), 0 - amount, TRANSFER_TOLERANCE_BPS);
    ExactForSmallAmounts(SumMintDelta(trace, mint), 0 - amount, DEPOSIT_TOLERANCE_BPS);
  }

  /* ---------- the traces the simulator builds ---------- */

  /** Lamports are conserved but for the fee, over distinct accounts with balances that fit an i64. */
  ghost predicate Conserves(pre: Executor.PreState, posts: seq<Executor.PostAccount>, fee: nat)
  {
    && Executor.DistinctKeys(posts)
    && (forall p :: p in posts ==> p.account.lamports < TWO_63 && Executor.LamportsBefore(pre, p.key) < TWO_63)
    && SumBy(posts, Executor.PostLamports)
       == SumBy(posts, (p: Executor.PostAccount) => Executor.LamportsBefore(pre, p.key)) - fee
  }

  /** The simulator records no token deltas at all, and no lamport deltas when the transaction fails. */
  ghost predicate Simulated(trace: Trace, pre: Executor.PreState, posts: seq<Executor.PostAccount>, fee: nat)
  {
    && trace.tokenDeltas == []
    && (trace.balanceDeltas == map[]
      || (Conserves(pre, posts, fee) && trace.balanceDeltas == Executor.DeltasOf(pre, posts)))
  }

  /**
   * A trace without token deltas shows no change of any mint but wrapped SOL; on a simulated one, wrapped SOL
   * changes by minus the fee. Nothing ever comes in.
   */
  lemma NothingComesIn(trace: Trace, mint: Pubkey)
    requires trace.tokenDeltas == []
    ensures mint != WSOL_MINT ==> SumMintDelta(trace, mint) == 0
    ensures forall pre, posts, fee: nat :: Simulated(trace, pre, posts, fee) ==>
      SumMintDelta(trace, WSOL_MINT) == if trace.balanceDeltas == map[] then 0 else 0 - fee
  {
    forall pre, posts, fee: nat | Simulated(trace, pre, posts, fee)
      ensures SumMintDelta(trace, WSOL_MINT) == if trace.balanceDeltas == map[] then 0 else 0 - fee
    {
      if trace.balanceDeltas != map[] {
        Executor.DeltasSumToTotals(pre, posts);
      }
    }
  }

  /** So no swap intent ever matches, whatever it asks for and whatever the transaction does. */
  lemma SimulatedSwapNeverMatches(trace: Trace, pre: Executor.PreState, posts: seq<Executor.PostAccount>, fee: nat,
                                  amountIn: U128, mintIn: Pubkey, mintOut: Pubkey, minOut: Option<U128>)
    requires Simulated(trace, pre, posts, fee)
    ensures VerifySpec(trace, Swap(amountIn, mintIn, mintOut, minOut)) != Matches
  {
    NothingComesIn(trace, mintOut);
  }

  /**
   * And a transfer or deposit of anything but wrapped SOL passes exactly when it is of nothing, or of so much that
   * the tolerance itself saturates.
   */
  lemma SimulatedOutflowPassesIff(trace: Trace, amount: U128, mint: Pubkey, other: Pubkey)
    requires trace.tokenDeltas == [] && mint != WSOL_MINT
    ensures var a: int := if amount < 0x8000_0000_0000_0000_0000_0000_0000_0000 then amount
                          else amount - 0x1_0000_0000_0000_0000_0000_0000_0000_0000;
      && (VerifySpec(trace, Transfer(amount, mint, other)) == Matches <==>
            (amount == 0 || (FitsI128(0 - a) && Abs(a) * TRANSFER_TOLERANCE_BPS >= I128_MAX)))
      && (VerifySpec(trace, Deposit(amount, mint, other)) == ReceiptUnverified <==>
            (amount == 0 || (FitsI128(0 - a) && Abs(a) * DEPOSIT_TOLERANCE_BPS >= I128_MAX)))
  {
    NothingComesIn(trace, mint);
    var a: int := AsI128(amount);
    assert SumsInRange(trace, mint);
    if FitsI128(0 - a) && Abs(a) <= I128_MAX {
      ToleranceIff(0, 0 - a, TRANSFER_TOLERANCE_BPS);
      ToleranceIff(0, 0 - a, DEPOSIT_TOLERANCE_BPS);
    }
  }

  /**
   * The lamport deltas of all accounts add up to minus the fee whatever was moved, and there are none when the
   * transaction fails. A native-SOL transfer or deposit therefore passes exactly when the stated amount is within
   * tolerance of the fee, or of zero.
   */
  lemma NativeOutflowPassesIff(trace: Trace, pre: Executor.PreState, posts: seq<Executor.PostAccount>, fee: nat,
                               amount: U64, other: Pubkey)
    requires Simulated(trace, pre, posts, fee) && Bounded(trace)
    ensures var charged := if trace.balanceDeltas == map[] then 0 else fee;
      && (VerifySpec(trace, Transfer(amount, WSOL_MINT, other)) == Matches <==>
            Abs(amount - charged) * 10_000 <= amount * TRANSFER_TOLERANCE_BPS)
      && (VerifySpec(trace, Deposit(amount, WSOL_MINT, other)) == ReceiptUnverified <==>
            Abs(amount - charged) * 10_000 <= amount * DEPOSIT_TOLERANCE_BPS)
  {
    NothingComesIn(trace, WSOL_MINT);
    OutflowPassesIff(trace, amount, WSOL_MINT, other);
  }

  /** An honest native transfer or deposit of at least twice the fee is always reported as a mismatch. */
  lemma HonestNativeOutflowFails(trace: Trace, pre: Executor.PreState, posts: seq<Executor.PostAccount>, fee: nat,
                                 amount: U64, other: Pubkey)
    requires Simulated(trace, pre, posts, fee) && Bounded(trace) && fee > 0 && amount >= 2 * fee
    ensures VerifySpec(trace, Transfer(amount, WSOL_MINT, other)) != Matches
    ensures VerifySpec(trace, Deposit(amount, WSOL_MINT, other)) != ReceiptUnverified
  {
    NativeOutflowPassesIff(trace, pre, posts, fee, amount, other);
  }
}
