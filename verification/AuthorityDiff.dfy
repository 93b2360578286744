/** The authority-change checker (crates/ciel-checkers/src/authority_diff.rs). */
module AuthorityDiff {
  import opened Prelude
  import opened Chain
  import opened CheckerTypes

  datatype Code =
    | SplSetAuthority | SplCloseAccount | SplInitAccount
    | BpfUpgrade | BpfSetAuthority | BpfClose
    | MultisigHandoff

  /** `computed` is the scratch severity carried in the flag's data until the report is built. */
  datatype AuthorityFlag = AuthorityFlag(
    code: Code, instructionIndex: nat, stackHeight: U8, target: Option<Pubkey>,
    knownProtocol: Option<string>, durableNonce: bool, intentAck: bool, computed: Option<nat>)

  datatype Report = Report(passed: bool, severity: Severity, flags: seq<AuthorityFlag>)

  /* ---------- severity arithmetic ---------- */

  function SeverityFromRank(n: nat): (s: Severity)
  {
    match n
    case 0 => NoSeverity
    case 1 => Low
    case 2 => Medium
    case 3 => High
    case _ => Critical
  }

  function Shift(s: Severity, delta: int): (r: Severity)
  {
    var n := s.Rank() + delta;
    SeverityFromRank(if n < 0 then 0 else if n > 4 then 4 else n)
  }

  function ShiftWithFloor(s: Severity, delta: int, floor: Severity): (r: Severity)
  {
    var shifted := Shift(s, delta);
    if shifted.Rank() < floor.Rank() then floor else shifted
  }

  function ModulateByHeight(s: Severity, height: U8): (r: Severity)
  {
    if height <= 1 then ShiftWithFloor(s, -1, Low) else if height == 2 then s else Shift(s, 1)
  }

  function BaseSeverity(code: Code): (s: Severity)
  {
    match code
    case SplSetAuthority => High
    case SplCloseAccount => Medium
    case SplInitAccount => Low
    case BpfUpgrade => Critical
    case BpfSetAuthority => High
    case BpfClose => High
    case MultisigHandoff => Medium
  }

  function Recover(f: AuthorityFlag): (s: Severity)
  {
    match f.computed
    case Some(n) => SeverityFromRank(n)
    case None => NoSeverity
  }

  /* ---------- matching one call ---------- */

  function NewFlag(code: Code, call: CpiCall, target: Option<Pubkey>): (f: AuthorityFlag)
  {
    AuthorityFlag(code, call.instructionIndex, call.stackHeight, target, None, false, false, None)
  }

  function MatchSplToken(call: CpiCall): (f: Option<AuthorityFlag>)
  {
    if call.data == [] then None
    else if call.data[0] == 6 then Some(NewFlag(SplSetAuthority, call, At(call.accounts, 0)))
    else if call.data[0] == 9 then Some(NewFlag(SplCloseAccount, call, At(call.accounts, 0)))
    else if call.data[0] == 1 || call.data[0] == 16 || call.data[0] == 18
      then Some(NewFlag(SplInitAccount, call, At(call.accounts, 0)))
    else None
  }

  function MatchBpfLoader(call: CpiCall): (f: Option<AuthorityFlag>)
  {
    if call.data == [] then None
    else if call.data[0] == 3 then Some(NewFlag(BpfUpgrade, call, At(call.accounts, 1)))
    else if call.data[0] == 4 || call.data[0] == 7 then Some(NewFlag(BpfSetAuthority, call, At(call.accounts, 0)))
    else if call.data[0] == 5 then Some(NewFlag(BpfClose, call, At(call.accounts, 0)))
    else None
  }

  /** The first account that is registry-known and not Squads itself. */
  function FirstOtherKnown(accounts: seq<Pubkey>, registry: Registry): (k: Option<Pubkey>)
    ensures k.Some? <==>
      exists i :: 0 <= i < |accounts| && accounts[i] != SQUADS_V4_PROGRAM_ID && accounts[i] in registry
  {
    if accounts == [] then None
    else if accounts[0] != SQUADS_V4_PROGRAM_ID && accounts[0] in registry then Some(accounts[0])
    else
      assert forall i :: 0 < i < |accounts| ==> accounts[i] == accounts[1..][i - 1];
      FirstOtherKnown(accounts[1..], registry)
  }

  function MatchSquadsProxy(call: CpiCall, registry: Registry): (f: Option<AuthorityFlag>)
  {
    var target := FirstOtherKnown(call.accounts, registry);
    if target.None? then None else Some(NewFlag(MultisigHandoff, call, target))
  }

  function MatchCall(call: CpiCall, registry: Registry): (f: Option<AuthorityFlag>)
  {
    if IsTokenProgram(call.programId) then MatchSplToken(call)
    else if call.programId == BPF_LOADER_UPGRADEABLE_PROGRAM_ID then MatchBpfLoader(call)
    else if call.programId == SQUADS_V4_PROGRAM_ID then MatchSquadsProxy(call, registry)
    else None
  }

  /** The name of the first registry-known account of the call. */
  function KnownProtocolIn(accounts: seq<Pubkey>, registry: Registry): (name: Option<string>)
    ensures name.Some? <==> exists i :: 0 <= i < |accounts| && accounts[i] in registry
  {
    if accounts == [] then None
    else if accounts[0] in registry then Some(registry[accounts[0]])
    else
      assert forall i :: 0 < i < |accounts| ==> accounts[i] == accounts[1..][i - 1];
      KnownProtocolIn(accounts[1..], registry)
  }

  function HasDurableNoncePrecursor(tx: Transaction): (b: bool)
  {
    && tx.instructions != []
    && tx.instructions[0].programIdIndex < |tx.accountKeys|
    && tx.accountKeys[tx.instructions[0].programIdIndex] == SYSTEM_PROGRAM_ID
    && tx.instructions[0].data != [] && tx.instructions[0].data[0] == 4
  }

  /* ---------- the three passes ---------- */

  function ScoredSeverity(code: Code, known: bool, height: U8, nonce: bool): (s: Severity)
  {
    var modulated := ModulateByHeight(if known then Critical else BaseSeverity(code), height);
    if nonce then Shift(modulated, 1) else modulated
  }

  /** First pass, one call: the flag with its scratch severity. */
  function ScoredFlag(call: CpiCall, registry: Registry, nonce: bool): (f: Option<AuthorityFlag>)
  {
    match MatchCall(call, registry)
    case None => None
    case Some(f) =>
      var known := KnownProtocolIn(call.accounts, registry);
      Some(f.(knownProtocol := known, durableNonce := nonce,
              computed := Some(ScoredSeverity(f.code, known.Some?, call.stackHeight, nonce).Rank())))
  }

  /** Second pass, one flag: an acknowledged flag drops one level, not below its floor. */
  function Acknowledge(f: AuthorityFlag, acks: Option<Code -> bool>): (r: AuthorityFlag)
  {
    if acks.Some? && acks.value(f.code) then
      var floor := if f.knownProtocol.Some? then High else Low;
      f.(computed := Some(ShiftWithFloor(Recover(f), -1, floor).Rank()), intentAck := true)
    else f
  }

  function Worst(fs: seq<AuthorityFlag>): (s: Severity)
  {
    if fs == [] then NoSeverity
    else
      var before := Worst(fs[..|fs| - 1]);
      var last := Recover(fs[|fs| - 1]);
      if last.Rank() > before.Rank() then last else before
  }

  /** What the intent says about a flag code; the keyword table is the caller's. No intent is None. */
  function FinalFlag(call: CpiCall, registry: Registry, nonce: bool,
                     acks: Option<Code -> bool>): (f: Option<AuthorityFlag>)
  {
    match ScoredFlag(call, registry, nonce)
    case None => None
    case Some(f) => Some(Acknowledge(f, acks))
  }

  function FinalFlags(graph: seq<CpiCall>, registry: Registry, nonce: bool,
                      acks: Option<Code -> bool>): (fs: seq<AuthorityFlag>)
  {
    FilterMap(graph, c => FinalFlag(c, registry, nonce, acks))
  }

  function Strip(fs: seq<AuthorityFlag>): (r: seq<AuthorityFlag>)
    ensures |r| == |fs|
    ensures forall i :: 0 <= i < |r| ==> r[i] == fs[i].(computed := None)
  {
    seq(|fs|, i requires 0 <= i < |fs| => fs[i].(computed := None))
  }

  function ReportOn(graph: seq<CpiCall>, registry: Registry, nonce: bool, acks: Option<Code -> bool>): (r: Report)
  {
    var fs := FinalFlags(graph, registry, nonce, acks);
    Report(fs == [], Worst(fs), Strip(fs))
  }

  lemma {:induction false} PassesCompose(graph: seq<CpiCall>, registry: Registry, nonce: bool,
                                         acks: Option<Code -> bool>)
    ensures var scored := FilterMap(graph, c => ScoredFlag(c, registry, nonce));
      var final := FinalFlags(graph, registry, nonce, acks);
      |scored| == |final| && forall i :: 0 <= i < |final| ==> final[i] == Acknowledge(scored[i], acks)
  {
    if graph != [] {
      PassesCompose(graph[1..], registry, nonce, acks);
    }
  }

  method ScanCalls(graph: seq<CpiCall>, registry: Registry, nonce: bool) returns (flags: seq<AuthorityFlag>)
    ensures flags == FilterMap(graph, c => ScoredFlag(c, registry, nonce))
  {
    flags := [];
    for i := 0 to |graph|
      invariant flags == FilterMap(graph[..i], c => ScoredFlag(c, registry, nonce))
    {
      assert graph[..i + 1] == graph[..i] + [graph[i]];
      FilterMapSnoc(graph[..i], graph[i], c => ScoredFlag(c, registry, nonce));
      match MatchCall(graph[i], registry) {
        case None =>
        case Some(flag) =>
          var sev := BaseSeverity(flag.code);
          var known := KnownProtocolIn(graph[i].accounts, registry);
          if known.Some? {
            sev := Critical;
          }
          sev := ModulateByHeight(sev, graph[i].stackHeight);
          if nonce {
            sev := Shift(sev, 1);
          }
          flags := flags + [flag.(knownProtocol := known, durableNonce := nonce, computed := Some(sev.Rank()))];
      }
    }
    assert graph[..|graph|] == graph;
  }

  method AcknowledgeAll(scored: seq<AuthorityFlag>, acks: Option<Code -> bool>) returns (flags: seq<AuthorityFlag>)
    ensures |flags| == |scored|
    ensures forall j :: 0 <= j < |flags| ==> flags[j] == Acknowledge(scored[j], acks)
  {
    flags := scored;
    for i := 0 to |flags|
      invariant |flags| == |scored|
      invariant forall j :: 0 <= j < |flags| ==> flags[j] == if j < i then Acknowledge(scored[j], acks) else scored[j]
    {
      flags := flags[i := Acknowledge(flags[i], acks)];
    }
  }

  method Summarize(final: seq<AuthorityFlag>) returns (report: Report)
    ensures report == Report(final == [], Worst(final), Strip(final))
  {
    var severity := NoSeverity;
    for i := 0 to |final|
      invariant severity == Worst(final[..i])
    {
      assert final[..i + 1][..i] == final[..i];
      if Recover(final[i]).Rank() > severity.Rank() {
        severity := Recover(final[i]);
      }
    }
    assert final[..|final|] == final;

    var flags := final;
    for i := 0 to |flags|
      invariant |flags| == |final|
      invariant forall j :: 0 <= j < |flags| ==> flags[j] == if j < i then final[j].(computed := None) else final[j]
    {
      flags := flags[i := flags[i].(computed := None)];
    }
    assert flags == Strip(final);
    report := Report(flags == [], severity, flags);
  }

  method Check(graph: seq<CpiCall>, registry: Registry, tx: Transaction, acks: Option<Code -> bool>)
    returns (report: Report)
    ensures report == ReportOn(graph, registry, HasDurableNoncePrecursor(tx), acks)
  {
    if graph == [] {
      return Report(true, NoSeverity, []);
    }
    var nonce := HasDurableNoncePrecursor(tx);
    var scored := ScanCalls(graph, registry, nonce);
    var flags := AcknowledgeAll(scored, acks);
    PassesCompose(graph, registry, nonce, acks);
    assert flags == FinalFlags(graph, registry, nonce, acks);
    report := Summarize(flags);
  }

  /* ---------- what a severity can be ---------- */

  lemma {:induction false} WorstBounds(fs: seq<AuthorityFlag>)
    ensures forall f :: f in fs ==> Recover(f).Rank() <= Worst(fs).Rank()
    ensures fs != [] ==> exists f :: f in fs && Recover(f) == Worst(fs)
    ensures fs == [] ==> Worst(fs) == NoSeverity
  {
    if fs != [] {
      WorstBounds(fs[..|fs| - 1]);
      assert fs == fs[..|fs| - 1] + [fs[|fs| - 1]];
      if |fs| == 1 || Recover(fs[|fs| - 1]).Rank() > Worst(fs[..|fs| - 1]).Rank() {
        assert fs[|fs| - 1] in fs;
      }
    }
  }

  /** Every flag ends between Low and Critical, and at High or above when its call names a known protocol. */
  lemma FlagBounds(call: CpiCall, registry: Registry, nonce: bool, acks: Option<Code -> bool>)
    requires FinalFlag(call, registry, nonce, acks).Some?
    ensures var s := Recover(FinalFlag(call, registry, nonce, acks).value);
      && Low.Rank() <= s.Rank()
      && ((exists i :: 0 <= i < |call.accounts| && call.accounts[i] in registry) ==> High.Rank() <= s.Rank())
  {
  }

  /** An acknowledgement lowers a flag by at most one level and never raises it. */
  lemma AcknowledgementIsMild(call: CpiCall, registry: Registry, nonce: bool, acks: Option<Code -> bool>)
    requires FinalFlag(call, registry, nonce, acks).Some?
    ensures FinalFlag(call, registry, nonce, None).Some?
    ensures var without := Recover(FinalFlag(call, registry, nonce, None).value).Rank();
      var with := Recover(FinalFlag(call, registry, nonce, acks).value).Rank();
      without - 1 <= with <= without
  {
  }

  lemma FlagsAreNotSilent(graph: seq<CpiCall>, registry: Registry, nonce: bool, acks: Option<Code -> bool>,
                          f: AuthorityFlag)
    requires f in FinalFlags(graph, registry, nonce, acks)
    ensures Recover(f) != NoSeverity
  {
    var g := c => FinalFlag(c, registry, nonce, acks);
    FilterMapMembers(graph, g, f);
    var c :| c in graph && g(c) == Some(f);
    FlagBounds(c, registry, nonce, acks);
  }

  lemma WorstIsNotSilent(fs: seq<AuthorityFlag>)
    requires forall f :: f in fs ==> Recover(f) != NoSeverity
    ensures Worst(fs) == NoSeverity <==> fs == []
  {
    WorstBounds(fs);
  }

  /** The report's severity is None exactly when there are no flags. */
  lemma SilentIffNoFlags(graph: seq<CpiCall>, registry: Registry, nonce: bool, acks: Option<Code -> bool>)
    ensures var r := ReportOn(graph, registry, nonce, acks);
      (r.severity == NoSeverity <==> r.flags == []) && (r.passed <==> r.flags == [])
  {
    var fs := FinalFlags(graph, registry, nonce, acks);
    forall f | f in fs ensures Recover(f) != NoSeverity {
      FlagsAreNotSilent(graph, registry, nonce, acks, f);
    }
    WorstIsNotSilent(fs);
  }

  /* ---------- which calls are flagged, as what, and how severely ---------- */

  predicate StartsWith(data: Bytes, bytes: set<int>)
  {
    |data| > 0 && data[0] as int in bytes
  }

  /** A call is flagged exactly when it is one of the authority-changing calls listed here. */
  lemma FlaggedIff(call: CpiCall, registry: Registry, nonce: bool, acks: Option<Code -> bool>)
    ensures FinalFlag(call, registry, nonce, acks).Some? <==>
      || ((call.programId == SPL_TOKEN_PROGRAM_ID || call.programId == SPL_TOKEN_2022_PROGRAM_ID)
          && StartsWith(call.data, {1, 6, 9, 16, 18}))
      || (call.programId == BPF_LOADER_UPGRADEABLE_PROGRAM_ID && StartsWith(call.data, {3, 4, 5, 7}))
      || (call.programId == SQUADS_V4_PROGRAM_ID
          && exists i :: (0 <= i < |call.accounts|
                          && call.accounts[i] != SQUADS_V4_PROGRAM_ID && call.accounts[i] in registry))
  {
  }

  /** How severe a flag of this code starts out, from 1 for Low to 4 for Critical. */
  ghost predicate StartsAt(call: CpiCall, code: Code, rank: int)
  {
    var token := call.programId == SPL_TOKEN_PROGRAM_ID || call.programId == SPL_TOKEN_2022_PROGRAM_ID;
    var loader := call.programId == BPF_LOADER_UPGRADEABLE_PROGRAM_ID;
    || (token && StartsWith(call.data, {6}) && code == SplSetAuthority && rank == 3)
    || (token && StartsWith(call.data, {9}) && code == SplCloseAccount && rank == 2)
    || (token && StartsWith(call.data, {1, 16, 18}) && code == SplInitAccount && rank == 1)
    || (loader && StartsWith(call.data, {3}) && code == BpfUpgrade && rank == 4)
    || (loader && StartsWith(call.data, {4, 7}) && code == BpfSetAuthority && rank == 3)
    || (loader && StartsWith(call.data, {5}) && code == BpfClose && rank == 3)
    || (call.programId == SQUADS_V4_PROGRAM_ID && code == MultisigHandoff && rank == 2)
  }

  function AtLeast(n: int, low: int): (m: int)
  {
    if n < low then low else n
  }

  function AtMost(n: int, high: int): (m: int)
  {
    if n > high then high else n
  }

  lemma StartMeans(call: CpiCall, registry: Registry)
    requires MatchCall(call, registry).Some?
    ensures var code := MatchCall(call, registry).value.code; StartsAt(call, code, BaseSeverity(code).Rank())
  {
  }

  /** The height and nonce adjustments, in numbers. */
  function Adjusted(first: int, height: int, nonce: bool): (n: int)
  {
    var placed := if height <= 1 then AtLeast(first - 1, 1) else if height == 2 then first else AtMost(first + 1, 4);
    if nonce then AtMost(placed + 1, 4) else placed
  }

  lemma ScoredByNumbers(code: Code, known: bool, height: U8, nonce: bool)
    ensures ScoredSeverity(code, known, height, nonce).Rank()
         == Adjusted(if known then 4 else BaseSeverity(code).Rank(), height, nonce)
  {
  }

  lemma AcknowledgedByNumbers(f: AuthorityFlag, acks: Option<Code -> bool>)
    requires !f.intentAck
    ensures var g := Acknowledge(f, acks);
      && g.code == f.code && g.intentAck == (acks.Some? && acks.value(f.code))
      && Recover(g).Rank() == if g.intentAck
                              then AtLeast(Recover(f).Rank() - 1, if f.knownProtocol.Some? then 3 else 1)
                              else Recover(f).Rank()
  {
  }

  lemma FinalByNumbers(call: CpiCall, registry: Registry, nonce: bool, acks: Option<Code -> bool>)
    requires FinalFlag(call, registry, nonce, acks).Some?
    ensures MatchCall(call, registry).Some?
    ensures var f, m := FinalFlag(call, registry, nonce, acks).value, MatchCall(call, registry).value;
      var known := KnownProtocolIn(call.accounts, registry).Some?;
      var before := Adjusted(if known then 4 else BaseSeverity(m.code).Rank(), call.stackHeight, nonce);
      && f.code == m.code && f.intentAck == (acks.Some? && acks.value(f.code))
      && Recover(f).Rank() == if f.intentAck then AtLeast(before - 1, if known then 3 else 1) else before
  {
    var m, scored := MatchCall(call, registry).value, ScoredFlag(call, registry, nonce).value;
    ScoredByNumbers(m.code, scored.knownProtocol.Some?, call.stackHeight, nonce);
    AcknowledgedByNumbers(scored, acks);
  }

  /**
   * The severity, step by step in numbers: what the call starts at, or 4 if it names a known program; one less but
   * not below 1 at the top level, one more but not above 4 below the second level; one more after a nonce; and one
   * less, but not below 1, or 3 with a known program, when acknowledged.
   */
  lemma SeverityByNumbers(call: CpiCall, registry: Registry, nonce: bool, acks: Option<Code -> bool>)
    returns (start: int)
    requires FinalFlag(call, registry, nonce, acks).Some?
    ensures var f := FinalFlag(call, registry, nonce, acks).value;
      var known := exists i :: 0 <= i < |call.accounts| && call.accounts[i] in registry;
      var before := Adjusted(if known then 4 else start, call.stackHeight, nonce);
      && StartsAt(call, f.code, start)
      && f.intentAck == (acks.Some? && acks.value(f.code))
      && Recover(f).Rank() == if f.intentAck then AtLeast(before - 1, if known then 3 else 1) else before
  {
    FinalByNumbers(call, registry, nonce, acks);
    StartMeans(call, registry);
    start := BaseSeverity(MatchCall(call, registry).value.code).Rank();
  }

  /** What else the flag says: where the call is, whose authority it touches, and what stood around it. */
  lemma FlagContents(call: CpiCall, registry: Registry, nonce: bool, acks: Option<Code -> bool>)
    requires FinalFlag(call, registry, nonce, acks).Some?
    ensures var f := FinalFlag(call, registry, nonce, acks).value;
      && f.instructionIndex == call.instructionIndex && f.stackHeight == call.stackHeight && f.durableNonce == nonce
      && (f.code == BpfUpgrade ==> f.target == if |call.accounts| > 1 then Some(call.accounts[1]) else None)
      && (f.code != BpfUpgrade && f.code != MultisigHandoff ==>
            f.target == if |call.accounts| > 0 then Some(call.accounts[0]) else None)
      && (f.knownProtocol.Some? <==> exists i :: 0 <= i < |call.accounts| && call.accounts[i] in registry)
  {
  }

  lemma {:induction false} FirstOtherKnownIs(accounts: seq<Pubkey>, registry: Registry, i: nat)
    requires i < |accounts| && accounts[i] != SQUADS_V4_PROGRAM_ID && accounts[i] in registry
    requires forall j :: 0 <= j < i ==> accounts[j] == SQUADS_V4_PROGRAM_ID || accounts[j] !in registry
    ensures FirstOtherKnown(accounts, registry) == Some(accounts[i])
  {
    if i > 0 {
      FirstOtherKnownIs(accounts[1..], registry, i - 1);
    }
  }

  lemma {:induction false} KnownProtocolIs(accounts: seq<Pubkey>, registry: Registry, i: nat)
    requires i < |accounts| && accounts[i] in registry && forall j :: 0 <= j < i ==> accounts[j] !in registry
    ensures KnownProtocolIn(accounts, registry) == Some(registry[accounts[i]])
  {
    if i > 0 {
      KnownProtocolIs(accounts[1..], registry, i - 1);
    }
  }

  /** A flag names the first known program among the accounts, and a handoff targets the first other than Squads. */
  lemma FlagNames(call: CpiCall, registry: Registry, nonce: bool, acks: Option<Code -> bool>, i: nat)
    requires FinalFlag(call, registry, nonce, acks).Some? && i < |call.accounts| && call.accounts[i] in registry
    ensures var f := FinalFlag(call, registry, nonce, acks).value;
      && ((forall j :: 0 <= j < i ==> call.accounts[j] !in registry) ==>
            f.knownProtocol == Some(registry[call.accounts[i]]))
      && (f.code == MultisigHandoff && call.accounts[i] != SQUADS_V4_PROGRAM_ID
          && (forall j :: 0 <= j < i ==> call.accounts[j] == SQUADS_V4_PROGRAM_ID || call.accounts[j] !in registry)
          ==> f.target == Some(call.accounts[i]))
  {
    if forall j :: 0 <= j < i ==> call.accounts[j] !in registry {
      KnownProtocolIs(call.accounts, registry, i);
    }
    if call.accounts[i] != SQUADS_V4_PROGRAM_ID
       && forall j :: 0 <= j < i ==> call.accounts[j] == SQUADS_V4_PROGRAM_ID || call.accounts[j] !in registry {
      FirstOtherKnownIs(call.accounts, registry, i);
    }
  }

  /** The report holds the flag of every flagged call, without its scratch severity, and nothing else. */
  lemma ReportedIff(graph: seq<CpiCall>, registry: Registry, nonce: bool, acks: Option<Code -> bool>, f: AuthorityFlag)
    ensures f in ReportOn(graph, registry, nonce, acks).flags <==>
      exists c :: c in graph && FinalFlag(c, registry, nonce, acks).Some?
                  && f == FinalFlag(c, registry, nonce, acks).value.(computed := None)
  {
    var g := c => FinalFlag(c, registry, nonce, acks);
    var fs := FilterMap(graph, g);
    if f in Strip(fs) {
      var i :| 0 <= i < |fs| && Strip(fs)[i] == f;
      FilterMapMembers(graph, g, fs[i]);
      var c :| c in graph && g(c) == Some(fs[i]);
    }
    if c :| c in graph && g(c).Some? && f == g(c).value.(computed := None) {
      FilterMapMembers(graph, g, g(c).value);
      var i :| 0 <= i < |fs| && fs[i] == g(c).value;
      assert Strip(fs)[i] == f;
    }
  }

  /* ---------- monotonicity ---------- */

  predicate SameCallDeeper(a: CpiCall, b: CpiCall)
  {
    b == a.(stackHeight := b.stackHeight) && a.stackHeight <= b.stackHeight
  }

  lemma DeeperScoresNoLower(code: Code, known: bool, h1: U8, h2: U8, nonce: bool)
    requires h1 <= h2
    ensures ScoredSeverity(code, known, h1, nonce).Rank() <= ScoredSeverity(code, known, h2, nonce).Rank()
  {
  }

  lemma AcknowledgeMonotone(f: AuthorityFlag, g: AuthorityFlag, acks: Option<Code -> bool>)
    requires f.code == g.code && f.knownProtocol.Some? == g.knownProtocol.Some?
    requires Recover(f).Rank() <= Recover(g).Rank()
    ensures Recover(Acknowledge(f, acks)).Rank() <= Recover(Acknowledge(g, acks)).Rank()
  {
  }

  lemma SameMatch(a: CpiCall, b: CpiCall, registry: Registry)
    requires SameCallDeeper(a, b)
    ensures MatchCall(a, registry).Some? <==> MatchCall(b, registry).Some?
    ensures MatchCall(a, registry).Some? ==> MatchCall(a, registry).value.code == MatchCall(b, registry).value.code
  {
  }

  lemma DeeperIsNoMilder(a: CpiCall, b: CpiCall, registry: Registry, nonce: bool, acks: Option<Code -> bool>)
    requires SameCallDeeper(a, b)
    ensures FinalFlag(a, registry, nonce, acks).Some? <==> FinalFlag(b, registry, nonce, acks).Some?
    ensures FinalFlag(a, registry, nonce, acks).Some? ==>
      Recover(FinalFlag(a, registry, nonce, acks).value).Rank()
      <= Recover(FinalFlag(b, registry, nonce, acks).value).Rank()
  {
    SameMatch(a, b, registry);
    if MatchCall(a, registry).Some? {
      var known := KnownProtocolIn(a.accounts, registry).Some?;
      DeeperScoresNoLower(MatchCall(a, registry).value.code, known, a.stackHeight, b.stackHeight, nonce);
      AcknowledgeMonotone(ScoredFlag(a, registry, nonce).value, ScoredFlag(b, registry, nonce).value, acks);
    }
  }

  /** Each flag of `a` is matched by one at least as severe in `b`. */
  lemma WorstMonotone(a: seq<AuthorityFlag>, b: seq<AuthorityFlag>)
    requires forall f :: f in a ==> exists g :: g in b && Recover(f).Rank() <= Recover(g).Rank()
    ensures Worst(a).Rank() <= Worst(b).Rank()
  {
    WorstBounds(a);
    WorstBounds(b);
  }

  /** Appending calls, or moving calls deeper, never lowers the severity. */
  lemma MoreOrDeeperIsNoMilder(a: seq<CpiCall>, b: seq<CpiCall>, registry: Registry, nonce: bool,
                               acks: Option<Code -> bool>)
    requires |a| <= |b| && forall i :: 0 <= i < |a| ==> SameCallDeeper(a[i], b[i])
    ensures ReportOn(a, registry, nonce, acks).severity.Rank() <= ReportOn(b, registry, nonce, acks).severity.Rank()
  {
    var h := c => FinalFlag(c, registry, nonce, acks);
    var fa, fb := FinalFlags(a, registry, nonce, acks), FinalFlags(b, registry, nonce, acks);
    forall f | f in fa ensures exists g :: g in fb && Recover(f).Rank() <= Recover(g).Rank() {
      FilterMapMembers(a, h, f);
      var c :| c in a && h(c) == Some(f);
      var i :| 0 <= i < |a| && a[i] == c;
      DeeperIsNoMilder(a[i], b[i], registry, nonce, acks);
      var g := h(b[i]).value;
      FilterMapMembers(b, h, g);
      assert b[i] in b && g in fb;
    }
    WorstMonotone(fa, fb);
  }

  /* ---------- the durable-nonce multisig handoff ---------- */

  /** A top-level Squads call carrying another registry-known program. */
  predicate CarriesKnownProgram(call: CpiCall, registry: Registry)
  {
    && call.programId == SQUADS_V4_PROGRAM_ID
    && exists i :: 0 <= i < |call.accounts| && call.accounts[i] != SQUADS_V4_PROGRAM_ID && call.accounts[i] in registry
  }

  lemma HandoffFlag(call: CpiCall, registry: Registry, acks: Option<Code -> bool>)
    requires CarriesKnownProgram(call, registry)
    ensures FinalFlag(call, registry, true, acks).Some?
    ensures Recover(FinalFlag(call, registry, true, acks).value)
         == if acks.Some? && acks.value(MultisigHandoff) then High else Critical
  {
  }

  /** The report is at least as severe as the flag of any of its calls. */
  lemma CallBoundsReport(graph: seq<CpiCall>, call: CpiCall, registry: Registry, nonce: bool,
                         acks: Option<Code -> bool>)
    requires call in graph && FinalFlag(call, registry, nonce, acks).Some?
    ensures Recover(FinalFlag(call, registry, nonce, acks).value).Rank()
         <= ReportOn(graph, registry, nonce, acks).severity.Rank()
  {
    var g := c => FinalFlag(c, registry, nonce, acks);
    FilterMapMembers(graph, g, g(call).value);
    WorstBounds(FilterMap(graph, g));
  }

  /**
   * After an AdvanceNonce, one top-level handoff in the graph makes the check Critical whatever else is in
   * the graph, unless the intent acknowledges multisig work; then it is High at least.
   */
  lemma HandoffIsCritical(graph: seq<CpiCall>, call: CpiCall, registry: Registry, acks: Option<Code -> bool>)
    requires call in graph && CarriesKnownProgram(call, registry)
    ensures ReportOn(graph, registry, true, acks).severity.Rank() >= High.Rank()
    ensures !(acks.Some? && acks.value(MultisigHandoff)) ==> ReportOn(graph, registry, true, acks).severity == Critical
  {
    HandoffFlag(call, registry, acks);
    CallBoundsReport(graph, call, registry, true, acks);
  }
}
