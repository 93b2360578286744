/** The unlimited-approval checker (crates/ciel-checkers/src/approval_abuse.rs). */
module ApprovalAbuse {
  import opened Prelude
  import opened Chain
  import opened CheckerTypes
  import Executor

  const DISC_APPROVE := 4
  const DISC_REVOKE := 5
  const DISC_APPROVE_CHECKED := 13
  const UNLIMITED := TWO_64 - 1

  /* ---------- one call ---------- */

  function ParseAmount(data: Bytes): (n: Option<nat>)
  {
    if |data| >= 9 then Some(LeNat(data[1..9])) else None
  }

  datatype Approve = Approve(source: Pubkey, delegate: Pubkey, amount: nat, owner: Option<Pubkey>, mint: Option<Pubkey>)

  function ParseApprove(call: CpiCall): (a: Option<Approve>)
  {
    if !IsTokenProgram(call.programId) || call.data == [] || ParseAmount(call.data).None? then None
    else if call.data[0] == DISC_APPROVE && |call.accounts| >= 2 then
      Some(Approve(call.accounts[0], call.accounts[1], ParseAmount(call.data).value, At(call.accounts, 2), None))
    else if call.data[0] == DISC_APPROVE_CHECKED && |call.accounts| >= 3 then
      Some(Approve(call.accounts[0], call.accounts[2], ParseAmount(call.data).value, At(call.accounts, 3),
        Some(call.accounts[1])))
    else None
  }

  predicate Abusive(delegate: Pubkey, amount: nat, registry: Registry)
  {
    amount == UNLIMITED && delegate !in registry
  }

  /** `inspect_approve`: an unlimited approval to a delegate outside the registry. */
  function InspectApprove(call: CpiCall, registry: Registry): (a: Option<Approve>)
  {
    var a := ParseApprove(call);
    if a.Some? && Abusive(a.value.delegate, a.value.amount, registry) then a else None
  }

  predicate Revokes(call: CpiCall, source: Pubkey)
  {
    && IsTokenProgram(call.programId)
    && call.data != [] && call.data[0] == DISC_REVOKE
    && call.accounts != [] && call.accounts[0] == source
  }

  predicate RevokedAfter(graph: seq<CpiCall>, i: nat, source: Pubkey)
  {
    exists j :: i < j < |graph| && Revokes(graph[j], source)
  }

  /* ---------- the checker ---------- */

  datatype ApprovalFlag = ApprovalFlag(position: nat, approve: Approve)

  function FlagAt(graph: seq<CpiCall>, registry: Registry, i: nat): (f: Option<ApprovalFlag>)
    requires i < |graph|
  {
    var a := InspectApprove(graph[i], registry);
    if a.Some? && !RevokedAfter(graph, i, a.value.source) then Some(ApprovalFlag(i, a.value)) else None
  }

  function FlagsFrom(graph: seq<CpiCall>, registry: Registry, i: nat): (fs: seq<ApprovalFlag>)
    requires i <= |graph|
    decreases |graph| - i
  {
    if i == |graph| then [] else Single(FlagAt(graph, registry, i)) + FlagsFrom(graph, registry, i + 1)
  }

  function SeverityOn(graph: seq<CpiCall>, registry: Registry): (s: Severity)
  {
    if FlagsFrom(graph, registry, 0) == [] then NoSeverity else High
  }

  /** The checker's loop: for each candidate, scan everything after it for a revoke. */
  method Check(graph: seq<CpiCall>, registry: Registry)
    returns (passed: bool, severity: Severity, flags: seq<ApprovalFlag>)
    ensures flags == FlagsFrom(graph, registry, 0)
    ensures passed <==> flags == []
    ensures severity == SeverityOn(graph, registry) == if passed then NoSeverity else High
  {
    flags := [];
    for i := 0 to |graph|
      invariant flags + FlagsFrom(graph, registry, i) == FlagsFrom(graph, registry, 0)
    {
      ghost var next := Single(FlagAt(graph, registry, i));
      AppendAssociates(flags, next, FlagsFrom(graph, registry, i + 1));
      var candidate := InspectApprove(graph[i], registry);
      if candidate.None? {
        assert flags + next == flags;
        continue;
      }
      if RevokedAfter(graph, i, candidate.value.source) {
        assert flags + next == flags;
        continue;
      }
      flags := flags + [ApprovalFlag(i, candidate.value)];
    }
    assert flags + [] == flags;
    passed := flags == [];
    severity := if passed then NoSeverity else High;
  }

  ghost predicate RevokedFrom(graph: seq<CpiCall>, i: nat, source: Pubkey)
  {
    exists j :: i <= j < |graph| && Revokes(graph[j], source)
  }

  /**
   * The linear alternative: one backward pass that remembers which sources have been revoked. It flags the same
   * calls.
   */
  method BackwardPass(graph: seq<CpiCall>, registry: Registry) returns (flags: seq<ApprovalFlag>)
    ensures flags == FlagsFrom(graph, registry, 0)
  {
    flags := [];
    var revoked: set<Pubkey> := {};
    var i := |graph|;
    while i > 0
      invariant 0 <= i <= |graph|
      invariant forall s: Pubkey :: s in revoked <==> RevokedFrom(graph, i, s)
      invariant flags == FlagsFrom(graph, registry, i)
    {
      i := i - 1;
      var call := graph[i];
      var candidate := InspectApprove(call, registry);
      if candidate.Some? && candidate.value.source !in revoked {
        assert !RevokedFrom(graph, i + 1, candidate.value.source);
        flags := [ApprovalFlag(i, candidate.value)] + flags;
      } else if candidate.Some? {
        assert RevokedFrom(graph, i + 1, candidate.value.source);
        assert RevokedAfter(graph, i, candidate.value.source);
      }
      ghost var before := revoked;
      if IsTokenProgram(call.programId) && call.data != [] && call.data[0] == DISC_REVOKE && call.accounts != [] {
        revoked := revoked + {call.accounts[0]};
      }
      forall s: Pubkey ensures s in revoked <==> RevokedFrom(graph, i, s) {
        assert s in before <==> RevokedFrom(graph, i + 1, s);
        if RevokedFrom(graph, i, s) {
          var j :| i <= j < |graph| && Revokes(graph[j], s);
          if j > i {
            assert RevokedFrom(graph, i + 1, s);
          }
        }
        if s in revoked && s !in before {
          assert Revokes(graph[i], s);
        }
      }
    }
  }

  lemma {:induction false} FlagsMembers(graph: seq<CpiCall>, registry: Registry, i: nat, j: nat, f: ApprovalFlag)
    requires i <= j < |graph| && FlagAt(graph, registry, j) == Some(f)
    ensures f in FlagsFrom(graph, registry, i)
    decreases j - i
  {
    if i < j {
      FlagsMembers(graph, registry, i + 1, j, f);
    } else {
      assert Single(Some(f))[0] == f;
    }
  }

  lemma {:induction false} NoFlagsNoMembers(graph: seq<CpiCall>, registry: Registry, i: nat)
    requires i <= |graph|
    requires forall j :: i <= j < |graph| ==> FlagAt(graph, registry, j).None?
    ensures FlagsFrom(graph, registry, i) == []
    decreases |graph| - i
  {
    if i < |graph| {
      NoFlagsNoMembers(graph, registry, i + 1);
    }
  }

  /* ---------- what is flagged, byte by byte ---------- */

  /** A token program's Approve, first byte 4, or ApproveChecked, first byte 13, of the largest u64. */
  ghost predicate ApprovesWithoutLimit(call: CpiCall, source: Pubkey, delegate: Pubkey)
  {
    && (call.programId == SPL_TOKEN_PROGRAM_ID || call.programId == SPL_TOKEN_2022_PROGRAM_ID)
    && |call.data| >= 9 && (forall i :: 1 <= i < 9 ==> call.data[i] == 255)
    && ((call.data[0] == 4 && |call.accounts| >= 2 && call.accounts[0] == source && call.accounts[1] == delegate)
        || (call.data[0] == 13 && |call.accounts| >= 3 && call.accounts[0] == source && call.accounts[2] == delegate))
  }

  /** A token program's Revoke, first byte 5. */
  ghost predicate RevokesSource(call: CpiCall, source: Pubkey)
  {
    && (call.programId == SPL_TOKEN_PROGRAM_ID || call.programId == SPL_TOKEN_2022_PROGRAM_ID)
    && |call.data| >= 1 && call.data[0] == 5 && |call.accounts| >= 1 && call.accounts[0] == source
  }

  lemma InspectedIff(call: CpiCall, registry: Registry, source: Pubkey, delegate: Pubkey)
    ensures (exists a :: InspectApprove(call, registry) == Some(a) && a.source == source && a.delegate == delegate) <==>
      ApprovesWithoutLimit(call, source, delegate) && delegate !in registry
  {
    if |call.data| >= 9 {
      LargestIffAllOnes(call.data[1..9]);
      assert forall i :: 1 <= i < 9 ==> call.data[1..9][i - 1] == call.data[i];
      assert forall i :: 0 <= i < 8 ==> call.data[1..9][i] == call.data[i + 1];
    }
    var a := InspectApprove(call, registry);
    if ApprovesWithoutLimit(call, source, delegate) && delegate !in registry {
      assert a.Some?;
    }
  }

  lemma {:induction false} FlagHasPlace(graph: seq<CpiCall>, registry: Registry, i: nat, f: ApprovalFlag)
    requires i <= |graph| && f in FlagsFrom(graph, registry, i)
    ensures i <= f.position < |graph| && FlagAt(graph, registry, f.position) == Some(f)
    decreases |graph| - i
  {
    if f !in Single(FlagAt(graph, registry, i)) {
      FlagHasPlace(graph, registry, i + 1, f);
    }
  }

  /**
   * A flag stands at a position exactly when the call there approves an unregistered delegate without limit and no
   * later call of the list revokes its source.
   */
  lemma FlaggedIff(graph: seq<CpiCall>, registry: Registry, i: nat, source: Pubkey, delegate: Pubkey)
    requires i < |graph|
    ensures (exists f :: f in FlagsFrom(graph, registry, 0) && f.position == i
                         && f.approve.source == source && f.approve.delegate == delegate) <==>
      && ApprovesWithoutLimit(graph[i], source, delegate) && delegate !in registry
      && !exists j :: i < j < |graph| && RevokesSource(graph[j], source)
  {
    InspectedIff(graph[i], registry, source, delegate);
    assert RevokedAfter(graph, i, source) <==> exists j :: i < j < |graph| && RevokesSource(graph[j], source) by {
      assert forall j :: i < j < |graph| ==> (Revokes(graph[j], source) <==> RevokesSource(graph[j], source));
    }
    if f :| f in FlagsFrom(graph, registry, 0) && f.position == i
            && f.approve.source == source && f.approve.delegate == delegate {
      FlagHasPlace(graph, registry, 0, f);
    }
    if ApprovesWithoutLimit(graph[i], source, delegate) && delegate !in registry && !RevokedAfter(graph, i, source) {
      FlagsMembers(graph, registry, 0, i, FlagAt(graph, registry, i).value);
    }
  }

  /* ---------- what passing means for delegations ---------- */

  datatype Delegation = Delegation(delegate: Pubkey, amount: nat)

  /** A token account has one delegate: an approval overwrites it, a revoke clears it. */
  function Effect(m: map<Pubkey, Delegation>, call: CpiCall): (r: map<Pubkey, Delegation>)
  {
    var a := ParseApprove(call);
    if a.Some? then m[a.value.source := Delegation(a.value.delegate, a.value.amount)]
    else if call.accounts != [] && Revokes(call, call.accounts[0]) then m - {call.accounts[0]}
    else m
  }

  function Delegations(graph: seq<CpiCall>): (m: map<Pubkey, Delegation>)
  {
    if graph == [] then map[] else Effect(Delegations(graph[..|graph| - 1]), graph[|graph| - 1])
  }

  predicate Touches(call: CpiCall, s: Pubkey)
  {
    (ParseApprove(call).Some? && ParseApprove(call).value.source == s) || Revokes(call, s)
  }

  function Granted(a: Approve): (d: Delegation)
  {
    Delegation(a.delegate, a.amount)
  }

  /** Call `i` approves `s` and nothing after it touches `s`. */
  ghost predicate LastTouch(graph: seq<CpiCall>, i: nat, s: Pubkey)
  {
    && i < |graph| && ParseApprove(graph[i]).Some? && ParseApprove(graph[i]).value.source == s
    && forall j :: i < j < |graph| ==> !Touches(graph[j], s)
  }

  lemma {:induction false} DelegationProvenance(graph: seq<CpiCall>, s: Pubkey) returns (i: nat)
    requires s in Delegations(graph)
    ensures LastTouch(graph, i, s) && Delegations(graph)[s] == Granted(ParseApprove(graph[i]).value)
  {
    var n := |graph| - 1;
    if Touches(graph[n], s) {
      i := n;
    } else {
      i := DelegationProvenance(graph[..n], s);
      assert forall j :: i < j < n ==> graph[..n][j] == graph[j];
    }
  }

  lemma {:induction false} LastTouchDecides(graph: seq<CpiCall>, i: nat, s: Pubkey)
    requires LastTouch(graph, i, s)
    ensures s in Delegations(graph) && Delegations(graph)[s] == Granted(ParseApprove(graph[i]).value)
  {
    var n := |graph| - 1;
    if i < n {
      LastTouchDecides(graph[..n], i, s);
      assert !Touches(graph[n], s);
    }
  }

  /** Running the calls in this order leaves some token account with an unlimited delegate outside the registry. */
  ghost predicate LeavesAbuse(graph: seq<CpiCall>, registry: Registry)
  {
    exists s :: s in Delegations(graph)
      && Abusive(Delegations(graph)[s].delegate, Delegations(graph)[s].amount, registry)
  }

  lemma UnflaggedIsRevoked(graph: seq<CpiCall>, registry: Registry, i: nat)
    requires FlagsFrom(graph, registry, 0) == [] && i < |graph| && InspectApprove(graph[i], registry).Some?
    ensures RevokedAfter(graph, i, InspectApprove(graph[i], registry).value.source)
  {
    if FlagAt(graph, registry, i).Some? {
      FlagsMembers(graph, registry, 0, i, FlagAt(graph, registry, i).value);
    }
  }

  /** If the checker passes, the call list folded in list order leaves no abuse. */
  lemma PassingLeavesNoAbuse(graph: seq<CpiCall>, registry: Registry)
    requires FlagsFrom(graph, registry, 0) == []
    ensures !LeavesAbuse(graph, registry)
  {
    forall s | s in Delegations(graph)
      ensures !Abusive(Delegations(graph)[s].delegate, Delegations(graph)[s].amount, registry)
    {
      var i := DelegationProvenance(graph, s);
      if InspectApprove(graph[i], registry).Some? {
        UnflaggedIsRevoked(graph, registry, i);
      }
    }
  }

  /* ---------- what passing means in execution order ---------- */

  type Inner = seq<seq<Executor.InnerInstruction>>

  /** Instruction `k` is an abusive approval, and nothing that runs after it touches its source. */
  ghost predicate Stands(tx: Transaction, inner: Inner, registry: Registry, k: nat)
  {
    && k < |tx.instructions|
    && var a := InspectApprove(Executor.TopCall(tx, k), registry);
       a.Some? && forall c :: c in Executor.RunAfter(Executor.Blocks(tx, inner), k) ==> !Touches(c, a.value.source)
  }

  lemma StandingApprovalIsAbuse(tx: Transaction, inner: Inner, registry: Registry, k: nat)
    requires Stands(tx, inner, registry, k)
    ensures LeavesAbuse(Executor.Executed(tx, inner), registry)
  {
    var run := Executor.Executed(tx, inner);
    var s := InspectApprove(Executor.TopCall(tx, k), registry).value.source;
    var p := Executor.Executes(Executor.Blocks(tx, inner), k);
    forall j | p < j < |run| ensures !Touches(run[j], s) {
      assert run[j] == run[p + 1..][j - p - 1];
    }
    LastTouchDecides(run, p, s);
  }

  lemma RevokedInSuffix(before: seq<CpiCall>, listed: seq<CpiCall>, q: nat, source: Pubkey)
    requires q < |listed| && RevokedAfter(before + listed, |before| + q, source)
    ensures exists c :: c in listed[q + 1..] && Revokes(c, source)
  {
    var j :| |before| + q < j < |before + listed| && Revokes((before + listed)[j], source);
    assert (before + listed)[j] == listed[q + 1..][j - |before| - q - 1];
  }

  /** A passing list that shows an abusive approval also shows, later, a revoke of its source. */
  lemma {:induction false} ListedRevoke(listed: seq<CpiCall>, before: seq<CpiCall>, registry: Registry, q: nat)
    requires FlagsFrom(before + listed, registry, 0) == [] && q < |listed| && InspectApprove(listed[q], registry).Some?
    ensures exists c :: c in listed[q + 1..] && Revokes(c, InspectApprove(listed[q], registry).value.source)
  {
    assert (before + listed)[|before| + q] == listed[q];
    UnflaggedIsRevoked(before + listed, registry, |before| + q);
    RevokedInSuffix(before, listed, q, InspectApprove(listed[q], registry).value.source);
  }

  lemma AbuseIsStandingApproval(tx: Transaction, inner: Inner, registry: Registry) returns (k: nat)
    requires FlagsFrom(Executor.GraphOf(tx, inner), registry, 0) == []
    requires LeavesAbuse(Executor.Executed(tx, inner), registry)
    ensures Stands(tx, inner, registry, k)
  {
    var run, listed := Executor.Executed(tx, inner), Executor.CallsOf(Executor.Blocks(tx, inner));
    var s :| s in Delegations(run) && Abusive(Delegations(run)[s].delegate, Delegations(run)[s].amount, registry);
    var p := DelegationProvenance(run, s);
    assert forall c :: c in run[p + 1..] ==> !Touches(c, s);
    var top, at := Executor.Locate(Executor.Blocks(tx, inner), p);
    if !top {
      Executor.GraphIsTopThenInner(tx, inner);
      ListedRevoke(listed, Executor.TopLevelCalls(tx), registry, at);
    }
    k := at;
  }

  /**
   * The call list is not in execution order, so a pass does not by itself protect. When the checker passes, the
   * executed transaction leaves an abusive delegate if and only if some signed instruction is an abusive
   * approval whose source nothing that runs after it touches.
   */
  lemma PassLeavesAbuseIff(tx: Transaction, inner: Inner, registry: Registry)
    requires FlagsFrom(Executor.GraphOf(tx, inner), registry, 0) == []
    ensures LeavesAbuse(Executor.Executed(tx, inner), registry) <==> exists k :: Stands(tx, inner, registry, k)
  {
    if k :| Stands(tx, inner, registry, k) {
      StandingApprovalIsAbuse(tx, inner, registry, k);
    }
    if LeavesAbuse(Executor.Executed(tx, inner), registry) {
      var k := AbuseIsStandingApproval(tx, inner, registry);
    }
  }

  /** Instruction `j` makes an inner revoke of the source that the later instruction `k` abusively approves. */
  ghost predicate RevokedTooEarly(tx: Transaction, inner: Inner, registry: Registry, j: nat, k: nat)
  {
    && j < k < |tx.instructions|
    && var a := InspectApprove(Executor.TopCall(tx, k), registry);
       a.Some? && exists c :: c in Executor.Blocks(tx, inner)[j].calls && Revokes(c, a.value.source)
  }

  /** An inner revoke runs after instruction `k`, unless it is a call of an earlier instruction. */
  lemma {:induction false} InnerRevokeRunsAfter(tx: Transaction, inner: Inner, registry: Registry, k: nat, c: CpiCall)
    requires k < |tx.instructions| && InspectApprove(Executor.TopCall(tx, k), registry).Some?
    requires Revokes(c, InspectApprove(Executor.TopCall(tx, k), registry).value.source)
    requires c in Executor.CallsOf(Executor.Blocks(tx, inner))
      && forall j :: !RevokedTooEarly(tx, inner, registry, j, k)
    ensures c in Executor.RunAfter(Executor.Blocks(tx, inner), k)
  {
    var bs := Executor.Blocks(tx, inner);
    var j := Executor.CallHasBlock(bs, c);
    assert !RevokedTooEarly(tx, inner, registry, j, k);
    Executor.RunsAfter(bs, k, j, c);
  }

  lemma {:induction false} LaterInstructionRunsAfter(tx: Transaction, inner: Inner, k: nat, q: nat)
    requires k < q < |tx.instructions|
    ensures Executor.TopCall(tx, q) in Executor.RunAfter(Executor.Blocks(tx, inner), k)
  {
    Executor.RunsAfter(Executor.Blocks(tx, inner), k, q, Executor.TopCall(tx, q));
  }

  /** A pass protects whenever no instruction makes an inner revoke of what a later instruction abusively approves. */
  lemma {:induction false} PassProtects(tx: Transaction, inner: Inner, registry: Registry)
    requires FlagsFrom(Executor.GraphOf(tx, inner), registry, 0) == []
    requires forall j, k :: !RevokedTooEarly(tx, inner, registry, j, k)
    ensures !LeavesAbuse(Executor.Executed(tx, inner), registry)
  {
    var graph, n := Executor.GraphOf(tx, inner), |tx.instructions|;
    if LeavesAbuse(Executor.Executed(tx, inner), registry) {
      var k := AbuseIsStandingApproval(tx, inner, registry);
      Executor.GraphStartsWithInstructions(tx, inner, k);
      UnflaggedIsRevoked(graph, registry, k);
      var q :| k < q < |graph| && Revokes(graph[q], InspectApprove(graph[k], registry).value.source);
      Executor.GraphIsTopThenInner(tx, inner);
      if q < n {
        LaterInstructionRunsAfter(tx, inner, k, q);
      } else {
        InnerRevokeRunsAfter(tx, inner, registry, k, graph[q]);
      }
    }
  }

  /* ---------- a pass that does not protect ---------- */

  /** Instruction 0 calls some program, which revokes; instruction 1 approves without limit. */
  function RevokeThenApprove(source: Pubkey, delegate: Pubkey, program: Pubkey, owner: Pubkey): (tx: Transaction)
  {
    Transaction([SPL_TOKEN_PROGRAM_ID, source, delegate, program, owner],
                [Instruction(3, [], []), Instruction(0, [1, 2, 4], [4, 255, 255, 255, 255, 255, 255, 255, 255])])
  }

  const INNER_REVOKE := [[Executor.InnerInstruction(Instruction(0, [1, 4], [5]), 2)]]

  lemma RevokeThenApproveGraph(source: Pubkey, delegate: Pubkey, program: Pubkey, owner: Pubkey)
    ensures var tx := RevokeThenApprove(source, delegate, program, owner);
      && Executor.Blocks(tx, INNER_REVOKE) ==
         [Executor.Block(Some(Executor.TopCall(tx, 0)), [CpiCall(SPL_TOKEN_PROGRAM_ID, 0, 2, [source, owner], [5])]),
          Executor.Block(Some(Executor.TopCall(tx, 1)), [])]
      && Executor.GraphOf(tx, INNER_REVOKE) ==
         [Executor.TopCall(tx, 0), Executor.TopCall(tx, 1), CpiCall(SPL_TOKEN_PROGRAM_ID, 0, 2, [source, owner], [5])]
  {
    var tx := RevokeThenApprove(source, delegate, program, owner);
    var revoke := CpiCall(SPL_TOKEN_PROGRAM_ID, 0, 2, [source, owner], [5]);
    var bs := Executor.Blocks(tx, INNER_REVOKE);
    assert Executor.ResolveAll(tx.accountKeys, [1, 4]) == [source, owner];
    assert bs[0].calls == [revoke] && bs[1].calls == [];
    assert Executor.CallsOf(bs) == [revoke] by {
      Executor.NoCallsNoListing(bs[1..]);
    }
    Executor.GraphIsTopThenInner(tx, INNER_REVOKE);
  }

  lemma UnlimitedApproveIsAbusive(source: Pubkey, delegate: Pubkey, program: Pubkey, owner: Pubkey, registry: Registry)
    requires delegate !in registry && !IsTokenProgram(program)
    ensures var tx := RevokeThenApprove(source, delegate, program, owner);
      && InspectApprove(Executor.TopCall(tx, 0), registry) == None
      && InspectApprove(Executor.TopCall(tx, 1), registry)
         == Some(Approve(source, delegate, UNLIMITED, Some(owner), None))
  {
    LeNatOfOnes();
    var approve := Executor.TopCall(RevokeThenApprove(source, delegate, program, owner), 1);
    assert approve.data[1..9] == [255, 255, 255, 255, 255, 255, 255, 255];
  }

  lemma {:induction false} LateListedRevokePasses(first: CpiCall, approve: CpiCall, revoke: CpiCall, source: Pubkey,
                                                  registry: Registry)
    requires InspectApprove(first, registry).None? && Revokes(revoke, source)
    requires InspectApprove(approve, registry).Some? && InspectApprove(approve, registry).value.source == source
    ensures FlagsFrom([first, approve, revoke], registry, 0) == []
  {
    var graph := [first, approve, revoke];
    assert Revokes(graph[2], source) && RevokedAfter(graph, 1, source);
    NoFlagsNoMembers(graph, registry, 0);
  }

  /** The list shows the revoke last, so the checker passes; it runs first, so the unlimited delegate stays. */
  lemma {:induction false} EarlyInnerRevokeHidesAbuse(source: Pubkey, delegate: Pubkey, program: Pubkey,
                                                      owner: Pubkey, registry: Registry)
    requires delegate !in registry && !IsTokenProgram(program)
    ensures var tx := RevokeThenApprove(source, delegate, program, owner);
      && FlagsFrom(Executor.GraphOf(tx, INNER_REVOKE), registry, 0) == []
      && LeavesAbuse(Executor.Executed(tx, INNER_REVOKE), registry)
  {
    var tx := RevokeThenApprove(source, delegate, program, owner);
    var first, approve := Executor.TopCall(tx, 0), Executor.TopCall(tx, 1);
    RevokeThenApproveGraph(source, delegate, program, owner);
    UnlimitedApproveIsAbusive(source, delegate, program, owner, registry);
    LateListedRevokePasses(first, approve, CpiCall(SPL_TOKEN_PROGRAM_ID, 0, 2, [source, owner], [5]), source, registry);
    assert Executor.RunAfter(Executor.Blocks(tx, INNER_REVOKE), 1) == [];
    StandingApprovalIsAbuse(tx, INNER_REVOKE, registry, 1);
  }

  /** Sources with an abusive approval not yet revoked; a later harmless approval does not clear them. */
  function Exposed(graph: seq<CpiCall>, registry: Registry): (s: set<Pubkey>)
  {
    if graph == [] then {} else
      var before, call := Exposed(graph[..|graph| - 1], registry), graph[|graph| - 1];
      var a := InspectApprove(call, registry);
      if a.Some? then before + {a.value.source}
      else if call.accounts != [] && Revokes(call, call.accounts[0]) then before - {call.accounts[0]}
      else before
  }

  predicate ExposedBy(graph: seq<CpiCall>, registry: Registry, i: nat, s: Pubkey)
  {
    && i < |graph| && InspectApprove(graph[i], registry).Some?
    && InspectApprove(graph[i], registry).value.source == s && !RevokedAfter(graph, i, s)
  }

  lemma RevokedAfterInit(graph: seq<CpiCall>, i: nat, s: Pubkey)
    requires graph != [] && i < |graph| - 1
    ensures RevokedAfter(graph, i, s) <==> RevokedAfter(graph[..|graph| - 1], i, s) || Revokes(graph[|graph| - 1], s)
  {
    var n := |graph| - 1;
    if RevokedAfter(graph[..n], i, s) {
      var j :| i < j < n && Revokes(graph[..n][j], s);
      assert Revokes(graph[j], s);
    }
    if RevokedAfter(graph, i, s) {
      var j :| i < j < |graph| && Revokes(graph[j], s);
      assert j < n ==> Revokes(graph[..n][j], s);
    }
  }

  lemma {:induction false} ExposedHasCause(graph: seq<CpiCall>, registry: Registry, s: Pubkey) returns (i: nat)
    requires s in Exposed(graph, registry)
    ensures ExposedBy(graph, registry, i, s)
  {
    var n := |graph| - 1;
    var a := InspectApprove(graph[n], registry);
    if a.Some? && a.value.source == s {
      i := n;
    } else {
      i := ExposedHasCause(graph[..n], registry, s);
      RevokedAfterInit(graph, i, s);
    }
  }

  lemma {:induction false} CauseExposes(graph: seq<CpiCall>, registry: Registry, i: nat, s: Pubkey)
    requires ExposedBy(graph, registry, i, s)
    ensures s in Exposed(graph, registry)
  {
    var n := |graph| - 1;
    if i < n {
      RevokedAfterInit(graph, i, s);
      CauseExposes(graph[..n], registry, i, s);
      assert !Revokes(graph[n], s);
    }
  }

  /** The checker passes exactly when no source is left exposed. */
  lemma PassesIffNothingExposed(graph: seq<CpiCall>, registry: Registry)
    ensures FlagsFrom(graph, registry, 0) == [] <==> Exposed(graph, registry) == {}
  {
    if s :| s in Exposed(graph, registry) {
      var i := ExposedHasCause(graph, registry, s);
      FlagsMembers(graph, registry, 0, i, FlagAt(graph, registry, i).value);
    } else if j :| 0 <= j < |graph| && FlagAt(graph, registry, j).Some? {
      CauseExposes(graph, registry, j, InspectApprove(graph[j], registry).value.source);
    } else {
      NoFlagsNoMembers(graph, registry, 0);
    }
  }

  /** Every abusive approval the executor lists is flagged at its own call, unless a revoke follows it in the graph. */
  lemma DetectedApprovalIsFlagged(tx: Transaction, inner: seq<seq<Executor.InnerInstruction>>, registry: Registry,
                                  a: Executor.TokenApproval) returns (i: nat)
    requires a in Executor.ApprovalsOf(tx) && Abusive(a.delegate, a.amount, registry)
    ensures var graph := Executor.GraphOf(tx, inner);
      && i < |graph|
      && (RevokedAfter(graph, i, a.source)
          || exists f :: f in FlagsFrom(graph, registry, 0) && f.position == i
                         && f.approve.source == a.source && f.approve.delegate == a.delegate)
  {
    i := Executor.ApprovalIsInGraph(tx, inner, a);
    var graph := Executor.GraphOf(tx, inner);
    if !RevokedAfter(graph, i, a.source) {
      FlagsMembers(graph, registry, 0, i, FlagAt(graph, registry, i).value);
      assert FlagAt(graph, registry, i).value in FlagsFrom(graph, registry, 0);
    }
  }
}
