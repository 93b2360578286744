/** Building the simulation trace: deltas, change records, call graph, approvals (crates/ciel-fork/src/executor.rs). */
module Executor {
  import opened Prelude
  import opened Chain

  datatype Snapshot = Snapshot(lamports: U64, owner: Pubkey, dataLen: nat)

  type PreState = map<Pubkey, Snapshot>

  datatype PostAccount = PostAccount(key: Pubkey, account: Account)

  /* ---------- lamport deltas ---------- */

  function WrapI64(x: int): (i: I64)
  {
    (x + TWO_63) % TWO_64 - TWO_63
  }

  function LamportsBefore(pre: PreState, k: Pubkey): (n: U64)
  {
    if k in pre then pre[k].lamports else 0
  }

  /** `post as i64 - pre as i64`, with both casts and the subtraction in two's complement. */
  function LamportDelta(pre: PreState, p: PostAccount): (d: I64)
  {
    WrapI64(AsI64(p.account.lamports) - AsI64(LamportsBefore(pre, p.key)))
  }

  function DeltasOf(pre: PreState, posts: seq<PostAccount>): (m: map<Pubkey, int>)
  {
    if posts == [] then map[] else
      var p := posts[|posts| - 1];
      var before := DeltasOf(pre, posts[..|posts| - 1]);
      if LamportDelta(pre, p) != 0 then before[p.key := LamportDelta(pre, p)] else before
  }

  method ComputeBalanceDeltas(pre: PreState, posts: seq<PostAccount>) returns (deltas: map<Pubkey, int>)
    ensures deltas == DeltasOf(pre, posts)
  {
    deltas := map[];
    for i := 0 to |posts|
      invariant deltas == DeltasOf(pre, posts[..i])
    {
      assert posts[..i + 1][..i] == posts[..i];
      var p := posts[i];
      var delta := WrapI64(AsI64(p.account.lamports) - AsI64(if p.key in pre then pre[p.key].lamports else 0));
      if delta != 0 {
        deltas := deltas[p.key := delta];
      }
    }
    assert posts[..|posts|] == posts;
  }

  ghost predicate DistinctKeys(posts: seq<PostAccount>)
  {
    forall i, j :: 0 <= i < j < |posts| ==> posts[i].key != posts[j].key
  }

  /**
   * The delta is the true difference exactly when that difference fits an i64; it is zero only when the balances
   * agree.
   */
  lemma DeltaIsDifference(pre: PreState, p: PostAccount)
    ensures var change := p.account.lamports - LamportsBefore(pre, p.key);
      && (LamportDelta(pre, p) == change <==> -TWO_63 <= change < TWO_63)
      && (LamportDelta(pre, p) == 0 <==> change == 0)
  {
  }

  function PostLamports(p: PostAccount): (n: int)
  {
    p.account.lamports
  }

  lemma {:induction false} DeltaKeys(pre: PreState, posts: seq<PostAccount>, k: Pubkey)
    ensures k in DeltasOf(pre, posts) <==>
      exists i :: 0 <= i < |posts| && posts[i].key == k && LamportDelta(pre, posts[i]) != 0
  {
    if posts != [] {
      var init := posts[..|posts| - 1];
      DeltaKeys(pre, init, k);
      if i :| 0 <= i < |posts| && posts[i].key == k && LamportDelta(pre, posts[i]) != 0 {
        if i < |init| {
          assert init[i] == posts[i];
        }
      }
      if k in DeltasOf(pre, init) {
        var i :| 0 <= i < |init| && init[i].key == k && LamportDelta(pre, init[i]) != 0;
        assert posts[i] == init[i];
      }
    }
  }

  /**
   * Conservation: over distinct accounts whose balances fit an i64, the deltas add up to the total balance
   * after minus the total balance before.
   */
  lemma {:induction false} DeltasSumToTotals(pre: PreState, posts: seq<PostAccount>)
    requires DistinctKeys(posts)
    requires forall p :: p in posts ==> p.account.lamports < TWO_63 && LamportsBefore(pre, p.key) < TWO_63
    ensures MapSum(DeltasOf(pre, posts))
         == SumBy(posts, PostLamports) - SumBy(posts, (p: PostAccount) => LamportsBefore(pre, p.key))
  {
    if posts != [] {
      var init, p := posts[..|posts| - 1], posts[|posts| - 1];
      DeltasSumToTotals(pre, init);
      assert posts == init + [p];
      SumByConcat(init, [p], PostLamports);
      SumByConcat(init, [p], (q: PostAccount) => LamportsBefore(pre, q.key));
      assert p in posts;
      DeltaIsDifference(pre, p);
      DeltaKeys(pre, init, p.key);
      if LamportDelta(pre, p) != 0 {
        MapSumInsert(DeltasOf(pre, init), p.key, LamportDelta(pre, p));
      }
    }
  }

  /* ---------- change records ---------- */

  datatype AccountChange = AccountChange(
    key: Pubkey, ownerBefore: Pubkey, ownerAfter: Pubkey, lamportsBefore: U64, lamportsAfter: U64,
    dataLenBefore: nat, dataLenAfter: nat)

  function ChangeOf(pre: PreState, p: PostAccount): (c: Option<AccountChange>)
  {
    var before := if p.key in pre then pre[p.key] else Snapshot(0, DEFAULT_KEY, 0);
    if before.owner != p.account.owner || before.lamports != p.account.lamports || before.dataLen != |p.account.data|
    then Some(AccountChange(p.key, before.owner, p.account.owner, before.lamports, p.account.lamports, before.dataLen,
      |p.account.data|))
    else None
  }

  function ChangesOf(pre: PreState, posts: seq<PostAccount>): (cs: seq<AccountChange>)
  {
    FilterMap(posts, p => ChangeOf(pre, p))
  }

  method ComputeAccountChanges(pre: PreState, posts: seq<PostAccount>) returns (changes: seq<AccountChange>)
    ensures changes == ChangesOf(pre, posts)
  {
    changes := [];
    for i := 0 to |posts|
      invariant changes == ChangesOf(pre, posts[..i])
    {
      assert posts[..i + 1] == posts[..i] + [posts[i]];
      FilterMapSnoc(posts[..i], posts[i], p => ChangeOf(pre, p));
      match ChangeOf(pre, posts[i]) {
        case Some(c) => changes := changes + [c];
        case None =>
      }
    }
    assert posts[..|posts|] == posts;
  }

  /** An account has a record exactly when its owner, lamports or data length changed; the record shows both sides. */
  lemma ChangedIff(pre: PreState, posts: seq<PostAccount>, c: AccountChange)
    ensures c in ChangesOf(pre, posts) <==>
      exists p :: p in posts && p.key == c.key
        && c.ownerAfter == p.account.owner && c.lamportsAfter == p.account.lamports
        && c.dataLenAfter == |p.account.data|
        && c.ownerBefore == (if p.key in pre then pre[p.key].owner else 0)
        && c.lamportsBefore == (if p.key in pre then pre[p.key].lamports else 0)
        && c.dataLenBefore == (if p.key in pre then pre[p.key].dataLen else 0)
        && (c.ownerBefore != c.ownerAfter || c.lamportsBefore != c.lamportsAfter || c.dataLenBefore != c.dataLenAfter)
  {
    FilterMapMembers(posts, p => ChangeOf(pre, p), c);
  }

  /** A key has a balance delta exactly when one of its change records shows a lamport change. */
  lemma DeltaIffLamportChange(pre: PreState, posts: seq<PostAccount>, k: Pubkey)
    ensures k in DeltasOf(pre, posts) <==>
      exists c :: c in ChangesOf(pre, posts) && c.key == k && c.lamportsBefore != c.lamportsAfter
  {
    DeltaKeys(pre, posts, k);
    if k in DeltasOf(pre, posts) {
      var i :| 0 <= i < |posts| && posts[i].key == k && LamportDelta(pre, posts[i]) != 0;
      DeltaIsDifference(pre, posts[i]);
      var c := ChangeOf(pre, posts[i]).value;
      FilterMapMembers(posts, p => ChangeOf(pre, p), c);
      assert posts[i] in posts;
    }
    if c :| c in ChangesOf(pre, posts) && c.key == k && c.lamportsBefore != c.lamportsAfter {
      var f := p => ChangeOf(pre, p);
      FilterMapMembers(posts, f, c);
      var p :| p in posts && f(p) == Some(c);
      DeltaIsDifference(pre, p);
      var i :| 0 <= i < |posts| && posts[i] == p;
    }
  }

  /* ---------- the call graph ---------- */

  datatype InnerInstruction = InnerInstruction(instruction: Instruction, stackHeight: U8)

  /** `account_keys.get(i).copied().unwrap_or_default()` */
  function Resolve(keys: seq<Pubkey>, i: nat): (k: Pubkey)
  {
    if i < |keys| then keys[i] else DEFAULT_KEY
  }

  function ResolveAll(keys: seq<Pubkey>, indices: seq<U8>): (ks: seq<Pubkey>)
    ensures |ks| == |indices|
    ensures forall i :: 0 <= i < |ks| ==> ks[i] == Resolve(keys, indices[i])
  {
    seq(|indices|, i requires 0 <= i < |indices| => Resolve(keys, indices[i]))
  }

  function CallOf(keys: seq<Pubkey>, ix: Instruction, index: nat, height: U8): (c: CpiCall)
  {
    CpiCall(Resolve(keys, ix.programIdIndex), index, height, ResolveAll(keys, ix.accounts), ix.data)
  }

  function TopLevelCalls(tx: Transaction): (cs: seq<CpiCall>)
    ensures |cs| == |tx.instructions|
    ensures forall i :: 0 <= i < |cs| ==> cs[i] == CallOf(tx.accountKeys, tx.instructions[i], i, 1)
  {
    seq(|tx.instructions|, i requires 0 <= i < |tx.instructions| => CallOf(tx.accountKeys, tx.instructions[i], i, 1))
  }

  function CallsUnder(keys: seq<Pubkey>, inner: seq<InnerInstruction>, index: nat): (cs: seq<CpiCall>)
    ensures |cs| == |inner|
    ensures forall i :: 0 <= i < |cs| ==> cs[i] == CallOf(keys, inner[i].instruction, index, inner[i].stackHeight)
  {
    seq(|inner|, i requires 0 <= i < |inner| => CallOf(keys, inner[i].instruction, index, inner[i].stackHeight))
  }

  function InnerCalls(keys: seq<Pubkey>, inner: seq<seq<InnerInstruction>>): (cs: seq<CpiCall>)
  {
    if inner == [] then []
    else InnerCalls(keys, inner[..|inner| - 1]) + CallsUnder(keys, inner[|inner| - 1], |inner| - 1)
  }

  function GraphOf(tx: Transaction, inner: seq<seq<InnerInstruction>>): (cs: seq<CpiCall>)
  {
    TopLevelCalls(tx) + InnerCalls(tx.accountKeys, inner)
  }

  method ExtractCpiGraph(tx: Transaction, inner: seq<seq<InnerInstruction>>) returns (calls: seq<CpiCall>)
    ensures calls == GraphOf(tx, inner)
  {
    var keys := tx.accountKeys;
    calls := [];
    for i := 0 to |tx.instructions|
      invariant calls == TopLevelCalls(tx)[..i]
    {
      calls := calls + [CallOf(keys, tx.instructions[i], i, 1)];
    }
    for i := 0 to |inner|
      invariant calls == TopLevelCalls(tx) + InnerCalls(keys, inner[..i])
    {
      ghost var before := calls;
      assert inner[..i + 1][..i] == inner[..i];
      for j := 0 to |inner[i]|
        invariant calls == before + CallsUnder(keys, inner[i], i)[..j]
      {
        calls := calls + [CallOf(keys, inner[i][j].instruction, i, inner[i][j].stackHeight)];
      }
    }
    assert inner[..|inner|] == inner;
  }

  /** Whatever simulation did, the graph opens with the signed instructions, in order, at height 1. */
  lemma GraphStartsWithInstructions(tx: Transaction, inner: seq<seq<InnerInstruction>>, i: nat)
    requires i < |tx.instructions|
    ensures i < |GraphOf(tx, inner)| && GraphOf(tx, inner)[i] == CallOf(tx.accountKeys, tx.instructions[i], i, 1)
  {
  }

  /** Keys are looked up by index, and an index out of range gives the all-zero key. */
  lemma CallShape(keys: seq<Pubkey>, ix: Instruction, index: nat, height: U8)
    ensures var c := CallOf(keys, ix, index, height);
      && c.instructionIndex == index && c.stackHeight == height && c.data == ix.data
      && c.programId == (if ix.programIdIndex < |keys| then keys[ix.programIdIndex] else 0)
      && |c.accounts| == |ix.accounts|
      && forall j :: 0 <= j < |ix.accounts| ==>
           c.accounts[j] == if ix.accounts[j] < |keys| then keys[ix.accounts[j]] else 0
  {
  }

  /** Inner call `q` of instruction `g` is in the graph, after the instructions, under that instruction's index. */
  lemma {:induction false} InnerCallIsListed(tx: Transaction, inner: seq<seq<InnerInstruction>>, g: nat, q: nat)
    returns (p: nat)
    requires g < |inner| && q < |inner[g]|
    ensures |tx.instructions| <= p < |GraphOf(tx, inner)|
    ensures GraphOf(tx, inner)[p] == CallOf(tx.accountKeys, inner[g][q].instruction, g, inner[g][q].stackHeight)
  {
    var n := |inner| - 1;
    if g == n {
      p := |tx.instructions| + |InnerCalls(tx.accountKeys, inner[..n])| + q;
    } else {
      p := InnerCallIsListed(tx, inner[..n], g, q);
      assert GraphOf(tx, inner) == GraphOf(tx, inner[..n]) + CallsUnder(tx.accountKeys, inner[n], n);
    }
  }

  /* ---------- the order of execution ---------- */

  /** An instruction, if there is one at this index, and the calls it made. */
  datatype Block<T> = Block(top: Option<T>, calls: seq<T>)

  /** Each instruction runs, then the calls it makes, then the next instruction. */
  function RunOf<T>(bs: seq<Block<T>>): (r: seq<T>)
  {
    if bs == [] then [] else Single(bs[0].top) + (bs[0].calls + RunOf(bs[1..]))
  }

  function CallsOf<T>(bs: seq<Block<T>>): (r: seq<T>)
  {
    if bs == [] then [] else bs[0].calls + CallsOf(bs[1..])
  }

  /** What runs after the instruction of block `k` itself. */
  function RunAfter<T>(bs: seq<Block<T>>, k: nat): (r: seq<T>)
    requires k < |bs|
  {
    bs[k].calls + RunOf(bs[k + 1..])
  }

  function TopCall(tx: Transaction, i: nat): (c: CpiCall)
    requires i < |tx.instructions|
  {
    CallOf(tx.accountKeys, tx.instructions[i], i, 1)
  }

  function BlockAt(tx: Transaction, inner: seq<seq<InnerInstruction>>, i: nat): (b: Block<CpiCall>)
  {
    Block(if i < |tx.instructions| then Some(TopCall(tx, i)) else None,
          if i < |inner| then CallsUnder(tx.accountKeys, inner[i], i) else [])
  }

  /** The transaction's instructions with the inner calls recorded for each. */
  function Blocks(tx: Transaction, inner: seq<seq<InnerInstruction>>): (bs: seq<Block<CpiCall>>)
    ensures |bs| >= |tx.instructions| && |bs| >= |inner|
    ensures forall i :: 0 <= i < |bs| ==> bs[i] == BlockAt(tx, inner, i)
  {
    var n := if |tx.instructions| < |inner| then |inner| else |tx.instructions|;
    seq(n, i requires 0 <= i < n => BlockAt(tx, inner, i))
  }

  function Executed(tx: Transaction, inner: seq<seq<InnerInstruction>>): (r: seq<CpiCall>)
  {
    RunOf(Blocks(tx, inner))
  }

  lemma {:induction false} NoCallsNoListing<T>(bs: seq<Block<T>>)
    requires forall i :: 0 <= i < |bs| ==> bs[i].calls == []
    ensures CallsOf(bs) == []
  {
    if bs != [] {
      NoCallsNoListing(bs[1..]);
    }
  }

  lemma {:induction false} InnerCallsSplit(tx: Transaction, inner: seq<seq<InnerInstruction>>, n: nat)
    requires n <= |inner|
    ensures InnerCalls(tx.accountKeys, inner[..n]) + CallsOf(Blocks(tx, inner)[n..])
         == InnerCalls(tx.accountKeys, inner)
    decreases |inner| - n
  {
    var bs := Blocks(tx, inner);
    if n == |inner| {
      assert inner[..n] == inner;
      NoCallsNoListing(bs[n..]);
    } else {
      InnerCallsSplit(tx, inner, n + 1);
      assert inner[..n + 1][..n] == inner[..n];
      assert bs[n..][1..] == bs[n + 1..] && bs[n..][0].calls == CallsUnder(tx.accountKeys, inner[n], n);
      AppendAssociates(InnerCalls(tx.accountKeys, inner[..n]), bs[n].calls, CallsOf(bs[n + 1..]));
    }
  }

  /** The graph lists the instructions, then the inner calls of all blocks; the run interleaves them. */
  lemma GraphIsTopThenInner(tx: Transaction, inner: seq<seq<InnerInstruction>>)
    ensures GraphOf(tx, inner) == TopLevelCalls(tx) + CallsOf(Blocks(tx, inner))
  {
    InnerCallsSplit(tx, inner, 0);
    assert Blocks(tx, inner)[0..] == Blocks(tx, inner);
  }

  lemma {:induction false} CallsAreRun<T>(bs: seq<Block<T>>, c: T)
    requires c in CallsOf(bs)
    ensures c in RunOf(bs)
  {
    if c !in bs[0].calls {
      CallsAreRun(bs[1..], c);
    }
  }

  lemma CallsIncluded<T>(bs: seq<Block<T>>)
    ensures Included(CallsOf(bs), RunOf(bs))
  {
    forall c | c in CallsOf(bs) ensures c in RunOf(bs) {
      CallsAreRun(bs, c);
    }
  }

  predicate Included<T(==)>(a: seq<T>, b: seq<T>)
  {
    forall x :: x in a ==> x in b
  }

  /** Both lists show the same member, and what follows it in the first also follows it in the second. */
  ghost predicate Tracks<T>(a: seq<T>, q: nat, b: seq<T>, p: nat)
  {
    q < |a| && p < |b| && a[q] == b[p] && Included(a[q + 1..], b[p + 1..])
  }

  lemma TracksBehind<T>(a: seq<T>, q: nat, b: seq<T>, p: nat, beforeA: seq<T>, beforeB: seq<T>)
    requires Tracks(a, q, b, p)
    ensures Tracks(beforeA + a, |beforeA| + q, beforeB + b, |beforeB| + p)
  {
    assert (beforeA + a)[|beforeA| + q + 1..] == a[q + 1..];
    assert (beforeB + b)[|beforeB| + p + 1..] == b[p + 1..];
  }

  lemma TracksAhead<T>(a: seq<T>, q: nat, b: seq<T>, p: nat, beforeB: seq<T>)
    requires Tracks(a, q, b, p)
    ensures Tracks(a, q, beforeB + b, |beforeB| + p)
  {
    assert (beforeB + b)[|beforeB| + p + 1..] == b[p + 1..];
  }

  lemma TracksWithin<T>(shared: seq<T>, q: nat, a: seq<T>, b: seq<T>)
    requires q < |shared| && Included(a, b)
    ensures Tracks(shared + a, q, shared + b, q)
  {
    assert (shared + a)[q + 1..] == shared[q + 1..] + a;
    assert (shared + b)[q + 1..] == shared[q + 1..] + b;
  }

  /** Position `p` is the instruction of block `k`, followed by what runs after it. */
  ghost predicate ShowsTop<T>(bs: seq<Block<T>>, p: nat, k: nat)
  {
    && k < |bs| && p < |RunOf(bs)|
    && bs[k].top == Some(RunOf(bs)[p]) && RunOf(bs)[p + 1..] == RunAfter(bs, k)
  }

  lemma ShowsTopBehind<T>(bs: seq<Block<T>>, p: nat, k: nat)
    requires bs != [] && ShowsTop(bs[1..], p, k)
    ensures ShowsTop(bs, |Single(bs[0].top)| + |bs[0].calls| + p, k + 1)
  {
    var before, rest := Single(bs[0].top) + bs[0].calls, RunOf(bs[1..]);
    assert RunOf(bs) == before + rest;
    assert (before + rest)[|before| + p + 1..] == rest[p + 1..];
    assert bs[1..][k + 1..] == bs[k + 2..];
  }

  lemma ShowsTopFirst<T>(bs: seq<Block<T>>)
    requires bs != [] && bs[0].top.Some?
    ensures ShowsTop(bs, 0, 0)
  {
    assert RunOf(bs)[1..] == RunAfter(bs, 0);
  }

  lemma {:induction false} TracksInFirst<T>(bs: seq<Block<T>>, q: nat)
    requires bs != [] && q < |bs[0].calls|
    ensures Tracks(CallsOf(bs), q, RunOf(bs), |Single(bs[0].top)| + q)
  {
    var own, calls, rest := bs[0].calls, CallsOf(bs[1..]), RunOf(bs[1..]);
    CallsIncluded(bs[1..]);
    TracksWithin(own, q, calls, rest);
    TracksAhead(own + calls, q, own + rest, q, Single(bs[0].top));
  }

  lemma {:induction false} TracksInRest<T>(bs: seq<Block<T>>, q: nat, p: nat)
    requires bs != [] && Tracks(CallsOf(bs[1..]), q, RunOf(bs[1..]), p)
    ensures Tracks(CallsOf(bs), |bs[0].calls| + q, RunOf(bs), |Single(bs[0].top)| + |bs[0].calls| + p)
  {
    var head, own, rest := Single(bs[0].top), bs[0].calls, RunOf(bs[1..]);
    TracksBehind(CallsOf(bs[1..]), q, rest, p, own, own);
    TracksAhead(own + CallsOf(bs[1..]), |own| + q, own + rest, |own| + p, head);
  }

  /** The call at `p` is the instruction of block `at`, or else the inner call listed at `at`. */
  ghost predicate ComesFrom<T>(bs: seq<Block<T>>, p: nat, top: bool, at: nat)
  {
    if top then ShowsTop(bs, p, at) else Tracks(CallsOf(bs), at, RunOf(bs), p)
  }

  lemma {:induction false} ComesLater<T>(bs: seq<Block<T>>, p: nat, top: bool, at: nat)
    requires bs != [] && ComesFrom(bs[1..], p, top, at)
    ensures ComesFrom(bs, |Single(bs[0].top)| + |bs[0].calls| + p, top, if top then at + 1 else |bs[0].calls| + at)
  {
    if top {
      ShowsTopBehind(bs, p, at);
    } else {
      TracksInRest(bs, at, p);
    }
  }

  lemma RunLength<T>(bs: seq<Block<T>>)
    requires bs != []
    ensures |RunOf(bs)| == |Single(bs[0].top)| + |bs[0].calls| + |RunOf(bs[1..])|
  {
  }

  lemma {:induction false} LocateInFirst<T>(bs: seq<Block<T>>, p: nat) returns (top: bool, at: nat)
    requires bs != [] && p < |Single(bs[0].top)| + |bs[0].calls|
    ensures ComesFrom(bs, p, top, at)
  {
    var n := |Single(bs[0].top)|;
    if p < n {
      top, at := true, 0;
      ShowsTopFirst(bs);
    } else {
      top, at := false, p - n;
      TracksInFirst(bs, at);
    }
  }

  /**
   * Where an executed call comes from: it is an instruction, followed by what runs after that instruction; or it
   * is an inner call, and every inner call listed after it also runs after it.
   */
  lemma {:induction false} Locate<T>(bs: seq<Block<T>>, p: nat) returns (top: bool, at: nat)
    requires p < |RunOf(bs)|
    ensures ComesFrom(bs, p, top, at)
  {
    RunLength(bs);
    var n := |Single(bs[0].top)| + |bs[0].calls|;
    if p < n {
      top, at := LocateInFirst(bs, p);
    } else {
      top, at := Locate(bs[1..], p - n);
      ComesLater(bs, p - n, top, at);
      at := if top then at + 1 else |bs[0].calls| + at;
    }
  }

  /** Each instruction is executed, followed by what runs after it. */
  lemma {:induction false} Executes<T>(bs: seq<Block<T>>, k: nat) returns (p: nat)
    requires k < |bs| && bs[k].top.Some?
    ensures ShowsTop(bs, p, k)
  {
    if k == 0 {
      p := 0;
      ShowsTopFirst(bs);
    } else {
      p := Executes(bs[1..], k - 1);
      ShowsTopBehind(bs, p, k - 1);
      p := |Single(bs[0].top)| + |bs[0].calls| + p;
    }
  }

  lemma {:induction false} BlockIsRun<T>(bs: seq<Block<T>>, j: nat, c: T)
    requires j < |bs| && (bs[j].top == Some(c) || c in bs[j].calls)
    ensures c in RunOf(bs)
  {
    if j > 0 {
      BlockIsRun(bs[1..], j - 1, c);
    } else if bs[0].top == Some(c) {
      assert RunOf(bs)[0] == c;
    }
  }

  /** Later instructions, and inner calls of this or a later instruction, run after an instruction. */
  lemma RunsAfter<T>(bs: seq<Block<T>>, k: nat, j: nat, c: T)
    requires k <= j < |bs| && ((k < j && bs[j].top == Some(c)) || c in bs[j].calls)
    ensures c in RunAfter(bs, k)
  {
    if k < j {
      assert bs[k + 1..][j - k - 1] == bs[j];
      BlockIsRun(bs[k + 1..], j - k - 1, c);
    }
  }

  lemma {:induction false} CallHasBlock<T>(bs: seq<Block<T>>, c: T) returns (j: nat)
    requires c in CallsOf(bs)
    ensures j < |bs| && c in bs[j].calls
  {
    j := 0;
    if c !in bs[0].calls {
      j := CallHasBlock(bs[1..], c);
      j := j + 1;
    }
  }

  /* ---------- approvals ---------- */

  datatype TokenApproval = TokenApproval(source: Pubkey, delegate: Pubkey, amount: nat, owner: Pubkey)

  function ApprovalOf(keys: seq<Pubkey>, ix: Instruction): (a: Option<TokenApproval>)
  {
    if ix.programIdIndex < |keys| && keys[ix.programIdIndex] == SPL_TOKEN_PROGRAM_ID
       && |ix.data| == 9 && ix.data[0] == 4 && |ix.accounts| >= 3
    then Some(TokenApproval(Resolve(keys, ix.accounts[0]), Resolve(keys, ix.accounts[1]), LeNat(ix.data[1..9]),
      Resolve(keys, ix.accounts[2])))
    else None
  }

  function ApprovalsOf(tx: Transaction): (r: seq<TokenApproval>)
  {
    FilterMap(tx.instructions, ix => ApprovalOf(tx.accountKeys, ix))
  }

  method DetectTokenApprovals(tx: Transaction) returns (approvals: seq<TokenApproval>)
    ensures approvals == ApprovalsOf(tx)
  {
    approvals := [];
    for i := 0 to |tx.instructions|
      invariant approvals == FilterMap(tx.instructions[..i], ix => ApprovalOf(tx.accountKeys, ix))
    {
      var ix := tx.instructions[i];
      assert tx.instructions[..i + 1] == tx.instructions[..i] + [ix];
      FilterMapSnoc(tx.instructions[..i], ix, x => ApprovalOf(tx.accountKeys, x));
      if ix.programIdIndex < |tx.accountKeys| && tx.accountKeys[ix.programIdIndex] == SPL_TOKEN_PROGRAM_ID {
        if |ix.data| == 9 && ix.data[0] == 4 {
          if |ix.accounts| >= 3 {
            var source := Resolve(tx.accountKeys, ix.accounts[0]);
            var delegate := Resolve(tx.accountKeys, ix.accounts[1]);
            var owner := Resolve(tx.accountKeys, ix.accounts[2]);
            approvals := approvals + [TokenApproval(source, delegate, LeNat(ix.data[1..9]), owner)];
          }
        }
      }
    }
    assert tx.instructions[..|tx.instructions|] == tx.instructions;
  }

  /** Exactly the nine-byte token approvals, first byte 4, with at least three accounts are detected. */
  lemma DetectedIff(tx: Transaction, a: TokenApproval)
    ensures a in ApprovalsOf(tx) <==>
      exists ix :: ix in tx.instructions
        && ix.programIdIndex < |tx.accountKeys| && tx.accountKeys[ix.programIdIndex] == SPL_TOKEN_PROGRAM_ID
        && |ix.data| == 9 && ix.data[0] == 4 && |ix.accounts| >= 3
        && a.source == Resolve(tx.accountKeys, ix.accounts[0]) && a.delegate == Resolve(tx.accountKeys, ix.accounts[1])
        && a.owner == Resolve(tx.accountKeys, ix.accounts[2]) && a.amount == LeNat(ix.data[1..9])
  {
    FilterMapMembers(tx.instructions, ix => ApprovalOf(tx.accountKeys, ix), a);
  }

  /** Each detected approval is one of the height-1 calls, with that call's source, delegate and amount. */
  lemma ApprovalIsInGraph(tx: Transaction, inner: seq<seq<InnerInstruction>>, a: TokenApproval) returns (i: nat)
    requires a in ApprovalsOf(tx)
    ensures i < |tx.instructions| && i < |GraphOf(tx, inner)|
    ensures var c := GraphOf(tx, inner)[i];
      && c.programId == SPL_TOKEN_PROGRAM_ID && c.stackHeight == 1 && c.instructionIndex == i
      && |c.data| == 9 && c.data[0] == 4 && LeNat(c.data[1..9]) == a.amount
      && |c.accounts| >= 3 && c.accounts[0] == a.source && c.accounts[1] == a.delegate && c.accounts[2] == a.owner
  {
    var f := ix => ApprovalOf(tx.accountKeys, ix);
    FilterMapMembers(tx.instructions, f, a);
    var ix :| ix in tx.instructions && f(ix) == Some(a);
    i :| 0 <= i < |tx.instructions| && tx.instructions[i] == ix;
    GraphStartsWithInstructions(tx, inner, i);
  }
}
