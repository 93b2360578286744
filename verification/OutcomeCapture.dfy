/** Post-execution outcome capture over the verdict log (crates/ciel-pipeline/src/outcome.rs). */
module OutcomeCapture {
  import opened Prelude
  import opened Attestation

  type Id = nat

  datatype Outcome = Landed | Reverted | Expired

  datatype Row = Row(verdict: Verdict, createdAt: int, signature: Option<Bytes>, outcome: Option<Outcome>,
                     slot: Option<I64>)

  type Rows = map<Id, Row>

  predicate Pending(row: Row)
  {
    row.verdict == Approve && row.outcome.None? && row.signature.Some?
  }

  /* ---------- one verdict ---------- */

  // Times in milliseconds. A TTL too large for chrono falls back to sixty seconds.
  const FALLBACK_TTL := 60_000

  function EffectiveTtl(ttl: nat): (t: nat)
  {
    if ttl < TWO_63 then ttl else FALLBACK_TTL
  }

  datatype RpcAnswer = RpcError | NotFound | Processed(slot: U64, failed: bool)

  datatype OutcomeError = InvalidSignature | RpcFailed

  datatype Write = Write(id: Id, outcome: Outcome, slot: Option<I64>)

  function DetermineOutcome(id: Id, row: Row, answer: RpcAnswer, now: int,
                            ttl: nat): (r: Result<Option<Write>, OutcomeError>)
    requires row.signature.Some?
  {
    if |row.signature.value| != 64 then Err(InvalidSignature)
    else match answer
      case RpcError => Err(RpcFailed)
      case Processed(slot, failed) => Ok(Some(Write(id, if failed then Reverted else Landed, Some(AsI64(slot)))))
      case NotFound => if now - row.createdAt > EffectiveTtl(ttl) then Ok(Some(Write(id, Expired, None))) else Ok(None)
  }

  /* ---------- one cycle ---------- */

  /** What `ORDER BY created_at ASC LIMIT n` may return; ties may be broken either way. */
  ghost predicate IsBatch(rows: Rows, limit: nat, batch: seq<Id>)
  {
    && (forall i, j :: 0 <= i < j < |batch| ==> batch[i] != batch[j])
    && (forall id :: id in batch ==> id in rows && Pending(rows[id]))
    && (forall i, j :: 0 <= i < j < |batch| ==> rows[batch[i]].createdAt <= rows[batch[j]].createdAt)
    && |batch| <= limit
    && (|batch| < limit ==> forall id :: id in rows && Pending(rows[id]) ==> id in batch)
    && forall id, b :: id in rows && Pending(rows[id]) && id !in batch && b in batch ==>
      rows[b].createdAt <= rows[id].createdAt
  }

  /** How the outside world answers during a cycle. */
  datatype World = World(now: int, ttl: nat, rpc: Id -> RpcAnswer, dbOk: Id -> bool)

  /** What the loop body decides to write for one fetched verdict, if anything. */
  function Decision(snapshot: Rows, id: Id, w: World): (x: Option<Write>)
  {
    if id in snapshot && snapshot[id].signature.Some? then
      match DetermineOutcome(id, snapshot[id], w.rpc(id), w.now, w.ttl)
      case Ok(decided) => decided
      case Err(_) => None
    else None
  }

  /** The updates a cycle performs: one per decided verdict, in order, stopping at the first failed update. */
  function CycleWrites(snapshot: Rows, batch: seq<Id>, w: World): (ws: seq<Write>)
  {
    if batch == [] then []
    else match Decision(snapshot, batch[0], w)
      case None => CycleWrites(snapshot, batch[1..], w)
      case Some(x) => if w.dbOk(batch[0]) then [x] + CycleWrites(snapshot, batch[1..], w) else []
  }

  function ApplyWrite(rows: Rows, x: Write): (r: Rows)
  {
    if x.id in rows then rows[x.id := rows[x.id].(outcome := Some(x.outcome), slot := x.slot)] else rows
  }

  function ApplyWrites(rows: Rows, ws: seq<Write>): (r: Rows)
    ensures r.Keys == rows.Keys
    decreases |ws|
  {
    if ws == [] then rows else ApplyWrites(ApplyWrite(rows, ws[0]), ws[1..])
  }

  lemma {:induction false} ApplyWritesConcat(rows: Rows, a: seq<Write>, b: seq<Write>)
    ensures ApplyWrites(rows, a + b) == ApplyWrites(ApplyWrites(rows, a), b)
    decreases |a|
  {
    if a == [] {
      assert a + b == b;
    } else {
      assert (a + b)[1..] == a[1..] + b;
      ApplyWritesConcat(ApplyWrite(rows, a[0]), a[1..], b);
    }
  }

  class VerdictLog {
    var rows: Rows

    /** `UPDATE ... WHERE id = $3`, which may fail. */
    method UpdateVerdictOutcome(x: Write, ok: bool)
      modifies this
      ensures rows == if ok then ApplyWrite(old(rows), x) else old(rows)
    {
      if ok && x.id in rows {
        rows := rows[x.id := rows[x.id].(outcome := Some(x.outcome), slot := x.slot)];
      }
    }

    /** The loop over the fetched batch. A failed update ends the cycle; an undecided verdict does not. */
    method CaptureCycle(batch: seq<Id>, w: World) returns (ok: bool)
      requires forall i :: 0 <= i < |batch| ==> batch[i] in rows && rows[batch[i]].signature.Some?
      modifies this
      ensures rows == ApplyWrites(old(rows), CycleWrites(old(rows), batch, w))
      ensures ok <==> forall i :: 0 <= i < |batch| && Decision(old(rows), batch[i], w).Some? ==> w.dbOk(batch[i])
    {
      var pending := rows;
      ghost var done: seq<Write> := [];
      assert batch[0..] == batch;
      for i := 0 to |batch|
        invariant forall j :: 0 <= j < |batch| ==> batch[j] in pending && pending[batch[j]].signature.Some?
        invariant rows == ApplyWrites(pending, done)
        invariant forall j :: 0 <= j < i && Decision(pending, batch[j], w).Some? ==> w.dbOk(batch[j])
        invariant done + CycleWrites(pending, batch[i..], w) == CycleWrites(pending, batch, w)
      {
        var id := batch[i];
        assert batch[i..][1..] == batch[i + 1..];
        var outcome := DetermineOutcome(id, pending[id], w.rpc(id), w.now, w.ttl);
        match outcome {
          case Ok(Some(x)) =>
            UpdateVerdictOutcome(x, w.dbOk(id));
            if !w.dbOk(id) {
              assert done + CycleWrites(pending, batch[i..], w) == done;
              return false;
            }
            ApplyWritesConcat(pending, done, [x]);
            AppendAssociates(done, [x], CycleWrites(pending, batch[i + 1..], w));
            done := done + [x];
          case Ok(None) =>
          case Err(_) =>
        }
      }
      assert done + CycleWrites(pending, batch[|batch|..], w) == done;
      return true;
    }
  }

  lemma {:induction false} WritesComeFromBatch(snapshot: Rows, batch: seq<Id>, w: World, x: Write)
    requires x in CycleWrites(snapshot, batch, w)
    ensures x.id in batch && Decision(snapshot, x.id, w) == Some(x)
    decreases |batch|
  {
    if x !in CycleWrites(snapshot, batch[1..], w) {
      assert x.id == batch[0];
    } else {
      WritesComeFromBatch(snapshot, batch[1..], w, x);
    }
  }

  predicate DistinctIds(ws: seq<Write>)
  {
    forall i, j :: 0 <= i < j < |ws| ==> ws[i].id != ws[j].id
  }

  lemma {:induction false} WritesAreDistinct(snapshot: Rows, batch: seq<Id>, w: World)
    requires forall i, j :: 0 <= i < j < |batch| ==> batch[i] != batch[j]
    ensures DistinctIds(CycleWrites(snapshot, batch, w))
    decreases |batch|
  {
    if batch != [] {
      WritesAreDistinct(snapshot, batch[1..], w);
      var later := CycleWrites(snapshot, batch[1..], w);
      forall i | 0 <= i < |later| ensures later[i].id != batch[0] {
        WritesComeFromBatch(snapshot, batch[1..], w, later[i]);
      }
    }
  }

  lemma {:induction false} UntouchedByWrites(rows: Rows, ws: seq<Write>, id: Id)
    requires id in rows && forall x :: x in ws ==> x.id != id
    ensures ApplyWrites(rows, ws)[id] == rows[id]
    decreases |ws|
  {
    if ws != [] {
      UntouchedByWrites(ApplyWrite(rows, ws[0]), ws[1..], id);
    }
  }

  lemma {:induction false} WrittenByWrites(rows: Rows, ws: seq<Write>, x: Write)
    requires x in ws && x.id in rows && DistinctIds(ws)
    ensures ApplyWrites(rows, ws)[x.id] == rows[x.id].(outcome := Some(x.outcome), slot := x.slot)
    decreases |ws|
  {
    if ws[0] == x {
      UntouchedByWrites(ApplyWrite(rows, x), ws[1..], x.id);
    } else {
      assert x in ws[1..] && ws[0].id != x.id;
      WrittenByWrites(ApplyWrite(rows, ws[0]), ws[1..], x);
    }
  }

  /* ---------- runs: cycles of one capture task, and verdicts arriving between them ---------- */

  datatype Step = Cycle(batch: seq<Id>, w: World) | Arrive(id: Id, row: Row)

  ghost predicate Enabled(rows: Rows, s: Step, limit: nat)
  {
    match s
    case Cycle(batch, _) => IsBatch(rows, limit, batch)
    case Arrive(id, row) => id !in rows && row.outcome.None? && row.slot.None?
  }

  ghost function StepWrites(rows: Rows, s: Step, limit: nat): (ws: seq<Write>)
    requires Enabled(rows, s, limit)
  {
    match s
    case Cycle(batch, w) => CycleWrites(rows, batch, w)
    case Arrive(_, _) => []
  }

  ghost function Next(rows: Rows, s: Step, limit: nat): (r: Rows)
    requires Enabled(rows, s, limit)
  {
    match s
    case Cycle(batch, w) => ApplyWrites(rows, CycleWrites(rows, batch, w))
    case Arrive(id, row) => rows[id := row]
  }

  ghost predicate ValidRun(rows: Rows, steps: seq<Step>, limit: nat)
    decreases |steps|
  {
    steps == [] || (Enabled(rows, steps[0], limit) && ValidRun(Next(rows, steps[0], limit), steps[1..], limit))
  }

  ghost function Execute(rows: Rows, steps: seq<Step>, limit: nat): (r: Rows)
    requires ValidRun(rows, steps, limit)
    decreases |steps|
  {
    if steps == [] then rows else Execute(Next(rows, steps[0], limit), steps[1..], limit)
  }

  ghost function History(rows: Rows, steps: seq<Step>, limit: nat): (ws: seq<Write>)
    requires ValidRun(rows, steps, limit)
    decreases |steps|
  {
    if steps == [] then []
    else StepWrites(rows, steps[0], limit) + History(Next(rows, steps[0], limit), steps[1..], limit)
  }

  /** One step: writes go to pending rows only, once each, and leave them decided. */
  lemma StepWritesPending(rows: Rows, s: Step, limit: nat)
    requires Enabled(rows, s, limit)
    ensures DistinctIds(StepWrites(rows, s, limit))
    ensures forall x :: x in StepWrites(rows, s, limit) ==>
              x.id in rows && Pending(rows[x.id]) && (x.slot.Some? <==> x.outcome != Expired)
    ensures forall x :: x in StepWrites(rows, s, limit) ==>
              Next(rows, s, limit)[x.id] == rows[x.id].(outcome := Some(x.outcome), slot := x.slot)
    ensures forall id :: id in rows ==> id in Next(rows, s, limit)
    ensures forall id :: id in rows && (forall x :: x in StepWrites(rows, s, limit) ==> x.id != id) ==>
              Next(rows, s, limit)[id] == rows[id]
  {
    if s.Cycle? {
      var ws := CycleWrites(rows, s.batch, s.w);
      WritesAreDistinct(rows, s.batch, s.w);
      forall x | x in ws
        ensures x.id in rows && Pending(rows[x.id]) && (x.slot.Some? <==> x.outcome != Expired)
        ensures Next(rows, s, limit)[x.id] == rows[x.id].(outcome := Some(x.outcome), slot := x.slot)
      {
        WritesComeFromBatch(rows, s.batch, s.w, x);
        WrittenByWrites(rows, ws, x);
      }
      forall id | id in rows && (forall x :: x in ws ==> x.id != id) ensures Next(rows, s, limit)[id] == rows[id] {
        UntouchedByWrites(rows, ws, id);
      }
    }
  }

  /** How long a row may stay unseen before it counts as expired, in milliseconds. */
  predicate PastTtl(createdAt: int, now: int, ttl: nat)
  {
    now - createdAt > if ttl < 0x8000_0000_0000_0000 then ttl else 60_000
  }

  lemma DecisionMeans(snapshot: Rows, id: Id, w: World)
    requires id in snapshot && snapshot[id].signature.Some?
    ensures var row, answer := snapshot[id], w.rpc(id);
      Decision(snapshot, id, w).Some? <==>
        && |row.signature.value| == 64
        && (answer.Processed? || (answer.NotFound? && PastTtl(row.createdAt, w.now, w.ttl)))
    ensures Decision(snapshot, id, w).Some? ==>
      var x, answer := Decision(snapshot, id, w).value, w.rpc(id);
      && (x.outcome == Landed <==> answer.Processed? && !answer.failed)
      && (x.outcome == Reverted <==> answer.Processed? && answer.failed)
      && (x.outcome == Expired <==> answer.NotFound? && PastTtl(snapshot[id].createdAt, w.now, w.ttl))
      && (x.slot.Some? <==> answer.Processed?)
      && (answer.Processed? && answer.slot < 0x8000_0000_0000_0000 ==> x.slot.value == answer.slot)
      && (answer.Processed? && answer.slot >= 0x8000_0000_0000_0000 ==>
            x.slot.value == answer.slot - 0x1_0000_0000_0000_0000)
  {
  }

  /**
   * Which outcome is written: landed for a transaction that went through, reverted for one that failed, both with
   * its slot, and expired for one the RPC does not know and that is past the TTL.
   */
  lemma WrittenOutcome(rows: Rows, s: Step, limit: nat, x: Write)
    requires Enabled(rows, s, limit) && x in StepWrites(rows, s, limit)
    ensures s.Cycle? && x.id in rows && x.id in s.batch
    ensures rows[x.id].signature.Some? && |rows[x.id].signature.value| == 64
    ensures var answer := s.w.rpc(x.id);
      && (x.outcome == Landed <==> answer.Processed? && !answer.failed)
      && (x.outcome == Reverted <==> answer.Processed? && answer.failed)
      && (x.outcome == Expired <==> answer.NotFound? && PastTtl(rows[x.id].createdAt, s.w.now, s.w.ttl))
      && (x.slot.Some? <==> answer.Processed?)
      && (answer.Processed? && answer.slot < 0x8000_0000_0000_0000 ==> x.slot.value == answer.slot)
      && (answer.Processed? && answer.slot >= 0x8000_0000_0000_0000 ==>
            x.slot.value == answer.slot - 0x1_0000_0000_0000_0000)
  {
    WritesComeFromBatch(rows, s.batch, s.w, x);
    DecisionMeans(rows, x.id, s.w);
  }

  lemma {:induction false} DecidedIsWritten(snapshot: Rows, batch: seq<Id>, w: World, id: Id)
    requires forall i :: i in batch ==> w.dbOk(i)
    requires id in batch && Decision(snapshot, id, w).Some?
    ensures Decision(snapshot, id, w).value in CycleWrites(snapshot, batch, w)
    decreases |batch|
  {
    if batch[0] != id {
      DecidedIsWritten(snapshot, batch[1..], w, id);
    }
  }

  /**
   * When the database takes every update, a cycle writes a row if and only if it fetched it, its signature is 64
   * bytes, and the RPC has either seen the transaction or not seen it past the TTL. In any cycle, nothing else is
   * written: a row the RPC does not know stays pending within the TTL.
   */
  lemma WrittenIff(rows: Rows, batch: seq<Id>, w: World, limit: nat, id: Id)
    requires IsBatch(rows, limit, batch)
    ensures var written := exists x :: x in CycleWrites(rows, batch, w) && x.id == id;
      var due := id in batch && |rows[id].signature.value| == 64
        && (w.rpc(id).Processed? || (w.rpc(id).NotFound? && PastTtl(rows[id].createdAt, w.now, w.ttl)));
      (written ==> due) && ((forall i :: i in batch ==> w.dbOk(i)) ==> (due ==> written))
  {
    if x :| x in CycleWrites(rows, batch, w) && x.id == id {
      WritesComeFromBatch(rows, batch, w, x);
      DecisionMeans(rows, id, w);
    }
    if id in batch && Decision(rows, id, w).Some? && forall i :: i in batch ==> w.dbOk(i) {
      DecidedIsWritten(rows, batch, w, id);
      assert Decision(rows, id, w).value.id == id;
    }
    if id in batch {
      DecisionMeans(rows, id, w);
    }
  }

  lemma {:induction false} DecidedRowsAreFrozen(rows: Rows, steps: seq<Step>, limit: nat, id: Id)
    requires ValidRun(rows, steps, limit) && id in rows && rows[id].outcome.Some?
    ensures forall x :: x in History(rows, steps, limit) ==> x.id != id
    ensures id in Execute(rows, steps, limit) && Execute(rows, steps, limit)[id] == rows[id]
    decreases |steps|
  {
    if steps != [] {
      StepWritesPending(rows, steps[0], limit);
      DecidedRowsAreFrozen(Next(rows, steps[0], limit), steps[1..], limit, id);
    }
  }

  /**
   * Over every run, whatever the RPC and the database do: no row is written twice, only APPROVE rows are
   * written, and a slot is recorded exactly when the outcome is not "expired".
   */
  lemma {:induction false} WriteOnce(rows: Rows, steps: seq<Step>, limit: nat)
    requires ValidRun(rows, steps, limit)
    ensures DistinctIds(History(rows, steps, limit))
    ensures forall x :: x in History(rows, steps, limit) ==>
      && x.id in Execute(rows, steps, limit)
      && var row := Execute(rows, steps, limit)[x.id];
         row.verdict == Approve && row.outcome == Some(x.outcome) && row.slot == x.slot
           && (x.slot.Some? <==> x.outcome != Expired)
    decreases |steps|
  {
    if steps != [] {
      var next := Next(rows, steps[0], limit);
      var now, later := StepWrites(rows, steps[0], limit), History(next, steps[1..], limit);
      StepWritesPending(rows, steps[0], limit);
      WriteOnce(next, steps[1..], limit);
      forall x | x in now
        ensures forall y :: y in later ==> y.id != x.id
        ensures x.id in Execute(next, steps[1..], limit) && Execute(next, steps[1..], limit)[x.id] == next[x.id]
      {
        DecidedRowsAreFrozen(next, steps[1..], limit, x.id);
      }
      assert History(rows, steps, limit) == now + later;
    }
  }

  /* ---------- draining ---------- */

  /** Pending rows created before `cut` whose signature parses. */
  ghost function Due(rows: Rows, cut: int): (s: set<Id>)
  {
    set id | id in rows && Pending(rows[id]) && rows[id].createdAt < cut && |rows[id].signature.value| == 64
  }

  /** Pending rows created before `cut` whose signature does not: they are retried for ever. */
  ghost function Stuck(rows: Rows, cut: int): (s: set<Id>)
  {
    set id | id in rows && Pending(rows[id]) && rows[id].createdAt < cut && |rows[id].signature.value| != 64
  }

  /** The RPC and the database answer, and the clock is past the TTL of everything created before `cut`. */
  ghost predicate Healthy(w: World, cut: int)
  {
    && (forall id :: w.rpc(id) != RpcError)
    && (forall id :: w.dbOk(id))
    && w.now - EffectiveTtl(w.ttl) >= cut
  }

  ghost predicate HealthyStep(s: Step, cut: int)
  {
    match s
    case Cycle(_, w) => Healthy(w, cut)
    case Arrive(_, row) => row.createdAt >= cut
  }

  lemma {:induction false} HealthyCycleDecides(snapshot: Rows, batch: seq<Id>, w: World, cut: int, id: Id)
    requires Healthy(w, cut)
    requires id in batch && id in Due(snapshot, cut)
    ensures exists x :: x in CycleWrites(snapshot, batch, w) && x.id == id
    decreases |batch|
  {
    if batch[0] == id {
      assert Decision(snapshot, id, w).value in CycleWrites(snapshot, batch, w);
    } else {
      assert id in batch[1..];
      HealthyCycleDecides(snapshot, batch[1..], w, cut, id);
      var x :| x in CycleWrites(snapshot, batch[1..], w) && x.id == id;
      assert x in CycleWrites(snapshot, batch, w);
    }
  }

  /** A healthy step decides every due row it fetched and changes nothing else about the due and stuck sets. */
  lemma DueAfterStep(rows: Rows, s: Step, limit: nat, cut: int)
    requires Enabled(rows, s, limit) && HealthyStep(s, cut)
    ensures Stuck(Next(rows, s, limit), cut) == Stuck(rows, cut)
    ensures Due(Next(rows, s, limit), cut) == Due(rows, cut) - if s.Cycle? then Members(s.batch) else {}
  {
    StepWritesPending(rows, s, limit);
    if s.Cycle? {
      var next, ws := Next(rows, s, limit), CycleWrites(rows, s.batch, s.w);
      forall id | id in rows
        ensures (exists x :: x in ws && x.id == id) ==>
          id in s.batch && |rows[id].signature.value| == 64 && !Pending(next[id])
        ensures !(exists x :: x in ws && x.id == id) ==> next[id] == rows[id]
        ensures id in s.batch && id in Due(rows, cut) ==> exists x :: x in ws && x.id == id
      {
        if x :| x in ws && x.id == id {
          WritesComeFromBatch(rows, s.batch, s.w, x);
        }
        if id in s.batch && id in Due(rows, cut) {
          HealthyCycleDecides(rows, s.batch, s.w, cut, id);
        }
      }
      assert next.Keys == rows.Keys;
    }
  }

  function Members(batch: seq<Id>): (s: set<Id>)
  {
    set id | id in batch
  }

  lemma {:induction false} DistinctSeqSize(batch: seq<Id>)
    requires forall i, j :: 0 <= i < j < |batch| ==> batch[i] != batch[j]
    ensures |Members(batch)| == |batch|
  {
    if batch != [] {
      DistinctSeqSize(batch[1..]);
      assert Members(batch) == {batch[0]} + Members(batch[1..]);
    }
  }

  lemma SubsetSize<T>(a: set<T>, b: set<T>)
    requires a <= b
    ensures |a| <= |b|
  {
    assert b == a + (b - a);
  }

  lemma RemainingSize<T>(due: set<T>, stuck: set<T>, fetched: set<T>)
    requires fetched <= due + stuck
    ensures |due - fetched| + |fetched| <= |due| + |stuck|
  {
    var both := due * fetched;
    assert due == (due - fetched) + both && (due - fetched) !! both;
    assert |due| == |due - fetched| + |both|;
    assert fetched <= both + stuck;
    SubsetSize(fetched, both + stuck);
    assert |both + stuck| <= |both| + |stuck|;
  }

  /** A healthy cycle clears at least `limit` due rows, less the stuck ones, or all of them. */
  lemma CycleProgress(rows: Rows, s: Step, limit: nat, cut: int)
    requires s.Cycle? && Enabled(rows, s, limit) && HealthyStep(s, cut)
    ensures Due(Next(rows, s, limit), cut) == {}
         || |Due(Next(rows, s, limit), cut)| + limit <= |Due(rows, cut)| + |Stuck(rows, cut)|
  {
    DueAfterStep(rows, s, limit, cut);
    var due, stuck, fetched := Due(rows, cut), Stuck(rows, cut), Members(s.batch);
    if d :| d in due - fetched {
      assert |s.batch| == limit;
      assert fetched <= due + stuck by {
        forall id | id in fetched ensures id in due + stuck {
          assert rows[id].createdAt <= rows[d].createdAt;
        }
      }
      DistinctSeqSize(s.batch);
      RemainingSize(due, stuck, fetched);
    } else {
      assert due - fetched == {};
    }
  }

  function CycleCount(steps: seq<Step>): (n: nat)
  {
    if steps == [] then 0 else (if steps[0].Cycle? then 1 else 0) + CycleCount(steps[1..])
  }

  /** After one healthy step, the cycles that remain still cover the due rows that remain. */
  lemma DrainStep(rows: Rows, s: Step, limit: nat, cut: int, rate: nat, budget: nat)
    requires Enabled(rows, s, limit) && HealthyStep(s, cut)
    requires |Stuck(rows, cut)| + rate <= limit
    requires |Due(rows, cut)| <= budget + if s.Cycle? then rate else 0
    ensures |Stuck(Next(rows, s, limit), cut)| + rate <= limit
    ensures |Due(Next(rows, s, limit), cut)| <= budget
  {
    DueAfterStep(rows, s, limit, cut);
    if s.Cycle? {
      CycleProgress(rows, s, limit, cut);
    }
  }

  lemma {:induction false} DrainDue(rows: Rows, steps: seq<Step>, limit: nat, cut: int, rate: nat)
    requires ValidRun(rows, steps, limit) && forall s :: s in steps ==> HealthyStep(s, cut)
    requires |Stuck(rows, cut)| + rate <= limit
    requires |Due(rows, cut)| <= CycleCount(steps) * rate
    ensures Due(Execute(rows, steps, limit), cut) == {}
    decreases |steps|
  {
    if steps != [] {
      assert steps[0] in steps;
      OneCycleLess(CycleCount(steps[1..]), rate);
      DrainStep(rows, steps[0], limit, cut, rate, CycleCount(steps[1..]) * rate);
      DrainDue(Next(rows, steps[0], limit), steps[1..], limit, cut, rate);
    }
  }

  lemma OneCycleLess(n: nat, rate: nat)
    ensures (n + 1) * rate == n * rate + rate
  {
  }

  lemma {:induction false} RowsPersist(rows: Rows, steps: seq<Step>, limit: nat, id: Id)
    requires ValidRun(rows, steps, limit) && id in rows
    ensures id in Execute(rows, steps, limit)
    ensures var r := Execute(rows, steps, limit)[id];
      r.verdict == rows[id].verdict && r.createdAt == rows[id].createdAt && r.signature == rows[id].signature
    decreases |steps|
  {
    if steps != [] {
      StepWritesPending(rows, steps[0], limit);
      RowsPersist(Next(rows, steps[0], limit), steps[1..], limit, id);
    }
  }

  /**
   * Capture drains: if fewer stuck rows than a batch are past the TTL, then k due rows are all decided after
   * ceil(k / rate) healthy cycles, where rate is what the stuck rows leave of a batch, even as newer rows arrive.
   */
  lemma CaptureDrains(rows: Rows, steps: seq<Step>, limit: nat, cut: int, rate: nat)
    requires ValidRun(rows, steps, limit) && forall s :: s in steps ==> HealthyStep(s, cut)
    requires rate >= 1 && |Stuck(rows, cut)| + rate <= limit
    requires CycleCount(steps) >= (|Due(rows, cut)| + rate - 1) / rate
    ensures forall id :: id in Due(rows, cut) ==>
      id in Execute(rows, steps, limit) && Execute(rows, steps, limit)[id].outcome.Some?
  {
    CeilCovers(|Due(rows, cut)|, rate, CycleCount(steps));
    DrainDue(rows, steps, limit, cut, rate);
    forall id | id in Due(rows, cut)
      ensures id in Execute(rows, steps, limit) && Execute(rows, steps, limit)[id].outcome.Some?
    {
      RowsPersist(rows, steps, limit, id);
      assert id !in Due(Execute(rows, steps, limit), cut);
    }
  }

  lemma CeilCovers(k: nat, rate: nat, cycles: nat)
    requires rate >= 1 && cycles >= (k + rate - 1) / rate
    ensures k <= cycles * rate
  {
    var q := (k + rate - 1) / rate;
    assert k + rate - 1 == q * rate + (k + rate - 1) % rate;
    assert (cycles - q) * rate >= 0;
  }

  /* ---------- starving ---------- */

  lemma StuckPersist(rows: Rows, s: Step, limit: nat, cut: int)
    requires Enabled(rows, s, limit)
    ensures Stuck(rows, cut) <= Stuck(Next(rows, s, limit), cut)
  {
    StepWritesPending(rows, s, limit);
    forall id | id in Stuck(rows, cut) ensures forall x :: x in StepWrites(rows, s, limit) ==> x.id != id {
      forall x | x in StepWrites(rows, s, limit) ensures x.id != id {
        WritesComeFromBatch(rows, s.batch, s.w, x);
      }
    }
  }

  /** A batch's worth of stuck rows keeps everything newer out of the batch. */
  lemma StarvedBatch(rows: Rows, batch: seq<Id>, limit: nat, cut: int, id: Id)
    requires IsBatch(rows, limit, batch) && id in batch && |Stuck(rows, cut)| >= limit
    ensures rows[id].createdAt < cut
  {
    if missing :| missing in Stuck(rows, cut) && missing !in batch {
      assert rows[id].createdAt <= rows[missing].createdAt;
    } else if id !in Stuck(rows, cut) {
      DistinctSeqSize(batch);
      SubsetSize(Stuck(rows, cut), Members(batch) - {id});
    }
  }

  /**
   * With a batch's worth of malformed signatures older than `cut`, no run ever decides a row created at `cut`
   * or later, whatever older rows there are, whatever arrives, and whatever the RPC and the database do.
   */
  lemma {:induction false} StuckRowsStarveTheRest(rows: Rows, steps: seq<Step>, limit: nat, cut: int, x: Write)
    requires ValidRun(rows, steps, limit) && |Stuck(rows, cut)| >= limit
    requires x in History(rows, steps, limit)
    ensures x.id in Execute(rows, steps, limit) && Execute(rows, steps, limit)[x.id].createdAt < cut
    decreases |steps|
  {
    var s := steps[0];
    var next := Next(rows, s, limit);
    if x in StepWrites(rows, s, limit) {
      WritesComeFromBatch(rows, s.batch, s.w, x);
      StarvedBatch(rows, s.batch, limit, cut, x.id);
      RowsPersist(rows, steps, limit, x.id);
    } else {
      StuckPersist(rows, s, limit, cut);
      SubsetSize(Stuck(rows, cut), Stuck(next, cut));
      StuckRowsStarveTheRest(next, steps[1..], limit, cut, x);
    }
  }

  lemma {:induction false} UnwrittenRowsUnchanged(rows: Rows, steps: seq<Step>, limit: nat, id: Id)
    requires ValidRun(rows, steps, limit) && id in rows
    requires forall x :: x in History(rows, steps, limit) ==> x.id != id
    ensures id in Execute(rows, steps, limit) && Execute(rows, steps, limit)[id] == rows[id]
    decreases |steps|
  {
    if steps != [] {
      StepWritesPending(rows, steps[0], limit);
      UnwrittenRowsUnchanged(Next(rows, steps[0], limit), steps[1..], limit, id);
    }
  }

  /** A healthy run, as far as rows created before `cut` go, of at least `n` cycles. */
  ghost predicate LongHealthy(rows: Rows, steps: seq<Step>, limit: nat, cut: int, n: nat)
  {
    ValidRun(rows, steps, limit) && (forall s :: s in steps ==> HealthyStep(s, cut)) && CycleCount(steps) >= n
  }

  ghost predicate Decided(rows: Rows, steps: seq<Step>, limit: nat, id: Id)
    requires ValidRun(rows, steps, limit)
  {
    id in Execute(rows, steps, limit) && Execute(rows, steps, limit)[id].outcome.Some?
  }

  /** A pending row whose signature parses. */
  predicate Decidable(rows: Rows, id: Id)
  {
    id in rows && Pending(rows[id]) && |rows[id].signature.value| == 64
  }

  /**
   * In a healthy run with as many cycles as there are due rows no newer than it, a decidable row is decided if
   * fewer than a batch of malformed rows are no newer than it; in any run at all, it is never decided if a batch
   * of malformed rows are older.
   */
  lemma DecidedOrStarved(rows: Rows, steps: seq<Step>, limit: nat, id: Id)
    requires Decidable(rows, id) && ValidRun(rows, steps, limit)
    ensures var t := rows[id].createdAt;
      LongHealthy(rows, steps, limit, t + 1, |Due(rows, t + 1)|) && |Stuck(rows, t + 1)| < limit ==>
        Decided(rows, steps, limit, id)
    ensures |Stuck(rows, rows[id].createdAt)| >= limit ==> !Decided(rows, steps, limit, id)
  {
    var t := rows[id].createdAt;
    if |Stuck(rows, t)| >= limit {
      forall x | x in History(rows, steps, limit) ensures x.id != id {
        StuckRowsStarveTheRest(rows, steps, limit, t, x);
        RowsPersist(rows, steps, limit, id);
      }
      UnwrittenRowsUnchanged(rows, steps, limit, id);
    }
    if LongHealthy(rows, steps, limit, t + 1, |Due(rows, t + 1)|) && |Stuck(rows, t + 1)| < limit {
      CaptureDrains(rows, steps, limit, t + 1, 1);
    }
  }

  /* ---------- building runs; the database breaks ties as it likes ---------- */

  /** Of two rows of one time, one in `first` goes before one that is not. */
  predicate Before(rows: Rows, first: set<Id>, a: Id, b: Id)
    requires a in rows && b in rows
  {
    || rows[a].createdAt < rows[b].createdAt
    || (rows[a].createdAt == rows[b].createdAt && (b in first ==> a in first))
  }

  lemma {:induction false} Foremost(rows: Rows, first: set<Id>, ids: set<Id>) returns (m: Id)
    requires ids != {} && ids <= rows.Keys
    ensures m in ids && forall id :: id in ids ==> Before(rows, first, m, id)
    decreases |ids|
  {
    m :| m in ids;
    if ids != {m} {
      var any := m;
      var other := Foremost(rows, first, ids - {any});
      m := if Before(rows, first, any, other) then any else other;
      forall id | id in ids ensures Before(rows, first, m, id) {
        assert id == any || Before(rows, first, other, id);
      }
    }
  }

  /** A batch the query may return that puts the rows of `first` before others of the same time. */
  ghost predicate Favours(rows: Rows, limit: nat, batch: seq<Id>, first: set<Id>)
  {
    && IsBatch(rows, limit, batch)
    && forall id, b :: id in rows && Pending(rows[id]) && id !in batch && b in batch ==> Before(rows, first, b, id)
  }

  lemma {:induction false} SomeBatch(rows: Rows, limit: nat, first: set<Id>) returns (batch: seq<Id>)
    ensures Favours(rows, limit, batch, first)
  {
    batch := [];
    if limit > 0 {
      batch := SomeBatch(rows, limit - 1, first);
      var rest := set id | id in rows && Pending(rows[id]) && id !in batch;
      if rest != {} {
        var m := Foremost(rows, first, rest);
        forall id | id in rest - {m} ensures Before(rows, first, m, id) {
        }
        batch := batch + [m];
        assert forall id :: id in rows && Pending(rows[id]) && id !in batch ==> id in rest - {m};
      } else {
        assert forall id :: id in rows && Pending(rows[id]) ==> id in batch || id in rest;
      }
    }
  }

  /** The RPC knows no signature, the database is well, and everything older than `cut` is past its TTL. */
  function Quiet(cut: int): (w: World)
  {
    World(cut, 0, (id: Id) => NotFound, (id: Id) => true)
  }

  lemma QuietIsHealthy(cut: int)
    ensures Healthy(Quiet(cut), cut)
  {
  }

  /** Put one healthy cycle before a healthy run. */
  lemma {:induction false} OneMoreCycle(rows: Rows, s: Step, steps: seq<Step>, limit: nat, cut: int, n: nat)
    requires s.Cycle? && Enabled(rows, s, limit) && HealthyStep(s, cut)
    requires LongHealthy(Next(rows, s, limit), steps, limit, cut, n)
    ensures LongHealthy(rows, [s] + steps, limit, cut, n + 1)
    ensures Execute(rows, [s] + steps, limit) == Execute(Next(rows, s, limit), steps, limit)
  {
    assert ([s] + steps)[1..] == steps;
  }

  /** Healthy runs of any number of cycles exist. */
  lemma {:induction false} SomeHealthyRun(rows: Rows, limit: nat, cut: int, n: nat) returns (steps: seq<Step>)
    ensures LongHealthy(rows, steps, limit, cut, n)
    decreases n
  {
    steps := [];
    if n > 0 {
      var batch := SomeBatch(rows, limit, {});
      var s := Cycle(batch, Quiet(cut));
      QuietIsHealthy(cut);
      steps := SomeHealthyRun(Next(rows, s, limit), limit, cut, n - 1);
      OneMoreCycle(rows, s, steps, limit, cut, n - 1);
      steps := [s] + steps;
    }
  }

  function Malformed(rows: Rows): (s: set<Id>)
  {
    set id | id in rows && rows[id].signature.Some? && |rows[id].signature.value| != 64
  }

  /** With malformed rows first, a batch's worth of them no newer than a decidable row keeps it out. */
  lemma KeptOut(rows: Rows, limit: nat, batch: seq<Id>, id: Id)
    requires Decidable(rows, id) && |Stuck(rows, rows[id].createdAt + 1)| >= limit
    requires Favours(rows, limit, batch, Malformed(rows))
    ensures id !in batch
  {
    var stuck := Stuck(rows, rows[id].createdAt + 1);
    if missing :| missing in stuck && missing !in batch {
      assert id in batch ==> Before(rows, Malformed(rows), id, missing);
    } else if id in batch {
      DistinctSeqSize(batch);
      SubsetSize(stuck, Members(batch) - {id});
    }
  }

  lemma StepLeavesRow(rows: Rows, s: Step, limit: nat, id: Id)
    requires s.Cycle? && Enabled(rows, s, limit) && id in rows && id !in s.batch
    ensures id in Next(rows, s, limit) && Next(rows, s, limit)[id] == rows[id]
  {
    StepWritesPending(rows, s, limit);
    forall x | x in StepWrites(rows, s, limit) ensures x.id != id {
      WritesComeFromBatch(rows, s.batch, s.w, x);
    }
  }

  /** If a batch of malformed rows are no newer than it, some healthy run of any length leaves a row undecided. */
  lemma {:induction false} RunAgainst(rows: Rows, limit: nat, id: Id, n: nat) returns (steps: seq<Step>)
    requires Decidable(rows, id) && |Stuck(rows, rows[id].createdAt + 1)| >= limit
    ensures LongHealthy(rows, steps, limit, rows[id].createdAt + 1, n) && !Decided(rows, steps, limit, id)
    decreases n
  {
    steps := [];
    if n > 0 {
      var cut := rows[id].createdAt + 1;
      var batch := SomeBatch(rows, limit, Malformed(rows));
      var s := Cycle(batch, Quiet(cut));
      var next := Next(rows, s, limit);
      QuietIsHealthy(cut);
      KeptOut(rows, limit, batch, id);
      StepLeavesRow(rows, s, limit, id);
      StuckPersist(rows, s, limit, cut);
      SubsetSize(Stuck(rows, cut), Stuck(next, cut));
      steps := RunAgainst(next, limit, id, n - 1);
      OneMoreCycle(rows, s, steps, limit, cut, n - 1);
      steps := [s] + steps;
    }
  }

  /** With the row itself first among its time, each cycle fetches it or an older due row. */
  lemma FavouredProgress(rows: Rows, limit: nat, batch: seq<Id>, id: Id)
    requires Decidable(rows, id) && |Stuck(rows, rows[id].createdAt)| < limit && Favours(rows, limit, batch, {id})
    requires id !in batch
    ensures Due(rows, rows[id].createdAt) * Members(batch) != {}
  {
    var t := rows[id].createdAt;
    forall b | b in batch ensures rows[b].createdAt < t {
      assert Before(rows, {id}, b, id);
    }
    DistinctSeqSize(batch);
    if Due(rows, t) * Members(batch) == {} {
      forall b | b in Members(batch) ensures b in Stuck(rows, t) {
        assert b !in Due(rows, t) * Members(batch);
      }
      SubsetSize(Members(batch), Stuck(rows, t));
    }
  }

  lemma FetchedIsDecided(rows: Rows, s: Step, limit: nat, id: Id)
    requires s.Cycle? && Enabled(rows, s, limit) && Decidable(rows, id) && id in s.batch
    requires HealthyStep(s, rows[id].createdAt + 1)
    ensures id in Next(rows, s, limit) && Next(rows, s, limit)[id].outcome.Some?
  {
    StepWritesPending(rows, s, limit);
    HealthyCycleDecides(rows, s.batch, s.w, rows[id].createdAt + 1, id);
  }

  lemma HealthyBefore(w: World, cut: int)
    requires Healthy(w, cut + 1)
    ensures Healthy(w, cut)
  {
  }

  lemma FavouredStep(rows: Rows, s: Step, limit: nat, id: Id)
    requires s.Cycle? && Favours(rows, limit, s.batch, {id}) && id !in s.batch
    requires Decidable(rows, id) && |Stuck(rows, rows[id].createdAt)| < limit
    requires HealthyStep(s, rows[id].createdAt + 1)
    ensures var t, next := rows[id].createdAt, Next(rows, s, limit);
      && id in next && next[id] == rows[id] && Stuck(next, t) == Stuck(rows, t)
      && |Due(next, t)| < |Due(rows, t)|
  {
    var t := rows[id].createdAt;
    FavouredProgress(rows, limit, s.batch, id);
    HealthyBefore(s.w, t);
    DueAfterStep(rows, s, limit, t);
    StepLeavesRow(rows, s, limit, id);
    FewerLeft(Due(rows, t), Members(s.batch));
  }

  /** If fewer than a batch of malformed rows are older, some healthy run of any sufficient length decides a row. */
  lemma {:induction false} RunInFavour(rows: Rows, limit: nat, id: Id, n: nat) returns (steps: seq<Step>)
    requires Decidable(rows, id) && |Stuck(rows, rows[id].createdAt)| < limit && n > |Due(rows, rows[id].createdAt)|
    ensures LongHealthy(rows, steps, limit, rows[id].createdAt + 1, n) && Decided(rows, steps, limit, id)
    decreases n
  {
    var t := rows[id].createdAt;
    var batch := SomeBatch(rows, limit, {id});
    var s := Cycle(batch, Quiet(t + 1));
    var next := Next(rows, s, limit);
    QuietIsHealthy(t + 1);
    if id in batch {
      FetchedIsDecided(rows, s, limit, id);
      steps := SomeHealthyRun(next, limit, t + 1, n - 1);
      DecidedRowsAreFrozen(next, steps, limit, id);
    } else {
      FavouredStep(rows, s, limit, id);
      steps := RunInFavour(next, limit, id, n - 1);
    }
    OneMoreCycle(rows, s, steps, limit, t + 1, n - 1);
    steps := [s] + steps;
  }

  lemma FewerLeft<T>(a: set<T>, b: set<T>)
    requires a * b != {}
    ensures |a - b| < |a|
  {
    assert a == (a - b) + a * b && (a - b) !! a * b;
  }

  /**
   * A decidable row is decided in every long enough healthy run, however the database breaks ties, if and only if
   * fewer than a batch of malformed rows are no newer than it.
   */
  lemma AlwaysDecidedIff(rows: Rows, limit: nat, id: Id, n: nat)
    requires Decidable(rows, id) && n >= |Due(rows, rows[id].createdAt + 1)|
    ensures var t := rows[id].createdAt;
      (forall steps :: LongHealthy(rows, steps, limit, t + 1, n) ==> Decided(rows, steps, limit, id))
      <==> |Stuck(rows, t + 1)| < limit
  {
    var t := rows[id].createdAt;
    if |Stuck(rows, t + 1)| < limit {
      forall steps | LongHealthy(rows, steps, limit, t + 1, n) ensures Decided(rows, steps, limit, id) {
        DecidedOrStarved(rows, steps, limit, id);
      }
    } else {
      var steps := RunAgainst(rows, limit, id, n);
    }
  }

  /** It is decided in some long enough healthy run if and only if fewer than a batch of malformed rows are older. */
  lemma EverDecidedIff(rows: Rows, limit: nat, id: Id, n: nat)
    requires Decidable(rows, id)
    ensures var t := rows[id].createdAt;
      (exists steps :: LongHealthy(rows, steps, limit, t + 1, n) && Decided(rows, steps, limit, id))
      <==> |Stuck(rows, t)| < limit
  {
    var t := rows[id].createdAt;
    if |Stuck(rows, t)| < limit {
      var steps := RunInFavour(rows, limit, id, n + |Due(rows, t)| + 1);
      assert LongHealthy(rows, steps, limit, t + 1, n);
    } else {
      forall steps | LongHealthy(rows, steps, limit, t + 1, n) ensures !Decided(rows, steps, limit, id) {
        DecidedOrStarved(rows, steps, limit, id);
      }
    }
  }
}
