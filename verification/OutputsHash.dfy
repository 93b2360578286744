/** The bytes fed to SHA-256 by `checker_outputs_hash` (crates/ciel-checkers/src/hash.rs). */
module OutputsHash {
  import opened Prelude
  import opened CheckerTypes
  import opened StableSort

  /* ---------- byte-wise name order ---------- */

  predicate NameLeq(a: Bytes, b: Bytes)
  {
    a == [] || (b != [] && (a[0] < b[0] || (a[0] == b[0] && NameLeq(a[1..], b[1..]))))
  }

  lemma {:induction false} NameLeqTotal(a: Bytes, b: Bytes)
    ensures NameLeq(a, b) || NameLeq(b, a)
  {
    if a != [] && b != [] {
      NameLeqTotal(a[1..], b[1..]);
    }
  }

  lemma {:induction false} NameLeqAntisymmetric(a: Bytes, b: Bytes)
    requires NameLeq(a, b) && NameLeq(b, a)
    ensures a == b
  {
    if a != [] && b != [] {
      NameLeqAntisymmetric(a[1..], b[1..]);
      assert a == [a[0]] + a[1..] && b == [b[0]] + b[1..];
    }
  }

  lemma {:induction false} NameLeqTransitive(a: Bytes, b: Bytes, c: Bytes)
    requires NameLeq(a, b) && NameLeq(b, c)
    ensures NameLeq(a, c)
  {
    if a != [] && a[0] == b[0] == c[0] {
      NameLeqTransitive(a[1..], b[1..], c[1..]);
    }
  }

  predicate ByName(x: CheckerOutput, y: CheckerOutput)
  {
    NameLeq(x.name, y.name)
  }

  lemma ByNameIsTotalPreorder()
    ensures TotalPreorder(ByName)
  {
    forall x: CheckerOutput, y: CheckerOutput ensures ByName(x, y) || ByName(y, x) {
      NameLeqTotal(x.name, y.name);
    }
    forall x: CheckerOutput, y: CheckerOutput, z: CheckerOutput | ByName(x, y) && ByName(y, z) ensures ByName(x, z) {
      NameLeqTransitive(x.name, y.name, z.name);
    }
  }

  /* ---------- the preimage ---------- */

  function CompletedOutput(results: CheckerResults, k: Bytes): (o: Option<CheckerOutput>)
  {
    if k in results && results[k].Completed? then Some(results[k].output) else None
  }

  /** Completed outputs in the order the hash map yields them. */
  function CompletedIn(results: CheckerResults, order: seq<Bytes>): (r: seq<CheckerOutput>)
  {
    FilterMap(order, k => CompletedOutput(results, k))
  }

  /** None is the panic of `expect` when an output is too long for Borsh. */
  function Preimage(results: CheckerResults, order: seq<Bytes>): (p: Option<Bytes>)
  {
    var sorted := Sort(CompletedIn(results, order), ByName);
    if forall o :: o in sorted ==> Fits(o) then Some(EncodeOutputs(sorted)) else None
  }

  lemma {:induction false} EncodeOutputsSnoc(os: seq<CheckerOutput>, o: CheckerOutput)
    ensures EncodeOutputs(os + [o]) == EncodeOutputs(os) + EncodeOutput(o)
  {
    if os == [] {
      assert os + [o] == [o];
      assert EncodeOutputs([o]) == EncodeOutput(o) + EncodeOutputs([o][1..]);
    } else {
      assert (os + [o])[1..] == os[1..] + [o];
      EncodeOutputsSnoc(os[1..], o);
      AppendAssociates(EncodeOutput(os[0]), EncodeOutputs(os[1..]), EncodeOutput(o));
    }
  }

  method CollectCompleted(results: CheckerResults, order: seq<Bytes>) returns (completed: seq<CheckerOutput>)
    requires Enumerates(order, results.Keys)
    ensures completed == CompletedIn(results, order)
  {
    completed := [];
    for i := 0 to |order|
      invariant completed == CompletedIn(results, order[..i])
    {
      FilterMapSnoc(order[..i], order[i], k => CompletedOutput(results, k));
      assert order[..i + 1] == order[..i] + [order[i]];
      match results[order[i]] {
        case Completed(output) => completed := completed + [output];
        case TimedOut =>
      }
    }
    assert order[..|order|] == order;
  }

  method FeedHasher(completed: seq<CheckerOutput>) returns (hashed: Option<Bytes>)
    ensures hashed == if forall o :: o in completed ==> Fits(o) then Some(EncodeOutputs(completed)) else None
  {
    var bytes: Bytes := [];
    for i := 0 to |completed|
      invariant bytes == EncodeOutputs(completed[..i])
      invariant forall o :: o in completed[..i] ==> Fits(o)
    {
      if !Fits(completed[i]) {
        return None;
      }
      EncodeOutputsSnoc(completed[..i], completed[i]);
      assert completed[..i + 1] == completed[..i] + [completed[i]];
      bytes := bytes + EncodeOutput(completed[i]);
    }
    assert completed[..|completed|] == completed;
    hashed := Some(bytes);
  }

  /** Collect the completed outputs, sort them, feed each encoding to the hasher. */
  method HashPreimage(results: CheckerResults, order: seq<Bytes>) returns (preimage: Option<Bytes>)
    requires Enumerates(order, results.Keys)
    ensures preimage == Preimage(results, order)
  {
    var completed := CollectCompleted(results, order);
    completed := Sort(completed, ByName);
    preimage := FeedHasher(completed);
  }

  /* ---------- the preimage is readable ---------- */

  /** A preimage decodes to the completed outputs sorted by name, and to nothing else. */
  lemma PreimageDecodes(results: CheckerResults, order: seq<Bytes>)
    requires Preimage(results, order).Some?
    ensures DecodeOutputs(Preimage(results, order).value) == Some(Sort(CompletedIn(results, order), ByName))
  {
    OutputsRoundTrip(Sort(CompletedIn(results, order), ByName));
  }

  /** The first `p` bytes agree, and there the first name ends or has the smaller byte. */
  ghost predicate SplitAt(a: Bytes, b: Bytes, p: nat)
  {
    p <= |a| && p <= |b| && a[..p] == b[..p] && (p == |a| || (p < |b| && a[p] < b[p]))
  }

  lemma {:induction false} NameOrder(a: Bytes, b: Bytes) returns (p: nat)
    requires NameLeq(a, b)
    ensures SplitAt(a, b, p)
  {
    p := 0;
    if a != [] && a[0] == b[0] {
      p := NameOrder(a[1..], b[1..]);
      assert a[..p + 1] == [a[0]] + a[1..][..p] && b[..p + 1] == [b[0]] + b[1..][..p];
      p := p + 1;
    }
  }

  /** Whatever the map order, a preimage lists the completed outputs in ascending byte order of their names. */
  lemma HashedInNameOrder(results: CheckerResults, order: seq<Bytes>, list: seq<CheckerOutput>, i: nat, j: nat)
    returns (p: nat)
    requires Enumerates(order, results.Keys) && Preimage(results, order).Some?
    requires DecodeOutputs(Preimage(results, order).value) == Some(list) && i < j < |list|
    ensures SplitAt(list[i].name, list[j].name, p)
  {
    PreimageDecodes(results, order);
    ByNameIsTotalPreorder();
    SortIsSorted(CompletedIn(results, order), ByName);
    p := NameOrder(list[i].name, list[j].name);
  }

  /** And it lists the outputs of completed checkers, all of them and nothing else. */
  lemma HashedOutputs(results: CheckerResults, order: seq<Bytes>, list: seq<CheckerOutput>, o: CheckerOutput)
    requires Enumerates(order, results.Keys) && Preimage(results, order).Some?
    requires DecodeOutputs(Preimage(results, order).value) == Some(list)
    ensures o in list <==> exists k :: k in results && results[k] == Completed(o)
  {
    PreimageDecodes(results, order);
    SortMembers(CompletedIn(results, order), ByName);
    CompletedInMembers(results, order, o);
  }

  lemma CompletedInMembers(results: CheckerResults, order: seq<Bytes>, o: CheckerOutput)
    requires Enumerates(order, results.Keys)
    ensures o in CompletedIn(results, order) <==> exists k :: k in results && results[k] == Completed(o)
  {
    var f := k => CompletedOutput(results, k);
    FilterMapMembers(order, f, o);
    if k :| k in results && results[k] == Completed(o) {
      assert k in order && f(k) == Some(o);
    }
  }

  ghost predicate AllFit(results: CheckerResults)
  {
    forall k :: k in results && results[k].Completed? ==> Fits(results[k].output)
  }

  lemma PreimageIsSome(results: CheckerResults, order: seq<Bytes>)
    requires Enumerates(order, results.Keys)
    ensures Preimage(results, order).Some? <==> AllFit(results)
  {
    var c := CompletedIn(results, order);
    SortMembers(c, ByName);
    if AllFit(results) {
      forall o | o in c ensures Fits(o) {
        CompletedInMembers(results, order, o);
      }
    } else {
      var k :| k in results && results[k].Completed? && !Fits(results[k].output);
      assert results[k] == Completed(results[k].output);
      CompletedInMembers(results, order, results[k].output);
    }
  }

  /* ---------- independence from the map's iteration order ---------- */

  ghost predicate OrderIndependent(results: CheckerResults)
  {
    forall a, b :: Enumerates(a, results.Keys) && Enumerates(b, results.Keys) ==>
      Preimage(results, a) == Preimage(results, b)
  }

  ghost predicate EqualNamesEqualOutputs(results: CheckerResults)
  {
    forall j, k ::
      (&& j in results && k in results && results[j].Completed? && results[k].Completed?
       && results[j].output.name == results[k].output.name)
      ==> results[j].output == results[k].output
  }

  lemma TiesAreEqual(results: CheckerResults, order: seq<Bytes>, x: CheckerOutput, y: CheckerOutput)
    requires EqualNamesEqualOutputs(results) && Enumerates(order, results.Keys)
    requires x in CompletedIn(results, order) && y in CompletedIn(results, order) && ByName(x, y) && ByName(y, x)
    ensures x == y
  {
    NameLeqAntisymmetric(x.name, y.name);
    CompletedInMembers(results, order, x);
    CompletedInMembers(results, order, y);
  }

  lemma SortsAgree(c1: seq<CheckerOutput>, c2: seq<CheckerOutput>)
    requires multiset(c1) == multiset(c2)
    requires Untied(c1, ByName)
    ensures Sort(c1, ByName) == Sort(c2, ByName)
  {
    ByNameIsTotalPreorder();
    SortIsSorted(c1, ByName);
    SortIsSorted(c2, ByName);
    SortMembers(c1, ByName);
    SortedIsUnique(Sort(c1, ByName), Sort(c2, ByName), ByName);
  }

  /** Equal outputs up to order, in a map where equal names carry equal outputs, give one preimage. */
  lemma SameMembersSamePreimage(r1: CheckerResults, o1: seq<Bytes>, r2: CheckerResults, o2: seq<Bytes>)
    requires EqualNamesEqualOutputs(r1)
    requires Enumerates(o1, r1.Keys)
    requires multiset(CompletedIn(r1, o1)) == multiset(CompletedIn(r2, o2))
    ensures Preimage(r1, o1) == Preimage(r2, o2)
  {
    forall x, y | x in CompletedIn(r1, o1) && y in CompletedIn(r1, o1) && ByName(x, y) && ByName(y, x) ensures x == y {
      TiesAreEqual(r1, o1, x, y);
    }
    SortsAgree(CompletedIn(r1, o1), CompletedIn(r2, o2));
  }

  lemma TwoInFront<T>(j: T, k: T, rest: seq<T>, s: set<T>)
    requires j in s && k in s && j != k && Enumerates(rest, s - {j, k})
    ensures Enumerates([j] + ([k] + rest), s) && Enumerates([k] + ([j] + rest), s)
  {
    var a, b := [j] + ([k] + rest), [k] + ([j] + rest);
    forall x | x in s ensures x in a && x in b {
      if x == j { assert a[0] == x && b[1] == x; }
      else if x == k { assert a[1] == x && b[0] == x; }
      else { assert x in rest; }
    }
  }

  /** The outputs of one name as they stand in the sorted list. */
  function NamedInSorted(results: CheckerResults, order: seq<Bytes>, name: Bytes): (r: seq<CheckerOutput>)
  {
    Only(Sort(CompletedIn(results, order), ByName), (o: CheckerOutput) => o.name == name)
  }

  /** With `j` listed first, the sorted list shows j's output first among those of its name. */
  lemma FirstOfItsName(results: CheckerResults, j: Bytes, rest: seq<Bytes>, name: Bytes)
    requires j in results && results[j].Completed? && results[j].output.name == name
    ensures var named := NamedInSorted(results, [j] + rest, name);
            named != [] && named[0] == results[j].output
  {
    var f := k => CompletedOutput(results, k);
    var p := (o: CheckerOutput) => o.name == name;
    var c := CompletedIn(results, [j] + rest);
    assert ([j] + rest)[1..] == rest;
    assert c == Single(f(j)) + FilterMap(rest, f);
    forall a: CheckerOutput, b: CheckerOutput | p(a) && p(b) ensures ByName(a, b) {
      NameLeqTotal(a.name, b.name);
    }
    SortIsStable(c, ByName, p);
  }

  lemma DifferentListsDifferentPreimages(results: CheckerResults, a: seq<Bytes>, b: seq<Bytes>, name: Bytes)
    requires AllFit(results)
    requires Enumerates(a, results.Keys) && Enumerates(b, results.Keys)
    requires NamedInSorted(results, a, name) != NamedInSorted(results, b, name)
    ensures Preimage(results, a) != Preimage(results, b)
  {
    PreimageIsSome(results, a);
    PreimageIsSome(results, b);
    PreimageDecodes(results, a);
    PreimageDecodes(results, b);
  }

  /** Two orders that differ only in which of two same-named, different outputs comes first are told apart. */
  lemma ClashIsVisible(results: CheckerResults, j: Bytes, k: Bytes, name: Bytes, rest: seq<Bytes>)
    requires AllFit(results)
    requires CompletedOutput(results, j).Some? && CompletedOutput(results, j).value.name == name
    requires CompletedOutput(results, k).Some? && CompletedOutput(results, k).value.name == name
    requires CompletedOutput(results, j) != CompletedOutput(results, k)
    requires Enumerates([j] + ([k] + rest), results.Keys) && Enumerates([k] + ([j] + rest), results.Keys)
    ensures Preimage(results, [j] + ([k] + rest)) != Preimage(results, [k] + ([j] + rest))
  {
    FirstOfItsName(results, j, [k] + rest, name);
    FirstOfItsName(results, k, [j] + rest, name);
    DifferentListsDifferentPreimages(results, [j] + ([k] + rest), [k] + ([j] + rest), name);
  }

  lemma ClashMakesOrderMatter(results: CheckerResults, j: Bytes, k: Bytes)
    requires AllFit(results)
    requires CompletedOutput(results, j).Some? && CompletedOutput(results, k).Some?
    requires CompletedOutput(results, j).value.name == CompletedOutput(results, k).value.name
    requires CompletedOutput(results, j) != CompletedOutput(results, k)
    ensures !OrderIndependent(results)
  {
    var rest := SomeEnumeration(results.Keys - {j, k});
    var a, b := [j] + ([k] + rest), [k] + ([j] + rest);
    TwoInFront(j, k, rest, results.Keys);
    ClashIsVisible(results, j, k, results[j].output.name, rest);
    OrderMatters(results, a, b);
  }

  lemma OrderMatters(results: CheckerResults, a: seq<Bytes>, b: seq<Bytes>)
    requires Enumerates(a, results.Keys) && Enumerates(b, results.Keys) && Preimage(results, a) != Preimage(results, b)
    ensures !OrderIndependent(results)
  {
  }

  /**
   * Map order has no effect exactly when completed outputs of equal name are equal, or when some output does not
   * fit and so every order panics.
   */
  lemma OrderIndependentIff(results: CheckerResults)
    ensures OrderIndependent(results) <==> EqualNamesEqualOutputs(results) || !AllFit(results)
  {
    if !AllFit(results) {
      forall a, b | Enumerates(a, results.Keys) && Enumerates(b, results.Keys)
        ensures Preimage(results, a) == Preimage(results, b)
      {
        PreimageIsSome(results, a);
        PreimageIsSome(results, b);
      }
    } else if EqualNamesEqualOutputs(results) {
      forall a, b | Enumerates(a, results.Keys) && Enumerates(b, results.Keys)
        ensures Preimage(results, a) == Preimage(results, b)
      {
        FilterMapSameSurvivors(a, b, results.Keys, results.Keys, k => CompletedOutput(results, k));
        SameMembersSamePreimage(results, a, results, b);
      }
    } else {
      var j, k :| j in results && k in results && results[j].Completed? && results[k].Completed?
        && results[j].output.name == results[k].output.name && results[j].output != results[k].output;
      ClashMakesOrderMatter(results, j, k);
    }
  }

  /* ---------- the preimage determines the completed outputs ---------- */

  /** What `run_checkers` produces: each key is the name inside its output. */
  ghost predicate KeyedByName(results: CheckerResults)
  {
    forall k :: k in results && results[k].Completed? ==> results[k].output.name == k
  }

  function CompletedPart(results: CheckerResults): (m: map<Bytes, CheckerOutput>)
  {
    map k | k in results && results[k].Completed? :: results[k].output
  }

  lemma EqualMembersEqualParts(r1: CheckerResults, o1: seq<Bytes>, r2: CheckerResults, o2: seq<Bytes>)
    requires KeyedByName(r1) && KeyedByName(r2)
    requires Enumerates(o1, r1.Keys) && Enumerates(o2, r2.Keys)
    requires forall o :: o in CompletedIn(r1, o1) ==> o in CompletedIn(r2, o2)
    ensures forall k :: k in CompletedPart(r1) ==>
      k in CompletedPart(r2) && CompletedPart(r2)[k] == CompletedPart(r1)[k]
  {
    forall k | k in CompletedPart(r1) ensures k in CompletedPart(r2) && CompletedPart(r2)[k] == CompletedPart(r1)[k] {
      var o := r1[k].output;
      assert r1[k] == Completed(o);
      CompletedInMembers(r1, o1, o);
      CompletedInMembers(r2, o2, o);
    }
  }

  lemma EqualPartsEqualPreimages(r1: CheckerResults, o1: seq<Bytes>, r2: CheckerResults, o2: seq<Bytes>)
    requires KeyedByName(r1) && KeyedByName(r2)
    requires Enumerates(o1, r1.Keys) && Enumerates(o2, r2.Keys)
    requires CompletedPart(r1) == CompletedPart(r2)
    ensures Preimage(r1, o1) == Preimage(r2, o2)
  {
    var f, g := k => CompletedOutput(r1, k), k => CompletedOutput(r2, k);
    forall k: Bytes ensures f(k) == g(k) {
      assert k in CompletedPart(r1) <==> k in CompletedPart(r2);
      if k in CompletedPart(r1) {
        assert CompletedPart(r1)[k] == CompletedPart(r2)[k];
      }
    }
    FilterMapAgree(o2, f, g);
    FilterMapSameSurvivors(o1, o2, r1.Keys, r2.Keys, f);
    SameMembersSamePreimage(r1, o1, r2, o2);
  }

  /**
   * Two result sets, each listed in any order, with any timed-out checkers mixed in, feed the hasher
   * the same bytes exactly when the same checkers completed with the same outputs.
   */
  lemma SamePreimageIff(r1: CheckerResults, o1: seq<Bytes>, r2: CheckerResults, o2: seq<Bytes>)
    requires KeyedByName(r1) && KeyedByName(r2) && AllFit(r1) && AllFit(r2)
    requires Enumerates(o1, r1.Keys) && Enumerates(o2, r2.Keys)
    ensures Preimage(r1, o1) == Preimage(r2, o2) <==> CompletedPart(r1) == CompletedPart(r2)
  {
    if Preimage(r1, o1) == Preimage(r2, o2) {
      PreimageIsSome(r1, o1);
      PreimageDecodes(r1, o1);
      PreimageDecodes(r2, o2);
      SortMembers(CompletedIn(r1, o1), ByName);
      SortMembers(CompletedIn(r2, o2), ByName);
      EqualMembersEqualParts(r1, o1, r2, o2);
      EqualMembersEqualParts(r2, o2, r1, o1);
    }
    if CompletedPart(r1) == CompletedPart(r2) {
      EqualPartsEqualPreimages(r1, o1, r2, o2);
    }
  }
}
