/** The driver of knowledge.py: `current_best_learning`, a depth-first
    backtracking search over the examples that keeps one current hypothesis. */
module Learning {
  import opened Hypotheses
  import opened Evaluator
  import opened Consistency
  import opened Refinement

  /** The result of the search: a hypothesis, or the `'FAIL'` sentinel. */
  datatype Outcome = Fail | Found(h: Hyp)

  /** `utils.powerset` yields at least one entry for every non-empty key set. */
  ghost predicate NonEmptyPowersets(ps: set<string> -> seq<seq<string>>)
  {
    forall ks: set<string> :: ks != {} ==> |ps(ks)| > 0
  }

  lemma {:induction false} BindsFromNonEmpty(ps: set<string> -> seq<seq<string>>, h: Hyp)
    requires NonEmptyPowersets(ps)
    ensures BindsH2(ps, h)
    decreases h
  {
    if h.alt.Some? {
      assert OrKey in Keys(h);
      BindsFromNonEmpty(ps, h.alt.value);
    }
  }

  /** The candidates generalizations is certain to return: the deletion
      candidates, and the add_or candidates when `h` has no `'|'`. */
  ghost predicate IsGuaranteed(exs: seq<Example>, ps: set<string> -> seq<seq<string>>, h: Hyp, c: Hyp)
  {
    || Deleted(exs, h, ps(Keys(h)), |ps(Keys(h))|, c)
    || (h.alt.None? && |exs| > 0 && AddedOr(exs, h, ps(AttrKeys(exs[|exs| - 1])), |ps(AttrKeys(exs[|exs| - 1]))|, c))
  }

  /** `r` is a hypothesis that `current_best_learning(examples, h, sofar)` may
      return, for some outcome of the shuffles: each example is checked
      against the current hypothesis, and on a false positive or a false
      negative the search goes on from one specialization or generalization
      built from the examples seen so far, the offending one last. */
  ghost predicate Reaches(examples: seq<Example>, h: Hyp, sofar: seq<Example>, ps: set<string> -> seq<seq<string>>, r: Hyp)
    decreases |examples|
  {
    if examples == [] then r == h
    else
      var e := examples[0];
      var seen := sofar + [e];
      && Within(h, e.attrs.Keys)
      && if IsConsistent(e, h) then Reaches(examples[1..], h, seen, ps, r)
         else if FalsePositive(e, h) then
           exists c :: IsSpecialization(seen, h, c) && Reaches(examples[1..], c, seen, ps, r)
         else
           exists c :: IsGeneralization(seen, ps, h, c) && Reaches(examples[1..], c, seen, ps, r)
  }

  /** Some path of the search is sure to succeed: the current hypothesis is
      kept or one of the candidates the refinement is certain to return leads,
      recursively, past every example. */
  ghost predicate Succeeds(examples: seq<Example>, h: Hyp, sofar: seq<Example>, ps: set<string> -> seq<seq<string>>)
    decreases |examples|
  {
    if examples == [] then true
    else
      var e := examples[0];
      var seen := sofar + [e];
      && Within(h, e.attrs.Keys)
      && if IsConsistent(e, h) then Succeeds(examples[1..], h, seen, ps)
         else if FalsePositive(e, h) then
           exists c :: IsSpecialization(seen, h, c) && Succeeds(examples[1..], c, seen, ps)
         else
           exists c :: IsGuaranteed(seen, ps, h, c) && Succeeds(examples[1..], c, seen, ps)
  }

  /** `current_best_learning(examples, h, sofar)`. With no examples left it
      returns `h`; whatever it finds is reachable by the search; it fails only
      if no candidate it was certain to try led to success. */
  method CurrentBestLearning(examples: seq<Example>, h: Hyp, sofar: seq<Example>,
                             ps: set<string> -> seq<seq<string>>, ghost schema: set<string>)
    returns (r: Outcome)
    requires Uniform(sofar + examples, schema) && OrKey !in schema && Within(h, schema)
    requires PowersetOk(ps) && NonEmptyPowersets(ps)
    ensures examples == [] ==> r == Found(h)
    ensures r.Found? ==> Reaches(examples, h, sofar, ps, r.h)
    ensures Succeeds(examples, h, sofar, ps) ==> r.Found?
    decreases |examples|, 1
  {
    if examples == [] {
      return Found(h);
    }
    var e := examples[0];
    var seen := sofar + [e];
    var rest := examples[1..];
    assert seen + rest == sofar + examples;
    assert e in sofar + examples;
    assert Uniform(seen, schema) by {
      assert forall x :: x in seen ==> x in sofar + examples;
    }
    if IsConsistent(e, h) {
      r := CurrentBestLearning(rest, h, seen, ps, schema);
    } else if FalsePositive(e, h) {
      var cands := Specializations(seen, h, schema);
      forall c | c in cands ensures Within(c, schema) {
        SpecsWithin(seen, h, schema, c);
      }
      r := TryCandidates(cands, rest, seen, ps, schema);
    } else {
      // the remaining case of the trichotomy: a false negative
      assert FalseNegative(e, h);
      BindsFromNonEmpty(ps, h);
      var cands := Generalizations(seen, h, ps, schema);
      forall c | c in cands ensures Within(c, schema) {
        GenWithin(seen, ps, h, c, schema);
      }
      r := TryCandidates(cands, rest, seen, ps, schema);
    }
  }

  /** The loop `for h2 in candidates: h3 = current_best_learning(rest, h2,
      seen); if h3 != 'FAIL': return h3`, then `'FAIL'`: a result found comes
      from one of the candidates, and `'FAIL'` means every candidate's search
      failed. */
  method TryCandidates(cands: seq<Hyp>, rest: seq<Example>, seen: seq<Example>,
                       ps: set<string> -> seq<seq<string>>, ghost schema: set<string>)
    returns (r: Outcome)
    requires Uniform(seen + rest, schema) && OrKey !in schema
    requires forall c :: c in cands ==> Within(c, schema)
    requires PowersetOk(ps) && NonEmptyPowersets(ps)
    ensures r.Found? ==> exists j :: 0 <= j < |cands| && Reaches(rest, cands[j], seen, ps, r.h)
    ensures r.Fail? ==> forall j :: 0 <= j < |cands| ==> !Succeeds(rest, cands[j], seen, ps)
    decreases |rest| + 1, 0
  {
    for i := 0 to |cands|
      invariant forall j :: 0 <= j < i ==> !Succeeds(rest, cands[j], seen, ps)
    {
      assert cands[i] in cands;
      var h3 := CurrentBestLearning(rest, cands[i], seen, ps, schema);
      if h3 != Fail {
        return h3;
      }
    }
    return Fail;
  }

  /** A hypothesis consistent with all remaining examples is returned
      unchanged: the search never refines it, and it succeeds. */
  lemma {:induction false} ConsistentHypothesisKept(examples: seq<Example>, h: Hyp, sofar: seq<Example>,
                                                     ps: set<string> -> seq<seq<string>>, r: Hyp)
    requires CoversAll(examples, h) && AllConsistent(examples, h)
    ensures Succeeds(examples, h, sofar, ps)
    ensures Reaches(examples, h, sofar, ps, r) <==> r == h
    decreases |examples|
  {
    if examples != [] {
      assert Within(h, examples[0].attrs.Keys);
      assert CoversAll(examples[1..], h) by {
        assert forall i :: 0 <= i < |examples| - 1 ==> examples[1..][i] == examples[i + 1];
      }
      ConsistentHypothesisKept(examples[1..], h, sofar + [examples[0]], ps, r);
    }
  }

  /** One step of the search keeps the current hypothesis consistent with
      every example seen so far, provided it has no `'|'`: the kept hypothesis,
      every specialization and every generalization of it are all-consistent
      with `sofar + [e]`. */
  lemma StepKeepsConsistency(sofar: seq<Example>, e: Example, h: Hyp, ps: set<string> -> seq<seq<string>>, c: Hyp)
    requires h.alt.None? && CoversAll(sofar, h) && Within(h, e.attrs.Keys) && AllConsistent(sofar, h)
    requires || (IsConsistent(e, h) && c == h)
             || (FalsePositive(e, h) && IsSpecialization(sofar + [e], h, c))
             || (FalseNegative(e, h) && IsGeneralization(sofar + [e], ps, h, c))
    ensures CoversAll(sofar + [e], c) && AllConsistent(sofar + [e], c)
  {
    var seen := sofar + [e];
    assert CoversAll(seen, h) by {
      assert forall i :: 0 <= i < |sofar| ==> seen[i] == sofar[i];
    }
    assert seen[..|seen| - 1] == sofar;
    assert seen[|seen| - 1] == e;
    ConsistencySplits(sofar, [e], h);
    if IsConsistent(e, h) && c == h {
    } else if FalsePositive(e, h) && IsSpecialization(seen, h, c) {
      SpecializationShape(seen, h, c);
    } else if Deleted(seen, h, ps(Keys(h)), |ps(Keys(h))|, c) {
      DeletionShape(seen, h, ps(Keys(h)), c);
    } else {
      AddOrRepairsFalseNegative(seen, h, ps(AttrKeys(e)), c);
    }
  }

  // ---------------------------------------------------------------------
  // The search can return a hypothesis inconsistent with an example it saw.

  /** `{'A': 'a', 'GOAL': False}` and `{'A': 'a', 'GOAL': True}`. */
  const NegA: Example := Example(map["A" := "a"], false)
  const PosA: Example := Example(map["A" := "a"], true)

  /** `{'A': '!a'}`, `{'|': {}}` and `{'|': {'A': '!a'}}`. */
  const NotA: Hyp := Hyp(map["A" := Lit("a", true)], None)
  const OrEmpty: Hyp := Hyp(map[], Some(Empty))
  const OrNotA: Hyp := Hyp(map[], Some(NotA))

  /** The only specialization of `{}` on `[NegA]` is `{'A': '!a'}`. */
  lemma SpecsOfEmpty(c: Hyp)
    ensures IsSpecialization([NegA], Empty, c) <==> c == NotA
  {
    assert NegA.attrs.Keys == {"A"};
    assert Added([NegA], Empty, 0, "A") == NotA;
    assert IsConsistent(NegA, NotA);
    assert AllConsistent([NegA][1..], NotA);
    assert AndCandidate([NegA], Empty, 0, "A");
  }

  /** The only specialization of `{'|': {}}` on `[NegA]` is
      `{'|': {'A': '!a'}}`: adding `'A': '!a'` at the top still predicts True
      through the empty alternative. */
  lemma SpecsOfOrEmpty(c: Hyp)
    ensures IsSpecialization([NegA], OrEmpty, c) <==> c == OrNotA
  {
    var added := Added([NegA], OrEmpty, 0, "A");
    assert NegA.attrs.Keys == {"A"};
    assert Within(Empty, NegA.attrs.Keys);
    assert Guess(NegA, Empty);
    assert !IsConsistent(NegA, added);
    assert !AndCandidate([NegA], OrEmpty, 0, "A");
    assert !IsAndCandidate([NegA], OrEmpty, 1, c);
    if c.alt.Some? {
      SpecsOfEmpty(c.alt.value);
    }
  }

  /** From `{'|': {}}` the search over `[NegA, PosA]` returns exactly
      `{'|': {'A': '!a'}}`, which predicts True for the negative example
      `NegA`: the `'|'` specialization it adopted was never checked. */
  lemma UncheckedOrSpecialization(ps: set<string> -> seq<seq<string>>, r: Hyp)
    ensures Succeeds([NegA, PosA], OrEmpty, [], ps)
    ensures Reaches([NegA, PosA], OrEmpty, [], ps, r) <==> r == OrNotA
    ensures Within(OrNotA, NegA.attrs.Keys) && !IsConsistent(NegA, OrNotA)
  {
    forall c ensures IsSpecialization([NegA], OrEmpty, c) <==> c == OrNotA {
      SpecsOfOrEmpty(c);
    }
    assert [] + [NegA] == [NegA];
    assert [NegA, PosA][1..] == [PosA];
    assert [PosA][1..] == [];
    assert Guess(NegA, OrEmpty) by {
      assert ConjHolds(NegA, OrEmpty.lits);
    }
    assert FalsePositive(NegA, OrEmpty);
    assert IsConsistent(PosA, OrNotA) by {
      assert ConjHolds(PosA, OrNotA.lits);
    }
    assert Guess(NegA, OrNotA) by {
      assert ConjHolds(NegA, OrNotA.lits);
    }
    assert Succeeds([PosA], OrNotA, [NegA], ps);
    assert Reaches([PosA], OrNotA, [NegA], ps, r) <==> r == OrNotA;
  }

  /** From `{'|': {}}`, `current_best_learning([NegA, PosA], h)` returns
      `{'|': {'A': '!a'}}`, inconsistent with `NegA`. */
  method LearnFromOrEmpty(ps: set<string> -> seq<seq<string>>) returns (r: Outcome)
    requires PowersetOk(ps) && NonEmptyPowersets(ps)
    ensures r == Found(OrNotA)
    ensures Within(r.h, NegA.attrs.Keys) && !IsConsistent(NegA, r.h)
  {
    assert Uniform([] + [NegA, PosA], {"A"});
    UncheckedOrSpecialization(ps, OrNotA);
    r := CurrentBestLearning([NegA, PosA], OrEmpty, [], ps, {"A"});
    UncheckedOrSpecialization(ps, r.h);
  }

  /** No deletion from `{'A': '!a'}` passes check_all_consistency on
      `[NegA, PosA]`: deleting `'A'` leaves `{}`, which predicts True for
      `NegA`, and keeping it predicts False for `PosA`. */
  lemma NoDeletionFits(ds: seq<string>)
    requires SubsetOf(ds, {"A"})
    ensures !DeletionPasses([NegA, PosA], NotA, ds)
  {
    var seen := [NegA, PosA];
    assert Keys(NotA) == {"A"};
    DeleteAllRestricts(NotA, ds);
    assert seen[1..] == [PosA] && [PosA][1..] == [];
    if "A" in ds {
      assert DeleteAll(NotA, ds) == Empty;
      assert ConjHolds(NegA, Empty.lits);
    } else {
      assert DeleteAll(NotA, ds).lits == NotA.lits;
      assert DeleteAll(NotA, ds) == NotA;
      assert IsConsistent(NegA, NotA);
      assert !Holds(NotA.lits["A"], PosA.attrs["A"]);
      assert !IsConsistent(PosA, NotA);
      assert !AllConsistent(seen[1..], NotA);
    }
  }

  /** No conjunction add_or builds from `PosA` passes
      check_negative_consistency: each predicts True for `NegA`. */
  lemma NoBranchFits(c: seq<string>)
    requires SubsetOf(c, AttrKeys(PosA))
    ensures !BranchPasses([NegA, PosA], c)
  {
    assert AttrKeys(PosA) == {"A"};
    var b := OrBranch(PosA, c);
    assert CoversAll([NegA, PosA], b);
    assert ConjHolds(NegA, b.lits);
    assert !IsConsistent(NegA, b);
  }

  lemma NoDeletionsFit(subs: seq<seq<string>>, c: Hyp)
    requires forall i :: 0 <= i < |subs| ==> SubsetOf(subs[i], {"A"})
    ensures !Deleted([NegA, PosA], NotA, subs, |subs|, c)
  {
    forall i | 0 <= i < |subs| ensures !DeletionPasses([NegA, PosA], NotA, subs[i]) {
      NoDeletionFits(subs[i]);
    }
  }

  lemma NoBranchesFit(subs: seq<seq<string>>, c: Hyp)
    requires forall i :: 0 <= i < |subs| ==> SubsetOf(subs[i], AttrKeys(PosA))
    ensures !AddedOr([NegA, PosA], NotA, subs, |subs|, c)
  {
    forall i | 0 <= i < |subs| ensures !BranchPasses([NegA, PosA], subs[i]) {
      NoBranchFits(subs[i]);
    }
  }

  /** `{'A': '!a'}` has no generalization that survives `[NegA, PosA]`. */
  lemma NoGeneralizationOfNotA(ps: set<string> -> seq<seq<string>>, c: Hyp)
    requires PowersetOk(ps)
    ensures !IsGeneralization([NegA, PosA], ps, NotA, c)
  {
    assert Keys(NotA) == {"A"};
    NoDeletionsFit(ps(Keys(NotA)), c);
    NoBranchesFit(ps(AttrKeys(PosA)), c);
  }

  /** From `{}` the search over `[NegA, PosA]` reaches nothing: the two
      examples agree on every attribute and differ in GOAL. */
  lemma IdenticalExamplesUnreachable(ps: set<string> -> seq<seq<string>>, r: Hyp)
    requires PowersetOk(ps)
    ensures !Reaches([NegA, PosA], Empty, [], ps, r)
  {
    forall c ensures IsSpecialization([NegA], Empty, c) <==> c == NotA {
      SpecsOfEmpty(c);
    }
    assert [] + [NegA] == [NegA] && [NegA] + [PosA] == [NegA, PosA];
    assert [NegA, PosA][1..] == [PosA] && [PosA][1..] == [];
    assert Guess(NegA, Empty) by {
      assert ConjHolds(NegA, Empty.lits);
    }
    assert !Holds(NotA.lits["A"], PosA.attrs["A"]);
    forall c ensures !IsGeneralization([NegA, PosA], ps, NotA, c) {
      NoGeneralizationOfNotA(ps, c);
    }
  }

  /** From `{}`, `current_best_learning([NegA, PosA], h)` returns `'FAIL'`. */
  method LearnIdenticalFromEmpty(ps: set<string> -> seq<seq<string>>) returns (r: Outcome)
    requires PowersetOk(ps) && NonEmptyPowersets(ps)
    ensures r == Fail
  {
    assert Uniform([] + [NegA, PosA], {"A"});
    r := CurrentBestLearning([NegA, PosA], Empty, [], ps, {"A"});
    if r.Found? {
      IdenticalExamplesUnreachable(ps, r.h);
    }
  }

  // ---------------------------------------------------------------------
  // A run that succeeds: attributes A and B, the third example a false
  // positive of `{}`.

  const Ex1: Example := Example(map["A" := "a1", "B" := "b1"], true)
  const Ex2: Example := Example(map["A" := "a1", "B" := "b2"], true)
  const Ex3: Example := Example(map["A" := "a2", "B" := "b1"], false)
  const Scenario: seq<Example> := [Ex1, Ex2, Ex3]

  /** `{'A': '!a2'}`. */
  const NotA2: Hyp := Hyp(map["A" := Lit("a2", true)], None)

  /** `{'A': '!a2'}` is consistent with all three examples. */
  lemma NotA2FitsScenario()
    ensures CoversAll(Scenario, NotA2) && AllConsistent(Scenario, NotA2)
  {
    assert IsConsistent(Ex1, NotA2) && IsConsistent(Ex2, NotA2) by {
      assert "a1"[1] != "a2"[1];
      assert ConjHolds(Ex1, NotA2.lits) && ConjHolds(Ex2, NotA2.lits);
    }
    assert IsConsistent(Ex3, NotA2) by {
      assert !Holds(NotA2.lits["A"], Ex3.attrs["A"]);
    }
    assert AllConsistent(Scenario[2..], NotA2) by {
      assert Scenario[2..] == [Ex3] && [Ex3][1..] == [];
    }
    assert AllConsistent(Scenario[1..], NotA2) by {
      assert Scenario[1..][0] == Ex2 && Scenario[1..][1..] == Scenario[2..];
    }
  }

  /** `{}` fits the first two examples, and specializing it on the third
      gives `{'A': '!a2'}`, which fits all three. */
  lemma ScenarioSucceeds(ps: set<string> -> seq<seq<string>>)
    ensures Succeeds(Scenario, Empty, [], ps)
  {
    assert [] + [Ex1] == [Ex1] && [Ex1] + [Ex2] == [Ex1, Ex2] && [Ex1, Ex2] + [Ex3] == Scenario;
    assert Scenario[1..] == [Ex2, Ex3] && [Ex2, Ex3][1..] == [Ex3] && [Ex3][1..] == [];
    assert Guess(Ex1, Empty) && Guess(Ex2, Empty) && Guess(Ex3, Empty) by {
      assert ConjHolds(Ex1, Empty.lits) && ConjHolds(Ex2, Empty.lits) && ConjHolds(Ex3, Empty.lits);
    }
    NotA2FitsScenario();
    SpecializationComplete(Scenario, Empty, 2, "A");
    assert NotA2 == Empty.(lits := Empty.lits["A" := Lit(Ex3.attrs["A"], !Ex3.goal)]);
    assert Succeeds([], NotA2, Scenario, ps);
  }


  /** Every hypothesis the search may return on the scenario from `{}` is
      consistent with all three examples. */
  lemma ScenarioReachesConsistent(ps: set<string> -> seq<seq<string>>, x: Hyp)
    requires Reaches(Scenario, Empty, [], ps, x)
    ensures CoversAll(Scenario, x) && AllConsistent(Scenario, x)
  {
    assert [] + [Ex1] == [Ex1] && [Ex1] + [Ex2] == [Ex1, Ex2] && [Ex1, Ex2] + [Ex3] == Scenario;
    assert Scenario[1..] == [Ex2, Ex3] && [Ex2, Ex3][1..] == [Ex3] && [Ex3][1..] == [];
    assert Guess(Ex1, Empty) && Guess(Ex2, Empty) && Guess(Ex3, Empty) by {
      assert ConjHolds(Ex1, Empty.lits) && ConjHolds(Ex2, Empty.lits) && ConjHolds(Ex3, Empty.lits);
    }
    assert Reaches([Ex3], Empty, [Ex1, Ex2], ps, x);
    var c :| IsSpecialization(Scenario, Empty, c) && Reaches([], c, Scenario, ps, x);
    assert AllConsistent([Ex1, Ex2], Empty) by {
      assert IsConsistent(Ex1, Empty) && IsConsistent(Ex2, Empty);
      assert [Ex1, Ex2][1..] == [Ex2];
    }
    StepKeepsConsistency([Ex1, Ex2], Ex3, Empty, ps, c);
  }

  /** `current_best_learning` on the scenario, from `{}`, finds a hypothesis
      consistent with all three examples. */
  method LearnScenario(ps: set<string> -> seq<seq<string>>) returns (r: Outcome)
    requires PowersetOk(ps) && NonEmptyPowersets(ps)
    ensures r.Found? && CoversAll(Scenario, r.h) && AllConsistent(Scenario, r.h)
  {
    ScenarioSucceeds(ps);
    assert Uniform([] + Scenario, {"A", "B"});
    r := CurrentBestLearning(Scenario, Empty, [], ps, {"A", "B"});
    ScenarioReachesConsistent(ps, r.h);
  }
}
