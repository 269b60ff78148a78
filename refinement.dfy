/** The refinement operators of knowledge.py: `specializations`,
    `generalizations` and `add_or`, with the sets of candidates they are
    specified by. */
module Refinement {
  import opened Hypotheses
  import opened Evaluator
  import opened Consistency

  /** `random.shuffle`: the list is put in some order, chosen arbitrarily. */
  method Shuffle(xs: seq<Hyp>) returns (ys: seq<Hyp>)
    ensures multiset(ys) == multiset(xs)
  {
    ys := [];
    var rest := xs;
    while rest != []
      invariant multiset(ys) + multiset(rest) == multiset(xs)
      decreases |rest|
    {
      var i :| 0 <= i < |rest|;
      assert rest == rest[..i] + [rest[i]] + rest[i + 1..];
      ys := ys + [rest[i]];
      rest := rest[..i] + rest[i + 1..];
    }
  }

  lemma SameMembers(r: seq<Hyp>, xs: seq<Hyp>)
    requires multiset(r) == multiset(xs)
    ensures forall c :: c in r <==> c in xs
  {
    forall c ensures c in r <==> c in xs {
      assert c in r <==> c in multiset(r);
      assert c in xs <==> c in multiset(xs);
    }
  }

  /** Hypotheses from `utils.powerset`: each entry for a key set lists
      distinct members of that set. Whether the empty entry is among them is
      left open. */
  ghost predicate PowersetOk(ps: set<string> -> seq<seq<string>>)
  {
    forall ks: set<string>, i :: 0 <= i < |ps(ks)| ==> SubsetOf(ps(ks)[i], ks)
  }

  /** Every level of `h` that has `'|'` gets a non-empty powerset, so that
      `h2` is bound when `generalizations` reaches its OR branch. */
  predicate BindsH2(ps: set<string> -> seq<seq<string>>, h: Hyp)
    decreases h
  {
    h.alt.Some? ==> |ps(Keys(h))| > 0 && BindsH2(ps, h.alt.value)
  }

  /** The literal `mod + e[k]` built from example `e`: `'!'` when its GOAL is false. */
  function LitOf(e: Example, k: string): Lit
    requires k in e.attrs
  {
    Lit(e.attrs[k], !e.goal)
  }

  /** `c` is `h` plus the one new literal `k: l`, nothing else changed. */
  predicate AddsLiteral(h: Hyp, c: Hyp, k: string, l: Lit)
  {
    && c.alt == h.alt
    && c.lits.Keys == h.lits.Keys + {k}
    && c.lits[k] == l
    && forall k2 :: k2 in h.lits ==> c.lits[k2] == h.lits[k2]
  }

  // ---------------------------------------------------------------------
  // specializations

  /** Key `k` of example `exs[i]` is skipped by neither test of
      specializations, and the literal it adds passes
      check_all_consistency on all of `exs`. */
  ghost predicate AndCandidate(exs: seq<Example>, h: Hyp, i: int, k: string)
  {
    && 0 <= i < |exs|
    && k in exs[i].attrs
    && !(k in Keys(h) || k == GoalKey || k == OrKey)
    && CoversAll(exs, Added(exs, h, i, k)) && AllConsistent(exs, Added(exs, h, i, k))
  }

  /** The AND candidate `h2 = h.copy(); h2[k] = mod + v` from key `k` of `exs[i]`. */
  function Added(exs: seq<Example>, h: Hyp, i: int, k: string): Hyp
    requires 0 <= i < |exs| && k in exs[i].attrs
  {
    h.(lits := h.lits[k := LitOf(exs[i], k)])
  }

  /** `c` is the AND candidate of one of the keys `ks` of example `exs[i]`. */
  ghost predicate FromExample(exs: seq<Example>, h: Hyp, i: int, ks: set<string>, c: Hyp)
  {
    exists k :: k in ks && AndCandidate(exs, h, i, k) && c == Added(exs, h, i, k)
  }

  /** `c` is the AND candidate of a key of one of the first `n` examples. */
  ghost predicate IsAndCandidate(exs: seq<Example>, h: Hyp, n: int, c: Hyp)
  {
    exists i, k :: 0 <= i < n && AndCandidate(exs, h, i, k) && c == Added(exs, h, i, k)
  }

  /** The candidates of `specializations(exs, h)`: an AND candidate, or `h`
      with its alternative replaced by a specialization of it. */
  ghost predicate IsSpecialization(exs: seq<Example>, h: Hyp, c: Hyp)
    decreases h
  {
    || IsAndCandidate(exs, h, |exs|, c)
    || (h.alt.Some? && c.lits == h.lits && c.alt.Some? && IsSpecialization(exs, h.alt.value, c.alt.value))
  }

  lemma FromExampleStep(exs: seq<Example>, h: Hyp, i: int, done: set<string>, k: string)
    ensures forall c :: FromExample(exs, h, i, done + {k}, c) <==>
      FromExample(exs, h, i, done, c) || (AndCandidate(exs, h, i, k) && c == Added(exs, h, i, k))
  {
  }

  lemma IsAndCandidateStep(exs: seq<Example>, h: Hyp, i: int)
    requires 0 <= i < |exs|
    ensures forall c :: IsAndCandidate(exs, h, i + 1, c) <==>
      IsAndCandidate(exs, h, i, c) || FromExample(exs, h, i, exs[i].attrs.Keys, c)
  {
  }

  /** The inner loop of specializations over `exs[i].items()`: the candidates
      adding one literal from example `exs[i]` that pass check_all_consistency. */
  method AndCandidatesOf(exs: seq<Example>, h: Hyp, i: int, ghost schema: set<string>) returns (found: seq<Hyp>)
    requires Uniform(exs, schema) && Within(h, schema) && 0 <= i < |exs|
    ensures forall c :: c in found <==> FromExample(exs, h, i, exs[i].attrs.Keys, c)
  {
    found := [];
    var e := exs[i];
    assert e in exs;
    var negated := false;
    if !e.goal {
      negated := true;
    }
    var todo := e.attrs.Keys;
    while todo != {}
      invariant todo <= e.attrs.Keys
      invariant forall c :: c in found <==> FromExample(exs, h, i, e.attrs.Keys - todo, c)
      decreases todo
    {
      var k :| k in todo;
      ghost var done := e.attrs.Keys - todo;
      todo := todo - {k};
      assert e.attrs.Keys - todo == done + {k};
      FromExampleStep(exs, h, i, done, k);
      if k in Keys(h) || k == GoalKey || k == OrKey {
        continue;
      }
      var h2 := h;
      h2 := h2.(lits := h2.lits[k := Lit(e.attrs[k], negated)]);
      assert Within(h2, schema);
      CoversFromUniform(exs, schema, h2);
      if AllConsistent(exs, h2) {
        found := found + [h2];
      }
    }
  }

  /** `specializations(exs, h)`: its result holds exactly the specializations. */
  method Specializations(exs: seq<Example>, h: Hyp, ghost schema: set<string>) returns (r: seq<Hyp>)
    requires Uniform(exs, schema) && Within(h, schema)
    ensures forall c :: c in r <==> IsSpecialization(exs, h, c)
    decreases h
  {
    var hyps: seq<Hyp> := [];
    // Add AND operations
    for i := 0 to |exs|
      invariant forall c :: c in hyps <==> IsAndCandidate(exs, h, i, c)
    {
      var found := AndCandidatesOf(exs, h, i, schema);
      IsAndCandidateStep(exs, h, i);
      hyps := hyps + found;
    }
    // Specialize in OR
    if h.alt.Some? {
      var subs := Specializations(exs, h.alt.value, schema);
      for j := 0 to |subs|
        invariant forall c :: c in hyps <==>
          IsAndCandidate(exs, h, |exs|, c) || (c.lits == h.lits && c.alt.Some? && c.alt.value in subs[..j])
      {
        assert subs[..j + 1] == subs[..j] + [subs[j]];
        var h2 := h;
        h2 := h2.(alt := Some(subs[j]));
        hyps := hyps + [h2];
      }
      assert subs[..|subs|] == subs;
    }
    r := Shuffle(hyps);
    SameMembers(r, hyps);
  }

  /** An AND candidate adds to `h` exactly one new literal, taken from an
      example, and passes check_all_consistency. */
  predicate AndShape(exs: seq<Example>, h: Hyp, c: Hyp, i: int, k: string)
  {
    && 0 <= i < |exs| && k in exs[i].attrs
    && k !in Keys(h) && k != GoalKey && k != OrKey
    && AddsLiteral(h, c, k, Lit(exs[i].attrs[k], !exs[i].goal))
    && CoversAll(exs, c) && AllConsistent(exs, c)
  }

  /** The shape of every candidate of specializations: either `h` plus exactly
      one new literal `k: mod + e[k]` taken from some example `e` (with `k` not
      a key of `h`, not GOAL and not `'|'`, `mod` being `'!'` iff the GOAL of
      `e` is false) that passes check_all_consistency on `exs`, or `h` with its
      alternative replaced by a specialization of it, which is not checked. */
  lemma SpecializationShape(exs: seq<Example>, h: Hyp, c: Hyp)
    requires IsSpecialization(exs, h, c)
    ensures || (exists i, k :: AndShape(exs, h, c, i, k))
            || (h.alt.Some? && c.lits == h.lits && c.alt.Some? && IsSpecialization(exs, h.alt.value, c.alt.value))
  {
    if IsAndCandidate(exs, h, |exs|, c) {
      var i, k :| 0 <= i < |exs| && AndCandidate(exs, h, i, k) && c == Added(exs, h, i, k);
      assert AndShape(exs, h, c, i, k);
    }
  }

  /** Every key of every example that specializations does not skip, and whose
      literal passes check_all_consistency, gives a candidate. */
  lemma SpecializationComplete(exs: seq<Example>, h: Hyp, i: int, k: string)
    requires 0 <= i < |exs| && k in exs[i].attrs
    requires k !in Keys(h) && k != GoalKey && k != OrKey
    requires var c := h.(lits := h.lits[k := Lit(exs[i].attrs[k], !exs[i].goal)]);
      CoversAll(exs, c) && AllConsistent(exs, c)
    ensures IsSpecialization(exs, h, h.(lits := h.lits[k := Lit(exs[i].attrs[k], !exs[i].goal)]))
  {
    assert AndCandidate(exs, h, i, k);
  }

  /** Candidates of specializations stay within the examples' attribute names. */
  lemma {:induction false} SpecsWithin(exs: seq<Example>, h: Hyp, schema: set<string>, c: Hyp)
    requires Uniform(exs, schema) && Within(h, schema) && IsSpecialization(exs, h, c)
    ensures Within(c, schema)
    decreases h
  {
    if IsAndCandidate(exs, h, |exs|, c) {
      var i, k :| 0 <= i < |exs| && AndCandidate(exs, h, i, k) && c == Added(exs, h, i, k);
      assert exs[i] in exs;
    } else {
      SpecsWithin(exs, h.alt.value, schema, c.alt.value);
    }
  }

  // ---------------------------------------------------------------------
  // add_or

  /** The keys of example `e` other than GOAL. */
  function AttrKeys(e: Example): set<string>
  {
    e.attrs.Keys - {GoalKey}
  }

  /** The pure conjunction add_or builds from example `e` and powerset entry `c`. */
  function OrBranch(e: Example, c: seq<string>): Hyp
    requires forall j :: 0 <= j < |c| ==> c[j] in e.attrs
  {
    Hyp(map k | k in c :: LitOf(e, k), None)
  }

  /** Powerset entry `c` of the last example's keys gives a conjunction that
      passes check_negative_consistency on `exs`. */
  ghost predicate BranchPasses(exs: seq<Example>, c: seq<string>)
  {
    && |exs| > 0
    && SubsetOf(c, AttrKeys(exs[|exs| - 1]))
    && CoversAll(exs, OrBranch(exs[|exs| - 1], c))
    && NegativesConsistent(exs, OrBranch(exs[|exs| - 1], c))
  }

  /** `c` is the add_or candidate of one of the first `n` powerset entries `subs`. */
  ghost predicate AddedOr(exs: seq<Example>, h: Hyp, subs: seq<seq<string>>, n: int, c: Hyp)
  {
    exists i :: 0 <= i < n && i < |subs| && BranchPasses(exs, subs[i])
      && c == h.(alt := Some(OrBranch(exs[|exs| - 1], subs[i])))
  }

  /** `h2 = {}; for k in c: h2[k] = attrs[k]`: the conjunction of the
      literals of `attrs` named by `c`. */
  method Conjunction(attrs: map<string, Lit>, c: seq<string>) returns (h2: Hyp)
    requires forall j :: 0 <= j < |c| ==> c[j] in attrs
    ensures h2.alt.None? && h2.lits.Keys == Elements(c)
    ensures forall k :: k in h2.lits ==> h2.lits[k] == attrs[k]
  {
    var lits: map<string, Lit> := map[];
    for j := 0 to |c|
      invariant lits.Keys == Elements(c[..j])
      invariant forall k :: k in lits ==> lits[k] == attrs[k]
    {
      assert c[..j + 1] == c[..j] + [c[j]];
      lits := lits[c[j] := attrs[c[j]]];
    }
    assert c[..|c|] == c;
    h2 := Hyp(lits, None);
  }

  /** `add_or(exs, h)`: its result holds exactly the candidates of the
      powerset entries of the last example's non-GOAL keys. */
  method AddOr(exs: seq<Example>, h: Hyp, ps: set<string> -> seq<seq<string>>, ghost schema: set<string>) returns (r: seq<Hyp>)
    requires |exs| > 0 && Uniform(exs, schema) && OrKey !in schema && PowersetOk(ps)
    ensures forall c :: c in r <==> AddedOr(exs, h, ps(AttrKeys(exs[|exs| - 1])), |ps(AttrKeys(exs[|exs| - 1]))|, c)
  {
    var hyps: seq<Hyp> := [];
    var e := exs[|exs| - 1];
    assert e in exs;
    var negated := true;
    if e.goal {
      negated := false;
    }
    var attrs := map k | k in e.attrs && k != GoalKey :: Lit(e.attrs[k], negated);
    assert attrs.Keys == AttrKeys(e);
    var subsets := ps(attrs.Keys);
    for i := 0 to |subsets|
      invariant forall c :: c in hyps <==> AddedOr(exs, h, subsets, i, c)
    {
      var c := subsets[i];
      assert SubsetOf(c, attrs.Keys);
      var h2 := Conjunction(attrs, c);
      assert h2 == OrBranch(e, c);
      assert Within(h2, schema);
      CoversFromUniform(exs, schema, h2);
      if NegativesConsistent(exs, h2) {
        var h3 := h;
        h3 := h3.(alt := Some(h2));
        hyps := hyps + [h3];
      }
    }
    r := hyps;
  }

  /** Every add_or candidate is `h` with `'|'` set to a pure conjunction over
      non-GOAL keys of the last example, each literal `mod + e[k]` with `mod`
      empty iff that example's GOAL is true, passing check_negative_consistency. */
  lemma AddOrShape(exs: seq<Example>, h: Hyp, subs: seq<seq<string>>, c: Hyp)
    requires AddedOr(exs, h, subs, |subs|, c)
    ensures |exs| > 0 && c.lits == h.lits && c.alt.Some?
    ensures var b := c.alt.value; var e := exs[|exs| - 1];
      && b.alt.None?
      && b.lits.Keys <= AttrKeys(e)
      && (forall k :: k in b.lits ==> b.lits[k] == Lit(e.attrs[k], !e.goal))
      && CoversAll(exs, b) && NegativesConsistent(exs, b)
  {
  }

  /** When `h` has no `'|'`, agrees with every example but the last, and the
      last is positive, every add_or candidate agrees with all examples. */
  lemma AddOrRepairsFalseNegative(exs: seq<Example>, h: Hyp, subs: seq<seq<string>>, c: Hyp)
    requires |exs| > 0 && exs[|exs| - 1].goal && h.alt.None?
    requires CoversAll(exs, h) && AllConsistent(exs[..|exs| - 1], h)
    requires AddedOr(exs, h, subs, |subs|, c)
    ensures CoversAll(exs, c) && AllConsistent(exs, c)
  {
    var n := |exs|;
    var e := exs[n - 1];
    var i :| 0 <= i < |subs| && BranchPasses(exs, subs[i]) && c == h.(alt := Some(OrBranch(e, subs[i])));
    var b := OrBranch(e, subs[i]);
    assert CoversAll(exs, c) by {
      forall j | 0 <= j < n ensures Within(c, exs[j].attrs.Keys) {
        assert Within(h, exs[j].attrs.Keys) && Within(b, exs[j].attrs.Keys);
      }
    }
    assert CoversAll(exs[..n - 1], h) by {
      assert forall j :: 0 <= j < n - 1 ==> exs[..n - 1][j] == exs[j];
    }
    AllConsistentMeaning(exs[..n - 1], h);
    AllConsistentMeaning(exs, c);
    NegativesConsistentMeaning(exs, b);
    forall j | 0 <= j < n ensures IsConsistent(exs[j], c) {
      if j < n - 1 {
        assert exs[..n - 1][j] == exs[j];
      }
      OrRepairsOne(exs[j], h, b, j == n - 1);
    }
  }

  /** One example under `h` extended by the alternative `b`: kept consistent
      when `h` got it right and `b` does not fire on it if it is negative, and
      made consistent when it is positive and `b` holds of it. */
  lemma OrRepairsOne(x: Example, h: Hyp, b: Hyp, last: bool)
    requires h.alt.None? && Within(h, x.attrs.Keys) && Within(b, x.attrs.Keys) && b.alt.None?
    requires last ==> x.goal && ConjHolds(x, b.lits)
    requires !last ==> IsConsistent(x, h) && (!x.goal ==> !Guess(x, b))
    ensures IsConsistent(x, h.(alt := Some(b)))
  {
    assert Guess(x, h.(alt := Some(b))) == (ConjHolds(x, h.lits) || Guess(x, b));
  }

  // ---------------------------------------------------------------------
  // generalizations

  /** Deleting powerset entry `ds` from `h` passes check_all_consistency. */
  ghost predicate DeletionPasses(exs: seq<Example>, h: Hyp, ds: seq<string>)
  {
    && OrKey !in h.lits && SubsetOf(ds, Keys(h))
    && CoversAll(exs, DeleteAll(h, ds)) && AllConsistent(exs, DeleteAll(h, ds))
  }

  /** `c` is the deletion candidate of one of the first `n` powerset entries `subs`. */
  ghost predicate Deleted(exs: seq<Example>, h: Hyp, subs: seq<seq<string>>, n: int, c: Hyp)
  {
    exists i :: 0 <= i < n && i < |subs| && DeletionPasses(exs, h, subs[i]) && c == DeleteAll(h, subs[i])
  }

  /** Every deletion candidate is `h` restricted to its keys minus one powerset
      entry (which may hold `'|'`), and passes check_all_consistency. */
  lemma DeletionShape(exs: seq<Example>, h: Hyp, subs: seq<seq<string>>, c: Hyp)
    requires Deleted(exs, h, subs, |subs|, c)
    ensures exists i :: && 0 <= i < |subs|
                        && c.lits == h.lits - Elements(subs[i])
                        && c.alt == (if OrKey in subs[i] then None else h.alt)
                        && CoversAll(exs, c) && AllConsistent(exs, c)
  {
    var i :| 0 <= i < |subs| && DeletionPasses(exs, h, subs[i]) && c == DeleteAll(h, subs[i]);
    DeleteAllRestricts(h, subs[i]);
  }

  /** `h2 = h.copy(); for d in deletions: del h2[d]`. */
  method DeleteKeys(h: Hyp, deletions: seq<string>) returns (h2: Hyp)
    requires SubsetOf(deletions, Keys(h)) && OrKey !in h.lits
    ensures h2 == DeleteAll(h, deletions)
  {
    h2 := h;
    for j := 0 to |deletions|
      invariant OrKey !in h2.lits && SubsetOf(deletions[j..], Keys(h2))
      invariant DeleteAll(h2, deletions[j..]) == DeleteAll(h, deletions)
    {
      assert deletions[j..][1..] == deletions[j + 1..];
      h2 := Delete(h2, deletions[j]);
    }
    assert deletions[|deletions|..] == [];
  }

  /** The deletion loop of generalizations over the powerset entries
      `subsets`: the candidates that pass check_all_consistency, and the last
      value of the loop variable `h2`. Python binds `h2` only when the loop
      runs; otherwise it is returned as `h` and never read. */
  method DeletionCandidates(exs: seq<Example>, h: Hyp, subsets: seq<seq<string>>, ghost schema: set<string>)
    returns (hyps: seq<Hyp>, h2: Hyp)
    requires Uniform(exs, schema) && Within(h, schema)
    requires forall i :: 0 <= i < |subsets| ==> SubsetOf(subsets[i], Keys(h))
    ensures forall c :: c in hyps <==> Deleted(exs, h, subsets, |subsets|, c)
    ensures |subsets| > 0 ==> h2 == DeleteAll(h, subsets[|subsets| - 1])
  {
    hyps := [];
    h2 := h;
    for i := 0 to |subsets|
      invariant forall c :: c in hyps <==> Deleted(exs, h, subsets, i, c)
      invariant i > 0 ==> h2 == DeleteAll(h, subsets[i - 1])
    {
      var deletions := subsets[i];
      h2 := DeleteKeys(h, deletions);
      WithinDeleteAll(h, deletions, schema);
      CoversFromUniform(exs, schema, h2);
      if AllConsistent(exs, h2) {
        hyps := hyps + [h2];
      }
    }
  }

  /** What generalizations may return: a deletion candidate, an add_or
      candidate when `h` has no `'|'`, or `h` with its alternative replaced by
      something generalizations may return for that alternative. */
  ghost predicate IsGeneralization(exs: seq<Example>, ps: set<string> -> seq<seq<string>>, h: Hyp, c: Hyp)
    decreases h
  {
    || Deleted(exs, h, ps(Keys(h)), |ps(Keys(h))|, c)
    || (h.alt.None? && |exs| > 0 && AddedOr(exs, h, ps(AttrKeys(exs[|exs| - 1])), |ps(AttrKeys(exs[|exs| - 1]))|, c))
    || (h.alt.Some? && c.lits == h.lits && c.alt.Some? && IsGeneralization(exs, ps, h.alt.value, c.alt.value))
  }

  /** The test at the head of the OR loop of generalizations sees the leftover
      `h2` of the deletion loop (`h` minus the last powerset entry) and that
      one fails check_negative_consistency. */
  ghost predicate StaleTestFails(exs: seq<Example>, ps: set<string> -> seq<seq<string>>, h: Hyp)
  {
    var subs := ps(Keys(h));
    && |subs| > 0 && OrKey !in h.lits && SubsetOf(subs[|subs| - 1], Keys(h))
    && CoversAll(exs, DeleteAll(h, subs[|subs| - 1]))
    && !NegativesConsistent(exs, DeleteAll(h, subs[|subs| - 1]))
  }

  /** Candidates of generalizations stay within the examples' attribute names. */
  lemma {:induction false} GenWithin(exs: seq<Example>, ps: set<string> -> seq<seq<string>>, h: Hyp, c: Hyp, schema: set<string>)
    requires Uniform(exs, schema) && OrKey !in schema && Within(h, schema)
    requires IsGeneralization(exs, ps, h, c)
    ensures Within(c, schema)
    decreases h
  {
    if Deleted(exs, h, ps(Keys(h)), |ps(Keys(h))|, c) {
      var i :| 0 <= i < |ps(Keys(h))| && DeletionPasses(exs, h, ps(Keys(h))[i]) && c == DeleteAll(h, ps(Keys(h))[i]);
      WithinDeleteAll(h, ps(Keys(h))[i], schema);
    } else if h.alt.None? && |exs| > 0 && AddedOr(exs, h, ps(AttrKeys(exs[|exs| - 1])), |ps(AttrKeys(exs[|exs| - 1]))|, c) {
      AddOrShape(exs, h, ps(AttrKeys(exs[|exs| - 1])), c);
      assert exs[|exs| - 1] in exs;
      assert Within(c.alt.value, schema);
    } else {
      GenWithin(exs, ps, h.alt.value, c.alt.value, schema);
    }
  }

  /** `generalizations(exs, h)`. Every result is a generalization; every
      deletion candidate is among the results; without `'|'` the results are
      exactly the deletion and add_or candidates; with `'|'`, when the stale
      test fails, no OR candidate is added at all. */
  method Generalizations(exs: seq<Example>, h: Hyp, ps: set<string> -> seq<seq<string>>, ghost schema: set<string>)
    returns (r: seq<Hyp>)
    requires |exs| > 0 && Uniform(exs, schema) && OrKey !in schema && Within(h, schema)
    requires PowersetOk(ps) && BindsH2(ps, h)
    ensures forall c :: c in r ==> IsGeneralization(exs, ps, h, c)
    ensures forall c :: Deleted(exs, h, ps(Keys(h)), |ps(Keys(h))|, c) ==> c in r
    ensures h.alt.None? ==>
      forall c :: c in r <==>
        (|| Deleted(exs, h, ps(Keys(h)), |ps(Keys(h))|, c)
         || AddedOr(exs, h, ps(AttrKeys(exs[|exs| - 1])), |ps(AttrKeys(exs[|exs| - 1]))|, c))
    ensures h.alt.Some? && StaleTestFails(exs, ps, h) ==>
      forall c :: c in r <==> Deleted(exs, h, ps(Keys(h)), |ps(Keys(h))|, c)
    decreases h
  {
    var subsets := ps(Keys(h));
    // Delete operations; `h2` is left holding the last deletion candidate.
    var hyps, h2 := DeletionCandidates(exs, h, subsets, schema);
    if h.alt.None? {
      // Add OR
      var ors := AddOr(exs, h, ps, schema);
      hyps := hyps + ors;
    } else {
      // Generalize in OR
      var gens := Generalizations(exs, h.alt.value, ps, schema);
      WithinDeleteAll(h, subsets[|subsets| - 1], schema);
      ghost var stale := StaleTestFails(exs, ps, h);
      for j := 0 to |gens|
        invariant Within(h2, schema)
        invariant forall c :: c in hyps ==> IsGeneralization(exs, ps, h, c)
        invariant forall c :: Deleted(exs, h, subsets, |subsets|, c) ==> c in hyps
        invariant stale ==> h2 == DeleteAll(h, subsets[|subsets| - 1])
        invariant stale ==> forall c :: c in hyps ==> Deleted(exs, h, subsets, |subsets|, c)
      {
        CoversFromUniform(exs, schema, h2);
        if NegativesConsistent(exs, h2) {
          h2 := h;
          h2 := h2.(alt := Some(gens[j]));
          GenWithin(exs, ps, h.alt.value, gens[j], schema);
          hyps := hyps + [h2];
        }
      }
    }
    r := Shuffle(hyps);
    SameMembers(r, hyps);
  }
}
