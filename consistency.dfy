/** The consistency checks of knowledge.py: `is_consistent`, `false_positive`,
    `false_negative`, `check_all_consistency`, `check_negative_consistency`. */
module Consistency {
  import opened Hypotheses
  import opened Evaluator

  /** Every example has every attribute `h` mentions; `guess_value` raises
      KeyError otherwise. */
  predicate CoversAll(xs: seq<Example>, h: Hyp)
  {
    forall i :: 0 <= i < |xs| ==> Within(h, xs[i].attrs.Keys)
  }

  /** All examples have exactly the attribute names `s`. */
  predicate Uniform(xs: seq<Example>, s: set<string>)
  {
    forall e :: e in xs ==> e.attrs.Keys == s
  }

  lemma CoversFromUniform(xs: seq<Example>, s: set<string>, h: Hyp)
    requires Uniform(xs, s) && Within(h, s)
    ensures CoversAll(xs, h)
  {
    forall i | 0 <= i < |xs| ensures Within(h, xs[i].attrs.Keys) {
      assert xs[i] in xs;
    }
  }

  /** `is_consistent`: the prediction equals the label. */
  predicate IsConsistent(e: Example, h: Hyp)
    requires Within(h, e.attrs.Keys)
  {
    e.goal == Guess(e, h)
  }

  /** `false_positive`: labelled false, predicted true. */
  predicate FalsePositive(e: Example, h: Hyp)
    requires Within(h, e.attrs.Keys)
  {
    !e.goal && Guess(e, h)
  }

  /** `false_negative`: labelled true, predicted false. */
  predicate FalseNegative(e: Example, h: Hyp)
    requires Within(h, e.attrs.Keys)
  {
    e.goal && !Guess(e, h)
  }

  /** Exactly one of the three classifications applies to every example, so
      the learner always enters one of its branches. */
  lemma Trichotomy(e: Example, h: Hyp)
    requires Within(h, e.attrs.Keys)
    ensures IsConsistent(e, h) || FalsePositive(e, h) || FalseNegative(e, h)
    ensures !(IsConsistent(e, h) && FalsePositive(e, h))
    ensures !(IsConsistent(e, h) && FalseNegative(e, h))
    ensures !(FalsePositive(e, h) && FalseNegative(e, h))
  {
  }

  /** `check_all_consistency`: scans the examples, stopping at the first
      inconsistent one. */
  function AllConsistent(xs: seq<Example>, h: Hyp): bool
    requires CoversAll(xs, h)
  {
    if xs == [] then true
    else if !IsConsistent(xs[0], h) then false
    else AllConsistent(xs[1..], h)
  }

  /** `check_negative_consistency`: the same scan, skipping positive examples. */
  function NegativesConsistent(xs: seq<Example>, h: Hyp): bool
    requires CoversAll(xs, h)
  {
    if xs == [] then true
    else if xs[0].goal then NegativesConsistent(xs[1..], h)
    else if !IsConsistent(xs[0], h) then false
    else NegativesConsistent(xs[1..], h)
  }

  /** check_all_consistency holds iff every example is consistent. */
  lemma {:induction false} AllConsistentMeaning(xs: seq<Example>, h: Hyp)
    requires CoversAll(xs, h)
    ensures AllConsistent(xs, h) <==> forall i :: 0 <= i < |xs| ==> IsConsistent(xs[i], h)
  {
    if xs != [] {
      AllConsistentMeaning(xs[1..], h);
      assert forall i :: 1 <= i < |xs| ==> xs[1..][i - 1] == xs[i];
    }
  }

  /** check_negative_consistency holds iff every negative example is consistent. */
  lemma {:induction false} NegativesConsistentMeaning(xs: seq<Example>, h: Hyp)
    requires CoversAll(xs, h)
    ensures NegativesConsistent(xs, h) <==> forall i :: 0 <= i < |xs| && !xs[i].goal ==> IsConsistent(xs[i], h)
  {
    if xs != [] {
      NegativesConsistentMeaning(xs[1..], h);
      assert forall i :: 1 <= i < |xs| ==> xs[1..][i - 1] == xs[i];
    }
  }

  /** Consistency with all examples implies consistency with the negative ones. */
  lemma AllImpliesNegatives(xs: seq<Example>, h: Hyp)
    requires CoversAll(xs, h) && AllConsistent(xs, h)
    ensures NegativesConsistent(xs, h)
  {
    AllConsistentMeaning(xs, h);
    NegativesConsistentMeaning(xs, h);
  }

  /** Both checks split over a concatenation of example lists. */
  lemma ConsistencySplits(xs: seq<Example>, ys: seq<Example>, h: Hyp)
    requires CoversAll(xs + ys, h)
    ensures CoversAll(xs, h) && CoversAll(ys, h)
    ensures AllConsistent(xs + ys, h) <==> AllConsistent(xs, h) && AllConsistent(ys, h)
    ensures NegativesConsistent(xs + ys, h) <==> NegativesConsistent(xs, h) && NegativesConsistent(ys, h)
  {
    assert forall i :: 0 <= i < |xs| ==> (xs + ys)[i] == xs[i];
    assert forall i :: 0 <= i < |ys| ==> (xs + ys)[|xs| + i] == ys[i];
    AllConsistentMeaning(xs + ys, h);
    AllConsistentMeaning(xs, h);
    AllConsistentMeaning(ys, h);
    NegativesConsistentMeaning(xs + ys, h);
    NegativesConsistentMeaning(xs, h);
    NegativesConsistentMeaning(ys, h);
  }
}
