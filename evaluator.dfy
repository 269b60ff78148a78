/** The hypothesis evaluator of knowledge.py: `guess_value`. */
module Evaluator {
  import opened Hypotheses

  /** An example: its attribute values, and the boolean under its GOAL key. */
  datatype Example = Example(attrs: map<string, string>, goal: bool)

  /** Literal `l` holds of the attribute value `v`. */
  predicate Holds(l: Lit, v: string)
  {
    if l.negated then v != l.value else v == l.value
  }

  /** A dictionary value `v` read as a literal holds of `x` exactly when the
      tests of `guess_value` pass: `x` differs from the rest of a `'!'` value,
      or equals a bare value. */
  lemma ParseHolds(v: string, x: string)
    requires v != []
    ensures Holds(Parse(v), x) <==> (if v[0] == '!' then x != v[1..] else x == v)
  {
  }

  /** Every literal of one conjunction holds of `e`. */
  predicate ConjHolds(e: Example, lits: map<string, Lit>)
    requires lits.Keys <= e.attrs.Keys
  {
    forall k :: k in lits ==> Holds(lits[k], e.attrs[k])
  }

  /** The prediction of `h` for `e`, free of any key order: its conjunction
      holds, or else its OR alternative predicts true. */
  predicate Guess(e: Example, h: Hyp)
    requires Within(h, e.attrs.Keys)
    decreases h
  {
    ConjHolds(e, h.lits) || (h.alt.Some? && Guess(e, h.alt.value))
  }

  /** `order(g)` is the order in which `g.items()` yields the keys of the
      dictionary `g`, for `h` and every alternative nested in it. */
  predicate OrderFits(order: Hyp -> seq<string>, h: Hyp)
    decreases h
  {
    && (forall k :: k in order(h) ==> k in Keys(h))
    && (forall k :: k in Keys(h) ==> k in order(h))
    && (h.alt.Some? ==> OrderFits(order, h.alt.value))
  }

  /** The loop of `guess_value` over the keys `ks` of `h` not visited yet. */
  function GuessItems(e: Example, h: Hyp, ks: seq<string>, order: Hyp -> seq<string>): bool
    requires Within(h, e.attrs.Keys) && OrderFits(order, h)
    requires forall j :: 0 <= j < |ks| ==> ks[j] in Keys(h)
    decreases h, |ks|
  {
    if ks == [] then true
    else if ks[0] == OrKey then
      // the '|' entry: True when the alternative predicts true, else go on
      if GuessValue(e, h.alt.value, order) then true else GuessItems(e, h, ks[1..], order)
    else if !Holds(h.lits[ks[0]], e.attrs[ks[0]]) then
      // a literal fails: False, or whatever the alternative predicts
      if h.alt.None? then false else GuessValue(e, h.alt.value, order)
    else GuessItems(e, h, ks[1..], order)
  }

  /** `guess_value(e, h)` when every dictionary iterates its keys in `order`. */
  function GuessValue(e: Example, h: Hyp, order: Hyp -> seq<string>): bool
    requires Within(h, e.attrs.Keys) && OrderFits(order, h)
    decreases h, |order(h)| + 1
  {
    GuessItems(e, h, order(h), order)
  }

  /** The literals among the keys `ks` all hold of `e`. */
  predicate LitsHold(e: Example, h: Hyp, ks: seq<string>)
    requires Within(h, e.attrs.Keys)
    requires forall j :: 0 <= j < |ks| ==> ks[j] in Keys(h)
  {
    forall j :: 0 <= j < |ks| && ks[j] in h.lits ==> Holds(h.lits[ks[j]], e.attrs[ks[j]])
  }

  /** Whatever the position of `'|'` among `ks`, the loop yields the
      conjunction of the literals in `ks`, or else the alternative. */
  lemma {:induction false} GuessItemsMeaning(e: Example, h: Hyp, ks: seq<string>, order: Hyp -> seq<string>)
    requires Within(h, e.attrs.Keys) && OrderFits(order, h)
    requires forall j :: 0 <= j < |ks| ==> ks[j] in Keys(h)
    requires h.alt.Some? ==> GuessValue(e, h.alt.value, order) == Guess(e, h.alt.value)
    ensures GuessItems(e, h, ks, order) == (LitsHold(e, h, ks) || (h.alt.Some? && Guess(e, h.alt.value)))
    decreases |ks|
  {
    if ks != [] {
      GuessItemsMeaning(e, h, ks[1..], order);
      assert LitsHold(e, h, ks) <==>
        (ks[0] == OrKey || Holds(h.lits[ks[0]], e.attrs[ks[0]])) && LitsHold(e, h, ks[1..])
      by {
        if LitsHold(e, h, ks[1..]) && (ks[0] == OrKey || Holds(h.lits[ks[0]], e.attrs[ks[0]])) {
          forall j | 0 <= j < |ks| && ks[j] in h.lits
            ensures Holds(h.lits[ks[j]], e.attrs[ks[j]])
          {
            if j > 0 { assert ks[j] == ks[1..][j - 1]; }
          }
        }
        if LitsHold(e, h, ks) {
          forall j | 0 <= j < |ks[1..]| && ks[1..][j] in h.lits
            ensures Holds(h.lits[ks[1..][j]], e.attrs[ks[1..][j]])
          {
            assert ks[1..][j] == ks[j + 1];
          }
        }
      }
    }
  }

  /** `guess_value` is independent of the dictionaries' key order: for every
      order it returns the conjunction OR the alternative's prediction. */
  lemma {:induction false} GuessValueOrderFree(e: Example, h: Hyp, order: Hyp -> seq<string>)
    requires Within(h, e.attrs.Keys) && OrderFits(order, h)
    ensures GuessValue(e, h, order) == Guess(e, h)
    decreases h
  {
    if h.alt.Some? {
      GuessValueOrderFree(e, h.alt.value, order);
    }
    var ks := order(h);
    GuessItemsMeaning(e, h, ks, order);
    if ConjHolds(e, h.lits) {
      assert LitsHold(e, h, ks);
    }
    if LitsHold(e, h, ks) {
      forall k | k in h.lits ensures Holds(h.lits[k], e.attrs[k]) {
        assert k in Keys(h);
        var j :| 0 <= j < |ks| && ks[j] == k;
      }
    }
  }

  /** The empty hypothesis `{}` predicts True for every example, whatever the
      key order. */
  lemma EmptyPredictsTrue(e: Example, order: Hyp -> seq<string>)
    requires OrderFits(order, Empty)
    ensures GuessValue(e, Empty, order)
  {
    GuessValueOrderFree(e, Empty, order);
  }
}
