# Current-best-hypothesis learning, verified model

This project models `knowledge.py`, the current-best-hypothesis learner of
Figure 19.2 of Russell and Norvig's *Artificial Intelligence: A Modern
Approach*, and proves its properties in Dafny.

A hypothesis is a dictionary from attribute names to literals. It may also
hold a reserved key `'|'` whose value is another hypothesis, an OR
alternative. The learner walks the examples in order:
- it keeps the current hypothesis while the hypothesis predicts each example's
  GOAL;
- on a false positive it tries the specializations of the hypothesis;
- on a false negative it tries the generalizations;
- in both cases it backtracks depth-first and returns `'FAIL'` once every
  candidate failed.

The model has five modules, one per layer of the program:

- `Hypotheses` (`hypotheses.dfy`): literals and hypotheses as datatypes. It
  covers `Lit(value, negated)` for `v` / `'!' + v`, `Hyp(lits, alt)` with
  `alt` as the `'|'` value, the spelling of literals as strings, and key
  deletion (`del h2[d]`).
- `Evaluator` (`evaluator.dfy`): `guess_value`. `Guess` is the order-free
  reference: the conjunction holds, or the alternative predicts true.
  `GuessValue` is the source's loop, run over the dictionary keys in an
  arbitrary iteration order.
- `Consistency` (`consistency.dfy`): `is_consistent`, `false_positive`,
  `false_negative`, `check_all_consistency` and `check_negative_consistency`.
- `Refinement` (`refinement.dfy`): `specializations`, `generalizations` and
  `add_or` as imperative methods. Each builds its candidate list from copies
  of `h`; specializations and generalizations then shuffle it, add_or does
  not. Each is specified by a ghost predicate saying which
  hypotheses are its candidates: `IsSpecialization`, `Deleted`, `AddedOr`,
  `IsGeneralization`. Shape lemmas say what every candidate looks like and
  which consistency check it passed.
- `Learning` (`learning.dfy`): `current_best_learning` as a recursive method.
  The predicate `Reaches` is an upper bound on what the method may return.
  The predicate `Succeeds` is a lower bound on when it is sure to find a
  hypothesis. The module also proves the learner's outcome on three small inputs:
  - the textbook scenario succeeds;
  - two identical examples with opposite labels fail from `{}`;
  - the same examples, started from `{'|': {}}`, return a hypothesis
    inconsistent with one of them.

In `generalizations`, the test at `knowledge.py:89` reads `h2` before line 90
reassigns it. The model keeps this as written, with a mutable local `h2`. The
OR candidates are therefore filtered by the leftover of the deletion loop, or
by the previous OR candidate, and not by the candidate being built.

`add_or` is modelled as the code reads (`knowledge.py:104-106`): the
literals are bare when the last example's GOAL is true, and `'!'`-negated
when it is false.

## Model

| member | source | states |
|---|---|---|
| Hypotheses.Delete | knowledge.py:76-78 | `del h2[d]` on a copy removes exactly key `d`, leaves every other literal unchanged, and keeps the alternative unless `d` is the OR key |
| Hypotheses.DeleteAllRestricts | knowledge.py:75-78 | deleting one powerset entry restricts `h` to its keys minus that entry; the alternative goes exactly when the OR key is in the entry |
| Hypotheses.WithinDeleteAll | knowledge.py:75-78 | deletion never introduces an attribute the examples lack |
| Hypotheses.ParseSpell | knowledge.py:152-164 | reading a literal's dictionary spelling (leading `'!'` = not equal) gives the literal back, and the spelling is non-empty, so `v[0]` exists |
| Hypotheses.SpellParse | knowledge.py:152-164 | every non-empty dictionary value is the spelling of the literal it is read as |
| Evaluator.ParseHolds | knowledge.py:152-161 | a non-empty dictionary value read as a literal holds of an attribute value exactly when guess_value's tests pass: unequal to the rest of a `'!'` value, equal to a bare value |
| Evaluator.GuessItemsMeaning | knowledge.py:146-166 | the loop over any list of the hypothesis keys returns the conjunction of the literals it visits, or else the alternative's prediction, wherever the OR key sits in the list |
| Evaluator.GuessValueOrderFree | knowledge.py:144-166 | for every key iteration order, `guess_value` is true iff all literals hold (`e[k] == v` for bare, `e[k] != v` for negated) or the OR alternative predicts true |
| Evaluator.EmptyPredictsTrue | knowledge.py:146-166 | `{}` predicts True for every example |
| Consistency.Trichotomy | knowledge.py:169-186 | exactly one of is_consistent, false_positive, false_negative holds, so the learner always takes one branch |
| Consistency.AllConsistentMeaning | knowledge.py:124-129 | check_all_consistency holds iff every example is consistent |
| Consistency.NegativesConsistentMeaning | knowledge.py:132-141 | check_negative_consistency holds iff every GOAL-false example is consistent |
| Consistency.AllImpliesNegatives | knowledge.py:124-141 | the first check implies the second |
| Consistency.ConsistencySplits | knowledge.py:124-141 | both checks hold on `xs + ys` iff they hold on `xs` and on `ys` |
| Refinement.Shuffle | knowledge.py:63 | the shuffled list is a permutation of the built one: the same multiset |
| Refinement.AndCandidatesOf | knowledge.py:46-53 | the inner loop over `e.items()`, in any order, yields exactly the AND candidates from that example that pass check_all_consistency |
| Refinement.Specializations | knowledge.py:35-64 | the result holds exactly the specializations: the consistency-checked AND candidates of every example, and `h` with its OR branch replaced by each specialization of it |
| Refinement.SpecializationShape | knowledge.py:41-61 | a candidate either adds exactly one new key `k` (not in `h`, not GOAL, not the OR key) with value `e[k]`, negated iff that example's GOAL is false, and passes check_all_consistency; or keeps every literal of `h` and replaces the OR branch by a specialization of it, unchecked |
| Refinement.SpecializationComplete | knowledge.py:41-53 | every one-literal extension from an example key that passes check_all_consistency is a candidate |
| Refinement.SpecsWithin | knowledge.py:35-64 | specialization candidates mention only attributes every example has |
| Refinement.Conjunction | knowledge.py:112-114 | the loop `for k in c: h2[k] = attrs[k]` builds the pure conjunction of exactly the literals of `attrs` named by `c` |
| Refinement.AddOr | knowledge.py:98-121 | the result holds exactly the add_or candidates: `h` with the OR key set to the conjunction built from each powerset entry of the last example's non-GOAL keys that passes check_negative_consistency |
| Refinement.AddOrShape | knowledge.py:102-119 | every add_or candidate equals `h` except for the OR key, which holds a pure conjunction over non-GOAL keys of the last example; its literals are `e[k]`, bare when GOAL is true and `'!'` when false; the conjunction passes check_negative_consistency |
| Refinement.AddOrRepairsFalseNegative | knowledge.py:98-121 | if `h` has no OR key, is consistent with all examples but the last, and the last is positive, every add_or candidate is consistent with all examples |
| Refinement.DeleteKeys | knowledge.py:76-78 | copying `h` and deleting each key of a powerset entry in turn gives `h` with that entry deleted |
| Refinement.DeletionCandidates | knowledge.py:74-81 | the deletion loop keeps exactly the deletions that pass check_all_consistency, and leaves `h2` holding the deletion of the last powerset entry |
| Refinement.DeletionShape | knowledge.py:75-81 | every deletion candidate is `h` restricted to its keys minus one powerset entry (possibly holding the OR key), and passes check_all_consistency |
| Refinement.GenWithin | knowledge.py:67-95 | generalization candidates mention only attributes every example has |
| Refinement.Generalizations | knowledge.py:67-95 | every result is a generalization: a deletion, an add_or candidate, or `h` with its OR branch replaced by a generalization of it; all deletion candidates are present; without the OR key the result is exactly deletions plus add_or; with the OR key and a failing stale test it is exactly the deletions |
| Learning.BindsFromNonEmpty | knowledge.py:72-89 | a powerset that is non-empty for non-empty key sets binds `h2` before the OR branch reads it, at every level |
| Learning.CurrentBestLearning | knowledge.py:7-32 | returns `h` when no examples are left; any hypothesis found is reachable by the search with the triggering example last in `examples_so_far`; it returns a hypothesis whenever some guaranteed path succeeds |
| Learning.TryCandidates | knowledge.py:22-32 | a result found comes from one candidate's recursive search; `'FAIL'` means that no candidate's search was sure to succeed |
| Learning.ConsistentHypothesisKept | knowledge.py:15-20 | a hypothesis consistent with all remaining examples is what the search returns, and the search succeeds |
| Learning.StepKeepsConsistency | knowledge.py:19-30 | when `h` has no OR key and fits the examples seen so far, whatever the next step continues with fits them and the new example |
| Learning.UncheckedOrSpecialization | knowledge.py:57-61 | from the hypothesis whose only key is an empty OR branch on `[{A: a, GOAL: False}, {A: a, GOAL: True}]` the only reachable result is the hypothesis whose OR branch is `{'A': '!a'}`, which predicts True for the first, negative, example |
| Learning.LearnFromOrEmpty | knowledge.py:7-32 | that run returns exactly the hypothesis whose OR branch is `{'A': '!a'}`, inconsistent with an example it saw |
| Learning.NoGeneralizationOfNotA | knowledge.py:67-121 | no deletion of `{'A': '!a'}` and no add_or candidate from the positive example fits those two examples |
| Learning.IdenticalExamplesUnreachable | knowledge.py:7-32 | from `{}` nothing is reachable on two examples that differ only in GOAL |
| Learning.LearnIdenticalFromEmpty | knowledge.py:7-32 | from `{}` that run returns `'FAIL'` |
| Learning.SpecsOfOrEmpty | knowledge.py:41-61 | on `[{A: a, GOAL: False}]` the only specialization of the hypothesis whose only key is an empty OR branch is the unchecked OR one |
| Learning.NotA2FitsScenario | knowledge.py:124-129 | `{'A': '!a2'}` passes check_all_consistency on the three scenario examples |
| Learning.ScenarioSucceeds | knowledge.py:15-25 | on `{A:a1,B:b1,T}`, `{A:a1,B:b2,T}`, `{A:a2,B:b1,F}` from `{}`, the third example's specialization `{'A': '!a2'}` leads to success |
| Learning.ScenarioReachesConsistent | knowledge.py:7-32 | every result reachable in that scenario is consistent with all three examples |
| Learning.LearnScenario | knowledge.py:7-32 | the learner returns a hypothesis in that scenario, consistent with all three examples |

## Left out

- `random.shuffle` (knowledge.py:63, knowledge.py:94) is an arbitrary permutation (`Shuffle`, implemented by arbitrary choice). Nothing is proved about the order.
- `Refinement.Specializations`, `Refinement.AddOr` and `Refinement.Generalizations` state their results as sets of candidates. A candidate the list holds twice (the same literal taken from two examples) is not counted.
- `utils.powerset` (knowledge.py:4) is a parameter `ps`. Each entry lists distinct members of the given key set. The model does not assume that the empty subset or the full set is included. The learner requires at least one entry for each non-empty key set, so that `h2` is bound when the OR branch of generalizations reads it.
- The iteration order of dictionaries is a parameter. `guess_value` takes it as an order function; the inner loop of specializations takes an arbitrary choice of the next key.
- The `KeyError` that `guess_value` raises on a missing attribute is a precondition. All examples share one set of attribute names, and every hypothesis mentions only those names. This is stronger than Python needs, since it forbids examples with different keys.
- The `IndexError` on an empty value and the ambiguity of bare values that start with `'!'` are avoided: literals are the datatype `Lit`. `Spell`/`Parse` relate it to the string form for literals that read back unambiguously. An example value that starts with `'!'`, copied into a literal by `mod + v`, would be misread by Python; the model keeps it as a bare literal.
- No example attribute may be named `'|'` (`OrKey !in schema` in `Learning.CurrentBestLearning`, `Learning.TryCandidates`, `Refinement.AddOr`, `Refinement.Generalizations` and `Refinement.GenWithin`). Python allows one: specializations skip it (knowledge.py:47), but add_or copies it into the new OR branch (knowledge.py:108, knowledge.py:113-114), and guess_value then calls `.items()` on a string (knowledge.py:146-148). The model does not capture that crash.
- `current_best_learning` recurses once per example (knowledge.py:20, knowledge.py:23, knowledge.py:28), so an example list longer than Python's recursion limit raises `RecursionError`. The model has no recursion limit and returns a result for every length.
- An example's GOAL is its boolean field `goal`. Its attribute map holds the other attributes. The refinements' test `k == 'GOAL'` is kept; it is simply never true.
- The mutable default `examples_so_far=[]` (knowledge.py:7) is never mutated; it is the explicit parameter `sofar`.
- The `'FAIL'` string is `Outcome.Fail`. A result is a dictionary, so `h3 != 'FAIL'` (knowledge.py:24) is exactly `Found?`.
- Unconditional soundness of `current_best_learning` is not proved, because it does not hold. `Learning.LearnFromOrEmpty` returns a hypothesis that is inconsistent with an example it saw. The cause is the OR specializations at knowledge.py:57-61, which are never checked. For the same reason, two examples with identical attributes and opposite labels make the learner fail from `{}` (`Learning.LearnIdenticalFromEmpty`) and not from `{'|': {}}` (`Learning.LearnFromOrEmpty`). What is proved is conditional: `Learning.StepKeepsConsistency`, `Learning.ConsistentHypothesisKept` and the scenario lemmas.
- `Refinement.Generalizations`: when `h` has `'|'` and the stale test at knowledge.py:89 passes, only an upper bound is stated for the OR candidates. Which of them appear depends on the order of the recursive result, because the test re-reads the previous candidate.
- `Learning.CurrentBestLearning`: the result is bounded by `Reaches` and `Succeeds`, not fixed. It depends on the shuffle order. `Reaches` uses the upper bound of generalizations for the OR part.
- `Learning.TryCandidates`: "returns `'FAIL'` only after every candidate's recursive call returned `'FAIL'`" is stated as "no candidate was sure to succeed". A contract cannot refer to calls of the method itself.
