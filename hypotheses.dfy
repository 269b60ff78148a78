/** Hypotheses of current-best-hypothesis learning (knowledge.py). A hypothesis
    is a dictionary from attribute names to literals, with an optional
    reserved key `'|'` whose value is another hypothesis: the OR alternative. */
module Hypotheses {

  datatype Option<+T> = None | Some(value: T)

  /** `Lit(v, false)` is the bare value `v` (the attribute must equal `v`);
      `Lit(v, true)` is `'!' + v` (the attribute must differ from `v`). */
  datatype Lit = Lit(value: string, negated: bool)

  /** The dictionary value that stands for literal `l`: `'!' + v` or `v`. */
  function Spell(l: Lit): string
  {
    if l.negated then "!" + l.value else l.value
  }

  /** How `guess_value` reads a dictionary value: a leading `'!'` negates the
      rest. The empty value has no first character to test. */
  function Parse(v: string): Lit
    requires v != []
  {
    if v[0] == '!' then Lit(v[1..], true) else Lit(v, false)
  }

  /** Literals whose spelling reads back as themselves: a bare value is
      non-empty and does not itself start with `'!'`. */
  predicate Spellable(l: Lit)
  {
    l.negated || (l.value != [] && l.value[0] != '!')
  }

  /** Reading a spelled literal gives the literal back. */
  lemma ParseSpell(l: Lit)
    requires Spellable(l)
    ensures Spell(l) != [] && Parse(Spell(l)) == l
  {
    if l.negated {
      assert ("!" + l.value)[1..] == l.value;
    }
  }

  /** Spelling a parsed value gives the value back, and a value read as bare
      never starts with `'!'`. */
  lemma SpellParse(v: string)
    requires v != []
    ensures Spell(Parse(v)) == v
    ensures !Parse(v).negated ==> Spellable(Parse(v))
  {
    if v[0] == '!' {
      assert "!" + v[1..] == v;
    }
  }

  /** A hypothesis dictionary: `lits` holds its attribute keys and `alt` the
      value of its `'|'` key, when it has one. */
  datatype Hyp = Hyp(lits: map<string, Lit>, alt: Option<Hyp>)

  /** The reserved key of the OR alternative. */
  const OrKey: string := "|"

  /** The reserved key of an example's label. */
  const GoalKey: string := "GOAL"

  /** The empty hypothesis `{}`. */
  const Empty: Hyp := Hyp(map[], None)

  /** `h.keys()`: the attribute keys, and `'|'` when there is an alternative. */
  function Keys(h: Hyp): set<string>
  {
    h.lits.Keys + if h.alt.Some? then {OrKey} else {}
  }

  /** `h` is a hypothesis over the attribute names `s` at every OR level; no
      attribute key is the reserved `'|'`. */
  predicate Within(h: Hyp, s: set<string>)
    decreases h
  {
    && OrKey !in h.lits
    && h.lits.Keys <= s
    && (h.alt.Some? ==> Within(h.alt.value, s))
  }

  predicate Distinct(ks: seq<string>)
  {
    forall i, j :: 0 <= i < j < |ks| ==> ks[i] != ks[j]
  }

  /** `ks` lists distinct members of `s`: one entry of a powerset of `s`. */
  predicate SubsetOf(ks: seq<string>, s: set<string>)
  {
    Distinct(ks) && forall i :: 0 <= i < |ks| ==> ks[i] in s
  }

  function Elements(ks: seq<string>): set<string>
  {
    set k | k in ks
  }

  /** `del h2[d]` on a copy `h2` of `h`: the key `d` is gone, nothing else changes. */
  function Delete(h: Hyp, d: string): (r: Hyp)
    requires d in Keys(h) && OrKey !in h.lits
    ensures OrKey !in r.lits
    ensures Keys(r) == Keys(h) - {d}
    ensures forall k :: k in r.lits ==> r.lits[k] == h.lits[k]
    ensures d != OrKey ==> r.alt == h.alt
  {
    if d == OrKey then h.(alt := None) else h.(lits := h.lits - {d})
  }

  /** The loop `for d in deletions: del h2[d]` started from a copy of `h`. */
  function DeleteAll(h: Hyp, ds: seq<string>): Hyp
    requires SubsetOf(ds, Keys(h)) && OrKey !in h.lits
    decreases |ds|
  {
    if ds == [] then h else DeleteAll(Delete(h, ds[0]), ds[1..])
  }

  /** Deleting a powerset entry restricts `h` to its keys minus that entry;
      the alternative goes exactly when `'|'` is among the deleted keys. */
  lemma {:induction false} DeleteAllRestricts(h: Hyp, ds: seq<string>)
    requires SubsetOf(ds, Keys(h)) && OrKey !in h.lits
    ensures DeleteAll(h, ds).lits == h.lits - Elements(ds)
    ensures DeleteAll(h, ds).alt == if OrKey in ds then None else h.alt
    decreases |ds|
  {
    if ds == [] {
      assert Elements(ds) == {};
    } else {
      var d := ds[0];
      var h1 := Delete(h, d);
      DeleteAllRestricts(h1, ds[1..]);
      assert Elements(ds) == {d} + Elements(ds[1..]);
      assert OrKey in ds <==> d == OrKey || OrKey in ds[1..];
      if d == OrKey {
        assert h1.lits == h.lits;
        assert OrKey !in ds[1..];
      } else {
        assert h1.lits == h.lits - {d};
      }
    }
  }

  /** Deleting keys keeps a hypothesis within its attribute names. */
  lemma WithinDeleteAll(h: Hyp, ds: seq<string>, s: set<string>)
    requires SubsetOf(ds, Keys(h)) && Within(h, s)
    ensures Within(DeleteAll(h, ds), s)
  {
    DeleteAllRestricts(h, ds);
  }
}
