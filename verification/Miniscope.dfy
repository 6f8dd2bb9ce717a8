/** The conjuncts an assertion is split into before it reaches an assertion list. */
module Miniscope {
  import opened Formulas
  import opened JustifyFrames

  /** The conjuncts of f, or of its negation when `pol` is false. */
  ghost function Conjuncts(f: Formula, pol: bool): seq<Formula>
    decreases f, 1
  {
    match f
    case Not(g) => Conjuncts(g, !pol)
    case And(fs) => if pol then AllConjuncts(fs, pol) else [Not(f)]
    case Or(fs) => if pol then [f] else AllConjuncts(fs, pol)
    case _ => [if pol then f else Not(f)]
  }

  ghost function AllConjuncts(fs: seq<Formula>, pol: bool): seq<Formula>
    decreases fs, 0
  {
    if fs == [] then [] else Conjuncts(fs[0], pol) + AllConjuncts(fs[1..], pol)
  }

  /** Top-level literals are left to the solver's propagation. */
  ghost function NonLiterals(fs: seq<Formula>): seq<Formula> {
    if fs == [] then []
    else (if IsTheoryLiteral(fs[0]) then [] else [fs[0]]) + NonLiterals(fs[1..])
  }

  ghost predicate AllHold(fs: seq<Formula>, total: nat -> bool) {
    forall i :: 0 <= i < |fs| ==> Holds(fs[i], total)
  }

  lemma AllHoldConcat(fs: seq<Formula>, gs: seq<Formula>, total: nat -> bool)
    ensures AllHold(fs + gs, total) <==> AllHold(fs, total) && AllHold(gs, total)
  {
    if AllHold(fs + gs, total) {
      assert forall i :: 0 <= i < |fs| ==> fs[i] == (fs + gs)[i];
      assert forall i :: 0 <= i < |gs| ==> gs[i] == (fs + gs)[|fs| + i];
    }
  }

  /** The conjuncts of f hold exactly when f does (does not, for `pol` false). */
  lemma {:induction false} ConjunctsMeaning(f: Formula, pol: bool, total: nat -> bool)
    ensures AllHold(Conjuncts(f, pol), total) <==> Holds(f, total) == pol
    decreases f, 1
  {
    match f
    case Not(g) => ConjunctsMeaning(g, !pol, total);
    case And(fs) =>
      if pol { AllConjunctsMeaning(fs, pol, total); } else { assert AllHold([Not(f)], total) <==> Holds([Not(f)][0], total); }
    case Or(fs) =>
      if pol { assert AllHold([f], total) <==> Holds([f][0], total); } else { AllConjunctsMeaning(fs, pol, total); }
    case _ =>
      var c := if pol then f else Not(f);
      assert AllHold([c], total) <==> Holds([c][0], total);
  }

  lemma {:induction false} AllConjunctsMeaning(fs: seq<Formula>, pol: bool, total: nat -> bool)
    ensures AllHold(AllConjuncts(fs, pol), total) <==> forall i :: 0 <= i < |fs| ==> Holds(fs[i], total) == pol
    decreases fs, 0
  {
    if fs == [] {
    } else {
      ConjunctsMeaning(fs[0], pol, total);
      AllConjunctsMeaning(fs[1..], pol, total);
      AllHoldConcat(Conjuncts(fs[0], pol), AllConjuncts(fs[1..], pol), total);
      assert forall i :: 0 < i < |fs| ==> fs[i] == fs[1..][i - 1];
      assert forall i :: 0 <= i < |fs| - 1 ==> fs[1..][i] == fs[i + 1];
    }
  }

  /** No conjunct can be split further. */
  ghost predicate Irreducible(f: Formula) {
    WellFormed(f) && !f.And? && !(f.Not? && f.arg.Or?)
  }

  lemma {:induction false} ConjunctsIrreducible(f: Formula, pol: bool)
    requires WellFormed(f)
    ensures forall i :: 0 <= i < |Conjuncts(f, pol)| ==> Irreducible(Conjuncts(f, pol)[i])
    decreases f, 1
  {
    match f
    case Not(g) => ConjunctsIrreducible(g, !pol);
    case And(fs) => if pol { AllConjunctsIrreducible(fs, pol); }
    case Or(fs) => if !pol { AllConjunctsIrreducible(fs, pol); }
    case _ =>
  }

  lemma {:induction false} AllConjunctsIrreducible(fs: seq<Formula>, pol: bool)
    requires AllWellFormed(fs)
    ensures forall i :: 0 <= i < |AllConjuncts(fs, pol)| ==> Irreducible(AllConjuncts(fs, pol)[i])
    decreases fs, 0
  {
    if fs == [] {
    } else {
      ConjunctsIrreducible(fs[0], pol);
      AllConjunctsIrreducible(fs[1..], pol);
    }
  }

  lemma {:induction false} AllConjunctsConcat(fs: seq<Formula>, gs: seq<Formula>, pol: bool)
    ensures AllConjuncts(fs + gs, pol) == AllConjuncts(fs, pol) + AllConjuncts(gs, pol)
  {
    if fs == [] {
      assert fs + gs == gs;
    } else {
      assert (fs + gs)[1..] == fs[1..] + gs;
      AllConjunctsConcat(fs[1..], gs, pol);
    }
  }

  function Negated(fs: seq<Formula>): (r: seq<Formula>)
    ensures |r| == |fs| && forall i :: 0 <= i < |fs| ==> r[i] == Negate(fs[i])
  {
    if fs == [] then [] else [Negate(fs[0])] + Negated(fs[1..])
  }

  lemma {:induction false} NegatedConjuncts(fs: seq<Formula>)
    ensures AllConjuncts(Negated(fs), true) == AllConjuncts(fs, false)
    ensures TotalWeight(Negated(fs)) == TotalWeight(fs)
  {
    if fs == [] {
    } else {
      NegatedConjuncts(fs[1..]);
      assert Negated(fs)[1..] == Negated(fs[1..]);
      assert Conjuncts(Negate(fs[0]), true) == Conjuncts(fs[0], false);
    }
  }

  ghost predicate AllWellFormed(fs: seq<Formula>) {
    forall i :: 0 <= i < |fs| ==> WellFormed(fs[i])
  }

  lemma {:induction false} NegatedWellFormed(fs: seq<Formula>)
    requires AllWellFormed(fs)
    ensures AllWellFormed(Negated(fs))
  {
    forall i | 0 <= i < |fs|
      ensures WellFormed(Negated(fs)[i])
    {
      assert WellFormed(fs[i]);
    }
  }

  lemma {:induction false} NonLiteralsConcat(fs: seq<Formula>, gs: seq<Formula>)
    ensures NonLiterals(fs + gs) == NonLiterals(fs) + NonLiterals(gs)
  {
    if fs == [] {
      assert fs + gs == gs;
    } else {
      assert (fs + gs)[1..] == fs[1..] + gs;
      NonLiteralsConcat(fs[1..], gs);
    }
  }

  lemma {:induction false} NonLiteralsSelect(fs: seq<Formula>)
    ensures forall g :: g in NonLiterals(fs) <==> g in fs && !IsTheoryLiteral(g)
  {
    if fs == [] {
    } else {
      NonLiteralsSelect(fs[1..]);
      assert fs == [fs[0]] + fs[1..];
    }
  }

  /** What a list gains from the assertions fs. */
  ghost function Gained(fs: seq<Formula>): seq<Formula> {
    NonLiterals(AllConjuncts(fs, true))
  }

  lemma {:induction false} GainedCons(f: Formula, rest: seq<Formula>)
    ensures Gained([f] + rest) == NonLiterals(Conjuncts(f, true)) + Gained(rest)
    ensures TotalWeight([f] + rest) == 1 + Weight(f) + TotalWeight(rest)
  {
    assert ([f] + rest)[1..] == rest;
    NonLiteralsConcat(Conjuncts(f, true), AllConjuncts(rest, true));
  }

  /** Putting the parts of a conjunction in its place gains the same and is lighter. */
  lemma {:induction false} GainedParts(f: Formula, parts: seq<Formula>, rest: seq<Formula>)
    requires Conjuncts(f, true) == AllConjuncts(parts, true)
    requires Weight(f) == 1 + TotalWeight(parts)
    ensures Gained([f] + rest) == Gained(parts + rest)
    ensures TotalWeight(parts + rest) < TotalWeight([f] + rest)
  {
    GainedCons(f, rest);
    AllConjunctsConcat(parts, rest, true);
    NonLiteralsConcat(AllConjuncts(parts, true), AllConjuncts(rest, true));
    TotalWeightConcat(parts, rest);
  }

  lemma {:induction false} GainedWhole(f: Formula, rest: seq<Formula>, sofar: seq<Formula>)
    requires Conjuncts(f, true) == [f]
    ensures sofar + Gained([f] + rest) == (if IsTheoryLiteral(f) then sofar else sofar + [f]) + Gained(rest)
    ensures TotalWeight(rest) < TotalWeight([f] + rest)
  {
    GainedCons(f, rest);
    assert [f][1..] == [];
  }

  /** The arguments an AND, or a negated OR, is replaced by. */
  function Parts(f: Formula): (parts: Option<seq<Formula>>)
    requires WellFormed(f)
    ensures parts.None? ==> Conjuncts(f, true) == [f]
    ensures parts.Some? ==>
      && Conjuncts(f, true) == AllConjuncts(parts.value, true)
      && Weight(f) == 1 + TotalWeight(parts.value)
      && AllWellFormed(parts.value)
  {
    if f.And? then Some(f.args)
    else if f.Not? && f.arg.Or? then
      assert WellFormed(f.arg);
      NegatedConjuncts(f.arg.args);
      NegatedWellFormed(f.arg.args);
      Some(Negated(f.arg.args))
    else None
  }

  lemma AllHoldByMember(fs: seq<Formula>, total: nat -> bool)
    ensures AllHold(fs, total) <==> forall g :: g in fs ==> Holds(g, total)
  {
    if forall g :: g in fs ==> Holds(g, total) {
      forall i | 0 <= i < |fs|
        ensures Holds(fs[i], total)
      {
        assert fs[i] in fs;
      }
    }
  }

  /** What the assertion list gains, together with the skipped literals, means
      exactly what the given assertions mean. */
  lemma {:induction false} MiniscopeMeaning(lems: seq<Formula>, total: nat -> bool)
    ensures
      var all := AllConjuncts(lems, true);
      AllHold(lems, total) <==>
        && AllHold(Gained(lems), total)
        && forall g :: g in all && IsTheoryLiteral(g) ==> Holds(g, total)
  {
    var all := AllConjuncts(lems, true);
    AllConjunctsMeaning(lems, true, total);
    NonLiteralsSelect(all);
    AllHoldByMember(all, total);
    AllHoldByMember(NonLiterals(all), total);
  }

  /** Nothing the list gains is a literal, a conjunction or a negated disjunction. */
  lemma {:induction false} MiniscopeIrreducible(lems: seq<Formula>, i: nat)
    requires AllWellFormed(lems)
    requires i < |Gained(lems)|
    ensures
      var g := Gained(lems)[i];
      Irreducible(g) && !IsTheoryLiteral(g)
  {
    var all := AllConjuncts(lems, true);
    AllConjunctsIrreducible(lems, true);
    NonLiteralsSelect(all);
    assert NonLiterals(all)[i] in NonLiterals(all);
  }

  /** The list gains the parts of a conjunction or negated disjunction in their order, one
      assertion after the other; anything else is gained as it is, unless it is a literal. */
  lemma {:induction false} GainedInOrder(f: Formula, fs: seq<Formula>, rest: seq<Formula>)
    ensures Gained([]) == []
    ensures Gained([And(fs)] + rest) == Gained(fs) + Gained(rest)
    ensures Gained([Not(Or(fs))] + rest) == Gained(Negated(fs)) + Gained(rest)
    ensures !f.Not? && !f.And? ==> Gained([f] + rest) == (if IsTheoryLiteral(f) then [] else [f]) + Gained(rest)
    ensures f.Not? && !f.arg.Not? && !f.arg.Or? ==>
      Gained([f] + rest) == (if IsTheoryLiteral(f) then [] else [f]) + Gained(rest)
  {
    GainedCons(And(fs), rest);
    GainedCons(Not(Or(fs)), rest);
    NegatedConjuncts(fs);
    assert Conjuncts(Not(Or(fs)), true) == AllConjuncts(fs, false);
    GainedCons(f, rest);
    assert NonLiterals([f]) == if IsTheoryLiteral(f) then [] else [f];
  }
}
