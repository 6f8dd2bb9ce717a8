/** The strategy comes to a stop: every question that is not answered by a stop names a
    new atom to assign. */
module Progress {
  import opened Sequences
  import opened Formulas
  import opened JustifyFrames
  import opened JustifyWalk
  import opened Strategy

  ghost function AtomsOf(f: Formula): set<nat>
    decreases f, 1
  {
    match f
    case Atom(a) => {a}
    case Not(g) => AtomsOf(g)
    case And(fs) => AtomsOfAll(fs)
    case Or(fs) => AtomsOfAll(fs)
    case Implies(x, y) => AtomsOf(x) + AtomsOf(y)
    case Ite(c, t, e) => AtomsOf(c) + AtomsOf(t) + AtomsOf(e)
    case Xor(x, y) => AtomsOf(x) + AtomsOf(y)
    case Iff(x, y) => AtomsOf(x) + AtomsOf(y)
  }

  ghost function AtomsOfAll(fs: seq<Formula>): set<nat>
    decreases fs, 0
  {
    if fs == [] then {} else AtomsOf(fs[0]) + AtomsOfAll(fs[1..])
  }

  lemma {:induction false} AtomsOfMember(fs: seq<Formula>, i: nat)
    requires i < |fs|
    ensures AtomsOf(fs[i]) <= AtomsOfAll(fs)
  {
    if i == 0 {
    } else {
      AtomsOfMember(fs[1..], i - 1);
    }
  }

  lemma {:induction false} OccurringAtom(a: nat, f: Formula)
    requires Occurs(a, f)
    ensures a in AtomsOf(f)
    decreases f
  {
    match f
    case Atom(_) =>
    case Not(g) => OccurringAtom(a, g);
    case And(fs) => OccurringInAll(a, fs);
    case Or(fs) => OccurringInAll(a, fs);
    case Implies(x, y) => if Occurs(a, x) { OccurringAtom(a, x); } else { OccurringAtom(a, y); }
    case Ite(c, t, e) =>
      if Occurs(a, c) { OccurringAtom(a, c); } else if Occurs(a, t) { OccurringAtom(a, t); } else { OccurringAtom(a, e); }
    case Xor(x, y) => if Occurs(a, x) { OccurringAtom(a, x); } else { OccurringAtom(a, y); }
    case Iff(x, y) => if Occurs(a, x) { OccurringAtom(a, x); } else { OccurringAtom(a, y); }
  }

  lemma {:induction false} OccurringInAll(a: nat, fs: seq<Formula>)
    requires exists i :: 0 <= i < |fs| && Occurs(a, fs[i])
    ensures a in AtomsOfAll(fs)
    decreases fs
  {
    var i :| 0 <= i < |fs| && Occurs(a, fs[i]);
    OccurringAtom(a, fs[i]);
    AtomsOfMember(fs, i);
  }

  lemma {:induction false} AtomOccurs(a: nat, f: Formula)
    requires a in AtomsOf(f)
    ensures Occurs(a, f)
    decreases f, 1
  {
    match f
    case Atom(_) =>
    case Not(g) => AtomOccurs(a, g);
    case And(fs) => var i := AtomOccursInAll(a, fs);
    case Or(fs) => var i := AtomOccursInAll(a, fs);
    case Implies(x, y) => if a in AtomsOf(x) { AtomOccurs(a, x); } else { AtomOccurs(a, y); }
    case Ite(c, t, e) =>
      if a in AtomsOf(c) { AtomOccurs(a, c); } else if a in AtomsOf(t) { AtomOccurs(a, t); } else { AtomOccurs(a, e); }
    case Xor(x, y) => if a in AtomsOf(x) { AtomOccurs(a, x); } else { AtomOccurs(a, y); }
    case Iff(x, y) => if a in AtomsOf(x) { AtomOccurs(a, x); } else { AtomOccurs(a, y); }
  }

  lemma {:induction false} AtomOccursInAll(a: nat, fs: seq<Formula>) returns (i: nat)
    requires a in AtomsOfAll(fs)
    ensures i < |fs| && Occurs(a, fs[i])
    decreases fs, 0
  {
    if a in AtomsOf(fs[0]) {
      i := 0;
      AtomOccurs(a, fs[0]);
    } else {
      i := AtomOccursInAll(a, fs[1..]);
      i := i + 1;
    }
  }

  /** The atoms of the assertions that have no value yet. */
  ghost function OpenAtoms(main: seq<Formula>, local: seq<Formula>, sigma: Assignment): set<nat> {
    AtomsOfAll(main) + AtomsOfAll(local) - sigma.Keys
  }

  lemma {:induction false} DecisionIsOpen(a: Answer, w: World)
    requires Justified(a, w) && a.lit.Some?
    ensures a.lit.value.atom in OpenAtoms(w.main, w.local, w.sigma)
  {
    var f :| (f in w.main || f in w.local) && Occurs(a.lit.value.atom, f);
    OccurringAtom(a.lit.value.atom, f);
    if f in w.main {
      var i :| 0 <= i < |w.main| && w.main[i] == f;
      AtomsOfMember(w.main, i);
    } else {
      var i :| 0 <= i < |w.local| && w.local[i] == f;
      AtomsOfMember(w.local, i);
    }
  }

  lemma DecisionCloses(main: seq<Formula>, local: seq<Formula>, sigma: Assignment, a: nat, v: bool)
    requires a in OpenAtoms(main, local, sigma)
    ensures OpenAtoms(main, local, sigma[a := v]) == OpenAtoms(main, local, sigma) - {a}
    ensures |OpenAtoms(main, local, sigma[a := v])| < |OpenAtoms(main, local, sigma)|
  {
    assert OpenAtoms(main, local, sigma[a := v]) == OpenAtoms(main, local, sigma) - {a};
  }

  /** All assertions are decided, and so satisfied unless one is false. */
  ghost predicate Finished(js: JustificationStrategy)
    reads js, js.sat, js.assertions, js.localAssertions
  {
    js.EverythingDecided() && (js.NoConflict() <==> js.EverythingSatisfied())
  }

  ghost function OpenIn(js: JustificationStrategy): set<nat>
    reads js, js.sat, js.assertions, js.localAssertions
  {
    OpenAtoms(js.assertions.assertions, js.localAssertions.assertions, js.sat.assigns)
  }

  /** One question; the literal it is answered with gets a value at a new level. */
  method Decide(js: JustificationStrategy, values: nat -> bool) returns (decision: Option<nat>)
    requires js.Valid() && !js.decisionStopOnly
    modifies js, js.sat, js.jcache, js.stack, js.assertions`index, js.localAssertions`index
    ensures js.Valid()
    ensures decision.None? ==>
      && Finished(js)
      && js.sat.assigns == old(js.sat.assigns) && js.saved == old(js.saved)
    ensures decision.Some? ==>
      && decision.value in old(OpenIn(js)) && OpenIn(js) == old(OpenIn(js)) - {decision.value}
      && js.sat.assigns == old(js.sat.assigns)[decision.value := values(decision.value)]
      && |js.saved| == |old(js.saved)| + 1
  {
    var answer := Ask(js, NextRequested);
    if answer.value.stop {
      return None;
    }
    var a := answer.value.lit.value.atom;
    DecisionIsOpen(answer.value, WorldOf(js));
    DecisionCloses(js.assertions.assertions, js.localAssertions.assertions, js.sat.assigns, a, values(a));
    js.Push();
    js.Assign(a, values(a));
    return Some(a);
  }

  /** The assignment after the given decisions. */
  ghost function Assigning(sigma: Assignment, decided: seq<nat>, values: nat -> bool): Assignment {
    if decided == [] then sigma
    else Assigning(sigma, decided[..|decided| - 1], values)[decided[|decided| - 1] := values(decided[|decided| - 1])]
  }

  lemma {:induction false} AssigningGives(sigma: Assignment, decided: seq<nat>, values: nat -> bool, a: nat)
    ensures a in Assigning(sigma, decided, values) <==> a in sigma || a in decided
    ensures a in decided ==> Assigning(sigma, decided, values)[a] == values(a)
    ensures a in sigma && a !in decided ==> Assigning(sigma, decided, values)[a] == sigma[a]
  {
    if decided == [] {
    } else {
      var n := |decided| - 1;
      AssigningGives(sigma, decided[..n], values, a);
      assert decided == decided[..n] + [decided[n]];
    }
  }

  lemma {:induction false} DistinctIsSmall(s: seq<nat>, open: set<nat>)
    requires Distinct(s) && Members(s) <= open
    ensures |s| <= |open|
  {
    if s == [] {
    } else {
      var n := |s| - 1;
      assert s == s[..n] + [s[n]];
      assert s[n] !in s[..n];
      assert s[n] in Members(s);
      DistinctIsSmall(s[..n], open - {s[n]});
    }
  }

  /** A solver that assigns each literal it is given, with whatever value, at a new level is
      told to stop; before that it is asked to decide atoms that were open, each once. */
  method Finish(js: JustificationStrategy, values: nat -> bool) returns (decided: seq<nat>)
    requires js.Valid() && !js.decisionStopOnly
    modifies js, js.sat, js.jcache, js.stack, js.assertions`index, js.localAssertions`index
    ensures js.Valid() && Finished(js)
    ensures js.assertions.assertions == old(js.assertions.assertions)
    ensures js.localAssertions.assertions == old(js.localAssertions.assertions)
    ensures Distinct(decided) && Members(decided) <= old(OpenIn(js)) && |decided| <= |old(OpenIn(js))|
    ensures js.sat.assigns == Assigning(old(js.sat.assigns), decided, values)
    ensures |js.saved| == |old(js.saved)| + |decided|
  {
    ghost var open0, sigma0 := OpenIn(js), js.sat.assigns;
    DecidedNone(open0, sigma0, values);
    decided := FinishFrom(js, values, [], open0, sigma0);
    DistinctIsSmall(decided, open0);
  }

  lemma DecidedNone(open: set<nat>, sigma: Assignment, values: nat -> bool)
    ensures Deciding(open, open, sigma, sigma, [], values)
  {
    assert Members<nat>([]) == {};
  }

  method FinishFrom(js: JustificationStrategy, values: nat -> bool, decided: seq<nat>, ghost open0: set<nat>, ghost sigma0: Assignment)
    returns (all: seq<nat>)
    requires js.Valid() && !js.decisionStopOnly
    requires Deciding(open0, OpenIn(js), sigma0, js.sat.assigns, decided, values)
    modifies js, js.sat, js.jcache, js.stack, js.assertions`index, js.localAssertions`index
    ensures js.Valid() && Finished(js) && |js.saved| == |old(js.saved)| + |all| - |decided|
    ensures Deciding(open0, OpenIn(js), sigma0, js.sat.assigns, all, values)
    decreases |OpenIn(js)|
  {
    var done, more := DecideMore(js, values, decided, open0, sigma0);
    if done {
      return more;
    }
    all := FinishFrom(js, values, more, open0, sigma0);
  }

  method DecideMore(js: JustificationStrategy, values: nat -> bool, decided: seq<nat>, ghost open0: set<nat>, ghost sigma0: Assignment)
    returns (done: bool, more: seq<nat>)
    requires js.Valid() && !js.decisionStopOnly
    requires Deciding(open0, OpenIn(js), sigma0, js.sat.assigns, decided, values)
    modifies js, js.sat, js.jcache, js.stack, js.assertions`index, js.localAssertions`index
    ensures js.Valid() && |js.saved| == |old(js.saved)| + |more| - |decided|
    ensures Deciding(open0, OpenIn(js), sigma0, js.sat.assigns, more, values)
    ensures done ==> Finished(js)
    ensures if done then OpenIn(js) == old(OpenIn(js)) else |OpenIn(js)| < |old(OpenIn(js))|
  {
    ghost var open, sigma := OpenIn(js), js.sat.assigns;
    var decision := Decide(js, values);
    if decision.None? {
      return true, decided;
    }
    DecidedOne(open0, open, sigma0, sigma, decided, values, decision.value);
    return false, decided + [decision.value];
  }

  /** What was open and unassigned at first, after the given decisions. */
  ghost predicate Deciding(open0: set<nat>, open: set<nat>, sigma0: Assignment, sigma: Assignment, decided: seq<nat>, values: nat -> bool) {
    && open == open0 - Members(decided) && Distinct(decided) && Members(decided) <= open0
    && sigma == Assigning(sigma0, decided, values)
  }

  lemma {:induction false} DecidedOne(open0: set<nat>, open: set<nat>, sigma0: Assignment, sigma: Assignment, decided: seq<nat>,
                                      values: nat -> bool, a: nat)
    requires Deciding(open0, open, sigma0, sigma, decided, values) && a in open
    ensures Deciding(open0, open - {a}, sigma0, sigma[a := values(a)], decided + [a], values)
    ensures |open - {a}| < |open|
  {
    AppendOne(decided, a);
    assert (decided + [a])[..|decided|] == decided;
  }
}
