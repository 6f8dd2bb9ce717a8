/** The connectives on values of their arguments: what the known arguments already settle. */
module Connectives {
  import opened Formulas

  predicate IsConnective(f: Formula) {
    !f.Atom? && !f.Not? && Children(f) != []
  }

  /** The connective of f on truth values of its arguments. */
  ghost predicate Op(f: Formula, bs: seq<bool>)
    requires IsConnective(f) && |bs| == |Children(f)|
  {
    match f
    case And(_) => forall i :: 0 <= i < |bs| ==> bs[i]
    case Or(_) => exists i :: 0 <= i < |bs| && bs[i]
    case Implies(_, _) => bs[0] ==> bs[1]
    case Ite(_, _, _) => if bs[0] then bs[1] else bs[2]
    case Xor(_, _) => bs[0] != bs[1]
    case Iff(_, _) => bs[0] == bs[1]
  }

  ghost function Truths(fs: seq<Formula>, total: nat -> bool): seq<bool> {
    seq(|fs|, i requires 0 <= i < |fs| => Holds(fs[i], total))
  }

  lemma HoldsByOp(f: Formula, total: nat -> bool)
    requires IsConnective(f)
    ensures Holds(f, total) <==> Op(f, Truths(Children(f), total))
  {
    var bs := Truths(Children(f), total);
    match f
    case And(fs) => assert forall i :: 0 <= i < |fs| ==> bs[i] == Holds(fs[i], total);
    case Or(fs) => assert forall i :: 0 <= i < |fs| ==> bs[i] == Holds(fs[i], total);
    case Implies(_, _) =>
    case Ite(_, _, _) =>
    case Xor(_, _) =>
    case Iff(_, _) =>
  }

  /** The value the known arguments give, SatUnknown where it depends on the others. */
  ghost function Combine(f: Formula, vals: seq<SatValue>): SatValue
    requires IsConnective(f) && |vals| == |Children(f)|
  {
    match f
    case And(_) =>
      if exists i :: 0 <= i < |vals| && vals[i] == SatFalse then SatFalse
      else if forall i :: 0 <= i < |vals| ==> vals[i] == SatTrue then SatTrue
      else SatUnknown
    case Or(_) =>
      if exists i :: 0 <= i < |vals| && vals[i] == SatTrue then SatTrue
      else if forall i :: 0 <= i < |vals| ==> vals[i] == SatFalse then SatFalse
      else SatUnknown
    case Implies(_, _) =>
      if vals[0] == SatFalse || vals[1] == SatTrue then SatTrue
      else if vals[0] == SatTrue then vals[1]
      else SatUnknown
    case Ite(_, _, _) =>
      if vals[0] == SatTrue || vals[1] == vals[2] then vals[1]
      else if vals[0] == SatFalse then vals[2]
      else SatUnknown
    case Xor(_, _) => Different(vals[0], vals[1])
    case Iff(_, _) => Different(vals[0], vals[1]).Invert()
  }

  /** Truth values that agree with what is known. */
  ghost predicate Matches(bs: seq<bool>, vals: seq<SatValue>) {
    |bs| == |vals| && forall i :: 0 <= i < |bs| && vals[i] != SatUnknown ==> vals[i] == FromBool(bs[i])
  }

  /** What is known, with `b` for the rest. */
  function Filled(vals: seq<SatValue>, b: bool): (bs: seq<bool>)
    ensures |bs| == |vals| && Matches(bs, vals)
    ensures forall i :: 0 <= i < |vals| ==> bs[i] == if vals[i] == SatUnknown then b else vals[i] == SatTrue
  {
    seq(|vals|, i requires 0 <= i < |vals| => if vals[i] == SatUnknown then b else vals[i] == SatTrue)
  }

  lemma CombineSound(f: Formula, vals: seq<SatValue>, bs: seq<bool>)
    requires IsConnective(f) && |vals| == |Children(f)| && Matches(bs, vals)
    ensures Combine(f, vals) != SatUnknown ==> Combine(f, vals) == FromBool(Op(f, bs))
  {
  }

  /** Two ways to fill in the rest that give different truth values. */
  lemma CombineOpen(f: Formula, vals: seq<SatValue>) returns (yes: seq<bool>, no: seq<bool>)
    requires IsConnective(f) && |vals| == |Children(f)| && Combine(f, vals) == SatUnknown
    ensures Matches(yes, vals) && Op(f, yes) && Matches(no, vals) && !Op(f, no)
  {
    yes, no := Filled(vals, true), Filled(vals, false);
    match f
    case And(_) =>
      var i :| 0 <= i < |vals| && vals[i] != SatTrue;
      assert !no[i];
    case Or(_) =>
      var i :| 0 <= i < |vals| && vals[i] != SatFalse;
      assert yes[i];
    case Implies(_, _) =>
      yes := [vals[0] == SatTrue, vals[0] == SatTrue];
      no := [true, false];
    case Ite(_, _, _) =>
      if vals[0] == SatUnknown && (vals[1] == SatTrue || vals[2] == SatFalse) {
        yes, no := yes[0 := true], no[0 := false];
      } else if vals[0] == SatUnknown {
        yes, no := yes[0 := false], no[0 := true];
      }
    case Xor(_, _) =>
      yes := if vals[0] == SatUnknown then yes[0 := !yes[1]] else yes[1 := !yes[0]];
      no := if vals[0] == SatUnknown then no[0 := no[1]] else no[1 := no[0]];
    case Iff(_, _) =>
      yes := if vals[0] == SatUnknown then yes[0 := yes[1]] else yes[1 := yes[0]];
      no := if vals[0] == SatUnknown then no[0 := !no[1]] else no[1 := !no[0]];
  }

  /** Combine gives a value exactly when all truth values that agree with what is known do. */
  lemma CombineExact(f: Formula, vals: seq<SatValue>, b: bool)
    requires IsConnective(f) && |vals| == |Children(f)|
    ensures Combine(f, vals) == FromBool(b) <==> forall bs {:trigger Matches(bs, vals)} :: Matches(bs, vals) ==> Op(f, bs) == b
  {
    forall bs | Matches(bs, vals)
      ensures Combine(f, vals) == FromBool(b) ==> Op(f, bs) == b
    {
      CombineSound(f, vals, bs);
    }
    if Combine(f, vals) == SatUnknown {
      var yes, no := CombineOpen(f, vals);
    } else {
      CombineSound(f, vals, Filled(vals, true));
    }
  }

  ghost function Kleenes(fs: seq<Formula>, sigma: Assignment): seq<SatValue> {
    seq(|fs|, i requires 0 <= i < |fs| => Kleene(fs[i], sigma))
  }

  lemma CombineKleene(f: Formula, sigma: Assignment)
    requires IsConnective(f)
    ensures Combine(f, Kleenes(Children(f), sigma)) == Kleene(f, sigma)
  {
    var vals := Kleenes(Children(f), sigma);
    match f
    case And(fs) => assert forall i :: 0 <= i < |fs| ==> vals[i] == Kleene(fs[i], sigma);
    case Or(fs) => assert forall i :: 0 <= i < |fs| ==> vals[i] == Kleene(fs[i], sigma);
    case Implies(_, _) =>
    case Ite(_, _, _) =>
    case Xor(_, _) =>
    case Iff(_, _) =>
  }

  /** More knowledge does not change a value. */
  lemma CombineMonotone(f: Formula, vals: seq<SatValue>, more: seq<SatValue>)
    requires IsConnective(f) && |vals| == |more| == |Children(f)|
    requires forall i :: 0 <= i < |vals| && vals[i] != SatUnknown ==> more[i] == vals[i]
    ensures Combine(f, vals) != SatUnknown ==> Combine(f, more) == Combine(f, vals)
  {
  }

  // ---- what a traversal should do next -----------------------------------

  /** The value one argument alone gives to a conjunction or disjunction. */
  function Forcing(f: Formula): SatValue {
    if f.And? then SatFalse else SatTrue
  }

  /** The arguments before the i-th. */
  function Seen(vals: seq<SatValue>, i: nat): (r: seq<SatValue>)
    ensures |r| == |vals| && forall j :: 0 <= j < |vals| ==> r[j] == if j < i then vals[j] else SatUnknown
  {
    seq(|vals|, j requires 0 <= j < |vals| => if j < i then vals[j] else SatUnknown)
  }

  /** What is found by looking ahead before the first argument is worked on: for AND and OR
      the wanted value, if any single argument forces it; otherwise what the arguments after
      the first settle. */
  ghost function Ahead(f: Formula, want: SatValue, vals: seq<SatValue>): SatValue
    requires IsConnective(f) && |vals| == |Children(f)|
  {
    if f.And? || f.Or? then (if want == Forcing(f) && want in vals then want else SatUnknown)
    else Combine(f, vals[0 := SatUnknown])
  }

  /** The lookahead finds the wanted value whenever the arguments after the first settle it, and
      a value it finds is settled by what is known. */
  lemma AheadIsRight(f: Formula, want: SatValue, vals: seq<SatValue>)
    requires IsConnective(f) && |vals| == |Children(f)| && want != SatUnknown
    ensures Combine(f, vals[0 := SatUnknown]) == want ==> Ahead(f, want, vals) == want
    ensures Ahead(f, want, vals) != SatUnknown ==> Ahead(f, want, vals) == Combine(f, vals)
  {
    var rest := vals[0 := SatUnknown];
    if f.And? || f.Or? {
      assert rest[0] == SatUnknown;
      if Combine(f, rest) == want {
        var i :| 0 <= i < |rest| && rest[i] == want;
        assert vals[i] == want;
      }
    } else {
      CombineMonotone(f, rest, vals);
    }
  }

  /** The value found when i arguments have been worked on. */
  ghost function Found(f: Formula, i: nat, want: SatValue, vals: seq<SatValue>): SatValue
    requires IsConnective(f) && |vals| == |Children(f)|
  {
    if i == 0 then Ahead(f, want, vals) else Combine(f, Seen(vals, i))
  }

  function Rank(v: SatValue, want: SatValue): nat {
    if v == want then 2 else if v == SatUnknown then 1 else 0
  }

  /** No other value of argument k brings f closer to the wanted value; where neither settles
      f, the value asked for is true. */
  ghost predicate Best(f: Formula, k: nat, desired: SatValue, want: SatValue, vals: seq<SatValue>)
    requires IsConnective(f) && |vals| == |Children(f)| && k < |vals|
  {
    var with, against := Combine(f, vals[k := desired]), Combine(f, vals[k := desired.Invert()]);
    && Rank(with, want) >= Rank(against, want)
    && (with == SatUnknown && against == SatUnknown ==> desired == SatTrue)
  }

  // ---- the same, connective by connective --------------------------------

  lemma AndOrFound(f: Formula, i: nat, want: SatValue, vals: seq<SatValue>)
    requires IsConnective(f) && |vals| == |Children(f)| && (f.And? || f.Or?)
    requires 0 < i <= |vals| && vals[i - 1] != SatUnknown
    requires forall j :: 0 <= j < i - 1 ==> vals[j] == Forcing(f).Invert()
    ensures Found(f, i, want, vals) == if vals[i - 1] == Forcing(f) || i == |vals| then vals[i - 1] else SatUnknown
  {
    var seen := Seen(vals, i);
    assert seen[i - 1] == vals[i - 1];
    assert i < |vals| ==> seen[i] == SatUnknown;
  }

  /** One value of an argument forces a conjunction or disjunction, so the other never ties. */
  lemma AndOrBest(f: Formula, k: nat, want: SatValue, vals: seq<SatValue>)
    requires IsConnective(f) && |vals| == |Children(f)| && (f.And? || f.Or?) && k < |vals| && want != SatUnknown
    ensures Best(f, k, want, want, vals)
  {
    assert vals[k := want][k] == want && vals[k := want.Invert()][k] == want.Invert();
  }

  lemma ImpliesFound(f: Formula, i: nat, want: SatValue, vals: seq<SatValue>)
    requires f.Implies? && |vals| == 2 && i <= 2 && (i > 0 ==> vals[0] != SatUnknown) && (i == 2 ==> vals[0] == SatTrue)
    ensures Found(f, i, want, vals) ==
      if i == 0 then (if vals[1] == SatTrue then SatTrue else SatUnknown)
      else if i == 1 then (if vals[0] == SatFalse then SatTrue else SatUnknown)
      else vals[1]
  {
  }

  lemma ImpliesBest(f: Formula, k: nat, want: SatValue, vals: seq<SatValue>)
    requires f.Implies? && |vals| == 2 && k < 2 && want != SatUnknown
    requires if k == 0 then vals[1] != SatTrue else vals[0] == SatTrue
    ensures Best(f, k, if k == 0 then want.Invert() else want, want, vals)
  {
  }

  lemma IteFound(f: Formula, i: nat, want: SatValue, vals: seq<SatValue>)
    requires f.Ite? && |vals| == 3 && i <= 3 && (i > 0 ==> vals[0] != SatUnknown)
    requires (i == 2 ==> vals[0] == SatTrue) && (i == 3 ==> vals[0] == SatFalse)
    ensures Found(f, i, want, vals) ==
      if i == 0 then (if vals[1] == vals[2] then vals[1] else SatUnknown)
      else if i == 1 then SatUnknown
      else vals[i - 1]
  {
  }

  lemma IteBest(f: Formula, k: nat, want: SatValue, vals: seq<SatValue>)
    requires f.Ite? && |vals| == 3 && k < 3 && want != SatUnknown
    requires (k == 0 ==> vals[1] != vals[2] || vals[1] == SatUnknown)
    requires (k == 1 ==> vals[0] == SatTrue) && (k == 2 ==> vals[0] == SatFalse)
    ensures Best(f, k,
      if k > 0 then want else if vals[1] == want.Invert() || vals[2] == want then SatFalse else SatTrue, want, vals)
  {
  }

  lemma XorIffFound(f: Formula, i: nat, want: SatValue, vals: seq<SatValue>)
    requires (f.Xor? || f.Iff?) && |vals| == 2 && i <= 2 && (i > 0 ==> vals[i - 1] != SatUnknown)
    requires i == 2 ==> vals[0] != SatUnknown
    ensures Found(f, i, want, vals) ==
      if i < 2 then SatUnknown else if (vals[0] == vals[1]) == f.Iff? then SatTrue else SatFalse
  {
  }

  lemma XorIffBest(f: Formula, k: nat, want: SatValue, vals: seq<SatValue>)
    requires (f.Xor? || f.Iff?) && |vals| == 2 && k < 2 && want != SatUnknown && (k == 1 ==> vals[0] != SatUnknown)
    ensures
      var other := vals[1 - k];
      Best(f, k,
        if other == SatUnknown then SatTrue else if f.Iff? == (want == SatTrue) then other else other.Invert(), want, vals)
  {
  }
}
