/** The formulas the decision strategy walks: theory atoms under the Boolean
    connectives that expr::isTheoryAtom tells apart from atoms. */
module Formulas {

  datatype Option<+T> = None | Some(value: T)

  datatype SatValue = SatTrue | SatFalse | SatUnknown {
    function Invert(): SatValue {
      match this
      case SatTrue => SatFalse
      case SatFalse => SatTrue
      case SatUnknown => SatUnknown
    }
  }

  function FromBool(b: bool): SatValue {
    if b then SatTrue else SatFalse
  }

  /** `Iff` is EQUAL between Boolean terms; an EQUAL between other terms is an atom. */
  datatype Formula =
    | Atom(id: nat)
    | Not(arg: Formula)
    | And(args: seq<Formula>)
    | Or(args: seq<Formula>)
    | Implies(lhs: Formula, rhs: Formula)
    | Ite(cond: Formula, thn: Formula, els: Formula)
    | Xor(lhs: Formula, rhs: Formula)
    | Iff(lhs: Formula, rhs: Formula)

  /** What the solver has assigned so far. */
  type Assignment = map<nat, bool>

  /** The formula without its outermost negation. */
  function Base(f: Formula): Formula {
    if f.Not? then f.arg else f
  }

  function Polarized(f: Formula, v: SatValue): SatValue {
    if f.Not? then v.Invert() else v
  }

  predicate IsTheoryLiteral(f: Formula) {
    Base(f).Atom?
  }

  function Negate(f: Formula): Formula {
    if f.Not? then f.arg else Not(f)
  }

  function Children(f: Formula): seq<Formula> {
    match f
    case Atom(_) => []
    case Not(g) => [g]
    case And(fs) => fs
    case Or(fs) => fs
    case Implies(a, b) => [a, b]
    case Ite(c, t, e) => [c, t, e]
    case Xor(a, b) => [a, b]
    case Iff(a, b) => [a, b]
  }

  /** No double negation, and no conjunction or disjunction without arguments. */
  predicate WellFormed(f: Formula) {
    match f
    case Atom(_) => true
    case Not(g) => !g.Not? && WellFormed(g)
    case And(fs) => |fs| > 0 && forall i :: 0 <= i < |fs| ==> WellFormed(fs[i])
    case Or(fs) => |fs| > 0 && forall i :: 0 <= i < |fs| ==> WellFormed(fs[i])
    case Implies(a, b) => WellFormed(a) && WellFormed(b)
    case Ite(c, t, e) => WellFormed(c) && WellFormed(t) && WellFormed(e)
    case Xor(a, b) => WellFormed(a) && WellFormed(b)
    case Iff(a, b) => WellFormed(a) && WellFormed(b)
  }

  /** Classical truth under a total assignment. */
  ghost predicate Holds(f: Formula, total: nat -> bool) {
    match f
    case Atom(a) => total(a)
    case Not(g) => !Holds(g, total)
    case And(fs) => forall i :: 0 <= i < |fs| ==> Holds(fs[i], total)
    case Or(fs) => exists i :: 0 <= i < |fs| && Holds(fs[i], total)
    case Implies(a, b) => Holds(a, total) ==> Holds(b, total)
    case Ite(c, t, e) => if Holds(c, total) then Holds(t, total) else Holds(e, total)
    case Xor(a, b) => Holds(a, total) != Holds(b, total)
    case Iff(a, b) => Holds(a, total) == Holds(b, total)
  }

  ghost predicate Completes(total: nat -> bool, sigma: Assignment) {
    forall a :: a in sigma ==> total(a) == sigma[a]
  }

  /** Three-valued evaluation under the current partial assignment. */
  ghost function Kleene(f: Formula, sigma: Assignment): SatValue {
    match f
    case Atom(a) => if a in sigma then FromBool(sigma[a]) else SatUnknown
    case Not(g) => Kleene(g, sigma).Invert()
    case And(fs) =>
      if exists i :: 0 <= i < |fs| && Kleene(fs[i], sigma) == SatFalse then SatFalse
      else if forall i :: 0 <= i < |fs| ==> Kleene(fs[i], sigma) == SatTrue then SatTrue
      else SatUnknown
    case Or(fs) =>
      if exists i :: 0 <= i < |fs| && Kleene(fs[i], sigma) == SatTrue then SatTrue
      else if forall i :: 0 <= i < |fs| ==> Kleene(fs[i], sigma) == SatFalse then SatFalse
      else SatUnknown
    case Implies(a, b) =>
      var va, vb := Kleene(a, sigma), Kleene(b, sigma);
      if va == SatFalse || vb == SatTrue then SatTrue
      else if va == SatTrue then vb
      else SatUnknown
    case Ite(c, t, e) =>
      var vc, vt, ve := Kleene(c, sigma), Kleene(t, sigma), Kleene(e, sigma);
      if vc == SatTrue || vt == ve then vt
      else if vc == SatFalse then ve
      else SatUnknown
    case Xor(a, b) => Different(Kleene(a, sigma), Kleene(b, sigma))
    case Iff(a, b) => Different(Kleene(a, sigma), Kleene(b, sigma)).Invert()
  }

  function Different(v: SatValue, w: SatValue): SatValue {
    if v == SatUnknown || w == SatUnknown then SatUnknown else FromBool(v != w)
  }

  /** A known value is the truth value under every completion of the assignment. */
  lemma {:induction false} KleeneSound(f: Formula, sigma: Assignment, total: nat -> bool)
    requires Completes(total, sigma)
    ensures Kleene(f, sigma) != SatUnknown ==> Kleene(f, sigma) == FromBool(Holds(f, total))
  {
    var cs := Children(f);
    forall i | 0 <= i < |cs|
      ensures Kleene(cs[i], sigma) != SatUnknown ==> Kleene(cs[i], sigma) == FromBool(Holds(cs[i], total))
    {
      KleeneSound(cs[i], sigma, total);
    }
    match f
    case Atom(_) =>
    case Not(g) => assert cs[0] == g;
    case And(_) =>
    case Or(_) =>
    case Implies(a, b) => assert cs[0] == a && cs[1] == b;
    case Ite(c, t, e) => assert cs[0] == c && cs[1] == t && cs[2] == e;
    case Xor(a, b) => assert cs[0] == a && cs[1] == b;
    case Iff(a, b) => assert cs[0] == a && cs[1] == b;
  }

  ghost predicate Extends(sigma: Assignment, more: Assignment) {
    forall a :: a in sigma ==> a in more && more[a] == sigma[a]
  }

  /** Assigning more atoms never changes a known value. */
  lemma {:induction false} KleeneMonotone(f: Formula, sigma: Assignment, more: Assignment)
    requires Extends(sigma, more)
    ensures Kleene(f, sigma) != SatUnknown ==> Kleene(f, more) == Kleene(f, sigma)
  {
    var cs := Children(f);
    forall i | 0 <= i < |cs|
      ensures Kleene(cs[i], sigma) != SatUnknown ==> Kleene(cs[i], more) == Kleene(cs[i], sigma)
    {
      KleeneMonotone(cs[i], sigma, more);
    }
    match f
    case Atom(_) =>
    case Not(g) => assert cs[0] == g;
    case And(_) =>
    case Or(_) =>
    case Implies(a, b) => assert cs[0] == a && cs[1] == b;
    case Ite(c, t, e) => assert cs[0] == c && cs[1] == t && cs[2] == e;
    case Xor(a, b) => assert cs[0] == a && cs[1] == b;
    case Iff(a, b) => assert cs[0] == a && cs[1] == b;
  }
}
