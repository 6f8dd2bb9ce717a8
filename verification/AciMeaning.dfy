/** The standard meaning of terms, and that both proof rules are sound for it. */
module AciMeaning {
  import opened Sequences
  import opened Formulas
  import opened AciTables
  import opened AciNormal
  import opened AciExact
  import opened AciChecker

  // ---- evaluation --------------------------------------------------------

  predicate IsNormalised(k: Kind) {
    IsAssoc(k) || IsAssocComm(k)
  }

  /** The nodes whose meaning is fixed: constants and the other entries of the tables. */
  predicate IsFixed(n: Node) {
    n.Value? || n in {BV_EMPTY, Apply(STRING_TO_REGEXP, [EMPTY_STRING]), Apply(REGEXP_NONE, []), Apply(REGEXP_ALL, [])}
  }

  /** Applications the rules work on are evaluated by the operation of their kind, all other
      terms by an arbitrary environment. */
  ghost function Eval(env: Node -> Val, n: Node): Val
    decreases n, 1
  {
    if IsFixed(n) then Denotes(n)
    else if n.Apply? && IsNormalised(n.kind) && n.children != [] then EvalAll(env, n.kind, n.children)
    else env(n)
  }

  ghost function EvalAll(env: Node -> Val, k: Kind, cs: seq<Node>): Val
    requires cs != []
    decreases cs, 0
  {
    if |cs| == 1 then Eval(env, cs[0]) else KindOp(k, Eval(env, cs[0]), EvalAll(env, k, cs[1..]))
  }

  ghost function Valuation(env: Node -> Val): Node -> Val {
    n => Eval(env, n)
  }

  ghost function Standard(env: Node -> Val, k: Kind, tn: Type): Meaning<Val> {
    Meaning(AlgebraOf(k, tn), Valuation(env))
  }

  lemma {:induction false} TableEntriesAreFixed(env: Node -> Val, k: Kind, tn: Type)
    ensures NullTerminator(k, tn).Some? ==> Eval(env, NullTerminator(k, tn).value) == Denotes(NullTerminator(k, tn).value)
    ensures ZeroElement(k, tn).Some? ==> Eval(env, ZeroElement(k, tn).value) == Denotes(ZeroElement(k, tn).value)
  {
  }

  /** Without an identity at the end, a non-empty application has the same value. */
  lemma {:induction false} EvalAllIsFold(env: Node -> Val, k: Kind, tn: Type, nt: Node, cs: seq<Node>)
    requires cs != [] && AllIn(Standard(env, k, tn), cs)
    requires Lawful(AlgebraOf(k, tn), k, Eval(env, nt))
    ensures EvalAll(env, k, cs) == Fold(Standard(env, k, tn), nt, cs)
  {
    var m := Standard(env, k, tn);
    if |cs| == 1 {
      assert cs == [cs[0]] && m.alg.carrier(m.val(cs[0]));
      FoldOne(m, k, nt, cs[0]);
    } else {
      assert AllIn(m, cs[1..]);
      EvalAllIsFold(env, k, tn, nt, cs[1..]);
    }
  }

  /** The standard meaning interprets each kind by an operation with the declared laws. */
  lemma {:induction false} StandardInterprets(env: Node -> Val, k: Kind, tn: Type)
    requires IsNormalised(k) && NullTerminator(k, tn).Some?
    ensures Interprets(Standard(env, k, tn), k, NullTerminator(k, tn).value)
  {
    var m, nt := Standard(env, k, tn), NullTerminator(k, tn).value;
    TableEntriesAreFixed(env, k, tn);
    DeclaredLawsHold(k, tn);
    forall cs | cs != [] && AllIn(m, cs)
      ensures m.val(Apply(k, cs)) == Fold(m, nt, cs)
    {
      EvalAllIsFold(env, k, tn, nt, cs);
    }
  }

  /** The terms the checker normalises are those whose kind has an operation, and their
      identity is its unit. */
  lemma NormalisedTerms(ty: Node -> Type, a: Node)
    ensures a.Apply? && HasOperation(a.kind) && CanHaveType(a.kind, ty(a)) ==>
      Identity(ty, a).Some? && HasUnit(AlgebraOf(a.kind, ty(a)), Denotes(Identity(ty, a).value))
    ensures !a.Apply? || !HasOperation(a.kind) ==> Identity(ty, a) == None
  {
    if a.Apply? {
      LawsAreDeclared(a.kind, ty(a));
      if HasOperation(a.kind) && CanHaveType(a.kind, ty(a)) {
        NullTerminatorIsUnit(a.kind, ty(a));
      }
    }
  }

  /** Terms of one kind and type are accepted exactly when their flattened arguments are equal up
      to the laws the operation has: as sets, as multisets or as sequences. */
  lemma {:induction false} AcceptedByMeaning(id: Node -> int, ty: Node -> Type, a: Node, b: Node)
    requires Injective(id) && a.Apply? && b.Apply? && a.kind == b.kind && ty(a) == ty(b)
    requires HasOperation(a.kind) && CanHaveType(a.kind, ty(a))
    ensures
      var k, alg := a.kind, AlgebraOf(a.kind, ty(a));
      && NullTerminator(k, ty(a)).Some?
      && var nt := NullTerminator(k, ty(a)).value;
         var s, t := FlattenAll(k, nt, a.children), FlattenAll(k, nt, b.children);
         Accepts(id, ty, a, b) <==>
           if Commutative(alg) && Idempotent(alg) then Members(s) == Members(t)
           else if Commutative(alg) then multiset(s) == multiset(t)
           else s == t
  {
    LawsAreDeclared(a.kind, ty(a));
    AcceptedExactly(id, ty, a, b);
  }

  // ---- typing ------------------------------------------------------------

  ghost predicate HasType(x: Val, tn: Type) {
    match tn
    case Boolean => x.BoolV?
    case StringLike(_) => x.WordV?
    case RegLan => x.LangV?
    case BitVector(w) => x.BvV? && |x.bits| == w
    case _ => true
  }

  ghost function TotalWidth(ty: Node -> Type, cs: seq<Node>): nat
    requires forall i :: 0 <= i < |cs| ==> ty(cs[i]).BitVector?
  {
    if cs == [] then 0 else ty(cs[0]).width + TotalWidth(ty, cs[1..])
  }

  /** The typing rules of the kinds the rules work on. */
  ghost predicate ArgumentsOk(ty: Node -> Type, k: Kind, tn: Type, cs: seq<Node>) {
    if k == BITVECTOR_CONCAT then
      (forall i :: 0 <= i < |cs| ==> ty(cs[i]).BitVector?) && tn == BitVector(TotalWidth(ty, cs))
    else
      && (forall i :: 0 <= i < |cs| ==> ty(cs[i]) == tn)
      && (k in {OR, AND} ==> tn.Boolean?)
      && (k == STRING_CONCAT ==> tn.StringLike?)
      && (k in {REGEXP_CONCAT, REGEXP_UNION, REGEXP_INTER} ==> tn.RegLan?)
      && (IsBitwise(k) ==> tn.BitVector?)
  }

  ghost predicate WellTyped(ty: Node -> Type, n: Node)
    decreases n
  {
    && (IsFixed(n) ==> HasType(Denotes(n), ty(n)))
    && (n.Apply? && IsNormalised(n.kind) ==>
          && n.children != [] && ArgumentsOk(ty, n.kind, ty(n), n.children)
          && forall i :: 0 <= i < |n.children| ==> WellTyped(ty, n.children[i]))
  }

  /** The environment gives every other term a value of its type. */
  ghost predicate Respects(env: Node -> Val, ty: Node -> Type) {
    forall n {:trigger env(n)} :: HasType(env(n), ty(n))
  }

  /** A well-typed term has a value of its type. */
  lemma {:induction false} EvalTyped(env: Node -> Val, ty: Node -> Type, n: Node)
    requires Respects(env, ty) && WellTyped(ty, n)
    ensures HasType(Eval(env, n), ty(n))
    decreases n, 1
  {
    if IsFixed(n) {
    } else if n.Apply? && IsNormalised(n.kind) {
      EvalAllTyped(env, ty, n.kind, ty(n), n.children);
    } else {
      assert HasType(env(n), ty(n));
    }
  }

  lemma {:induction false} EvalAllTyped(env: Node -> Val, ty: Node -> Type, k: Kind, tn: Type, cs: seq<Node>)
    requires Respects(env, ty) && IsNormalised(k) && cs != [] && ArgumentsOk(ty, k, tn, cs)
    requires forall i :: 0 <= i < |cs| ==> WellTyped(ty, cs[i])
    ensures HasType(EvalAll(env, k, cs), tn)
    decreases cs, 0
  {
    EvalTyped(env, ty, cs[0]);
    if |cs| == 1 {
      if k == BITVECTOR_CONCAT { assert cs[1..] == [] && TotalWidth(ty, cs) == ty(cs[0]).width; }
    } else {
      var tn' := if k == BITVECTOR_CONCAT then BitVector(TotalWidth(ty, cs[1..])) else tn;
      EvalAllTyped(env, ty, k, tn', cs[1..]);
      TypedOp(k, tn, ty(cs[0]), tn', Eval(env, cs[0]), EvalAll(env, k, cs[1..]));
    }
  }

  lemma TypedOp(k: Kind, tn: Type, tx: Type, ty: Type, x: Val, y: Val)
    requires IsNormalised(k) && HasType(x, tx) && HasType(y, ty)
    requires if k == BITVECTOR_CONCAT then tx.BitVector? && ty.BitVector? && tn == BitVector(tx.width + ty.width)
             else tx == tn && ty == tn && ArgumentsOk(_ => tn, k, tn, [])
    ensures HasType(KindOp(k, x, y), tn)
  {
  }

  lemma TypeIsSort(ty: Node -> Type, k: Kind, tn: Type, cs: seq<Node>, i: nat, x: Val)
    requires IsNormalised(k) && ArgumentsOk(ty, k, tn, cs) && i < |cs| && HasType(x, ty(cs[i]))
    ensures HasSort(x, k, tn)
  {
  }

  /** All nested arguments of a well-typed application have values of the right sort. */
  lemma {:induction false} TypedIsWellSorted(env: Node -> Val, ty: Node -> Type, k: Kind, tn: Type, tn': Type, cs: seq<Node>)
    requires Respects(env, ty) && IsNormalised(k) && ArgumentsOk(ty, k, tn', cs)
    requires k == BITVECTOR_CONCAT || tn' == tn
    requires forall i :: 0 <= i < |cs| ==> WellTyped(ty, cs[i])
    ensures WellSorted(Standard(env, k, tn), k, cs)
    decreases cs
  {
    forall i | 0 <= i < |cs|
      ensures HasSort(Eval(env, cs[i]), k, tn)
      ensures HasKind(cs[i], k) ==> cs[i].children != [] && WellSorted(Standard(env, k, tn), k, cs[i].children)
    {
      EvalTyped(env, ty, cs[i]);
      TypeIsSort(ty, k, tn', cs, i, Eval(env, cs[i]));
      if HasKind(cs[i], k) {
        TypedIsWellSorted(env, ty, k, tn, ty(cs[i]), cs[i].children);
      }
    }
  }

  lemma {:induction false} TypedIsMeaningful(env: Node -> Val, ty: Node -> Type, a: Node)
    requires Respects(env, ty) && WellTyped(ty, a)
    ensures a.Apply? ==> Meaningful(Standard(env, a.kind, ty(a)), ty, a)
  {
    if Identity(ty, a).Some? {
      StandardInterprets(env, a.kind, ty(a));
      TypedIsWellSorted(env, ty, a.kind, ty(a), ty(a), a.children);
    }
  }

  // ---- soundness of the rules --------------------------------------------

  ghost function MeaningOf(env: Node -> Val, ty: Node -> Type, a: Node): Meaning<Val> {
    Standard(env, if a.Apply? then a.kind else OR, ty(a))
  }

  /** ACI_NORM: accepted terms are equal, whatever the terms below the rule's kinds stand for. */
  lemma {:induction false} NormIsSound(env: Node -> Val, id: Node -> int, ty: Node -> Type, a: Node, b: Node)
    requires Respects(env, ty) && WellTyped(ty, a) && WellTyped(ty, b)
    requires Accepts(id, ty, a, b)
    ensures Eval(env, a) == Eval(env, b)
  {
    TypedIsMeaningful(env, ty, a);
    TypedIsMeaningful(env, ty, b);
    AcceptedIsEqual(MeaningOf(env, ty, a), MeaningOf(env, ty, b), id, ty, a, b);
  }

  /** ABSORB: a term with the zero of its kind and type beneath nested applications equals the zero. */
  lemma {:induction false} AbsorbIsSound(env: Node -> Val, ty: Node -> Type, a: Node, zero: Node)
    requires Respects(env, ty) && WellTyped(ty, a) && a.Apply? && IsAbsorbKind(a.kind)
    requires ZeroElement(a.kind, ty(a)) == Some(zero) && Absorbs(a.kind, zero, a)
    ensures Eval(env, a) == Eval(env, zero)
  {
    var k, tn := a.kind, ty(a);
    StandardInterprets(env, k, tn);
    TypedIsWellSorted(env, ty, k, tn, tn, a.children);
    TableEntriesAreFixed(env, k, tn);
    DeclaredZeroAbsorbs(k, tn);
    AbsorbedIsZero(Standard(env, k, tn), k, NullTerminator(k, tn).value, zero, a);
  }
}
