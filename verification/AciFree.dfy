/** The checker accepts all that the declared laws imply: terms of one kind that it rejects
    differ in an interpretation that obeys those laws. */
module AciFree {
  import opened Sequences
  import opened Formulas
  import opened AciTables
  import opened AciNormal
  import opened AciExact
  import opened AciChecker

  /** The freest values: argument lists up to the laws of the kind. */
  datatype Free = Listed(s: seq<Node>) | Counted(m: multiset<Node>) | Gathered(g: set<Node>)

  ghost function Content(k: Kind, s: seq<Node>): Free {
    if IsAssocCommIdem(k) then Gathered(Members(s))
    else if IsAssocComm(k) then Counted(multiset(s))
    else Listed(s)
  }

  ghost predicate InClass(k: Kind, x: Free) {
    if IsAssocCommIdem(k) then x.Gathered? else if IsAssocComm(k) then x.Counted? else x.Listed?
  }

  ghost function Joined(x: Free, y: Free): Free {
    match (x, y)
    case (Listed(s), Listed(t)) => Listed(s + t)
    case (Counted(m), Counted(n)) => Counted(m + n)
    case (Gathered(g), Gathered(h)) => Gathered(g + h)
    case _ => x
  }

  ghost function FreeAlgebra(k: Kind): Algebra<Free> {
    Algebra(x => InClass(k, x), (x, y) => Joined(x, y))
  }

  /** A term stands for its flattened arguments, or for itself. */
  ghost function FreeMeaning(k: Kind, nt: Node): Meaning<Free> {
    Meaning(FreeAlgebra(k), n => Content(k, FlattenAll(k, nt, [n])))
  }

  lemma ContentJoins(k: Kind, s: seq<Node>, t: seq<Node>)
    ensures InClass(k, Content(k, s)) && Content(k, s + t) == Joined(Content(k, s), Content(k, t))
  {
    assert Members(s + t) == Members(s) + Members(t);
  }

  lemma JoinedAssociates(k: Kind, x: Free, y: Free, z: Free)
    requires InClass(k, x) && InClass(k, y) && InClass(k, z)
    ensures InClass(k, Joined(x, y)) && Joined(Joined(x, y), z) == Joined(x, Joined(y, z))
  {
    if x.Listed? { assert (x.s + y.s) + z.s == x.s + (y.s + z.s); }
  }

  lemma EmptyIsUnit(k: Kind, x: Free)
    requires InClass(k, x)
    ensures InClass(k, Content(k, [])) && Joined(Content(k, []), x) == x && Joined(x, Content(k, [])) == x
  {
    assert Members<Node>([]) == {};
    if x.Listed? { assert [] + x.s == x.s && x.s + [] == x.s; }
  }

  lemma FreeIsAssociative(k: Kind)
    ensures Closed(FreeAlgebra(k)) && Associative(FreeAlgebra(k))
  {
    var alg := FreeAlgebra(k);
    forall x, y | alg.carrier(x) && alg.carrier(y)
      ensures alg.carrier(alg.op(x, y))
    {
      JoinedAssociates(k, x, y, y);
    }
    forall x, y, z | alg.carrier(x) && alg.carrier(y) && alg.carrier(z)
      ensures alg.op(alg.op(x, y), z) == alg.op(x, alg.op(y, z))
    {
      JoinedAssociates(k, x, y, z);
    }
  }

  lemma FreeHasUnit(k: Kind)
    ensures HasUnit(FreeAlgebra(k), Content(k, []))
  {
    var alg := FreeAlgebra(k);
    EmptyIsUnit(k, Content(k, []));
    forall x | alg.carrier(x)
      ensures alg.op(Content(k, []), x) == x && alg.op(x, Content(k, [])) == x
    {
      EmptyIsUnit(k, x);
    }
  }

  lemma FreeIsCommutative(k: Kind)
    requires IsAssocComm(k) || IsAssocCommIdem(k)
    ensures Commutative(FreeAlgebra(k)) && (IsAssocCommIdem(k) ==> Idempotent(FreeAlgebra(k)))
  {
    var alg := FreeAlgebra(k);
    forall x, y | alg.carrier(x) && alg.carrier(y)
      ensures alg.op(x, y) == alg.op(y, x)
    {
      if x.Gathered? { assert x.g + y.g == y.g + x.g; } else { assert x.m + y.m == y.m + x.m; }
    }
  }

  lemma FreeIsLawful(k: Kind)
    ensures Lawful(FreeAlgebra(k), k, Content(k, []))
  {
    FreeIsAssociative(k);
    FreeHasUnit(k);
    if IsAssocComm(k) || IsAssocCommIdem(k) { FreeIsCommutative(k); }
  }

  lemma {:induction false} FreeFold(k: Kind, nt: Node, cs: seq<Node>)
    ensures AllIn(FreeMeaning(k, nt), cs)
    ensures Fold(FreeMeaning(k, nt), nt, cs) == Content(k, FlattenAll(k, nt, cs))
  {
    var m := FreeMeaning(k, nt);
    forall i | 0 <= i < |cs|
      ensures m.alg.carrier(m.val(cs[i]))
    {
      ContentJoins(k, FlattenAll(k, nt, [cs[i]]), []);
    }
    if cs == [] {
      assert FlattenAll(k, nt, [nt]) == [] by { assert [nt][1..] == []; }
    } else {
      FreeFold(k, nt, cs[1..]);
      assert cs == [cs[0]] + cs[1..];
      FlattenConcat(k, nt, [cs[0]], cs[1..]);
      ContentJoins(k, FlattenAll(k, nt, [cs[0]]), FlattenAll(k, nt, cs[1..]));
    }
  }

  lemma {:induction false} FreeOfApply(k: Kind, nt: Node, cs: seq<Node>)
    requires !HasKind(nt, k)
    ensures FreeMeaning(k, nt).val(Apply(k, cs)) == Content(k, FlattenAll(k, nt, cs))
  {
    var n := Apply(k, cs);
    FlattenTop(k, nt, n, []);
    assert [n] + [] == [n] && cs + [] == cs;
  }

  lemma {:induction false} FreeInterprets(k: Kind, nt: Node)
    requires !HasKind(nt, k)
    ensures Interprets(FreeMeaning(k, nt), k, nt)
  {
    var m := FreeMeaning(k, nt);
    FreeIsLawful(k);
    assert FlattenAll(k, nt, [nt]) == [] by { assert [nt][1..] == []; }
    forall cs | cs != [] && AllIn(m, cs)
      ensures m.val(Apply(k, cs)) == Fold(m, nt, cs)
    {
      FreeFold(k, nt, cs);
      FreeOfApply(k, nt, cs);
    }
  }

  /** No nested application of k is without arguments. */
  ghost predicate HasArguments(k: Kind, cs: seq<Node>)
    decreases cs
  {
    forall i :: 0 <= i < |cs| && HasKind(cs[i], k) ==> cs[i].children != [] && HasArguments(k, cs[i].children)
  }

  lemma {:induction false} FreeIsWellSorted(k: Kind, nt: Node, cs: seq<Node>)
    requires HasArguments(k, cs)
    ensures WellSorted(FreeMeaning(k, nt), k, cs)
    decreases cs
  {
    FreeFold(k, nt, cs);
    forall i | 0 <= i < |cs| && HasKind(cs[i], k)
      ensures cs[i].children != [] && WellSorted(FreeMeaning(k, nt), k, cs[i].children)
    {
      FreeIsWellSorted(k, nt, cs[i].children);
    }
  }

  /** Terms of one kind and type are accepted exactly when they are equal in the freest
      interpretation of the declared laws, so exactly when the laws alone make them equal. */
  lemma {:induction false} AcceptedByLaws(id: Node -> int, ty: Node -> Type, a: Node, b: Node)
    requires Injective(id) && Identity(ty, a).Some? && Identity(ty, b) == Identity(ty, a) && a.kind == b.kind
    requires a.children != [] && HasArguments(a.kind, a.children) && b.children != [] && HasArguments(b.kind, b.children)
    ensures
      var m := FreeMeaning(a.kind, Identity(ty, a).value);
      && Meaningful(m, ty, a) && Meaningful(m, ty, b)
      && (Accepts(id, ty, a, b) <==> m.val(a) == m.val(b))
  {
    var k, nt := a.kind, Identity(ty, a).value;
    IdentityIsNoApplication(ty, a);
    FreeInterprets(k, nt);
    FreeIsWellSorted(k, nt, a.children);
    FreeIsWellSorted(k, nt, b.children);
    FreeOfApply(k, nt, a.children);
    FreeOfApply(k, nt, b.children);
    assert a == Apply(k, a.children) && b == Apply(k, b.children);
    AcceptedExactly(id, ty, a, b);
  }
}
