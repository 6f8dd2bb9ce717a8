/** Which terms have the same normal form. */
module AciExact {
  import opened Sequences
  import opened AciTables
  import opened AciNormal

  ghost predicate Injective(id: Node -> int) {
    forall a, b {:trigger SameId(id, a, b)} :: SameId(id, a, b) ==> a == b
  }

  ghost predicate SameId(id: Node -> int, a: Node, b: Node) {
    id(a) == id(b)
  }

  ghost predicate Ordered(id: Node -> int, s: seq<Node>) {
    forall i, j :: 0 <= i < j < |s| ==> id(s[i]) <= id(s[j])
  }

  lemma {:induction false} InsertAdds(id: Node -> int, x: Node, s: seq<Node>)
    ensures multiset(Insert(id, x, s)) == multiset{x} + multiset(s)
  {
    if s != [] && id(x) > id(s[0]) {
      InsertAdds(id, x, s[1..]);
      assert s == [s[0]] + s[1..];
    }
  }

  lemma OrderedCons(id: Node -> int, y: Node, t: seq<Node>)
    requires Ordered(id, t) && forall z :: z in multiset(t) ==> id(y) <= id(z)
    ensures Ordered(id, [y] + t)
  {
    var s := [y] + t;
    forall i, j | 0 <= i < j < |s|
      ensures id(s[i]) <= id(s[j])
    {
      if i == 0 { assert t[j - 1] in multiset(t); }
    }
  }

  lemma LeastFirst(id: Node -> int, s: seq<Node>)
    requires Ordered(id, s) && s != []
    ensures forall z :: z in multiset(s) ==> id(s[0]) <= id(z)
    ensures Ordered(id, s[1..]) && multiset(s[1..]) == multiset(s) - multiset{s[0]}
  {
    assert s == [s[0]] + s[1..];
  }

  lemma {:induction false} InsertOrders(id: Node -> int, x: Node, s: seq<Node>)
    requires Ordered(id, s)
    ensures Ordered(id, Insert(id, x, s))
  {
    if s == [] {
    } else {
      LeastFirst(id, s);
      if id(x) <= id(s[0]) {
        OrderedCons(id, x, s);
      } else {
        InsertOrders(id, x, s[1..]);
        InsertAdds(id, x, s[1..]);
        OrderedCons(id, s[0], Insert(id, x, s[1..]));
      }
    }
  }

  lemma {:induction false} SortOrders(id: Node -> int, s: seq<Node>)
    ensures Ordered(id, Sort(id, s)) && multiset(Sort(id, s)) == multiset(s)
  {
    if s == [] {
    } else {
      SortOrders(id, s[1..]);
      InsertOrders(id, s[0], Sort(id, s[1..]));
      InsertAdds(id, s[0], Sort(id, s[1..]));
      assert s == [s[0]] + s[1..];
    }
  }

  lemma SameLeast(id: Node -> int, s: seq<Node>, t: seq<Node>)
    requires Injective(id) && Ordered(id, s) && Ordered(id, t) && multiset(s) == multiset(t) && s != []
    ensures t != [] && s[0] == t[0]
    ensures Ordered(id, s[1..]) && Ordered(id, t[1..]) && multiset(s[1..]) == multiset(t[1..])
  {
    assert s[0] in multiset(t);
    assert t[0] in multiset(s);
    LeastFirst(id, s);
    LeastFirst(id, t);
    assert SameId(id, s[0], t[0]);
  }

  /** An ordered sequence is determined by its multiset. */
  lemma {:induction false} OrderedUnique(id: Node -> int, s: seq<Node>, t: seq<Node>)
    requires Injective(id) && Ordered(id, s) && Ordered(id, t) && multiset(s) == multiset(t)
    ensures s == t
  {
    if s == [] {
      assert |multiset(t)| == 0;
    } else {
      SameLeast(id, s, t);
      OrderedUnique(id, s[1..], t[1..]);
      assert s == [s[0]] + s[1..] && t == [t[0]] + t[1..];
    }
  }

  lemma SortDecides(id: Node -> int, s: seq<Node>, t: seq<Node>)
    requires Injective(id)
    ensures Sort(id, s) == Sort(id, t) <==> multiset(s) == multiset(t)
  {
    SortOrders(id, s);
    SortOrders(id, t);
    if multiset(s) == multiset(t) {
      OrderedUnique(id, Sort(id, s), Sort(id, t));
    }
  }

  lemma {:induction false} DedupMembers(s: seq<Node>)
    ensures forall x :: x in Dedup(s) <==> x in s
    ensures forall x :: x in s ==> multiset(Dedup(s))[x] == 1
  {
    if s == [] {
    } else {
      var n := |s| - 1;
      DedupMembers(s[..n]);
      assert s == s[..n] + [s[n]];
      forall x | x in s
        ensures multiset(Dedup(s))[x] == 1
      {
        assert x in s[..n] || x == s[n];
      }
    }
  }

  lemma DedupDecides(s: seq<Node>, t: seq<Node>)
    ensures multiset(Dedup(s)) == multiset(Dedup(t)) <==> Members(s) == Members(t)
  {
    DedupMembers(s);
    DedupMembers(t);
    if Members(s) == Members(t) {
      forall x
        ensures multiset(Dedup(s))[x] == multiset(Dedup(t))[x]
      {
        assert x in s <==> x in Members(s);
        assert x in t <==> x in Members(t);
        if x !in s {
          assert x !in Dedup(s) && x !in Dedup(t);
        }
      }
    } else {
      var x :| (x in Members(s)) != (x in Members(t));
      assert (x in Dedup(s)) != (x in Dedup(t));
      assert multiset(Dedup(s))[x] != multiset(Dedup(t))[x];
    }
  }

  /** What two argument lists must agree in for kind k: sequence, multiset or set. */
  ghost predicate Agree(k: Kind, s: seq<Node>, t: seq<Node>) {
    if IsAssocCommIdem(k) then Members(s) == Members(t)
    else if IsAssocComm(k) then multiset(s) == multiset(t)
    else s == t
  }

  lemma NormalArgsDecide(id: Node -> int, k: Kind, s: seq<Node>, t: seq<Node>)
    requires Injective(id)
    ensures NormalArgs(id, k, s) == NormalArgs(id, k, t) <==> Agree(k, s, t)
  {
    if IsAssocCommIdem(k) {
      SortDecides(id, Dedup(s), Dedup(t));
      DedupDecides(s, t);
    } else if IsAssocComm(k) {
      SortDecides(id, s, t);
    }
  }

  /** No flattened argument is the identity or an application of k. */
  ghost predicate Proper(k: Kind, nt: Node, s: seq<Node>) {
    forall x :: x in s ==> x != nt && !HasKind(x, k)
  }

  lemma {:induction false} FlattenProper(k: Kind, nt: Node, cs: seq<Node>)
    ensures Proper(k, nt, FlattenAll(k, nt, cs))
    decreases cs
  {
    if cs == [] {
    } else {
      FlattenProper(k, nt, cs[1..]);
      if cs[0] != nt && HasKind(cs[0], k) {
        FlattenProper(k, nt, cs[0].children);
      }
    }
  }

  lemma NormalArgsProper(id: Node -> int, k: Kind, nt: Node, s: seq<Node>)
    requires Proper(k, nt, s)
    ensures Proper(k, nt, NormalArgs(id, k, s))
  {
    var args := if IsAssocCommIdem(k) then Dedup(s) else s;
    DedupMembers(s);
    SortOrders(id, args);
    forall x | x in NormalArgs(id, k, s)
      ensures x in s
    {
      assert x in multiset(NormalArgs(id, k, s));
      assert x in multiset(args);
    }
  }

  /** Proper argument lists can be read back from the node built from them. */
  lemma RebuildInjective(k: Kind, nt: Node, s: seq<Node>, t: seq<Node>)
    requires Proper(k, nt, s) && Proper(k, nt, t) && !HasKind(nt, k)
    ensures Rebuild(k, nt, s) == Rebuild(k, nt, t) <==> s == t
  {
    if |s| == 1 { assert s[0] in s && s == [s[0]]; }
    if |t| == 1 { assert t[0] in t && t == [t[0]]; }
  }

  lemma IdentityIsNoApplication(ty: Node -> Type, a: Node)
    requires Identity(ty, a).Some?
    ensures !HasKind(Identity(ty, a).value, a.kind)
  {
  }

  /** Terms of one kind have the same normal form exactly when their flattened,
      identity-free arguments agree. */
  lemma SameNormalForm(id: Node -> int, ty: Node -> Type, a: Node, b: Node)
    requires Injective(id)
    requires Identity(ty, a).Some? && Identity(ty, b) == Identity(ty, a) && a.kind == b.kind
    ensures
      var nt := Identity(ty, a).value;
      NormalForm(id, ty, a) == NormalForm(id, ty, b) <==>
      Agree(a.kind, FlattenAll(a.kind, nt, a.children), FlattenAll(a.kind, nt, b.children))
  {
    var k, nt := a.kind, Identity(ty, a).value;
    var s, t := FlattenAll(k, nt, a.children), FlattenAll(k, nt, b.children);
    FlattenProper(k, nt, a.children);
    FlattenProper(k, nt, b.children);
    NormalArgsProper(id, k, nt, s);
    NormalArgsProper(id, k, nt, t);
    IdentityIsNoApplication(ty, a);
    RebuildInjective(k, nt, NormalArgs(id, k, s), NormalArgs(id, k, t));
    NormalArgsDecide(id, k, s, t);
  }

  lemma AgreeWithNone(k: Kind, s: seq<Node>)
    ensures Agree(k, s, []) <==> s == []
  {
    if s != [] {
      assert s[0] in Members(s) && s[0] in multiset(s);
    }
  }

  /** The arguments that come down to the single argument b. */
  ghost predicate CollapsesTo(ty: Node -> Type, a: Node, b: Node) {
    && Identity(ty, a).Some?
    && var nt := Identity(ty, a).value;
       var flat := FlattenAll(a.kind, nt, a.children);
       if flat == [] then b == nt else Agree(a.kind, flat, [b])
  }

  /** The normal form of a term is a given term of another kind exactly when its arguments
      come down to that term, or to none and that term is the identity. */
  lemma NormalFormOfOtherKind(id: Node -> int, ty: Node -> Type, a: Node, b: Node)
    requires Injective(id) && KindOf(a) != KindOf(b)
    ensures NormalForm(id, ty, a) == b <==> CollapsesTo(ty, a, b)
  {
    if Identity(ty, a).Some? {
      var k, nt := a.kind, Identity(ty, a).value;
      var flat := FlattenAll(k, nt, a.children);
      var args := NormalArgs(id, k, flat);
      NormalArgsOfOne(id, k, b);
      NormalArgsDecide(id, k, flat, [b]);
      NormalArgsDecide(id, k, flat, []);
      AgreeWithNone(k, flat);
      assert |args| == 1 ==> args == [args[0]];
    }
  }

  lemma NormalArgsOfOne(id: Node -> int, k: Kind, b: Node)
    ensures NormalArgs(id, k, [b]) == [b] && NormalArgs(id, k, []) == []
  {
    assert [b][..0] == [] && [b][1..] == [];
    assert Dedup([b]) == [b];
    assert Sort(id, [b]) == [b];
  }
}
