/** The normal form of associative, commutative and idempotent applications: what it
    keeps, and which terms share it. */
module AciNormal {
  import opened Formulas
  import opened AciTables

  predicate HasKind(n: Node, k: Kind) {
    n.Apply? && n.kind == k
  }

  /** The arguments of nested applications of k, in order, without the identity nt. */
  function FlattenAll(k: Kind, nt: Node, cs: seq<Node>): seq<Node> {
    if cs == [] then []
    else
      (if cs[0] == nt then []
       else if HasKind(cs[0], k) then FlattenAll(k, nt, cs[0].children)
       else [cs[0]])
      + FlattenAll(k, nt, cs[1..])
  }

  /** The elements of s without repetitions, in order of first occurrence. */
  function Dedup(s: seq<Node>): seq<Node> {
    if s == [] then []
    else
      var n := |s| - 1;
      Dedup(s[..n]) + if s[n] in s[..n] then [] else [s[n]]
  }

  function Insert(id: Node -> int, x: Node, s: seq<Node>): seq<Node> {
    if s == [] then [x]
    else if id(x) <= id(s[0]) then [x] + s
    else [s[0]] + Insert(id, x, s[1..])
  }

  /** The elements of s by increasing id. */
  function Sort(id: Node -> int, s: seq<Node>): seq<Node> {
    if s == [] then [] else Insert(id, s[0], Sort(id, s[1..]))
  }

  function NormalArgs(id: Node -> int, k: Kind, flat: seq<Node>): seq<Node> {
    var args := if IsAssocCommIdem(k) then Dedup(flat) else flat;
    if IsAssocComm(k) || IsAssocCommIdem(k) then Sort(id, args) else args
  }

  function Rebuild(k: Kind, nt: Node, args: seq<Node>): Node {
    if args == [] then nt else if |args| == 1 then args[0] else Apply(k, args)
  }

  /** The identity of the kind of a, when a is a term the normal form works on. */
  function Identity(ty: Node -> Type, a: Node): Option<Node> {
    if a.Apply? && (IsAssoc(a.kind) || IsAssocComm(a.kind)) then NullTerminator(a.kind, ty(a)) else None
  }

  function NormalForm(id: Node -> int, ty: Node -> Type, a: Node): Node {
    match Identity(ty, a)
    case None => a
    case Some(nt) => Rebuild(a.kind, nt, NormalArgs(id, a.kind, FlattenAll(a.kind, nt, a.children)))
  }

  // ---- the normal form keeps the value -----------------------------------

  /** Values of nodes: kind k is interpreted by an operation with the declared laws. */
  datatype Meaning<!V> = Meaning(alg: Algebra<V>, val: Node -> V)

  ghost function Fold<V>(m: Meaning<V>, nt: Node, cs: seq<Node>): V {
    if cs == [] then m.val(nt) else m.alg.op(m.val(cs[0]), Fold(m, nt, cs[1..]))
  }

  ghost predicate AllIn<V>(m: Meaning<V>, cs: seq<Node>) {
    forall i :: 0 <= i < |cs| ==> m.alg.carrier(m.val(cs[i]))
  }

  ghost predicate Interprets<V(!new)>(m: Meaning<V>, k: Kind, nt: Node) {
    && Lawful(m.alg, k, m.val(nt))
    && forall cs {:trigger Apply(k, cs)} :: cs != [] && AllIn(m, cs) ==> m.val(Apply(k, cs)) == Fold(m, nt, cs)
  }

  /** The arguments of all nested applications of k have values of the right sort. */
  ghost predicate WellSorted<V>(m: Meaning<V>, k: Kind, cs: seq<Node>)
    decreases cs
  {
    && AllIn(m, cs)
    && forall i :: 0 <= i < |cs| && HasKind(cs[i], k) ==> cs[i].children != [] && WellSorted(m, k, cs[i].children)
  }

  lemma {:induction false} FoldIn<V(!new)>(m: Meaning<V>, nt: Node, cs: seq<Node>)
    requires Closed(m.alg) && m.alg.carrier(m.val(nt)) && AllIn(m, cs)
    ensures m.alg.carrier(Fold(m, nt, cs))
  {
    if cs == [] {
    } else {
      assert AllIn(m, cs[1..]);
      FoldIn(m, nt, cs[1..]);
    }
  }

  lemma {:induction false} FoldConcat<V(!new)>(m: Meaning<V>, k: Kind, nt: Node, cs: seq<Node>, ds: seq<Node>)
    requires Lawful(m.alg, k, m.val(nt)) && AllIn(m, cs) && AllIn(m, ds)
    ensures Fold(m, nt, cs + ds) == m.alg.op(Fold(m, nt, cs), Fold(m, nt, ds))
  {
    FoldIn(m, nt, ds);
    if cs == [] {
      assert cs + ds == ds;
    } else {
      assert AllIn(m, cs[1..]) && (cs + ds)[1..] == cs[1..] + ds;
      FoldIn(m, nt, cs[1..]);
      FoldConcat(m, k, nt, cs[1..], ds);
      assert m.alg.carrier(m.val(cs[0]));
    }
  }

  lemma FoldOne<V(!new)>(m: Meaning<V>, k: Kind, nt: Node, c: Node)
    requires Lawful(m.alg, k, m.val(nt)) && m.alg.carrier(m.val(c))
    ensures Fold(m, nt, [c]) == m.val(c)
  {
    assert [c][1..] == [];
  }

  lemma {:induction false} WellSortedRest<V(!new)>(m: Meaning<V>, k: Kind, cs: seq<Node>)
    requires cs != [] && WellSorted(m, k, cs)
    ensures WellSorted(m, k, cs[1..])
  {
    var rest := cs[1..];
    forall i | 0 <= i < |rest| && HasKind(rest[i], k)
      ensures rest[i].children != [] && WellSorted(m, k, rest[i].children)
    {
      assert rest[i] == cs[i + 1];
    }
  }

  /** Flattening nested applications and dropping the identity keeps the value. */
  lemma {:induction false} FlattenKeepsValue<V(!new)>(m: Meaning<V>, k: Kind, nt: Node, cs: seq<Node>)
    requires Interprets(m, k, nt) && WellSorted(m, k, cs)
    ensures AllIn(m, FlattenAll(k, nt, cs)) && Fold(m, nt, FlattenAll(k, nt, cs)) == Fold(m, nt, cs)
    decreases cs
  {
    if cs == [] {
    } else {
      var c, rest := cs[0], cs[1..];
      WellSortedRest(m, k, cs);
      FlattenKeepsValue(m, k, nt, rest);
      FoldIn(m, nt, FlattenAll(k, nt, rest));
      var here := if c == nt then [] else if HasKind(c, k) then FlattenAll(k, nt, c.children) else [c];
      assert m.alg.carrier(m.val(c));
      if c == nt {
      } else if HasKind(c, k) {
        FlattenKeepsValue(m, k, nt, c.children);
        assert c == Apply(k, c.children);
      } else {
        FoldOne(m, k, nt, c);
      }
      FoldConcat(m, k, nt, here, FlattenAll(k, nt, rest));
    }
  }

  /** A repeated argument of an idempotent operation adds nothing. */
  lemma {:induction false} FoldAbsorbsMember<V(!new)>(m: Meaning<V>, k: Kind, nt: Node, cs: seq<Node>, x: Node)
    requires Lawful(m.alg, k, m.val(nt)) && IsAssocCommIdem(k) && AllIn(m, cs) && x in cs
    ensures m.alg.carrier(m.val(x)) && m.alg.op(Fold(m, nt, cs), m.val(x)) == Fold(m, nt, cs)
  {
    var y, rest := cs[0], cs[1..];
    assert AllIn(m, rest) && m.alg.carrier(m.val(y));
    FoldIn(m, nt, rest);
    var vy, vr := m.val(y), Fold(m, nt, rest);
    if x == y {
      calc {
        m.alg.op(m.alg.op(vy, vr), vy);
        m.alg.op(vy, m.alg.op(vr, vy));
        m.alg.op(vy, m.alg.op(vy, vr));
        m.alg.op(m.alg.op(vy, vy), vr);
        m.alg.op(vy, vr);
      }
    } else {
      FoldAbsorbsMember(m, k, nt, rest, x);
    }
  }

  lemma {:induction false} DedupKeepsValue<V(!new)>(m: Meaning<V>, k: Kind, nt: Node, s: seq<Node>)
    requires Lawful(m.alg, k, m.val(nt)) && IsAssocCommIdem(k) && AllIn(m, s)
    ensures AllIn(m, Dedup(s)) && Fold(m, nt, Dedup(s)) == Fold(m, nt, s)
  {
    if s == [] {
    } else {
      var n := |s| - 1;
      var x := s[n];
      assert AllIn(m, s[..n]) && AllIn(m, [x]);
      DedupKeepsValue(m, k, nt, s[..n]);
      assert s == s[..n] + [x];
      FoldConcat(m, k, nt, s[..n], [x]);
      FoldOne(m, k, nt, x);
      if x in s[..n] {
        FoldAbsorbsMember(m, k, nt, s[..n], x);
        assert Dedup(s) == Dedup(s[..n]);
      } else {
        FoldConcat(m, k, nt, Dedup(s[..n]), [x]);
      }
    }
  }

  lemma {:induction false} InsertKeepsValue<V(!new)>(m: Meaning<V>, k: Kind, nt: Node, id: Node -> int, x: Node, s: seq<Node>)
    requires Lawful(m.alg, k, m.val(nt)) && (IsAssocComm(k) || IsAssocCommIdem(k))
    requires AllIn(m, s) && m.alg.carrier(m.val(x))
    ensures AllIn(m, Insert(id, x, s)) && Fold(m, nt, Insert(id, x, s)) == m.alg.op(m.val(x), Fold(m, nt, s))
  {
    if s == [] {
      FoldOne(m, k, nt, x);
    } else if id(x) <= id(s[0]) {
      assert ([x] + s)[1..] == s;
    } else {
      assert AllIn(m, s[1..]) && m.alg.carrier(m.val(s[0]));
      InsertKeepsValue(m, k, nt, id, x, s[1..]);
      FoldIn(m, nt, s[1..]);
      assert Insert(id, x, s)[1..] == Insert(id, x, s[1..]);
      var vx, vy, vr := m.val(x), m.val(s[0]), Fold(m, nt, s[1..]);
      calc {
        m.alg.op(vy, m.alg.op(vx, vr));
        m.alg.op(m.alg.op(vy, vx), vr);
        m.alg.op(m.alg.op(vx, vy), vr);
        m.alg.op(vx, m.alg.op(vy, vr));
      }
    }
  }

  lemma {:induction false} SortKeepsValue<V(!new)>(m: Meaning<V>, k: Kind, nt: Node, id: Node -> int, s: seq<Node>)
    requires Lawful(m.alg, k, m.val(nt)) && (IsAssocComm(k) || IsAssocCommIdem(k)) && AllIn(m, s)
    ensures AllIn(m, Sort(id, s)) && Fold(m, nt, Sort(id, s)) == Fold(m, nt, s)
  {
    if s == [] {
    } else {
      assert AllIn(m, s[1..]) && m.alg.carrier(m.val(s[0]));
      SortKeepsValue(m, k, nt, id, s[1..]);
      InsertKeepsValue(m, k, nt, id, s[0], Sort(id, s[1..]));
    }
  }

  /** getACINormalForm does not change the value of a term. */
  lemma NormalFormKeepsValue<V(!new)>(m: Meaning<V>, id: Node -> int, ty: Node -> Type, a: Node)
    requires Identity(ty, a).Some? ==>
      Interprets(m, a.kind, Identity(ty, a).value) && a.children != [] && WellSorted(m, a.kind, a.children)
    ensures m.val(NormalForm(id, ty, a)) == m.val(a)
  {
    if Identity(ty, a).Some? {
      var k, nt := a.kind, Identity(ty, a).value;
      var flat := FlattenAll(k, nt, a.children);
      FlattenKeepsValue(m, k, nt, a.children);
      assert a == Apply(k, a.children);
      assert m.val(a) == Fold(m, nt, flat);
      var args := if IsAssocCommIdem(k) then Dedup(flat) else flat;
      if IsAssocCommIdem(k) { DedupKeepsValue(m, k, nt, flat); }
      if IsAssocComm(k) || IsAssocCommIdem(k) { SortKeepsValue(m, k, nt, id, args); }
      var normal := NormalArgs(id, k, flat);
      assert AllIn(m, normal) && Fold(m, nt, normal) == m.val(a);
      if |normal| == 1 {
        FoldOne(m, k, nt, normal[0]);
        assert normal == [normal[0]];
      }
    }
  }
}
