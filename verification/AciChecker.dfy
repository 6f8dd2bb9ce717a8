/** The checker behind the proof rules ACI_NORM and ABSORB, with its caches. */
module AciChecker {
  import opened Formulas
  import opened AciTables
  import opened AciNormal
  import opened AciExact

  // ---- the work stack ----------------------------------------------------

  function Rev(s: seq<Node>): (r: seq<Node>)
    ensures |r| == |s| && forall i :: 0 <= i < |s| ==> r[i] == s[|s| - 1 - i]
  {
    seq(|s|, i requires 0 <= i < |s| => s[|s| - 1 - i])
  }

  lemma ConcatAssoc(r: seq<Node>, s: seq<Node>, t: seq<Node>)
    ensures r + (s + t) == (r + s) + t
  {
  }

  lemma {:induction false} RevTop(s: seq<Node>)
    requires s != []
    ensures Rev(s) == [s[|s| - 1]] + Rev(s[..|s| - 1])
  {
  }

  lemma {:induction false} RevAppend(s: seq<Node>, cs: seq<Node>)
    ensures Rev(s + Rev(cs)) == cs + Rev(s)
  {
  }

  ghost function Weight(n: Node): nat
    decreases n, 1
  {
    match n
    case Apply(_, cs) => 1 + TotalWeight(cs)
    case _ => 1
  }

  ghost function TotalWeight(cs: seq<Node>): nat
    decreases cs, 0
  {
    if cs == [] then 0 else Weight(cs[0]) + TotalWeight(cs[1..])
  }

  lemma {:induction false} TotalWeightConcat(cs: seq<Node>, ds: seq<Node>)
    ensures TotalWeight(cs + ds) == TotalWeight(cs) + TotalWeight(ds)
  {
    if cs == [] {
      assert cs + ds == ds;
    } else {
      assert (cs + ds)[1..] == cs[1..] + ds;
      TotalWeightConcat(cs[1..], ds);
    }
  }

  lemma {:induction false} FlattenConcat(k: Kind, nt: Node, cs: seq<Node>, ds: seq<Node>)
    ensures FlattenAll(k, nt, cs + ds) == FlattenAll(k, nt, cs) + FlattenAll(k, nt, ds)
  {
    if cs == [] {
      assert cs + ds == ds;
    } else {
      assert (cs + ds)[1..] == cs[1..] + ds;
      FlattenConcat(k, nt, cs[1..], ds);
    }
  }

  /** Taking the top node off the stack and handling it leaves the same arguments to come. */
  lemma {:induction false} FlattenTop(k: Kind, nt: Node, cur: Node, rest: seq<Node>)
    ensures
      FlattenAll(k, nt, [cur] + rest) ==
        if cur == nt then FlattenAll(k, nt, rest)
        else if HasKind(cur, k) then FlattenAll(k, nt, cur.children + rest)
        else [cur] + FlattenAll(k, nt, rest)
    ensures TotalWeight([cur] + rest) == Weight(cur) + TotalWeight(rest)
    ensures HasKind(cur, k) ==> TotalWeight(cur.children + rest) < TotalWeight([cur] + rest)
  {
    assert ([cur] + rest)[1..] == rest;
    if HasKind(cur, k) {
      FlattenConcat(k, nt, cur.children, rest);
      TotalWeightConcat(cur.children, rest);
    }
  }

  /** The arguments collected, followed by those the stack still gives, are all of them. */
  ghost predicate Collecting(k: Kind, nt: Node, toProcess: seq<Node>, done: seq<Node>, flat: seq<Node>) {
    done + FlattenAll(k, nt, Rev(toProcess)) == flat
  }

  lemma {:induction false} CollectStart(k: Kind, nt: Node, cs: seq<Node>)
    ensures Collecting(k, nt, Rev(cs), [], FlattenAll(k, nt, cs))
  {
    RevAppend([], cs);
    assert Rev([]) == [] && [] + Rev(cs) == Rev(cs) && cs + [] == cs;
    assert [] + FlattenAll(k, nt, cs) == FlattenAll(k, nt, cs);
  }

  /** One round of the loop, for each of its cases. */
  lemma {:induction false} CollectTop(k: Kind, nt: Node, toProcess: seq<Node>, done: seq<Node>, flat: seq<Node>)
    requires toProcess != [] && Collecting(k, nt, toProcess, done, flat)
    ensures
      var cur, rest := toProcess[|toProcess| - 1], toProcess[..|toProcess| - 1];
      && (cur == nt ==> Collecting(k, nt, rest, done, flat))
      && (cur != nt && HasKind(cur, k) ==>
            && Collecting(k, nt, rest + Rev(cur.children), done, flat)
            && TotalWeight(Rev(rest + Rev(cur.children))) < TotalWeight(Rev(toProcess)))
      && (cur != nt && !HasKind(cur, k) ==> Collecting(k, nt, rest, done + [cur], flat))
      && TotalWeight(Rev(rest)) < TotalWeight(Rev(toProcess))
  {
    var cur, rest := toProcess[|toProcess| - 1], toProcess[..|toProcess| - 1];
    RevTop(toProcess);
    FlattenTop(k, nt, cur, Rev(rest));
    if HasKind(cur, k) {
      RevAppend(rest, cur.children);
    }
    ConcatAssoc(done, [cur], FlattenAll(k, nt, Rev(rest)));
  }

  lemma DedupPush(done: seq<Node>, cur: Node)
    ensures Dedup(done + [cur]) == Dedup(done) + (if cur in done then [] else [cur])
    ensures cur in Dedup(done) <==> cur in done
  {
    assert (done + [cur])[..|done|] == done;
    DedupMembers(done);
  }

  // ---- absorption --------------------------------------------------------

  /** The zero occurs as an argument somewhere beneath nested applications of k. */
  ghost predicate Absorbs(k: Kind, zero: Node, n: Node)
    decreases n
  {
    && n.Apply?
    && exists i ::
         && 0 <= i < |n.children|
         && (n.children[i] == zero || (HasKind(n.children[i], k) && Absorbs(k, zero, n.children[i])))
  }

  /** A term absorbs exactly when the zero is among its flattened arguments. */
  lemma {:induction false} AbsorbsIsMembership(k: Kind, nt: Node, zero: Node, n: Node)
    requires HasKind(n, k) && zero != nt && !HasKind(zero, k) && !HasKind(nt, k)
    ensures Absorbs(k, zero, n) <==> zero in FlattenAll(k, nt, n.children)
    decreases n, 1
  {
    AbsorbsAmong(k, nt, zero, n.children);
  }

  lemma {:induction false} AbsorbsAmong(k: Kind, nt: Node, zero: Node, cs: seq<Node>)
    requires zero != nt && !HasKind(zero, k) && !HasKind(nt, k)
    ensures zero in FlattenAll(k, nt, cs) <==>
      exists i :: 0 <= i < |cs| && (cs[i] == zero || (HasKind(cs[i], k) && Absorbs(k, zero, cs[i])))
    decreases cs, 0
  {
    if cs == [] {
    } else {
      AbsorbsAmong(k, nt, zero, cs[1..]);
      if HasKind(cs[0], k) { AbsorbsIsMembership(k, nt, zero, cs[0]); }
      assert forall i :: 0 < i < |cs| ==> cs[i] == cs[1..][i - 1];
    }
  }

  /** A term that absorbs has the value of the zero. */
  lemma {:induction false} AbsorbedIsZero<V(!new)>(m: Meaning<V>, k: Kind, nt: Node, zero: Node, n: Node)
    requires HasKind(n, k) && n.children != [] && Interprets(m, k, nt) && WellSorted(m, k, n.children)
    requires Absorbing(m.alg, m.val(zero)) && Absorbs(k, zero, n)
    ensures m.val(n) == m.val(zero)
    decreases n
  {
    var i :| 0 <= i < |n.children| &&
             (n.children[i] == zero || (HasKind(n.children[i], k) && Absorbs(k, zero, n.children[i])));
    var c := n.children[i];
    if c != zero {
      AbsorbedIsZero(m, k, nt, zero, c);
    }
    assert m.val(c) == m.val(zero);
    FoldAbsorbed(m, nt, m.val(zero), n.children, i);
    assert n == Apply(k, n.children);
  }

  lemma {:induction false} FoldAbsorbed<V(!new)>(m: Meaning<V>, nt: Node, z: V, cs: seq<Node>, i: nat)
    requires Closed(m.alg) && m.alg.carrier(m.val(nt)) && Absorbing(m.alg, z) && AllIn(m, cs)
    requires i < |cs| && m.val(cs[i]) == z
    ensures Fold(m, nt, cs) == z
  {
    assert AllIn(m, cs[1..]) && m.alg.carrier(m.val(cs[0]));
    FoldIn(m, nt, cs[1..]);
    if i > 0 {
      FoldAbsorbed(m, nt, z, cs[1..], i - 1);
    }
    AbsorbedOp(m.alg, z, m.val(cs[0]), Fold(m, nt, cs[1..]));
  }

  lemma AbsorbedOp<V(!new)>(alg: Algebra<V>, z: V, x: V, y: V)
    requires Absorbing(alg, z) && alg.carrier(x) && alg.carrier(y) && (x == z || y == z)
    ensures alg.op(x, y) == z
  {
  }

  /** The nested applications of k in a term, the term included. */
  ghost function Nested(k: Kind, n: Node): set<Node>
    decreases n, 1
  {
    if n.Apply? then {n} + NestedAll(k, n.children) else {n}
  }

  ghost function NestedAll(k: Kind, cs: seq<Node>): set<Node>
    decreases cs, 0
  {
    if cs == [] then {}
    else (if HasKind(cs[0], k) then Nested(k, cs[0]) else {}) + NestedAll(k, cs[1..])
  }

  lemma {:induction false} NestedAllAt(k: Kind, cs: seq<Node>, i: nat)
    requires i < |cs| && HasKind(cs[i], k)
    ensures Nested(k, cs[i]) <= NestedAll(k, cs)
  {
    if i > 0 {
      NestedAllAt(k, cs[1..], i - 1);
    }
  }

  lemma {:induction false} NestedClosed(k: Kind, n: Node, x: Node, i: nat)
    requires x in Nested(k, n) && x.Apply? && i < |x.children| && HasKind(x.children[i], k)
    ensures x.children[i] in Nested(k, n)
    decreases n, 1
  {
    if x == n {
      NestedAllAt(k, n.children, i);
    } else {
      NestedAllClosed(k, n.children, x, i);
    }
  }

  lemma {:induction false} NestedAllClosed(k: Kind, cs: seq<Node>, x: Node, i: nat)
    requires x in NestedAll(k, cs) && x.Apply? && i < |x.children| && HasKind(x.children[i], k)
    ensures x.children[i] in NestedAll(k, cs)
    decreases cs, 0
  {
    if HasKind(cs[0], k) && x in Nested(k, cs[0]) {
      NestedClosed(k, cs[0], x, i);
    } else {
      NestedAllClosed(k, cs[1..], x, i);
    }
  }

  // ---- the checker -------------------------------------------------------

  /** isACINorm, as a relation between terms. */
  ghost predicate Accepts(id: Node -> int, ty: Node -> Type, a: Node, b: Node) {
    if KindOf(a) == KindOf(b) then NormalForm(id, ty, a) == NormalForm(id, ty, b)
    else a == NormalForm(id, ty, b) || NormalForm(id, ty, a) == b
  }

  /** A term the rules apply to has a meaning that obeys the laws declared for its kind. */
  ghost predicate Meaningful<V(!new)>(m: Meaning<V>, ty: Node -> Type, a: Node) {
    Identity(ty, a).Some? ==>
      Interprets(m, a.kind, Identity(ty, a).value) && a.children != [] && WellSorted(m, a.kind, a.children)
  }

  /** Accepted terms have equal values, also when their kinds differ. */
  lemma AcceptedIsEqual<V(!new)>(ma: Meaning<V>, mb: Meaning<V>, id: Node -> int, ty: Node -> Type, a: Node, b: Node)
    requires Meaningful(ma, ty, a) && Meaningful(mb, ty, b) && ma.val == mb.val
    requires Accepts(id, ty, a, b)
    ensures ma.val(a) == ma.val(b)
  {
    NormalFormKeepsValue(ma, id, ty, a);
    NormalFormKeepsValue(mb, id, ty, b);
  }

  /** Terms of one kind and type are accepted exactly when their arguments agree. */
  lemma AcceptedExactly(id: Node -> int, ty: Node -> Type, a: Node, b: Node)
    requires Injective(id) && KindOf(a) == KindOf(b)
    requires Identity(ty, a) == Identity(ty, b)
    ensures Accepts(id, ty, a, b) <==>
      match Identity(ty, a)
      case None => a == b
      case Some(nt) => Agree(a.kind, FlattenAll(a.kind, nt, a.children), FlattenAll(a.kind, nt, b.children))
  {
    if Identity(ty, a).Some? {
      SameNormalForm(id, ty, a, b);
    }
  }

  /** Terms of different kinds are accepted exactly when the arguments of one come down to the
      other. */
  lemma AcceptedAcross(id: Node -> int, ty: Node -> Type, a: Node, b: Node)
    requires Injective(id) && KindOf(a) != KindOf(b)
    ensures Accepts(id, ty, a, b) <==> CollapsesTo(ty, a, b) || CollapsesTo(ty, b, a)
  {
    NormalFormOfOtherKind(id, ty, a, b);
    NormalFormOfOtherKind(id, ty, b, a);
  }

  class Checker {
    const id: Node -> int
    const ty: Node -> Type
    /** The attribute NormalFormAttr. */
    var normalForms: map<Node, Node>
    /** The attributes AbsorbComputedAttr and AbsorbAttr; one pair for all kinds. */
    var computed: set<Node>
    var absorbs: set<Node>

    ghost predicate NormalFormsOk()
      reads this
    {
      forall n :: n in normalForms ==> normalForms[n] == NormalForm(id, ty, n)
    }

    constructor (id: Node -> int, ty: Node -> Type)
      ensures this.id == id && this.ty == ty && NormalFormsOk() && computed == {} && absorbs == {}
    {
      this.id, this.ty := id, ty;
      normalForms, computed, absorbs := map[], {}, {};
    }

    /** The work-stack loop: the flattened arguments, without repetitions if k is idempotent. */
    static method Collect(k: Kind, nt: Node, a: Node) returns (children: seq<Node>)
      requires a.Apply? && a.children != []
      ensures
        var flat := FlattenAll(k, nt, a.children);
        children == if IsAssocCommIdem(k) then Dedup(flat) else flat
    {
      var aci := IsAssocCommIdem(k);
      var toProcess := Rev(a.children);
      children := [];
      ghost var done: seq<Node> := [];
      ghost var flat := FlattenAll(k, nt, a.children);
      CollectStart(k, nt, a.children);
      while toProcess != []
        invariant Collecting(k, nt, toProcess, done, flat)
        invariant children == if aci then Dedup(done) else done
        decreases TotalWeight(Rev(toProcess))
      {
        var cur := toProcess[|toProcess| - 1];
        CollectTop(k, nt, toProcess, done, flat);
        toProcess := toProcess[..|toProcess| - 1];
        if cur == nt {
        } else if HasKind(cur, k) {
          toProcess := toProcess + Rev(cur.children);
        } else {
          DedupPush(done, cur);
          if !aci || cur !in children {
            children := children + [cur];
          }
          done := done + [cur];
        }
      }
      assert done + [] == done;
    }

    method GetACINormalForm(a: Node) returns (an: Node)
      requires NormalFormsOk() && (Identity(ty, a).Some? ==> a.children != [])
      modifies this`normalForms
      ensures NormalFormsOk() && an == NormalForm(id, ty, a)
    {
      if a in normalForms {
        return normalForms[a];
      }
      var nt := Identity(ty, a);
      if nt.None? {
        normalForms := normalForms[a := a];
        return a;
      }
      var k := a.kind;
      var children := Collect(k, nt.value, a);
      if IsAssocComm(k) || IsAssocCommIdem(k) {
        children := Sort(id, children);
      }
      an := if children == [] then nt.value else if |children| == 1 then children[0] else Apply(k, children);
      normalForms := normalForms[a := an];
    }

    method IsACINorm(a: Node, b: Node) returns (ok: bool)
      requires NormalFormsOk()
      requires Identity(ty, a).Some? ==> a.children != []
      requires Identity(ty, b).Some? ==> b.children != []
      modifies this`normalForms
      ensures NormalFormsOk() && (ok <==> Accepts(id, ty, a, b))
      ensures Injective(id) && KindOf(a) != KindOf(b) ==> (ok <==> CollapsesTo(ty, a, b) || CollapsesTo(ty, b, a))
    {
      if Injective(id) && KindOf(a) != KindOf(b) {
        AcceptedAcross(id, ty, a, b);
      }
      var an := GetACINormalForm(a);
      var bn := GetACINormalForm(b);
      if KindOf(a) == KindOf(b) {
        return an == bn;
      }
      return a == bn || an == b;
    }

    /** The cached answers are right for callers that pass zeroOf(n) with n. */
    ghost predicate AbsorbOk(zeroOf: Node -> Node)
      reads this
    {
      forall n :: n in computed ==> n.Apply? && (n in absorbs <==> Absorbs(n.kind, zeroOf(n), n))
    }

    /** Whether a child of cur is the zero or absorbs, by the attribute of the child. */
    method ChildAbsorbs(k: Kind, zero: Node, cur: Node) returns (isAnnil: bool)
      requires cur.Apply?
      ensures isAnnil <==> exists i :: 0 <= i < |cur.children| && AbsorbsBy(k, zero, absorbs, cur.children[i])
    {
      isAnnil := false;
      for j := 0 to |cur.children|
        invariant !isAnnil && forall i :: 0 <= i < j ==> !AbsorbsBy(k, zero, absorbs, cur.children[i])
      {
        if AbsorbsBy(k, zero, absorbs, cur.children[j]) {
          return true;
        }
      }
    }

    /** Searches the nested applications of the kind of a, each visited once. */
    method IsAbsorb(a: Node, zero: Node, ghost zeroOf: Node -> Node) returns (r: bool)
      requires a.Apply? ==> forall n :: n in Nested(a.kind, a) ==> zeroOf(n) == zeroOf(a)
      modifies this`computed, this`absorbs
      ensures !IsAbsorbKind(KindOf(a)) ==> !r && unchanged(this)
      ensures IsAbsorbKind(KindOf(a)) && zero == zeroOf(a) && old(AbsorbOk(zeroOf)) ==>
        AbsorbOk(zeroOf) && (r <==> Absorbs(a.kind, zero, a))
      ensures CanAbsorb(KindOf(a)) && zero == zeroOf(a) && old(AbsorbOk(zeroOf)) ==> (r <==> Absorbs(a.kind, zero, a))
      ensures !CanAbsorb(KindOf(a)) ==> !r
      ensures IsAbsorbKind(KindOf(a)) ==> a in computed && (r <==> a in absorbs)
      ensures IsAbsorbKind(KindOf(a)) && a in old(computed) ==> unchanged(this)
    {
      var k := KindOf(a);
      AbsorbingKindsAreDeclared(k);
      if !IsAbsorbKind(k) {
        return false;
      }
      ghost var trusted := zero == zeroOf(a) && AbsorbOk(zeroOf);
      ghost var all := Nested(k, a);
      var visited: set<Node> := {};
      var visit := [a];
      while visit != []
        invariant OnStack(k, all, visit, visited)
        invariant Waiting(k, visit, visited, computed)
        invariant a in computed || (visit != [] && visit[0] == a)
        invariant trusted ==> AbsorbOk(zeroOf)
        invariant a in old(computed) ==> computed == old(computed) && absorbs == old(absorbs) && visit <= [a]
        decreases all - visited, |visit|
      {
        var cur := visit[|visit| - 1];
        if cur in computed {
          PopComputed(k, visit, visited, computed);
          visit := visit[..|visit| - 1];
        } else if cur !in visited {
          VisitKeepsStack(k, a, visit, visited);
          VisitChildren(k, visit, visited, computed);
          visited := visited + {cur};
          visit := visit + WithKind(k, cur.children);
        } else {
          SettleTop(k, a, zero, zeroOf, visit, visited);
          visit := visit[..|visit| - 1];
        }
      }
      return a in absorbs;
    }

    /** Both attributes of the node on top of the stack, from those of its children. */
    method SettleTop(k: Kind, ghost a: Node, zero: Node, ghost zeroOf: Node -> Node, visit: seq<Node>, ghost visited: set<Node>)
      requires visit != [] && OnStack(k, Nested(k, a), visit, visited) && Waiting(k, visit, visited, computed)
      requires visit[|visit| - 1] in visited && visit[|visit| - 1] !in computed
      requires forall n :: n in Nested(k, a) ==> zeroOf(n) == zeroOf(a)
      modifies this`computed, this`absorbs
      ensures computed == old(computed) + {visit[|visit| - 1]}
      ensures Waiting(k, visit[..|visit| - 1], visited, computed)
      ensures zero == zeroOf(a) && old(AbsorbOk(zeroOf)) ==> AbsorbOk(zeroOf)
    {
      var cur := visit[|visit| - 1];
      var isAnnil := ChildAbsorbs(k, zero, cur);
      if zero == zeroOf(a) && AbsorbOk(zeroOf) {
        SettleAbsorb(k, zero, zeroOf, a, visit, visited, computed, absorbs);
      }
      ComputeTop(k, visit, visited, computed);
      PopComputed(k, visit, visited, computed + {cur});
      absorbs := if isAnnil then absorbs + {cur} else absorbs - {cur};
      computed := computed + {cur};
    }
  }

  function WithKind(k: Kind, cs: seq<Node>): (r: seq<Node>)
    ensures forall x :: x in r <==> x in cs && HasKind(x, k)
  {
    if cs == [] then []
    else
      assert cs == [cs[0]] + cs[1..];
      (if HasKind(cs[0], k) then [cs[0]] else []) + WithKind(k, cs[1..])
  }

  predicate AbsorbsBy(k: Kind, zero: Node, absorbs: set<Node>, c: Node) {
    c == zero || (HasKind(c, k) && c in absorbs)
  }

  ghost predicate OnStack(k: Kind, all: set<Node>, visit: seq<Node>, visited: set<Node>) {
    visited <= all && forall i :: 0 <= i < |visit| ==> visit[i] in all && HasKind(visit[i], k)
  }

  /** A visited node is on the stack until it is computed. It waits only for children above
      it, and above its last occurrence there are only lighter nodes. */
  ghost predicate Waiting(k: Kind, visit: seq<Node>, visited: set<Node>, computed: set<Node>) {
    && (forall n :: n in visited && n !in computed ==> n in visit)
    && (forall i {:trigger WaitsAt(k, visit, computed, i)} :: Open(visit, visited, computed, i) ==> WaitsAt(k, visit, computed, i))
    && (forall i {:trigger LightAbove(visit, i)} :: Open(visit, visited, computed, i) && visit[i] !in visit[i + 1..] ==> LightAbove(visit, i))
  }

  ghost predicate Open(visit: seq<Node>, visited: set<Node>, computed: set<Node>, i: int) {
    0 <= i < |visit| && visit[i] in visited && visit[i] !in computed
  }

  ghost predicate WaitsAt(k: Kind, visit: seq<Node>, computed: set<Node>, i: int)
    requires 0 <= i < |visit|
  {
    forall c :: c in ChildrenOf(visit[i]) && HasKind(c, k) ==> c in computed || c in visit[i + 1..]
  }

  ghost predicate LightAbove(visit: seq<Node>, i: int)
    requires 0 <= i < |visit|
  {
    forall j :: i < j < |visit| ==> Weight(visit[j]) < Weight(visit[i])
  }

  lemma {:induction false} PopComputed(k: Kind, visit: seq<Node>, visited: set<Node>, computed: set<Node>)
    requires visit != [] && Waiting(k, visit, visited, computed) && visit[|visit| - 1] in computed
    ensures Waiting(k, visit[..|visit| - 1], visited, computed)
  {
    var rest := visit[..|visit| - 1];
    assert visit == rest + [visit[|visit| - 1]];
    forall i | Open(rest, visited, computed, i)
      ensures WaitsAt(k, rest, computed, i)
      ensures rest[i] !in rest[i + 1..] ==> LightAbove(rest, i)
    {
      assert Open(visit, visited, computed, i) && WaitsAt(k, visit, computed, i);
      assert visit[i + 1..] == rest[i + 1..] + [visit[|visit| - 1]];
      if rest[i] !in rest[i + 1..] { assert LightAbove(visit, i); }
    }
  }

  lemma {:induction false} ComputeTop(k: Kind, visit: seq<Node>, visited: set<Node>, computed: set<Node>)
    requires visit != [] && Waiting(k, visit, visited, computed)
    ensures Waiting(k, visit, visited, computed + {visit[|visit| - 1]})
  {
    var computed' := computed + {visit[|visit| - 1]};
    forall i | Open(visit, visited, computed', i)
      ensures WaitsAt(k, visit, computed', i)
      ensures visit[i] !in visit[i + 1..] ==> LightAbove(visit, i)
    {
      assert Open(visit, visited, computed, i) && WaitsAt(k, visit, computed, i);
      if visit[i] !in visit[i + 1..] { assert LightAbove(visit, i); }
    }
  }

  lemma {:induction false} ChildIsLighter(n: Node, c: Node)
    requires n.Apply? && c in n.children
    ensures Weight(c) < Weight(n)
  {
    MemberIsLighter(n.children, c);
  }

  lemma {:induction false} MemberIsLighter(cs: seq<Node>, c: Node)
    requires c in cs
    ensures Weight(c) <= TotalWeight(cs)
  {
    if c != cs[0] {
      MemberIsLighter(cs[1..], c);
    }
  }

  lemma {:induction false} LastOccurrence(s: seq<Node>, x: Node) returns (i: nat)
    requires x in s
    ensures i < |s| && s[i] == x && x !in s[i + 1..]
  {
    var n := |s| - 1;
    assert s == s[..n] + [s[n]];
    if s[n] == x {
      i := n;
    } else {
      i := LastOccurrence(s[..n], x);
      assert s[i + 1..] == s[..n][i + 1..] + [s[n]];
    }
  }

  lemma {:induction false} TopIsLight(k: Kind, visit: seq<Node>, visited: set<Node>, computed: set<Node>, p: nat)
    requires Waiting(k, visit, visited, computed) && Open(visit, visited, computed, p) && visit[p] !in visit[p + 1..]
    ensures p == |visit| - 1 || Weight(visit[|visit| - 1]) < Weight(visit[p])
  {
    assert LightAbove(visit, p);
  }

  /** No child of the top node is visited and unfinished: it would lie below a heavier node. */
  lemma {:induction false} ChildrenAreNew(k: Kind, visit: seq<Node>, visited: set<Node>, computed: set<Node>, c: Node)
    requires visit != [] && Waiting(k, visit, visited, computed)
    requires visit[|visit| - 1].Apply? && c in visit[|visit| - 1].children
    ensures c !in visited || c in computed
  {
    var cur := visit[|visit| - 1];
    ChildIsLighter(cur, c);
    if c in visited && c !in computed {
      var p := LastOccurrence(visit, c);
      TopIsLight(k, visit, visited, computed, p);
      assert false;
    }
  }

  lemma {:induction false} VisitKeepsStack(k: Kind, a: Node, visit: seq<Node>, visited: set<Node>)
    requires visit != [] && OnStack(k, Nested(k, a), visit, visited)
    ensures
      var cur := visit[|visit| - 1];
      OnStack(k, Nested(k, a), visit + WithKind(k, cur.children), visited + {cur})
  {
    var cur := visit[|visit| - 1];
    var more := WithKind(k, cur.children);
    forall i | 0 <= i < |more|
      ensures more[i] in Nested(k, a) && HasKind(more[i], k)
    {
      assert more[i] in more;
      var j :| 0 <= j < |cur.children| && cur.children[j] == more[i];
      NestedClosed(k, a, cur, j);
    }
  }

  lemma {:induction false} VisitChildren(k: Kind, visit: seq<Node>, visited: set<Node>, computed: set<Node>)
    requires visit != [] && Waiting(k, visit, visited, computed)
    requires visit[|visit| - 1].Apply? && visit[|visit| - 1] !in computed
    ensures
      var cur := visit[|visit| - 1];
      Waiting(k, visit + WithKind(k, cur.children), visited + {cur}, computed)
  {
    var top := |visit| - 1;
    var cur := visit[top];
    var more := WithKind(k, cur.children);
    var visit', visited' := visit + more, visited + {cur};
    forall i | Open(visit', visited', computed, i)
      ensures WaitsAt(k, visit', computed, i)
      ensures visit'[i] !in visit'[i + 1..] ==> LightAbove(visit', i)
    {
      if i > top {
        assert visit'[i] in more;
        ChildIsLighter(cur, visit'[i]);
        ChildrenAreNew(k, visit, visited, computed, visit'[i]);
        assert false;
      } else {
        WaitsBelow(k, visit, visited, computed, more, i);
        if visit'[i] !in visit'[i + 1..] { LightBelow(k, visit, visited, computed, more, i); }
      }
    }
  }

  lemma {:induction false} WaitsBelow(k: Kind, visit: seq<Node>, visited: set<Node>, computed: set<Node>, more: seq<Node>, i: int)
    requires visit != [] && Waiting(k, visit, visited, computed)
    requires visit[|visit| - 1].Apply? && more == WithKind(k, visit[|visit| - 1].children)
    requires 0 <= i < |visit| && Open(visit + more, visited + {visit[|visit| - 1]}, computed, i)
    ensures WaitsAt(k, visit + more, computed, i)
  {
    assert (visit + more)[i + 1..] == visit[i + 1..] + more;
    if visit[i] != visit[|visit| - 1] {
      assert Open(visit, visited, computed, i) && WaitsAt(k, visit, computed, i);
    }
  }

  lemma {:induction false} LightBelow(k: Kind, visit: seq<Node>, visited: set<Node>, computed: set<Node>, more: seq<Node>, i: int)
    requires visit != [] && Waiting(k, visit, visited, computed)
    requires visit[|visit| - 1].Apply? && more == WithKind(k, visit[|visit| - 1].children)
    requires 0 <= i < |visit| && Open(visit + more, visited + {visit[|visit| - 1]}, computed, i)
    requires visit[i] !in (visit + more)[i + 1..]
    ensures LightAbove(visit + more, i)
  {
    var top := |visit| - 1;
    var cur, visit' := visit[top], visit + more;
    assert visit'[i + 1..] == visit[i + 1..] + more;
    assert i < top ==> visit[i + 1..][top - i - 1] == cur;
    if visit[i] != cur {
      assert Open(visit, visited, computed, i) && LightAbove(visit, i);
    }
    forall j | i < j < |visit'|
      ensures Weight(visit'[j]) < Weight(visit'[i])
    {
      if j > top {
        assert visit'[j] in more;
        ChildIsLighter(cur, visit'[j]);
      }
    }
  }

  /** When a visited node is back on top, its attribute is what the search is for. */
  lemma {:induction false} SettleAbsorb(k: Kind, zero: Node, zeroOf: Node -> Node, a: Node, visit: seq<Node>, visited: set<Node>,
                     computed: set<Node>, absorbs: set<Node>)
    requires visit != [] && Waiting(k, visit, visited, computed) && OnStack(k, Nested(k, a), visit, visited)
    requires visit[|visit| - 1] in visited && visit[|visit| - 1] !in computed
    requires forall n :: n in Nested(k, a) ==> zeroOf(n) == zero
    requires forall n :: n in computed ==> n.Apply? && (n in absorbs <==> Absorbs(n.kind, zeroOf(n), n))
    ensures
      var cur := visit[|visit| - 1];
      Absorbs(k, zero, cur) <==> exists i :: 0 <= i < |cur.children| && AbsorbsBy(k, zero, absorbs, cur.children[i])
  {
    var top := |visit| - 1;
    var cur := visit[top];
    assert Open(visit, visited, computed, top) && WaitsAt(k, visit, computed, top);
    forall i | 0 <= i < |cur.children|
      ensures AbsorbsBy(k, zero, absorbs, cur.children[i]) <==>
              (cur.children[i] == zero || (HasKind(cur.children[i], k) && Absorbs(k, zero, cur.children[i])))
    {
      var c := cur.children[i];
      if HasKind(c, k) {
        assert c in ChildrenOf(cur);
        NestedClosed(k, a, cur, i);
      }
    }
  }

  /** The absorb attribute does not record which zero was asked for: a second question
      about the same term with another node gets the first answer. */
  method AnotherZero(id: Node -> int, ty: Node -> Type)
    returns (checker: Checker, a: Node, x: Node, y: Node, first: bool, second: bool)
    ensures first && second && a in checker.computed && a in checker.absorbs
    ensures Absorbs(OR, x, a) && !Absorbs(OR, y, a)
  {
    x, y := Skolem(1), Skolem(2);
    a := Apply(OR, [x, x]);
    checker := new Checker(id, ty);
    assert a.children[0] == x;
    first := checker.IsAbsorb(a, x, _ => Skolem(1));
    assert a in checker.computed;
    second := checker.IsAbsorb(a, y, _ => Skolem(1));
  }
}
