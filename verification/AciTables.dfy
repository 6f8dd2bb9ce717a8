/** Kinds, nodes and the tables of identity and absorbing elements. */
module AciTables {
  import opened Formulas

  datatype Kind =
    | OR | AND | ADD | MULT | NONLINEAR_MULT
    | STRING_CONCAT | REGEXP_CONCAT | REGEXP_UNION | REGEXP_INTER
    | BITVECTOR_AND | BITVECTOR_OR | BITVECTOR_XOR | BITVECTOR_ADD | BITVECTOR_MULT | BITVECTOR_CONCAT
    | STRING_TO_REGEXP | REGEXP_NONE | REGEXP_ALL
    | CONSTANT | SKOLEM | OTHER(id: nat)

  datatype Type = Boolean | Integer | Real | StringLike(elem: nat) | RegLan | BitVector(width: nat) | AbstractType | OtherType(id: nat)

  datatype Constant =
    | BoolConst(b: bool)
    | IntConst(i: int)
    | RealConst(r: int)
    | WordConst(elem: nat, letters: seq<nat>)
    | BvConst(bits: seq<bool>)

  /** Nodes are shared, so that equal nodes are one node. */
  datatype Node =
    | Value(c: Constant)
    | Skolem(name: nat)
    | Apply(kind: Kind, children: seq<Node>)

  function KindOf(n: Node): Kind {
    match n
    case Value(_) => CONSTANT
    case Skolem(_) => SKOLEM
    case Apply(k, _) => k
  }

  function ChildrenOf(n: Node): seq<Node> {
    if n.Apply? then n.children else []
  }

  /** The skolem that stands for the bit-vector without bits. */
  const BV_EMPTY := Skolem(0)

  const EMPTY_STRING := Value(WordConst(0, []))

  function Zeros(w: nat): seq<bool> { seq(w, _ => false) }

  function Ones(w: nat): seq<bool> { seq(w, _ => true) }

  /** One, most significant bit first. */
  function One(w: nat): seq<bool> {
    if w == 0 then [] else Zeros(w - 1) + [true]
  }

  function NullTerminator(k: Kind, tn: Type): Option<Node> {
    match k
    case OR => Some(Value(BoolConst(false)))
    case AND => Some(Value(BoolConst(true)))
    case ADD => Some(Value(if tn.Integer? then IntConst(0) else RealConst(0)))
    case MULT => Some(Value(if tn.Integer? then IntConst(1) else RealConst(1)))
    case NONLINEAR_MULT => Some(Value(if tn.Integer? then IntConst(1) else RealConst(1)))
    case STRING_CONCAT => if tn.StringLike? then Some(Value(WordConst(tn.elem, []))) else None
    case REGEXP_CONCAT => Some(Apply(STRING_TO_REGEXP, [EMPTY_STRING]))
    case REGEXP_UNION => Some(Apply(REGEXP_NONE, []))
    case REGEXP_INTER => Some(Apply(REGEXP_ALL, []))
    case BITVECTOR_AND => if tn.BitVector? then Some(Value(BvConst(Ones(tn.width)))) else None
    case BITVECTOR_OR => if tn.BitVector? then Some(Value(BvConst(Zeros(tn.width)))) else None
    case BITVECTOR_ADD => if tn.BitVector? then Some(Value(BvConst(Zeros(tn.width)))) else None
    case BITVECTOR_XOR => if tn.BitVector? then Some(Value(BvConst(Zeros(tn.width)))) else None
    case BITVECTOR_MULT => if tn.BitVector? then Some(Value(BvConst(One(tn.width)))) else None
    case BITVECTOR_CONCAT => Some(BV_EMPTY)
    case _ => None
  }

  function ZeroElement(k: Kind, tn: Type): Option<Node> {
    match k
    case OR => Some(Value(BoolConst(true)))
    case AND => Some(Value(BoolConst(false)))
    case MULT => Some(Value(IntConst(0)))
    case NONLINEAR_MULT => Some(Value(IntConst(0)))
    case REGEXP_UNION => Some(Apply(REGEXP_ALL, []))
    case REGEXP_INTER => Some(Apply(REGEXP_NONE, []))
    case REGEXP_CONCAT => Some(Apply(REGEXP_NONE, []))
    case BITVECTOR_OR => if tn.BitVector? then Some(Value(BvConst(Ones(tn.width)))) else None
    case BITVECTOR_AND => if tn.BitVector? then Some(Value(BvConst(Zeros(tn.width)))) else None
    case BITVECTOR_MULT => if tn.BitVector? then Some(Value(BvConst(Zeros(tn.width)))) else None
    case _ => None
  }

  predicate IsAssocCommIdem(k: Kind) {
    k in {OR, AND, REGEXP_UNION, REGEXP_INTER, BITVECTOR_AND, BITVECTOR_OR}
  }

  predicate IsAssocComm(k: Kind) {
    k == BITVECTOR_XOR
  }

  predicate IsAssoc(k: Kind) {
    k in {BITVECTOR_CONCAT, STRING_CONCAT, REGEXP_CONCAT} || IsAssocCommIdem(k)
  }

  predicate IsAbsorbKind(k: Kind) {
    k in {OR, AND, REGEXP_UNION, REGEXP_INTER, REGEXP_CONCAT, BITVECTOR_AND, BITVECTOR_OR}
  }

  // ---- the declared laws -------------------------------------------------

  /** A binary operation on a carrier. */
  datatype Algebra<!V> = Algebra(carrier: V -> bool, op: (V, V) -> V)

  ghost predicate Closed<V(!new)>(alg: Algebra<V>) {
    forall x, y {:trigger alg.op(x, y)} :: alg.carrier(x) && alg.carrier(y) ==> alg.carrier(alg.op(x, y))
  }

  ghost predicate Associative<V(!new)>(alg: Algebra<V>) {
    forall x, y, z {:trigger alg.op(alg.op(x, y), z)} {:trigger alg.op(x, alg.op(y, z))} ::
      alg.carrier(x) && alg.carrier(y) && alg.carrier(z) ==> alg.op(alg.op(x, y), z) == alg.op(x, alg.op(y, z))
  }

  ghost predicate HasUnit<V(!new)>(alg: Algebra<V>, e: V) {
    && alg.carrier(e)
    && forall x {:trigger alg.op(e, x)} {:trigger alg.op(x, e)} :: alg.carrier(x) ==> alg.op(e, x) == x && alg.op(x, e) == x
  }

  ghost predicate Commutative<V(!new)>(alg: Algebra<V>) {
    forall x, y {:trigger alg.op(x, y)} :: alg.carrier(x) && alg.carrier(y) ==> alg.op(x, y) == alg.op(y, x)
  }

  ghost predicate Idempotent<V(!new)>(alg: Algebra<V>) {
    forall x {:trigger alg.op(x, x)} :: alg.carrier(x) ==> alg.op(x, x) == x
  }

  ghost predicate Absorbing<V(!new)>(alg: Algebra<V>, z: V) {
    && alg.carrier(z)
    && forall x {:trigger alg.op(z, x)} {:trigger alg.op(x, z)} :: alg.carrier(x) ==> alg.op(z, x) == z && alg.op(x, z) == z
  }

  /** What getACINormalForm takes for granted about kind k with identity e. */
  ghost predicate Lawful<V(!new)>(alg: Algebra<V>, k: Kind, e: V) {
    && Closed(alg) && Associative(alg) && HasUnit(alg, e)
    && (IsAssocComm(k) || IsAssocCommIdem(k) ==> Commutative(alg))
    && (IsAssocCommIdem(k) ==> Idempotent(alg))
  }

  // ---- the intended meaning of the kinds, and that it obeys the laws -----

  type Word = seq<nat>

  datatype Val = BoolV(b: bool) | WordV(w: Word) | LangV(l: iset<Word>) | BvV(bits: seq<bool>)

  ghost predicate HasSort(x: Val, k: Kind, tn: Type) {
    match k
    case OR => x.BoolV?
    case AND => x.BoolV?
    case STRING_CONCAT => x.WordV?
    case REGEXP_CONCAT => x.LangV?
    case REGEXP_UNION => x.LangV?
    case REGEXP_INTER => x.LangV?
    case BITVECTOR_CONCAT => x.BvV?
    case _ => x.BvV? && tn.BitVector? && |x.bits| == tn.width
  }

  function BitOp(k: Kind, x: bool, y: bool): bool {
    match k
    case BITVECTOR_AND => x && y
    case BITVECTOR_OR => x || y
    case _ => x != y
  }

  function Bitwise(k: Kind, x: seq<bool>, y: seq<bool>): (r: seq<bool>)
    ensures |r| == |x| && forall i :: 0 <= i < |x| ==> r[i] == if i < |y| then BitOp(k, x[i], y[i]) else x[i]
  {
    seq(|x|, i requires 0 <= i < |x| => if i < |y| then BitOp(k, x[i], y[i]) else x[i])
  }

  ghost function EmptyWordOnly(): iset<Word> {
    iset w: Word | |w| == 0
  }

  ghost function LangConcat(l: iset<Word>, m: iset<Word>): iset<Word> {
    iset u, v | u in l && v in m :: u + v
  }

  /** The operation a kind stands for, on values of its sort. */
  ghost function KindOp(k: Kind, x: Val, y: Val): Val {
    match (k, x, y)
    case (OR, BoolV(a), BoolV(b)) => BoolV(a || b)
    case (AND, BoolV(a), BoolV(b)) => BoolV(a && b)
    case (STRING_CONCAT, WordV(u), WordV(v)) => WordV(u + v)
    case (REGEXP_CONCAT, LangV(l), LangV(m)) => LangV(LangConcat(l, m))
    case (REGEXP_UNION, LangV(l), LangV(m)) => LangV(l + m)
    case (REGEXP_INTER, LangV(l), LangV(m)) => LangV(l * m)
    case (BITVECTOR_CONCAT, BvV(a), BvV(b)) => BvV(a + b)
    case (_, BvV(a), BvV(b)) => BvV(Bitwise(k, a, b))
    case _ => x
  }

  ghost function AlgebraOf(k: Kind, tn: Type): Algebra<Val> {
    Algebra(x => HasSort(x, k, tn), (x, y) => KindOp(k, x, y))
  }

  /** What the constants of the tables denote. */
  ghost function Denotes(n: Node): Val {
    match n
    case Value(BoolConst(b)) => BoolV(b)
    case Value(WordConst(_, w)) => WordV(w)
    case Value(BvConst(bits)) => BvV(bits)
    case Skolem(_) => BvV([])
    case Apply(STRING_TO_REGEXP, _) => LangV(EmptyWordOnly())
    case Apply(REGEXP_ALL, _) => LangV(iset w: Word | |w| >= 0)
    case Apply(REGEXP_NONE, _) => LangV(iset{})
    case _ => BoolV(false)
  }

  lemma LangConcatAssoc(l: iset<Word>, m: iset<Word>, n: iset<Word>)
    ensures LangConcat(LangConcat(l, m), n) == LangConcat(l, LangConcat(m, n))
  {
    forall w | w in LangConcat(LangConcat(l, m), n)
      ensures w in LangConcat(l, LangConcat(m, n))
    {
      var uv, z :| uv in LangConcat(l, m) && z in n && w == uv + z;
      var u, v :| u in l && v in m && uv == u + v;
      assert v + z in LangConcat(m, n);
      assert w == u + (v + z);
    }
    forall w | w in LangConcat(l, LangConcat(m, n))
      ensures w in LangConcat(LangConcat(l, m), n)
    {
      var u, vz :| u in l && vz in LangConcat(m, n) && w == u + vz;
      var v, z :| v in m && z in n && vz == v + z;
      assert u + v in LangConcat(l, m);
      assert w == (u + v) + z;
    }
  }

  lemma InLangConcatUnit(l: iset<Word>, w: Word)
    ensures w in LangConcat(EmptyWordOnly(), l) <==> w in l
  {
    var e: Word := [];
    if w in l {
      assert e in EmptyWordOnly() && e + w == w;
    }
    if w in LangConcat(EmptyWordOnly(), l) {
      var u, v :| u in EmptyWordOnly() && v in l && w == u + v;
      assert u + v == v;
    }
  }

  lemma InUnitLangConcat(l: iset<Word>, w: Word)
    ensures w in LangConcat(l, EmptyWordOnly()) <==> w in l
  {
    var e: Word := [];
    if w in l {
      assert e in EmptyWordOnly() && w + e == w;
    }
    if w in LangConcat(l, EmptyWordOnly()) {
      var u, v :| u in l && v in EmptyWordOnly() && w == u + v;
      assert u + v == u;
    }
  }

  lemma LangConcatLeftUnit(l: iset<Word>)
    ensures LangConcat(EmptyWordOnly(), l) == l
  {
    forall w: Word
      ensures w in LangConcat(EmptyWordOnly(), l) <==> w in l
    {
      InLangConcatUnit(l, w);
    }
  }

  lemma LangConcatRightUnit(l: iset<Word>)
    ensures LangConcat(l, EmptyWordOnly()) == l
  {
    forall w: Word
      ensures w in LangConcat(l, EmptyWordOnly()) <==> w in l
    {
      InUnitLangConcat(l, w);
    }
  }

  predicate IsBitwise(k: Kind) {
    k in {BITVECTOR_AND, BITVECTOR_OR, BITVECTOR_XOR}
  }

  lemma KindOpAssoc(k: Kind, tn: Type, x: Val, y: Val, z: Val)
    requires IsAssoc(k) || IsAssocComm(k)
    requires HasSort(x, k, tn) && HasSort(y, k, tn) && HasSort(z, k, tn)
    ensures HasSort(KindOp(k, x, y), k, tn)
    ensures KindOp(k, KindOp(k, x, y), z) == KindOp(k, x, KindOp(k, y, z))
  {
    if IsBitwise(k) {
      assert Bitwise(k, Bitwise(k, x.bits, y.bits), z.bits) == Bitwise(k, x.bits, Bitwise(k, y.bits, z.bits));
    } else if k == STRING_CONCAT {
      assert (x.w + y.w) + z.w == x.w + (y.w + z.w);
    } else if k == REGEXP_CONCAT {
      LangConcatAssoc(x.l, y.l, z.l);
    } else if k == REGEXP_UNION {
      assert (x.l + y.l) + z.l == x.l + (y.l + z.l);
    } else if k == REGEXP_INTER {
      assert (x.l * y.l) * z.l == x.l * (y.l * z.l);
    } else if k == BITVECTOR_CONCAT {
      assert (x.bits + y.bits) + z.bits == x.bits + (y.bits + z.bits);
    }
  }

  lemma RegexpConcatUnit(tn: Type, l: iset<Word>)
    ensures
      var e := Denotes(NullTerminator(REGEXP_CONCAT, tn).value);
      e.LangV? && KindOp(REGEXP_CONCAT, e, LangV(l)) == LangV(l) && KindOp(REGEXP_CONCAT, LangV(l), e) == LangV(l)
  {
    assert Denotes(NullTerminator(REGEXP_CONCAT, tn).value) == LangV(EmptyWordOnly());
    LangConcatLeftUnit(l);
    LangConcatRightUnit(l);
  }

  lemma RegexpUnionUnit(tn: Type, l: iset<Word>)
    ensures
      var e := Denotes(NullTerminator(REGEXP_UNION, tn).value);
      e.LangV? && KindOp(REGEXP_UNION, e, LangV(l)) == LangV(l) && KindOp(REGEXP_UNION, LangV(l), e) == LangV(l)
  {
    var none: iset<Word> := iset{};
    assert Denotes(NullTerminator(REGEXP_UNION, tn).value) == LangV(none);
    assert none + l == l && l + none == l;
  }

  lemma RegexpInterUnit(tn: Type, l: iset<Word>)
    ensures
      var e := Denotes(NullTerminator(REGEXP_INTER, tn).value);
      e.LangV? && KindOp(REGEXP_INTER, e, LangV(l)) == LangV(l) && KindOp(REGEXP_INTER, LangV(l), e) == LangV(l)
  {
    var all := iset w: Word | |w| >= 0;
    assert Denotes(NullTerminator(REGEXP_INTER, tn).value) == LangV(all);
    assert all * l == l && l * all == l;
  }

  lemma KindOpUnit(k: Kind, tn: Type, x: Val)
    requires IsAssoc(k) || IsAssocComm(k)
    requires NullTerminator(k, tn).Some? && HasSort(x, k, tn)
    ensures
      var e := Denotes(NullTerminator(k, tn).value);
      HasSort(e, k, tn) && KindOp(k, e, x) == x && KindOp(k, x, e) == x
  {
    var e := Denotes(NullTerminator(k, tn).value);
    if IsBitwise(k) {
      assert Bitwise(k, e.bits, x.bits) == x.bits && Bitwise(k, x.bits, e.bits) == x.bits;
    } else if k == STRING_CONCAT {
      assert [] + x.w == x.w && x.w + [] == x.w;
    } else if k == BITVECTOR_CONCAT {
      assert [] + x.bits == x.bits && x.bits + [] == x.bits;
    } else if k == REGEXP_CONCAT {
      RegexpConcatUnit(tn, x.l);
    } else if k == REGEXP_UNION {
      RegexpUnionUnit(tn, x.l);
    } else if k == REGEXP_INTER {
      RegexpInterUnit(tn, x.l);
    }
  }

  lemma KindOpCommutes(k: Kind, tn: Type, x: Val, y: Val)
    requires IsAssocComm(k) || IsAssocCommIdem(k)
    requires HasSort(x, k, tn) && HasSort(y, k, tn)
    ensures KindOp(k, x, y) == KindOp(k, y, x)
  {
    if IsBitwise(k) {
      assert Bitwise(k, x.bits, y.bits) == Bitwise(k, y.bits, x.bits);
    } else if k == REGEXP_UNION {
      assert x.l + y.l == y.l + x.l;
    } else if k == REGEXP_INTER {
      assert x.l * y.l == y.l * x.l;
    }
  }

  lemma KindOpIdempotent(k: Kind, tn: Type, x: Val)
    requires IsAssocCommIdem(k) && HasSort(x, k, tn)
    ensures KindOp(k, x, x) == x
  {
    if IsBitwise(k) {
      assert Bitwise(k, x.bits, x.bits) == x.bits;
    } else if k == REGEXP_UNION {
      assert x.l + x.l == x.l;
    } else if k == REGEXP_INTER {
      assert x.l * x.l == x.l;
    }
  }

  lemma KindOpAbsorbs(k: Kind, tn: Type, x: Val)
    requires IsAbsorbKind(k) && ZeroElement(k, tn).Some? && HasSort(x, k, tn)
    ensures
      var z := Denotes(ZeroElement(k, tn).value);
      HasSort(z, k, tn) && KindOp(k, z, x) == z && KindOp(k, x, z) == z
  {
    var z := Denotes(ZeroElement(k, tn).value);
    if IsBitwise(k) {
      assert Bitwise(k, z.bits, x.bits) == z.bits && Bitwise(k, x.bits, z.bits) == z.bits;
    } else if k == REGEXP_CONCAT {
      assert LangConcat(z.l, x.l) == z.l && LangConcat(x.l, z.l) == z.l;
    } else if k == REGEXP_UNION {
      assert z.l + x.l == z.l && x.l + z.l == z.l;
    } else if k == REGEXP_INTER {
      assert z.l * x.l == z.l && x.l * z.l == z.l;
    }
  }

  lemma KindIsClosed(k: Kind, tn: Type)
    requires IsAssoc(k) || IsAssocComm(k)
    ensures Closed(AlgebraOf(k, tn))
  {
    forall x, y | HasSort(x, k, tn) && HasSort(y, k, tn)
      ensures HasSort(KindOp(k, x, y), k, tn)
    {
      KindOpAssoc(k, tn, x, y, y);
    }
  }

  lemma KindIsAssociative(k: Kind, tn: Type)
    requires IsAssoc(k) || IsAssocComm(k)
    ensures Associative(AlgebraOf(k, tn))
  {
    var alg := AlgebraOf(k, tn);
    forall x, y, z | alg.carrier(x) && alg.carrier(y) && alg.carrier(z)
      ensures alg.op(alg.op(x, y), z) == alg.op(x, alg.op(y, z))
    {
      KindOpAssoc(k, tn, x, y, z);
    }
  }

  lemma NullTerminatorIsUnit(k: Kind, tn: Type)
    requires (IsAssoc(k) || IsAssocComm(k)) && NullTerminator(k, tn).Some?
    ensures HasUnit(AlgebraOf(k, tn), Denotes(NullTerminator(k, tn).value))
  {
    var alg, e := AlgebraOf(k, tn), Denotes(NullTerminator(k, tn).value);
    forall x | alg.carrier(x)
      ensures alg.op(e, x) == x && alg.op(x, e) == x
    {
      KindOpUnit(k, tn, x);
    }
    assert HasSort(e, k, tn);
  }

  lemma KindIsCommutative(k: Kind, tn: Type)
    requires IsAssocComm(k) || IsAssocCommIdem(k)
    ensures Commutative(AlgebraOf(k, tn))
  {
    var alg := AlgebraOf(k, tn);
    forall x, y | alg.carrier(x) && alg.carrier(y)
      ensures alg.op(x, y) == alg.op(y, x)
    {
      KindOpCommutes(k, tn, x, y);
    }
  }

  lemma KindIsIdempotent(k: Kind, tn: Type)
    requires IsAssocCommIdem(k)
    ensures Idempotent(AlgebraOf(k, tn))
  {
    var alg := AlgebraOf(k, tn);
    forall x | alg.carrier(x)
      ensures alg.op(x, x) == x
    {
      KindOpIdempotent(k, tn, x);
    }
  }

  /** The kinds declared associative, commutative or idempotent are so, and the table's
      null terminator is their identity. */
  lemma DeclaredLawsHold(k: Kind, tn: Type)
    requires (IsAssoc(k) || IsAssocComm(k)) && NullTerminator(k, tn).Some?
    ensures Lawful(AlgebraOf(k, tn), k, Denotes(NullTerminator(k, tn).value))
  {
    KindIsClosed(k, tn);
    KindIsAssociative(k, tn);
    NullTerminatorIsUnit(k, tn);
    if IsAssocComm(k) || IsAssocCommIdem(k) {
      KindIsCommutative(k, tn);
    }
    if IsAssocCommIdem(k) {
      KindIsIdempotent(k, tn);
    }
  }

  /** The table's zero element absorbs, for every kind isAbsorb handles. */
  lemma DeclaredZeroAbsorbs(k: Kind, tn: Type)
    requires IsAbsorbKind(k) && ZeroElement(k, tn).Some?
    ensures Absorbing(AlgebraOf(k, tn), Denotes(ZeroElement(k, tn).value))
  {
    var alg, z := AlgebraOf(k, tn), Denotes(ZeroElement(k, tn).value);
    forall x | alg.carrier(x)
      ensures alg.op(z, x) == z && alg.op(x, z) == z
    {
      KindOpAbsorbs(k, tn, x);
    }
    assert HasSort(z, k, tn);
  }

  // ---- the tables leave nothing out --------------------------------------

  /** The kinds with an operation on Booleans, words, languages or bit-vectors. */
  predicate HasOperation(k: Kind) {
    k in {OR, AND, STRING_CONCAT, REGEXP_CONCAT, REGEXP_UNION, REGEXP_INTER,
          BITVECTOR_AND, BITVECTOR_OR, BITVECTOR_XOR, BITVECTOR_CONCAT}
  }

  /** The types an application of the kind can have; bit-vectors have at least one bit. */
  predicate CanHaveType(k: Kind, tn: Type) {
    match k
    case OR => tn.Boolean?
    case AND => tn.Boolean?
    case STRING_CONCAT => tn.StringLike?
    case REGEXP_CONCAT => tn.RegLan?
    case REGEXP_UNION => tn.RegLan?
    case REGEXP_INTER => tn.RegLan?
    case _ => tn.BitVector? && tn.width > 0
  }

  /** The operation of a kind distinguishes the order of its arguments. */
  lemma OrderMatters(k: Kind, tn: Type)
    requires k in {STRING_CONCAT, REGEXP_CONCAT, BITVECTOR_CONCAT}
    ensures !Commutative(AlgebraOf(k, tn))
  {
    var alg := AlgebraOf(k, tn);
    if k == STRING_CONCAT {
      var u: Word, v: Word := [0], [1];
      assert (u + v)[0] != (v + u)[0];
      assert alg.op(WordV(u), WordV(v)) != alg.op(WordV(v), WordV(u));
      assert alg.carrier(WordV(u)) && alg.carrier(WordV(v));
    } else if k == REGEXP_CONCAT {
      var u: Word, v: Word := [0], [1];
      var l, m: iset<Word> := iset{u}, iset{v};
      ConcatOfWords(u, v);
      assert alg.op(LangV(l), LangV(m)) != alg.op(LangV(m), LangV(l));
      assert alg.carrier(LangV(l)) && alg.carrier(LangV(m));
    } else {
      var u, v := [true], [false];
      assert (u + v)[0] != (v + u)[0];
      assert alg.op(BvV(u), BvV(v)) != alg.op(BvV(v), BvV(u));
      assert alg.carrier(BvV(u)) && alg.carrier(BvV(v));
    }
  }

  lemma ConcatOfWords(u: Word, v: Word)
    requires |u| == |v| == 1 && u != v
    ensures LangConcat(iset{u}, iset{v}) != LangConcat(iset{v}, iset{u})
  {
    assert u + v in LangConcat(iset{u}, iset{v});
    assert (u + v)[0] == u[0] && (v + u)[0] == v[0];
    assert u == [u[0]] && v == [v[0]];
    assert u + v !in LangConcat(iset{v}, iset{u});
  }

  /** Exclusive or of a value with itself is zero. */
  lemma XorIsNotIdempotent(w: nat)
    requires w > 0
    ensures !Idempotent(AlgebraOf(BITVECTOR_XOR, BitVector(w)))
  {
    var alg, x := AlgebraOf(BITVECTOR_XOR, BitVector(w)), BvV(Ones(w));
    assert alg.carrier(x);
    assert alg.op(x, x).bits[0] != x.bits[0];
  }

  /** Every kind with an operation is declared with exactly the laws its operation has, and has
      a null terminator; no other kind is declared. */
  lemma LawsAreDeclared(k: Kind, tn: Type)
    ensures !HasOperation(k) ==> !IsAssoc(k) && !IsAssocComm(k) && !IsAssocCommIdem(k)
    ensures HasOperation(k) && CanHaveType(k, tn) ==>
      && (IsAssoc(k) || IsAssocComm(k)) && NullTerminator(k, tn).Some?
      && (Commutative(AlgebraOf(k, tn)) <==> IsAssocComm(k) || IsAssocCommIdem(k))
      && (Commutative(AlgebraOf(k, tn)) && Idempotent(AlgebraOf(k, tn)) <==> IsAssocCommIdem(k))
  {
    if HasOperation(k) && CanHaveType(k, tn) {
      if k in {STRING_CONCAT, REGEXP_CONCAT, BITVECTOR_CONCAT} {
        OrderMatters(k, tn);
      } else {
        KindIsCommutative(k, tn);
        if k == BITVECTOR_XOR { XorIsNotIdempotent(tn.width); } else { KindIsIdempotent(k, tn); }
      }
    }
  }

  /** Concatenation and exclusive or have no absorbing element. */
  lemma NothingAbsorbs(k: Kind, tn: Type, z: Val)
    requires k in {STRING_CONCAT, BITVECTOR_CONCAT, BITVECTOR_XOR} && CanHaveType(k, tn)
    ensures !Absorbing(AlgebraOf(k, tn), z)
  {
    var alg := AlgebraOf(k, tn);
    if alg.carrier(z) {
      if k == STRING_CONCAT {
        assert alg.carrier(WordV([0]));
        assert |alg.op(z, WordV([0])).w| == |z.w| + 1;
      } else if k == BITVECTOR_CONCAT {
        assert alg.carrier(BvV([true]));
        assert |alg.op(z, BvV([true])).bits| == |z.bits| + 1;
      } else {
        assert alg.carrier(BvV(Ones(tn.width)));
        assert alg.op(z, BvV(Ones(tn.width))).bits[0] != z.bits[0];
      }
    }
  }

  /** A kind whose operation has an absorbing element. */
  ghost predicate CanAbsorb(k: Kind) {
    HasOperation(k) && exists tn, z {:trigger Absorbing(AlgebraOf(k, tn), z)} :: CanHaveType(k, tn) && Absorbing(AlgebraOf(k, tn), z)
  }

  function ATypeOf(k: Kind): (tn: Type)
    ensures HasOperation(k) ==> CanHaveType(k, tn)
  {
    match k
    case OR => Boolean
    case AND => Boolean
    case STRING_CONCAT => StringLike(0)
    case REGEXP_CONCAT => RegLan
    case REGEXP_UNION => RegLan
    case REGEXP_INTER => RegLan
    case _ => BitVector(1)
  }

  /** isAbsorb handles exactly the kinds whose operation has an absorbing element, and the zero
      element is in the table for each of their types. */
  lemma AbsorbingKindsAreDeclared(k: Kind)
    ensures IsAbsorbKind(k) <==> CanAbsorb(k)
    ensures forall tn :: CanAbsorb(k) && CanHaveType(k, tn) ==> ZeroElement(k, tn).Some?
  {
    if IsAbsorbKind(k) {
      var tn := ATypeOf(k);
      DeclaredZeroAbsorbs(k, tn);
    } else if CanAbsorb(k) {
      var tn, z :| CanHaveType(k, tn) && Absorbing(AlgebraOf(k, tn), z);
      NothingAbsorbs(k, tn, z);
    }
  }

  // ---- the entries of the arithmetic kinds -------------------------------

  /** The number a bit-vector stands for, most significant bit first. */
  function BvNat(bits: seq<bool>): nat {
    if bits == [] then 0 else 2 * BvNat(bits[..|bits| - 1]) + if bits[|bits| - 1] then 1 else 0
  }

  lemma {:induction false} BvNatZeros(w: nat)
    ensures BvNat(Zeros(w)) == 0
  {
    if w == 0 {
    } else {
      assert Zeros(w)[..w - 1] == Zeros(w - 1);
      BvNatZeros(w - 1);
    }
  }

  lemma BvNatOne(w: nat)
    requires w > 0
    ensures BvNat(One(w)) == 1
  {
    assert One(w)[..w - 1] == Zeros(w - 1);
    BvNatZeros(w - 1);
  }

  /** The number a constant stands for. */
  function Number(n: Node): int {
    match n
    case Value(IntConst(i)) => i
    case Value(RealConst(r)) => r
    case Value(BvConst(bits)) => BvNat(bits)
    case _ => -1
  }

  /** Sums have the identity zero, products the identity one and the absorbing element zero. */
  lemma ArithmeticEntries(k: Kind, tn: Type, x: int)
    requires k in {ADD, MULT, NONLINEAR_MULT} || (k in {BITVECTOR_ADD, BITVECTOR_MULT} && tn.BitVector? && tn.width > 0)
    ensures NullTerminator(k, tn).Some?
    ensures k in {ADD, BITVECTOR_ADD} ==> Number(NullTerminator(k, tn).value) + x == x
    ensures k !in {ADD, BITVECTOR_ADD} ==> Number(NullTerminator(k, tn).value) * x == x
    ensures k in {ADD, MULT, NONLINEAR_MULT} ==>
      (NullTerminator(k, tn).value.c.IntConst? <==> tn.Integer?) && (NullTerminator(k, tn).value.c.RealConst? <==> !tn.Integer?)
    ensures k !in {ADD, BITVECTOR_ADD} ==> ZeroElement(k, tn).Some? && Number(ZeroElement(k, tn).value) * x == 0
    ensures k in {ADD, BITVECTOR_ADD} ==> ZeroElement(k, tn) == None
  {
    if tn.BitVector? && tn.width > 0 {
      BvNatZeros(tn.width);
      BvNatOne(tn.width);
    }
  }
}
