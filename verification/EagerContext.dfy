/** The simple meaning of a context: push copies every object, pop puts the copies back. */
module EagerContext {

  /** Current values, and one copy of them per open scope. */
  datatype Eager<T> = Eager(cur: map<nat, T>, snaps: seq<map<nat, T>>)

  datatype Op<T> =
    | Push
    | Pop
    | New(obj: nat, default: T)
    | Set(obj: nat, value: T)
    | Destroy(obj: nat)

  function PushAll<T>(e: Eager<T>): Eager<T> {
    Eager(e.cur, e.snaps + [e.cur])
  }

  function PopAll<T>(e: Eager<T>): Eager<T>
    requires e.snaps != []
  {
    Eager(e.snaps[|e.snaps| - 1], e.snaps[..|e.snaps| - 1])
  }

  /** Pops down to a level. */
  function DownTo<T>(e: Eager<T>, level: nat): Eager<T> {
    if level < |e.snaps| then Eager(e.snaps[level], e.snaps[..level]) else e
  }

  function SetOne<T>(e: Eager<T>, obj: nat, value: T): Eager<T> {
    Eager(e.cur[obj := value], e.snaps)
  }

  /** A new object has its default value in every enclosing scope. */
  function NewOne<T>(e: Eager<T>, obj: nat, default: T): Eager<T> {
    Eager(e.cur[obj := default], seq(|e.snaps|, i requires 0 <= i < |e.snaps| => e.snaps[i][obj := default]))
  }

  function Without<T>(e: Eager<T>, dead: set<nat>): Eager<T> {
    Eager(e.cur - dead, seq(|e.snaps|, i requires 0 <= i < |e.snaps| => e.snaps[i] - dead))
  }

  lemma WithoutNone<T>(e: Eager<T>)
    ensures Without(e, {}) == e
  {
    assert forall m: map<nat, T> :: m - {} == m;
  }

  lemma WithoutMore<T>(e: Eager<T>, dead: set<nat>, more: set<nat>)
    ensures Without(Without(e, dead), more) == Without(e, dead + more)
  {
    forall m: map<nat, T>
      ensures m - dead - more == m - (dead + more)
    {
    }
  }

  lemma WithoutPop<T>(e: Eager<T>, dead: set<nat>)
    requires e.snaps != []
    ensures PopAll(Without(e, dead)) == Without(PopAll(e), dead)
  {
  }

  /** A pop below the bottom scope has no effect, nor has setting an object that is not there. */
  function Step<T>(e: Eager<T>, op: Op<T>): Eager<T> {
    match op
    case Push => PushAll(e)
    case Pop => if e.snaps == [] then e else PopAll(e)
    case New(o, d) => NewOne(e, o, d)
    case Set(o, v) => if o in e.cur then SetOne(e, o, v) else e
    case Destroy(o) => Without(e, {o})
  }

  function Run<T>(e: Eager<T>, ops: seq<Op<T>>): Eager<T>
    decreases |ops|
  {
    if ops == [] then e else Run(Step(e, ops[0]), ops[1..])
  }

  // ---- what each operation means, name by name ---------------------------

  /** Whether a name exists in one context exactly as in another, in the current values and in
      every copy. */
  ghost predicate SameFor<T>(e: Eager<T>, e': Eager<T>, n: nat) {
    && (n in e.cur <==> n in e'.cur) && (n in e.cur ==> e'.cur[n] == e.cur[n])
    && |e'.snaps| == |e.snaps|
    && forall l :: 0 <= l < |e.snaps| ==>
         (n in e.snaps[l] <==> n in e'.snaps[l]) && (n in e.snaps[l] ==> e'.snaps[l][n] == e.snaps[l][n])
  }

  lemma {:induction false} RunAppend<T>(e: Eager<T>, ops: seq<Op<T>>, op: Op<T>)
    ensures Run(e, ops + [op]) == Step(Run(e, ops), op)
    decreases |ops|
  {
    if ops == [] {
      assert [op][1..] == [];
    } else {
      assert (ops + [op])[1..] == ops[1..] + [op];
      RunAppend(Step(e, ops[0]), ops[1..], op);
    }
  }

  /** After a Set, the object has that value in the current scope alone; nothing else changes. */
  lemma {:induction false} SetReadsBack<T>(e: Eager<T>, ops: seq<Op<T>>, n: nat, v: T, other: nat)
    requires n in Run(e, ops).cur
    ensures
      var was, now := Run(e, ops), Run(e, ops + [Set(n, v)]);
      && n in now.cur && now.cur[n] == v && now.snaps == was.snaps
      && (other != n ==> SameFor(was, now, other))
  {
    RunAppend(e, ops, Set(n, v));
  }

  lemma {:induction false} SetOfUnknown<T>(e: Eager<T>, ops: seq<Op<T>>, n: nat, v: T)
    requires n !in Run(e, ops).cur
    ensures Run(e, ops + [Set(n, v)]) == Run(e, ops)
  {
    RunAppend(e, ops, Set(n, v));
  }

  /** A new object has its default value now and in every open scope; nothing else changes. */
  lemma {:induction false} NewReadsBack<T>(e: Eager<T>, ops: seq<Op<T>>, n: nat, v: T, other: nat)
    ensures
      var was, now := Run(e, ops), Run(e, ops + [New(n, v)]);
      && n in now.cur && now.cur[n] == v && |now.snaps| == |was.snaps|
      && (forall l :: 0 <= l < |now.snaps| ==> n in now.snaps[l] && now.snaps[l][n] == v)
      && (other != n ==> SameFor(was, now, other))
  {
    RunAppend(e, ops, New(n, v));
  }

  /** A destroyed object is nowhere; nothing else changes. */
  lemma {:induction false} DestroyReadsBack<T>(e: Eager<T>, ops: seq<Op<T>>, n: nat, other: nat)
    ensures
      var was, now := Run(e, ops), Run(e, ops + [Destroy(n)]);
      && n !in now.cur && |now.snaps| == |was.snaps|
      && (forall l :: 0 <= l < |now.snaps| ==> n !in now.snaps[l])
      && (other != n ==> SameFor(was, now, other))
  {
    RunAppend(e, ops, Destroy(n));
  }

  /** A push changes no value, and a pop right after it changes nothing at all. */
  lemma {:induction false} PushPopReadBack<T>(e: Eager<T>, ops: seq<Op<T>>)
    ensures Run(e, ops + [Push]).cur == Run(e, ops).cur && |Run(e, ops + [Push]).snaps| == |Run(e, ops).snaps| + 1
    ensures Run(e, ops + [Push] + [Pop]) == Run(e, ops)
  {
    RunAppend(e, ops, Push);
    RunAppend(e, ops + [Push], Pop);
    var was := Run(e, ops);
    assert (was.snaps + [was.cur])[..|was.snaps|] == was.snaps;
  }

  // ---- what a pop undoes -------------------------------------------------

  /** The run never pops the lowest d of the scopes open at its start. */
  predicate StaysAbove<T>(e: Eager<T>, ops: seq<Op<T>>, d: nat)
    decreases |ops|
  {
    d <= |e.snaps| && (ops != [] ==> StaysAbove(Step(e, ops[0]), ops[1..], d))
  }

  predicate Spares<T>(ops: seq<Op<T>>, obj: nat) {
    forall i :: 0 <= i < |ops| && (ops[i].New? || ops[i].Destroy?) ==> ops[i].obj != obj
  }

  lemma {:induction false} CopiesStay<T>(e: Eager<T>, ops: seq<Op<T>>, d: nat, obj: nat)
    requires StaysAbove(e, ops, d) && Spares(ops, obj)
    requires forall l :: 0 <= l < |e.snaps| ==> obj in e.snaps[l]
    requires obj in e.cur
    ensures
      var e' := Run(e, ops);
      && d <= |e'.snaps| && obj in e'.cur
      && (forall l :: 0 <= l < |e'.snaps| ==> obj in e'.snaps[l])
      && forall l :: 0 <= l < d ==> e'.snaps[l][obj] == e.snaps[l][obj]
    decreases |ops|
  {
    if ops == [] {
    } else {
      var e1 := Step(e, ops[0]);
      assert Spares(ops[1..], obj);
      CopiesStay(e1, ops[1..], d, obj);
    }
  }

  /** Whatever happens between a push and its matching pop, an object that lives
      through it has afterwards the value it had at the push. */
  lemma PopUndoesRun<T>(e: Eager<T>, ops: seq<Op<T>>, obj: nat)
    requires forall l :: 0 <= l < |e.snaps| ==> obj in e.snaps[l]
    requires obj in e.cur
    requires StaysAbove(PushAll(e), ops, |e.snaps| + 1) && Spares(ops, obj)
    requires |Run(PushAll(e), ops).snaps| == |e.snaps| + 1
    ensures
      var e' := PopAll(Run(PushAll(e), ops));
      obj in e'.cur && e'.cur[obj] == e.cur[obj]
  {
    CopiesStay(PushAll(e), ops, |e.snaps| + 1, obj);
  }
}
