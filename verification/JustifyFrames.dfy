/** Values and invariants of the justification traversal: the cache of justified
    formulas, one stack frame per formula being justified, and the state kept
    between two calls. */
module JustifyFrames {
  import opened Formulas
  import opened Connectives

  // ---- sizes -------------------------------------------------------------

  /** Negations weigh nothing, so a formula and its Base weigh the same. */
  ghost function Weight(f: Formula): (w: nat)
    ensures w > 0
    decreases f, 1
  {
    match f
    case Atom(_) => 1
    case Not(g) => Weight(g)
    case And(fs) => 1 + TotalWeight(fs)
    case Or(fs) => 1 + TotalWeight(fs)
    case Implies(a, b) => 3 + Weight(a) + Weight(b)
    case Ite(c, t, e) => 4 + Weight(c) + Weight(t) + Weight(e)
    case Xor(a, b) => 3 + Weight(a) + Weight(b)
    case Iff(a, b) => 3 + Weight(a) + Weight(b)
  }

  ghost function TotalWeight(fs: seq<Formula>): nat
    decreases fs, 0
  {
    if fs == [] then 0 else 1 + Weight(fs[0]) + TotalWeight(fs[1..])
  }

  lemma {:induction false} TotalWeightAt(fs: seq<Formula>, k: nat)
    requires k < |fs|
    ensures TotalWeight(fs[k..]) == 1 + Weight(fs[k]) + TotalWeight(fs[k + 1..])
  {
    assert fs[k..][1..] == fs[k + 1..];
  }

  lemma {:induction false} TotalWeightConcat(fs: seq<Formula>, gs: seq<Formula>)
    ensures TotalWeight(fs + gs) == TotalWeight(fs) + TotalWeight(gs)
  {
    if fs == [] {
      assert fs + gs == gs;
    } else {
      assert (fs + gs)[1..] == fs[1..] + gs;
      TotalWeightConcat(fs[1..], gs);
    }
  }

  lemma {:induction false} TotalWeightSuffix(fs: seq<Formula>, k: nat)
    requires k <= |fs|
    ensures TotalWeight(fs[k..]) <= TotalWeight(fs)
  {
    TotalWeightConcat(fs[..k], fs[k..]);
    assert fs[..k] + fs[k..] == fs;
  }

  lemma {:induction false} WeightOfChildren(f: Formula)
    requires !f.Not?
    ensures Weight(f) == 1 + TotalWeight(Children(f))
  {
    var cs := Children(f);
    match f
    case Atom(_) =>
    case And(_) =>
    case Or(_) =>
    case Implies(_, _) => TotalWeightAt(cs, 0); TotalWeightAt(cs, 1); assert cs[0..] == cs && cs[2..] == [];
    case Ite(_, _, _) =>
      TotalWeightAt(cs, 0); TotalWeightAt(cs, 1); TotalWeightAt(cs, 2); assert cs[0..] == cs && cs[3..] == [];
    case Xor(_, _) => TotalWeightAt(cs, 0); TotalWeightAt(cs, 1); assert cs[0..] == cs && cs[2..] == [];
    case Iff(_, _) => TotalWeightAt(cs, 0); TotalWeightAt(cs, 1); assert cs[0..] == cs && cs[2..] == [];
  }

  /** A child is strictly lighter than its parent. */
  lemma {:induction false} ChildIsLighter(f: Formula, k: nat)
    requires !f.Not? && k < |Children(f)|
    ensures Weight(Base(Children(f)[k])) < Weight(f)
  {
    WeightOfChildren(f);
    TotalWeightAt(Children(f), k);
    TotalWeightSuffix(Children(f), k);
  }

  lemma {:induction false} ChildWellFormed(f: Formula, k: nat)
    requires WellFormed(f) && !f.Not? && k < |Children(f)|
    ensures WellFormed(Children(f)[k]) && !Base(Children(f)[k]).Not?
  {
  }

  // ---- the cache ---------------------------------------------------------

  type Cache = map<Formula, SatValue>

  function Cached(cache: Cache, f: Formula): SatValue {
    if Base(f) in cache then Polarized(f, cache[Base(f)]) else SatUnknown
  }

  /** Every entry is the value its formula has under all completions. */
  ghost predicate CacheOk(cache: Cache, sigma: Assignment) {
    forall f :: f in cache ==> !f.Not? && cache[f] != SatUnknown && cache[f] == Kleene(f, sigma)
  }

  lemma CachedIsKleene(cache: Cache, sigma: Assignment, f: Formula)
    requires CacheOk(cache, sigma)
    ensures Cached(cache, f) != SatUnknown ==> Cached(cache, f) == Kleene(f, sigma)
    ensures Cached(cache, f) == SatUnknown <==> Base(f) !in cache
  {
  }

  lemma CacheOkMonotone(cache: Cache, sigma: Assignment, more: Assignment)
    requires CacheOk(cache, sigma) && Extends(sigma, more)
    ensures CacheOk(cache, more)
  {
    forall f | f in cache
      ensures cache[f] == Kleene(f, more)
    {
      KleeneMonotone(f, sigma, more);
    }
  }

  /** Nothing was overwritten. */
  ghost predicate Keeps(before: Cache, after: Cache) {
    forall f :: f in before ==> f in after && after[f] == before[f]
  }

  /** Only atoms, and possibly `settled`, were entered; nothing was overwritten. */
  ghost predicate Grows(before: Cache, after: Cache, settled: Option<Formula>) {
    && Keeps(before, after)
    && (forall f :: f in after ==> f in before || f.Atom? || settled == Some(f))
  }

  // ---- what a lookup finds -----------------------------------------------

  /** The value lookupValue returns: the cached one, or that of an assigned atom. */
  ghost function Looked(cache: Cache, sigma: Assignment, f: Formula): SatValue {
    if Base(f) in cache then Cached(cache, f)
    else if Base(f).Atom? then Polarized(f, Kleene(Base(f), sigma))
    else SatUnknown
  }

  /** What lookups find of the arguments of f. */
  ghost function Known(cache: Cache, sigma: Assignment, f: Formula): (vals: seq<SatValue>)
    ensures |vals| == |Children(f)|
    ensures forall i :: 0 <= i < |vals| ==> vals[i] == Looked(cache, sigma, Children(f)[i])
  {
    seq(|Children(f)|, i requires 0 <= i < |Children(f)| => Looked(cache, sigma, Children(f)[i]))
  }

  lemma LookedIsKleene(cache: Cache, sigma: Assignment, f: Formula)
    requires CacheOk(cache, sigma)
    ensures Looked(cache, sigma, f) != SatUnknown ==> Looked(cache, sigma, f) == Kleene(f, sigma)
  {
  }

  /** Entering the values of assigned atoms changes no lookup. */
  lemma LookedStable(before: Cache, after: Cache, sigma: Assignment, f: Formula)
    requires CacheOk(before, sigma) && CacheOk(after, sigma) && Grows(before, after, None)
    ensures Looked(after, sigma, f) == Looked(before, sigma, f)
  {
  }

  lemma KnownStable(before: Cache, after: Cache, sigma: Assignment, f: Formula)
    requires CacheOk(before, sigma) && CacheOk(after, sigma) && Grows(before, after, None)
    ensures Known(after, sigma, f) == Known(before, sigma, f)
  {
    forall i | 0 <= i < |Children(f)|
      ensures Looked(after, sigma, Children(f)[i]) == Looked(before, sigma, Children(f)[i])
    {
      LookedStable(before, after, sigma, Children(f)[i]);
    }
  }

  /** What some of the known arguments settle is the value of f under all completions. */
  lemma {:induction false} KnownSettles(cache: Cache, sigma: Assignment, f: Formula, some: seq<SatValue>)
    requires CacheOk(cache, sigma) && IsConnective(f) && |some| == |Children(f)|
    requires forall i :: 0 <= i < |some| && some[i] != SatUnknown ==> some[i] == Known(cache, sigma, f)[i]
    ensures Combine(f, some) != SatUnknown ==> Combine(f, some) == Kleene(f, sigma)
  {
    var all := Kleenes(Children(f), sigma);
    forall i | 0 <= i < |some| && some[i] != SatUnknown
      ensures all[i] == some[i]
    {
      LookedIsKleene(cache, sigma, Children(f)[i]);
    }
    CombineMonotone(f, some, all);
    CombineKleene(f, sigma);
  }

  // ---- frames ------------------------------------------------------------

  /** d_childIndex counts the children requested; for ITE it also counts the skipped branch. */
  datatype JustifyInfo = JustifyInfo(node: Formula, desired: SatValue, childIndex: nat)

  /** The value wanted of the formula without its negation. */
  function Want(ji: JustifyInfo): SatValue {
    Polarized(ji.node, ji.desired)
  }

  /** Child i-1 of f was requested last, and no child before it forces the value of f. */
  ghost predicate EarlierOk(f: Formula, i: nat, cache: Cache) {
    var cs := Children(f);
    && 0 < i <= |cs|
    && match f
       case And(_) => forall k :: 0 <= k < i - 1 ==> Cached(cache, cs[k]) == SatTrue
       case Or(_) => forall k :: 0 <= k < i - 1 ==> Cached(cache, cs[k]) == SatFalse
       case Implies(a, _) => i == 2 ==> Cached(cache, a) == SatTrue
       case Ite(c, _, _) => (i == 2 ==> Cached(cache, c) == SatTrue) && (i == 3 ==> Cached(cache, c) == SatFalse)
       case Xor(a, _) => i == 2 ==> Cached(cache, a) != SatUnknown
       case Iff(a, _) => i == 2 ==> Cached(cache, a) != SatUnknown
       case _ => true
  }

  ghost predicate FrameOk(ji: JustifyInfo, cache: Cache) {
    && WellFormed(ji.node) && !IsTheoryLiteral(ji.node) && ji.desired != SatUnknown
    && Base(ji.node) !in cache
    && (ji.childIndex > 0 ==> EarlierOk(Base(ji.node), ji.childIndex, cache))
  }

  function LastChild(ji: JustifyInfo): Formula
    requires 0 < ji.childIndex <= |Children(Base(ji.node))|
  {
    Children(Base(ji.node))[ji.childIndex - 1]
  }

  /** What is asked of child k of f when f should become `want`; SatUnknown where
      either value may be asked because f is not settled right after that child.
      `first` is the value of the first child. */
  function Requested(f: Formula, k: nat, want: SatValue, first: SatValue): SatValue {
    match f
    case And(_) => want
    case Or(_) => want
    case Implies(_, _) => if k == 0 then want.Invert() else want
    case Ite(_, _, _) => if k == 0 then SatUnknown else want
    case Xor(_, _) => if k == 0 then SatUnknown else Different(want, first)
    case Iff(_, _) => if k == 0 then SatUnknown else Different(want, first).Invert()
    case _ => SatUnknown
  }

  ghost predicate AskedFor(parent: JustifyInfo, desired: SatValue, cache: Cache)
    requires 0 < parent.childIndex <= |Children(Base(parent.node))|
  {
    var f := Base(parent.node);
    var r := Requested(f, parent.childIndex - 1, Want(parent), Cached(cache, Children(f)[0]));
    r == SatUnknown || desired == r
  }

  /** A chain of strict subformulas, none cached, each the last child its parent requested. */
  ghost predicate FramesOk(fs: seq<JustifyInfo>, cache: Cache) {
    && (forall j :: 0 <= j < |fs| ==> FrameOk(fs[j], cache))
    && (forall j :: 0 < j < |fs| ==> Linked(fs[j - 1], fs[j], cache))
    && (forall j, k :: 0 <= j < k < |fs| ==> Weight(fs[k].node) < Weight(fs[j].node))
  }

  ghost predicate Linked(parent: JustifyInfo, child: JustifyInfo, cache: Cache) {
    && 0 < parent.childIndex <= |Children(Base(parent.node))|
    && child.node == LastChild(parent)
    && AskedFor(parent, child.desired, cache)
  }

  lemma FrameOkGrows(ji: JustifyInfo, before: Cache, after: Cache, settled: Option<Formula>)
    requires FrameOk(ji, before) && Grows(before, after, settled)
    requires settled != Some(Base(ji.node))
    ensures FrameOk(ji, after)
  {
  }

  lemma {:induction false} FramesOkGrows(fs: seq<JustifyInfo>, before: Cache, after: Cache, settled: Option<Formula>)
    requires FramesOk(fs, before) && Grows(before, after, settled)
    requires forall j :: 0 <= j < |fs| ==> settled != Some(Base(fs[j].node))
    ensures FramesOk(fs, after)
  {
    forall j | 0 <= j < |fs|
      ensures FrameOk(fs[j], after)
    {
      FrameOkGrows(fs[j], before, after, settled);
    }
    forall j | 0 < j < |fs|
      ensures Linked(fs[j - 1], fs[j], after)
    {
      assert Linked(fs[j - 1], fs[j], before);
      assert FrameOk(fs[j - 1], before);
      assert EarlierOk(Base(fs[j - 1].node), fs[j - 1].childIndex, before);
    }
  }

  /** The value the last requested child of the top frame has, if there is one. */
  ghost predicate TopMatches(fs: seq<JustifyInfo>, last: SatValue, cache: Cache) {
    |fs| > 0 ==>
      var top := fs[|fs| - 1];
      if top.childIndex == 0 then last == SatUnknown
      else
        && top.childIndex <= |Children(Base(top.node))|
        && last != SatUnknown && last == Cached(cache, LastChild(top))
  }

  /** The stack works on assertion `curr`, and `last` is what the innermost request came to. */
  ghost predicate Walking(fs: seq<JustifyInfo>, curr: Formula, last: SatValue, cache: Cache) {
    && FramesOk(fs, cache)
    && TopMatches(fs, last, cache)
    && (if |fs| > 0 then fs[0].node == curr && fs[0].desired == SatTrue
        else last != SatUnknown && last == Cached(cache, curr))
  }

  // ---- work left ---------------------------------------------------------

  ghost function FrameWork(ji: JustifyInfo): nat {
    var cs := Children(Base(ji.node));
    1 + (if ji.childIndex <= |cs| then TotalWeight(cs[ji.childIndex..]) else 0)
  }

  ghost function StackWork(fs: seq<JustifyInfo>): nat {
    if fs == [] then 0 else StackWork(fs[..|fs| - 1]) + FrameWork(fs[|fs| - 1])
  }

  lemma {:induction false} StackWorkPush(fs: seq<JustifyInfo>, ji: JustifyInfo)
    ensures StackWork(fs + [ji]) == StackWork(fs) + FrameWork(ji)
  {
    assert (fs + [ji])[..|fs|] == fs;
  }

  /** Requesting child k uses up more work than pushing that child adds. */
  lemma {:induction false} RequestCosts(ji: JustifyInfo, i: nat, k: nat)
    requires i <= k < |Children(Base(ji.node))| && ji.childIndex == k + 1
    requires !Base(ji.node).Not?
    ensures FrameWork(ji) + Weight(Children(Base(ji.node))[k]) < FrameWork(ji.(childIndex := i))
  {
    var cs := Children(Base(ji.node));
    TotalWeightAt(cs, k);
    assert cs[i..][k - i..] == cs[k..];
    TotalWeightSuffix(cs[i..], k - i);
  }

  lemma {:induction false} FreshFrameWork(n: Formula, desired: SatValue)
    requires !Base(n).Not?
    ensures FrameWork(JustifyInfo(n, desired, 0)) == Weight(n)
  {
    WeightOfChildren(Base(n));
    assert Children(Base(n))[0..] == Children(Base(n));
  }

  // ---- the state between calls -------------------------------------------

  ghost predicate ListOk(list: seq<Formula>, index: nat, cache: Cache, curr: Option<Formula>) {
    && index <= |list|
    && (forall i :: 0 <= i < |list| ==> WellFormed(list[i]) && !IsTheoryLiteral(list[i]))
    && (forall i :: 0 <= i < index ==> Cached(cache, list[i]) != SatUnknown || curr == Some(list[i]))
  }

  /** Everything the SAT context saves on push and puts back on pop. */
  datatype Snapshot = Snapshot(
    assigns: Assignment, justified: Cache,
    current: Option<Formula>, stack: seq<JustifyInfo>, sizeValid: nat,
    lastDecision: Option<Formula>,
    local: seq<Formula>, localIndex: nat, mainIndex: nat)

  /** What holds between two calls; `main` is the list of the user context. */
  ghost predicate Boundary(s: Snapshot, main: seq<Formula>) {
    && CacheOk(s.justified, s.assigns)
    && ListOk(main, s.mainIndex, s.justified, s.current)
    && ListOk(s.local, s.localIndex, s.justified, s.current)
    && (s.current.Some? ==> s.current.value in main || s.current.value in s.local)
    && s.sizeValid <= |s.stack|
    && Resumable(s.stack[..s.sizeValid], s.current, s.lastDecision, s.justified)
  }

  ghost predicate Resumable(fs: seq<JustifyInfo>, curr: Option<Formula>, lastDecision: Option<Formula>, cache: Cache) {
    match curr
    case None => fs == [] && lastDecision == None
    case Some(c) =>
      && FramesOk(fs, cache)
      && |fs| > 0 && fs[0].node == c && fs[0].desired == SatTrue
      && var top := fs[|fs| - 1];
         match lastDecision
         case None => |fs| == 1 && top.childIndex == 0
         case Some(d) => top.childIndex > 0 && IsTheoryLiteral(d) && d == LastChild(top)
  }

  ghost predicate SavedOk(saved: seq<Snapshot>, main: seq<Formula>) {
    forall i :: 0 <= i < |saved| ==> Boundary(saved[i], main)
  }

  lemma BoundaryAppend(s: Snapshot, main: seq<Formula>, more: seq<Formula>)
    requires Boundary(s, main)
    requires forall i :: 0 <= i < |more| ==> WellFormed(more[i]) && !IsTheoryLiteral(more[i])
    ensures Boundary(s, main + more)
  {
  }

  /** All assertions have a value under every completion of the assignment. */
  ghost predicate AllDecided(list: seq<Formula>, sigma: Assignment) {
    forall i :: 0 <= i < |list| ==> Kleene(list[i], sigma) != SatUnknown
  }

  /** The assumption on the solver: it reports a conflict before asking for a
      decision, so no assertion evaluates to false when the strategy is called. */
  ghost predicate NoneFalse(list: seq<Formula>, sigma: Assignment) {
    forall i :: 0 <= i < |list| ==> Kleene(list[i], sigma) != SatFalse
  }

  /** Propositionally satisfied: true however the remaining atoms are assigned. */
  ghost predicate AllSatisfied(list: seq<Formula>, sigma: Assignment) {
    forall i, total: nat -> bool :: 0 <= i < |list| && Completes(total, sigma) ==> Holds(list[i], total)
  }

  /** Decided assertions are all satisfied exactly when none of them is false. */
  lemma {:induction false} DecidedThenSatisfied(list: seq<Formula>, sigma: Assignment)
    requires AllDecided(list, sigma)
    ensures NoneFalse(list, sigma) <==> AllSatisfied(list, sigma)
  {
    forall i, total: nat -> bool | 0 <= i < |list| && Completes(total, sigma)
      ensures Kleene(list[i], sigma) == FromBool(Holds(list[i], total))
    {
      KleeneSound(list[i], sigma, total);
    }
    var any: nat -> bool := a => a in sigma && sigma[a];
    assert Completes(any, sigma);
  }
}
