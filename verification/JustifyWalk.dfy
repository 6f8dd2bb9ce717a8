/** How a step of the traversal changes the stack, the cache and the work left. */
module JustifyWalk {
  import opened Formulas
  import opened JustifyFrames

  /** A child of the top frame was just requested and has not been looked at. */
  ghost predicate Requesting(fs: seq<JustifyInfo>, curr: Formula, child: Formula, desired: SatValue, cache: Cache) {
    && FramesOk(fs, cache)
    && |fs| > 0 && fs[0].node == curr && fs[0].desired == SatTrue
    && var top := fs[|fs| - 1];
       && top.childIndex > 0
       && EarlierOk(Base(top.node), top.childIndex, cache)
       && child == LastChild(top)
       && desired != SatUnknown && AskedFor(top, desired, cache)
  }

  lemma RequestedWellFormed(fs: seq<JustifyInfo>, curr: Formula, child: Formula, desired: SatValue, cache: Cache)
    requires Requesting(fs, curr, child, desired, cache)
    ensures WellFormed(child) && !Base(child).Not?
  {
    var top := fs[|fs| - 1];
    ChildWellFormed(Base(top.node), top.childIndex - 1);
  }

  lemma {:induction false} AfterSettle(fs: seq<JustifyInfo>, curr: Formula, before: Cache, after: Cache, last: SatValue, last': SatValue)
    requires |fs| > 0 && Walking(fs, curr, last, before)
    requires Grows(before, after, Some(Base(fs[|fs| - 1].node)))
    requires last' != SatUnknown && last' == Cached(after, fs[|fs| - 1].node)
    ensures Walking(fs[..|fs| - 1], curr, last', after)
    ensures StackWork(fs[..|fs| - 1]) < StackWork(fs)
  {
    var top := fs[|fs| - 1];
    var rest := fs[..|fs| - 1];
    forall j | 0 <= j < |rest|
      ensures Base(rest[j].node) != Base(top.node)
    {
      assert Weight(fs[|fs| - 1].node) < Weight(fs[j].node);
    }
    assert FramesOk(rest, before);
    FramesOkGrows(rest, before, after, Some(Base(top.node)));
    if |rest| > 0 {
      assert Linked(fs[|fs| - 2], fs[|fs| - 1], before);
    }
  }

  /** Replacing the top frame keeps the chain when it stays the same formula. */
  lemma {:induction false} ReplaceTop(fs: seq<JustifyInfo>, top': JustifyInfo, cache: Cache)
    requires |fs| > 0 && FramesOk(fs, cache) && FrameOk(top', cache)
    requires top'.node == fs[|fs| - 1].node && top'.desired == fs[|fs| - 1].desired
    ensures FramesOk(fs[..|fs| - 1] + [top'], cache)
  {
    var n := |fs| - 1;
    var fs' := fs[..n] + [top'];
    forall j | 0 < j < |fs'|
      ensures Linked(fs'[j - 1], fs'[j], cache)
    {
      assert Linked(fs[j - 1], fs[j], cache);
    }
    forall j, k | 0 <= j < k < |fs'|
      ensures Weight(fs'[k].node) < Weight(fs'[j].node)
    {
      assert Weight(fs[k].node) < Weight(fs[j].node);
    }
  }

  lemma {:induction false} RequestWork(fs: seq<JustifyInfo>, top': JustifyInfo)
    requires |fs| > 0 && top'.node == fs[|fs| - 1].node && top'.desired == fs[|fs| - 1].desired
    requires fs[|fs| - 1].childIndex < top'.childIndex <= |Children(Base(top'.node))| && !Base(top'.node).Not?
    ensures StackWork(fs[..|fs| - 1] + [top']) + Weight(LastChild(top')) < StackWork(fs)
  {
    var n := |fs| - 1;
    assert fs == fs[..n] + [fs[n]];
    StackWorkPush(fs[..n], fs[n]);
    StackWorkPush(fs[..n], top');
    RequestCosts(top', fs[n].childIndex, top'.childIndex - 1);
    assert top'.(childIndex := fs[n].childIndex) == fs[n];
  }

  lemma {:induction false} AfterRequest(fs: seq<JustifyInfo>, curr: Formula, top': JustifyInfo, before: Cache, after: Cache,
                     last: SatValue, desired: SatValue)
    requires |fs| > 0 && Walking(fs, curr, last, before)
    requires Grows(before, after, None)
    requires FrameOk(top', after) && fs[|fs| - 1].childIndex < top'.childIndex
    requires top'.node == fs[|fs| - 1].node && top'.desired == fs[|fs| - 1].desired
    requires desired != SatUnknown && AskedFor(top', desired, after)
    ensures Requesting(fs[..|fs| - 1] + [top'], curr, LastChild(top'), desired, after)
    ensures StackWork(fs[..|fs| - 1] + [top']) + Weight(LastChild(top')) < StackWork(fs)
  {
    FramesOkGrows(fs, before, after, None);
    ReplaceTop(fs, top', after);
    RequestWork(fs, top');
  }

  /** The requested child already has a value. */
  lemma {:induction false} AfterKnownChild(fs: seq<JustifyInfo>, curr: Formula, child: Formula, desired: SatValue,
                        before: Cache, after: Cache)
    requires Requesting(fs, curr, child, desired, before) && Grows(before, after, None)
    requires Cached(after, child) != SatUnknown
    ensures Walking(fs, curr, Cached(after, child), after)
  {
    FramesOkGrows(fs, before, after, None);
  }

  /** The requested child is pushed because it has no value and is not a literal. */
  lemma {:induction false} AfterPush(fs: seq<JustifyInfo>, curr: Formula, child: Formula, desired: SatValue, cache: Cache)
    requires Requesting(fs, curr, child, desired, cache)
    requires Base(child) !in cache && !IsTheoryLiteral(child)
    ensures Walking(fs + [JustifyInfo(child, desired, 0)], curr, SatUnknown, cache)
    ensures StackWork(fs + [JustifyInfo(child, desired, 0)]) == StackWork(fs) + Weight(child)
  {
    var top := fs[|fs| - 1];
    var f := JustifyInfo(child, desired, 0);
    ChildWellFormed(Base(top.node), top.childIndex - 1);
    ChildIsLighter(Base(top.node), top.childIndex - 1);
    FreshFrameWork(child, desired);
    StackWorkPush(fs, f);
    PushFrame(fs, f, cache);
  }

  /** A lighter frame for the child the top frame requested last lengthens the chain. */
  lemma {:induction false} PushFrame(fs: seq<JustifyInfo>, f: JustifyInfo, cache: Cache)
    requires |fs| > 0 && FramesOk(fs, cache) && FrameOk(f, cache)
    requires Linked(fs[|fs| - 1], f, cache) && Weight(f.node) < Weight(fs[|fs| - 1].node)
    ensures FramesOk(fs + [f], cache)
  {
    var fs' := fs + [f];
    forall j | 0 <= j < |fs|
      ensures Weight(f.node) < Weight(fs[j].node)
    {
      assert j < |fs| - 1 ==> Weight(fs[|fs| - 1].node) < Weight(fs[j].node);
    }
    forall j | 0 < j < |fs'|
      ensures Linked(fs'[j - 1], fs'[j], cache)
    {
      if j < |fs| {
        assert Linked(fs[j - 1], fs[j], cache);
      }
    }
  }

  /** The literal a decision is made on has the value that was requested of it. */
  ghost predicate AskedLiteral(fs: seq<JustifyInfo>, child: Formula, a: nat, positive: bool, cache: Cache) {
    && |fs| > 0 && child in {Atom(a), Not(Atom(a))}
    && Occurs(a, fs[0].node)
    && var top := fs[|fs| - 1];
       && 0 < top.childIndex <= |Children(Base(top.node))|
       && child == LastChild(top)
       && AskedFor(top, Polarized(child, FromBool(positive)), cache)
  }

  /** The requested child is an unassigned literal. */
  lemma {:induction false} AfterDecision(fs: seq<JustifyInfo>, curr: Formula, child: Formula, desired: SatValue, cache: Cache)
    requires Requesting(fs, curr, child, desired, cache) && IsTheoryLiteral(child)
    ensures Resumable(fs, Some(curr), Some(child), cache)
    ensures AskedLiteral(fs, child, Base(child).id, Polarized(child, desired) != SatFalse, cache)
  {
    var top := fs[|fs| - 1];
    LastChildOccurs(top, Base(child).id);
    FrameOccurs(fs, cache, |fs| - 1, Base(child).id);
  }

  lemma FreshWalk(curr: Formula, cache: Cache)
    requires WellFormed(curr) && !IsTheoryLiteral(curr) && Base(curr) !in cache
    ensures Walking([JustifyInfo(curr, SatTrue, 0)], curr, SatUnknown, cache)
    ensures Resumable([JustifyInfo(curr, SatTrue, 0)], Some(curr), None, cache)
  {
  }

  lemma ListOkKeeps(list: seq<Formula>, index: nat, before: Cache, after: Cache, curr: Option<Formula>)
    requires ListOk(list, index, before, curr) && Keeps(before, after)
    ensures ListOk(list, index, after, curr)
  {
  }

  /** Every assertion from `index` on was justified earlier. */
  ghost predicate CachedFrom(list: seq<Formula>, index: nat, cache: Cache) {
    forall i :: index <= i < |list| ==> Base(list[i]) in cache
  }

  /** Looking up literals does not change which assertions are justified. */
  lemma CachedFromGrows(list: seq<Formula>, index: nat, before: Cache, after: Cache, curr: Option<Formula>)
    requires ListOk(list, index, before, curr) && Grows(before, after, None)
    ensures CachedFrom(list, index, before) <==> CachedFrom(list, index, after)
  {
  }

  /** Scanning a list from `start` has reached `index`; `curr` was taken last and is
      the only assertion before `index` that may have no value. */
  ghost predicate Scanned(list: seq<Formula>, start: nat, index: nat, curr: Option<Formula>, before: Cache, cache: Cache) {
    && Grows(before, cache, None)
    && ListOk(list, index, cache, curr)
    && match curr
       case None => index == |list| && CachedFrom(list, start, before)
       case Some(c) =>
         && start < index && c == list[index - 1]
         && forall i :: start <= i < index - 1 ==> Base(list[i]) in before
  }

  lemma ScanStart(list: seq<Formula>, start: nat, cache: Cache)
    requires ListOk(list, start, cache, None)
    ensures start < |list| ==> Scanned(list, start, start + 1, Some(list[start]), cache, cache)
    ensures start == |list| ==> Scanned(list, start, start, None, cache, cache)
  {
  }

  /** The assertion taken last has a value, so the scan goes on. */
  lemma ScanStep(list: seq<Formula>, start: nat, index: nat, curr: Formula, before: Cache, mid: Cache, after: Cache)
    requires Scanned(list, start, index, Some(curr), before, mid) && Grows(mid, after, None)
    requires Cached(after, curr) != SatUnknown
    ensures index < |list| ==> Scanned(list, start, index + 1, Some(list[index]), before, after)
    ensures index == |list| ==> Scanned(list, start, index, None, before, after)
  {
    assert Base(curr) in before;
    ListOkKeeps(list, index, mid, after, Some(curr));
  }

  // ---- the order of the assertions ---------------------------------------

  ghost predicate AllCached(list: seq<Formula>, a: nat, b: nat, cache: Cache) {
    forall i :: a <= i < b && i < |list| ==> Base(list[i]) in cache
  }

  /** The first assertion from `start` on that has no value. */
  ghost predicate FirstOpen(list: seq<Formula>, start: nat, i: int, cache: Cache) {
    start <= i < |list| && Base(list[i]) !in cache && AllCached(list, start, i, cache)
  }

  /** The assertion to work on next: the first open local one or, if there is none, the first
      open main one. */
  ghost predicate Picked(main: seq<Formula>, m: nat, m': nat, local: seq<Formula>, l: nat, l': nat, curr: Option<Formula>, cache: Cache) {
    if !CachedFrom(local, l, cache) then
      FirstOpen(local, l, l' - 1, cache) && curr == Some(local[l' - 1]) && m' == m
    else
      && l' == |local|
      && if !CachedFrom(main, m, cache) then FirstOpen(main, m, m' - 1, cache) && curr == Some(main[m' - 1])
         else m' == |main| && curr == None
  }

  lemma PickLocal(main: seq<Formula>, m: nat, local: seq<Formula>, l: nat, l': nat, cache: Cache)
    requires FirstOpen(local, l, l' - 1, cache)
    ensures Picked(main, m, m, local, l, l', Some(local[l' - 1]), cache)
  {
  }

  /** With no local assertion open, the main list decides; lookups in between change nothing. */
  lemma PickMain(main: seq<Formula>, m: nat, m': nat, local: seq<Formula>, l: nat, curr: Option<Formula>, before: Cache, after: Cache)
    requires CachedFrom(local, l, before) && Grows(before, after, None) && ListOk(main, m, after, None)
    requires if curr.Some? then FirstOpen(main, m, m' - 1, after) && curr.value == main[m' - 1]
             else m' == |main| && CachedFrom(main, m, after)
    ensures Picked(main, m, m', local, l, |local|, curr, before)
  {
    CachedFromGrows(main, m, before, after, None);
    if curr.Some? {
      forall i | m <= i < m' - 1
        ensures Base(main[i]) in before
      {
        assert Base(main[i]) in after && !Base(main[i]).Atom?;
      }
    }
  }

  /** Since the indices were m0 and l0 and the assertion was c0, assertions were taken in this
      order, each one once all before it had values. */
  ghost predicate TakenInOrder(main: seq<Formula>, m0: nat, m: nat, local: seq<Formula>, l0: nat, l: nat,
                               c0: Option<Formula>, c: Option<Formula>, cache: Cache)
  {
    && m0 <= m <= |main| && l0 <= l <= |local|
    && (c0.Some? && (m > m0 || l > l0 || c == None) ==> Base(c0.value) in cache)
    && if c == None then m == |main| && l == |local| && AllCached(main, m0, m, cache) && AllCached(local, l0, l, cache)
       else if m > m0 then
         l == |local| && AllCached(local, l0, l, cache) && AllCached(main, m0, m - 1, cache) && c == Some(main[m - 1])
       else if l > l0 then AllCached(local, l0, l - 1, cache) && c == Some(local[l - 1])
       else c == c0
  }

  lemma TakenKeeps(main: seq<Formula>, m0: nat, m: nat, local: seq<Formula>, l0: nat, l: nat,
                   c0: Option<Formula>, c: Option<Formula>, before: Cache, after: Cache)
    requires TakenInOrder(main, m0, m, local, l0, l, c0, c, before) && Keeps(before, after)
    ensures TakenInOrder(main, m0, m, local, l0, l, c0, c, after)
  {
  }

  lemma TakeFirst(main: seq<Formula>, m: nat, m': nat, local: seq<Formula>, l: nat, l': nat, c: Option<Formula>, before: Cache, after: Cache)
    requires Picked(main, m, m', local, l, l', c, before) && Keeps(before, after) && m <= |main| && l <= |local|
    ensures TakenInOrder(main, m, m', local, l, l', None, c, after)
  {
  }

  /** Once the current assertion has a value, the next one picked continues the order. */
  lemma TakeNext(main: seq<Formula>, m0: nat, m: nat, m': nat, local: seq<Formula>, l0: nat, l: nat, l': nat,
                 c0: Option<Formula>, c: Option<Formula>, c': Option<Formula>, before: Cache, after: Cache)
    requires TakenInOrder(main, m0, m, local, l0, l, c0, c, before) && c.Some? && Base(c.value) in before
    requires Picked(main, m, m', local, l, l', c', before) && Keeps(before, after)
    ensures TakenInOrder(main, m0, m', local, l0, l', c0, c', after)
  {
  }

  /** An exhausted list has a value for each of its assertions. */
  lemma ExhaustedIsDecided(list: seq<Formula>, cache: Cache, sigma: Assignment)
    requires ListOk(list, |list|, cache, None) && CacheOk(cache, sigma)
    ensures AllDecided(list, sigma)
  {
    forall i | 0 <= i < |list|
      ensures Kleene(list[i], sigma) != SatUnknown
    {
      CachedIsKleene(cache, sigma, list[i]);
    }
  }

  // ---- relevance ---------------------------------------------------------

  ghost predicate Occurs(a: nat, f: Formula)
    decreases f
  {
    match f
    case Atom(b) => a == b
    case Not(g) => Occurs(a, g)
    case And(fs) => exists i :: 0 <= i < |fs| && Occurs(a, fs[i])
    case Or(fs) => exists i :: 0 <= i < |fs| && Occurs(a, fs[i])
    case Implies(x, y) => Occurs(a, x) || Occurs(a, y)
    case Ite(c, t, e) => Occurs(a, c) || Occurs(a, t) || Occurs(a, e)
    case Xor(x, y) => Occurs(a, x) || Occurs(a, y)
    case Iff(x, y) => Occurs(a, x) || Occurs(a, y)
  }

  lemma {:induction false} LastChildOccurs(ji: JustifyInfo, a: nat)
    requires 0 < ji.childIndex <= |Children(Base(ji.node))| && !Base(ji.node).Not?
    requires Occurs(a, LastChild(ji))
    ensures Occurs(a, ji.node)
  {
    assert Occurs(a, Base(ji.node));
  }

  /** An atom of any frame is an atom of the assertion at the bottom of the stack. */
  lemma {:induction false} FrameOccurs(fs: seq<JustifyInfo>, cache: Cache, j: nat, a: nat)
    requires FramesOk(fs, cache) && j < |fs| && Occurs(a, fs[j].node)
    ensures Occurs(a, fs[0].node)
  {
    if j > 0 {
      assert Linked(fs[j - 1], fs[j], cache);
      LastChildOccurs(fs[j - 1], a);
      FrameOccurs(fs, cache, j - 1, a);
    }
  }
}
