/** The justification decision strategy and every run of it. */
module Strategy {
  import opened Formulas
  import opened Connectives
  import opened JustifyFrames
  import opened JustifyParts
  import opened JustifyStep
  import opened JustifyWalk
  import Miniscope

  /** A SAT literal: an atom and the value the decision gives it. */
  datatype Literal = Literal(atom: nat, positive: bool)

  datatype JustifyNode = JustifyNode(node: Formula, desired: SatValue)

  lemma {:induction false} WhenMoved(fs: seq<JustifyInfo>, curr: Formula, top': JustifyInfo, child: Formula, desired: SatValue,
                                     before: Cache, after: Cache, last: SatValue)
    requires fs != [] && Walking(fs, curr, last, before)
    requires Moved(fs[|fs| - 1], top', child, desired, before, after)
    ensures Requesting(fs[..|fs| - 1] + [top'], curr, child, desired, after) && Keeps(before, after)
    ensures StackWork(fs[..|fs| - 1] + [top']) + Weight(child) < StackWork(fs)
  {
    AfterRequest(fs, curr, top', before, after, last, desired);
  }

  lemma {:induction false} WhenSettled(fs: seq<JustifyInfo>, curr: Formula, before: Cache, after: Cache, last: SatValue, last': SatValue)
    requires fs != [] && Walking(fs, curr, last, before)
    requires Settled(fs[|fs| - 1], last, last', before, after)
    ensures Walking(fs[..|fs| - 1], curr, last', after) && Keeps(before, after)
    ensures StackWork(fs[..|fs| - 1]) < StackWork(fs)
  {
    AfterSettle(fs, curr, before, after, last, last');
  }

  /** An assertion that has a value is true, unless there is a conflict. */
  lemma {:induction false} SkippedIsTrue(list: seq<Formula>, i: nat, cache: Cache, sigma: Assignment)
    requires CacheOk(cache, sigma) && i < |list| && Cached(cache, list[i]) != SatUnknown && NoneFalse(list, sigma)
    ensures Cached(cache, list[i]) == SatTrue
  {
    CachedIsKleene(cache, sigma, list[i]);
  }

  /** The next assertion of a list that has no value yet. */
  method NextUnjustified(jcache: JustifyCache, al: AssertionList) returns (curr: Option<Formula>)
    requires CacheOk(jcache.justified, jcache.sat.assigns)
    requires ListOk(al.assertions, al.index, jcache.justified, None)
    modifies jcache, al`index
    ensures CacheOk(jcache.justified, jcache.sat.assigns)
    ensures Scanned(al.assertions, old(al.index), al.index, curr, old(jcache.justified), jcache.justified)
    ensures curr.Some? ==> Base(curr.value) !in jcache.justified
  {
    ghost var list, start, before := al.assertions, al.index, jcache.justified;
    ScanStart(list, start, before);
    curr := al.GetNextAssertion();
    while curr.Some?
      invariant CacheOk(jcache.justified, jcache.sat.assigns)
      invariant Scanned(list, start, al.index, curr, before, jcache.justified)
      decreases |list| - al.index, if curr.Some? then 1 else 0
    {
      ghost var mid := jcache.justified;
      var currValue := jcache.LookupValue(curr.value);
      if currValue == SatUnknown {
        return;
      }
      curr := SkipJustified(jcache, al, curr.value, start, before, mid);
    }
  }

  /** The assertion taken last has a value, and that is true unless there is a conflict. */
  method SkipJustified(jcache: JustifyCache, al: AssertionList, curr: Formula, ghost start: nat, ghost before: Cache, ghost mid: Cache)
    returns (next: Option<Formula>)
    requires CacheOk(jcache.justified, jcache.sat.assigns) && Cached(jcache.justified, curr) != SatUnknown
    requires Scanned(al.assertions, start, al.index, Some(curr), before, mid) && Grows(mid, jcache.justified, None)
    modifies al`index
    ensures Scanned(al.assertions, start, al.index, next, before, jcache.justified)
    ensures al.index > old(al.index) || (al.index == old(al.index) && next == None)
  {
    ghost var list := al.assertions;
    assert NoneFalse(list, jcache.sat.assigns) ==> Cached(jcache.justified, curr) == SatTrue by {
      if NoneFalse(list, jcache.sat.assigns) { SkippedIsTrue(list, al.index - 1, jcache.justified, jcache.sat.assigns); }
    }
    ScanStep(list, start, al.index, curr, before, mid, jcache.justified);
    next := al.GetNextAssertion();
  }

  function InsertAt<T>(s: seq<T>, i: nat, more: seq<T>): (r: seq<T>)
    requires i <= |s|
    ensures i <= |r| && r[i..] == more + s[i..]
  {
    s[..i] + more + s[i..]
  }

  /** Splits conjunctions and negated disjunctions and appends what is not a literal. */
  method InsertToAssertionList(lems: seq<Formula>, al: AssertionList)
    requires Miniscope.AllWellFormed(lems)
    modifies al`assertions
    ensures al.assertions == old(al.assertions) + Miniscope.Gained(lems)
  {
    var toProcess := lems;
    var index := 0;
    ghost var goal := al.assertions + Miniscope.Gained(lems);
    assert toProcess[index..] == lems;
    while index < |toProcess|
      invariant 0 <= index <= |toProcess|
      invariant Miniscope.AllWellFormed(toProcess[index..])
      invariant al.assertions + Miniscope.Gained(toProcess[index..]) == goal
      decreases TotalWeight(toProcess[index..])
    {
      ghost var todo := toProcess[index..];
      var curr := toProcess[index];
      index := index + 1;
      ghost var rest := toProcess[index..];
      assert todo == [curr] + rest;
      var parts := Miniscope.Parts(curr);
      if parts.Some? {
        Miniscope.GainedParts(curr, parts.value, rest);
        toProcess := InsertAt(toProcess, index, parts.value);
      } else {
        Miniscope.GainedWhole(curr, rest, al.assertions);
        if !Base(curr).Atom? {
          al.AddAssertion(curr);
        }
      }
    }
  }

  class JustificationStrategy {
    const sat: SatSolver
    const jcache: JustifyCache
    const stack: JustifyStack
    const assertions: AssertionList
    const localAssertions: AssertionList
    const decisionStopOnly: bool
    var lastDecisionLit: Option<Formula>
    /** One copy of the context-dependent state per open SAT level. */
    var saved: seq<Snapshot>

    ghost predicate Wired()
      reads this, stack
    {
      && jcache.sat == sat && assertions != localAssertions && stack.Valid()
    }

    function State(): Snapshot
      reads this, sat, jcache, stack, assertions, localAssertions
    {
      Snapshot(sat.assigns, jcache.justified, stack.current, stack.stack, stack.sizeValid, lastDecisionLit,
               localAssertions.assertions, localAssertions.index, assertions.index)
    }

    /** Field by field, the state is the given one. */
    ghost predicate Holding(s: Snapshot)
      reads this, sat, jcache, stack, assertions, localAssertions
    {
      && sat.assigns == s.assigns && jcache.justified == s.justified && lastDecisionLit == s.lastDecision
      && stack.current == s.current && stack.stack == s.stack && stack.sizeValid == s.sizeValid
      && localAssertions.assertions == s.local && localAssertions.index == s.localIndex
      && assertions.index == s.mainIndex
    }

    ghost predicate Valid()
      reads this, sat, jcache, stack, assertions, localAssertions
    {
      && Wired()
      && Boundary(State(), assertions.assertions)
      && SavedOk(saved, assertions.assertions)
    }

    constructor (stopOnly: bool)
      ensures Valid() && saved == [] && decisionStopOnly == stopOnly
      ensures sat.assigns == map[] && assertions.assertions == [] && localAssertions.assertions == []
      ensures jcache.justified == map[] && assertions.index == 0 && localAssertions.index == 0
      ensures fresh(sat) && fresh(jcache) && fresh(stack) && fresh(assertions) && fresh(localAssertions)
    {
      var s := new SatSolver();
      sat := s;
      jcache := new JustifyCache(s);
      stack := new JustifyStack();
      var main := new AssertionList();
      var local := new AssertionList();
      assertions, localAssertions := main, local;
      decisionStopOnly := stopOnly;
      lastDecisionLit, saved := None, [];
    }

    function List(local: bool): AssertionList {
      if local then localAssertions else assertions
    }

    /** Both lists are consistent with the cache, apart from the current assertion. */
    ghost predicate ListsOk()
      reads jcache, stack, assertions, localAssertions
    {
      && ListOk(assertions.assertions, assertions.index, jcache.justified, stack.current)
      && ListOk(localAssertions.assertions, localAssertions.index, jcache.justified, stack.current)
      && (stack.current.Some? ==>
            stack.current.value in assertions.assertions || stack.current.value in localAssertions.assertions)
    }

    /** Every assertion not taken yet was justified earlier. */
    ghost predicate NothingOpen()
      reads jcache, assertions, localAssertions
    {
      && CachedFrom(assertions.assertions, assertions.index, jcache.justified)
      && CachedFrom(localAssertions.assertions, localAssertions.index, jcache.justified)
    }

    ghost function AssertionsLeft(): int
      reads assertions, localAssertions
    {
      |assertions.assertions| - assertions.index + |localAssertions.assertions| - localAssertions.index
    }

    /** Settles the top formula or moves it to its next child. */
    method GetNextJustifyNode(last: SatValue) returns (next: Option<JustifyNode>, last': SatValue)
      requires Wired() && stack.sizeValid > 0
      requires CacheOk(jcache.justified, sat.assigns)
      requires FrameOk(stack.Frames()[stack.sizeValid - 1], jcache.justified)
      requires TopMatches(stack.Frames(), last, jcache.justified)
      modifies jcache, stack`stack
      ensures Wired() && CacheOk(jcache.justified, sat.assigns)
      ensures stack.Frames() == old(stack.Frames()[..stack.sizeValid - 1]) + [stack.Frames()[stack.sizeValid - 1]]
      ensures next.None? ==>
        Settled(old(stack.Frames()[stack.sizeValid - 1]), last, last', old(jcache.justified), jcache.justified)
      ensures next.Some? ==>
        && Moved(old(stack.Frames()[stack.sizeValid - 1]), stack.Frames()[stack.sizeValid - 1],
                 next.value.node, next.value.desired, old(jcache.justified), jcache.justified)
        && Apt(stack.Frames()[stack.sizeValid - 1], next.value.desired, jcache.justified, sat.assigns)
    {
      ghost var before := jcache.justified;
      var jc := stack.stack[stack.sizeValid - 1];
      var value, desired, k := StepTop(last);
      if value != SatUnknown {
        StepSettles(jc, last, before, jcache.justified, sat.assigns, value, desired, k);
        jcache.SetValue(Base(jc.node), value);
        return None, Polarized(jc.node, value);
      }
      StepMoves(jc, last, before, jcache.justified, sat.assigns, desired, k);
      return Some(JustifyNode(Children(Base(jc.node))[k], desired)), last;
    }

    /** The value of the top formula, or the child it requests next. */
    method StepTop(last: SatValue) returns (value: SatValue, desired: SatValue, k: nat)
      requires Wired() && stack.sizeValid > 0
      requires CacheOk(jcache.justified, sat.assigns)
      requires FrameOk(stack.Frames()[stack.sizeValid - 1], jcache.justified)
      requires TopMatches(stack.Frames(), last, jcache.justified)
      modifies jcache, stack`stack
      ensures Wired() && CacheOk(jcache.justified, sat.assigns) && Grows(old(jcache.justified), jcache.justified, None)
      ensures
        var top := old(stack.Frames()[stack.sizeValid - 1]);
        && stack.Frames() == old(stack.Frames()[..stack.sizeValid - 1]) + [top.(childIndex := k + 1)]
        && Base(top.node) !in jcache.justified
        && StepOut(Base(top.node), top.childIndex, last, Want(top), jcache.justified, sat.assigns, value, desired, k)
    {
      var jc := stack.stack[stack.sizeValid - 1];
      var i := stack.NextChildIndex();
      value, desired, k := Step(jcache, stack, Base(jc.node), i, last, Polarized(jc.node, jc.desired));
    }

    method RefreshCurrentAssertionFromList(local: bool) returns (found: bool)
      requires Wired() && CacheOk(jcache.justified, sat.assigns) && ListsOk()
      requires stack.current == None && stack.Frames() == []
      modifies jcache, stack, this`lastDecisionLit, List(local)`index
      ensures Wired() && CacheOk(jcache.justified, sat.assigns) && ListsOk()
      ensures Grows(old(jcache.justified), jcache.justified, None)
      ensures found ==>
        && AssertionsLeft() < old(AssertionsLeft()) && lastDecisionLit == None
        && stack.current.Some?
        && Resumable(stack.Frames(), stack.current, None, jcache.justified)
      ensures found <==> !CachedFrom(List(local).assertions, old(List(local).index), old(jcache.justified))
      ensures found ==>
        && FirstOpen(List(local).assertions, old(List(local).index), List(local).index - 1, old(jcache.justified))
        && stack.current == Some(List(local).assertions[List(local).index - 1])
      ensures !found ==>
        && unchanged(stack) && lastDecisionLit == old(lastDecisionLit)
        && List(local).index == |List(local).assertions|
    {
      ghost var before, other := jcache.justified, List(!local);
      var curr := NextUnjustified(jcache, List(local));
      ListOkKeeps(other.assertions, other.index, before, jcache.justified, None);
      if curr.Some? {
        StartOn(curr.value);
        return true;
      }
      return false;
    }

    method StartOn(curr: Formula)
      requires Wired() && WellFormed(curr) && !IsTheoryLiteral(curr) && Base(curr) !in jcache.justified
      modifies stack, this`lastDecisionLit
      ensures Wired() && stack.current == Some(curr) && lastDecisionLit == None
      ensures Resumable(stack.Frames(), stack.current, None, jcache.justified)
    {
      stack.Reset(curr);
      lastDecisionLit := None;
      FreshWalk(curr, jcache.justified);
    }

    /** Local assertions are taken before the main ones. */
    method RefreshCurrentAssertion() returns (found: bool)
      requires Wired() && CacheOk(jcache.justified, sat.assigns) && ListsOk()
      requires stack.current == None ==> stack.Frames() == []
      modifies jcache, stack, this`lastDecisionLit, assertions`index, localAssertions`index
      ensures Wired() && CacheOk(jcache.justified, sat.assigns) && ListsOk()
      ensures Grows(old(jcache.justified), jcache.justified, None)
      ensures found <==> stack.current.Some?
      ensures found <==> old(stack.current).Some? || !old(NothingOpen())
      ensures old(stack.current).Some? ==>
        && unchanged(stack, assertions, localAssertions, jcache) && lastDecisionLit == old(lastDecisionLit)
      ensures old(stack.current).None? && found ==>
        && AssertionsLeft() < old(AssertionsLeft()) && lastDecisionLit == None
        && Resumable(stack.Frames(), stack.current, None, jcache.justified)
      ensures !found ==>
        && stack.Frames() == [] && lastDecisionLit == old(lastDecisionLit) && AssertionsLeft() == 0
      ensures old(stack.current).None? ==>
        Picked(assertions.assertions, old(assertions.index), assertions.index,
               localAssertions.assertions, old(localAssertions.index), localAssertions.index,
               stack.current, old(jcache.justified))
    {
      if stack.current.Some? {
        return true;
      }
      found := PickAssertion();
    }

    method PickAssertion() returns (found: bool)
      requires Wired() && CacheOk(jcache.justified, sat.assigns) && ListsOk()
      requires stack.current == None && stack.Frames() == []
      modifies jcache, stack, this`lastDecisionLit, assertions`index, localAssertions`index
      ensures Wired() && CacheOk(jcache.justified, sat.assigns) && ListsOk()
      ensures Grows(old(jcache.justified), jcache.justified, None)
      ensures found <==> stack.current.Some?
      ensures found <==> !old(NothingOpen())
      ensures found ==>
        && AssertionsLeft() < old(AssertionsLeft()) && lastDecisionLit == None
        && Resumable(stack.Frames(), stack.current, None, jcache.justified)
      ensures !found ==>
        && stack.Frames() == [] && lastDecisionLit == old(lastDecisionLit) && AssertionsLeft() == 0
      ensures
        Picked(assertions.assertions, old(assertions.index), assertions.index,
               localAssertions.assertions, old(localAssertions.index), localAssertions.index,
               stack.current, old(jcache.justified))
    {
      ghost var before, m, l := jcache.justified, assertions.index, localAssertions.index;
      found := RefreshCurrentAssertionFromList(true);
      if found {
        PickLocal(assertions.assertions, m, localAssertions.assertions, l, localAssertions.index, before);
        return;
      }
      found := PickMainAssertion(before, l);
    }

    /** The same once no local assertion is open. */
    method PickMainAssertion(ghost before: Cache, ghost l: nat) returns (found: bool)
      requires Wired() && CacheOk(jcache.justified, sat.assigns) && ListsOk()
      requires stack.current == None && stack.Frames() == [] && localAssertions.index == |localAssertions.assertions|
      requires Grows(before, jcache.justified, None) && CachedFrom(localAssertions.assertions, l, before)
      modifies jcache, stack, this`lastDecisionLit, assertions`index
      ensures Wired() && CacheOk(jcache.justified, sat.assigns) && ListsOk()
      ensures Grows(before, jcache.justified, None)
      ensures found <==> stack.current.Some?
      ensures found <==> !CachedFrom(assertions.assertions, old(assertions.index), before)
      ensures found ==>
        && AssertionsLeft() < old(AssertionsLeft()) && lastDecisionLit == None
        && Resumable(stack.Frames(), stack.current, None, jcache.justified)
      ensures !found ==>
        && stack.Frames() == [] && lastDecisionLit == old(lastDecisionLit) && AssertionsLeft() == 0
      ensures
        Picked(assertions.assertions, old(assertions.index), assertions.index,
               localAssertions.assertions, l, localAssertions.index, stack.current, before)
    {
      ghost var m, mid := assertions.index, jcache.justified;
      CachedFromGrows(assertions.assertions, m, before, mid, None);
      found := RefreshCurrentAssertionFromList(false);
      PickMain(assertions.assertions, m, assertions.index, localAssertions.assertions, l, stack.current, before, mid);
    }

    /** Since the given indices and assertion, assertions were taken in order. */
    ghost predicate Taken(m0: nat, l0: nat, c0: Option<Formula>)
      reads jcache, stack, assertions, localAssertions
    {
      TakenInOrder(assertions.assertions, m0, assertions.index, localAssertions.assertions, l0, localAssertions.index,
                   c0, stack.current, jcache.justified)
    }

    /** In the middle of a call, working on the current assertion. */
    ghost predicate Busy(last: SatValue)
      reads this, sat, jcache, stack
    {
      && Wired() && CacheOk(jcache.justified, sat.assigns)
      && stack.current.Some?
      && Walking(stack.Frames(), stack.current.value, last, jcache.justified)
    }

    /** A child of the top frame was just requested. */
    ghost predicate Asking(req: JustifyNode)
      reads this, sat, jcache, stack
    {
      && Wired() && CacheOk(jcache.justified, sat.assigns)
      && stack.current.Some?
      && Requesting(stack.Frames(), stack.current.value, req.node, req.desired, jcache.justified)
      && Apt(stack.Frames()[stack.sizeValid - 1], req.desired, jcache.justified, sat.assigns)
    }

    /** One round of the inner loop. */
    method JustifyTop(last: SatValue) returns (next: Option<JustifyNode>, last': SatValue)
      requires Busy(last) && stack.Frames() != []
      modifies jcache, stack
      ensures stack.current == old(stack.current) && Keeps(old(jcache.justified), jcache.justified)
      ensures next.None? ==> Busy(last') && StackWork(stack.Frames()) < old(StackWork(stack.Frames()))
      ensures next.Some? ==>
        && Asking(next.value)
        && StackWork(stack.Frames()) + Weight(next.value.node) < old(StackWork(stack.Frames()))
    {
      ghost var fs, before, curr := stack.Frames(), jcache.justified, stack.current.value;
      next, last' := GetNextJustifyNode(last);
      if next.Some? {
        MovedIsAsking(fs, before, last, next.value);
      } else {
        WhenSettled(fs, curr, before, jcache.justified, last, last');
        PopSettled(fs);
      }
    }

    lemma MovedIsAsking(fs: seq<JustifyInfo>, before: Cache, last: SatValue, req: JustifyNode)
      requires Wired() && CacheOk(jcache.justified, sat.assigns) && stack.current.Some?
      requires fs != [] && Walking(fs, stack.current.value, last, before) && |stack.Frames()| == |fs|
      requires stack.Frames() == fs[..|fs| - 1] + [stack.Frames()[|fs| - 1]]
      requires Moved(fs[|fs| - 1], stack.Frames()[|fs| - 1], req.node, req.desired, before, jcache.justified)
      requires Apt(stack.Frames()[|fs| - 1], req.desired, jcache.justified, sat.assigns)
      ensures Asking(req) && Keeps(before, jcache.justified)
      ensures StackWork(stack.Frames()) + Weight(req.node) < StackWork(fs)
    {
      WhenMoved(fs, stack.current.value, stack.Frames()[|fs| - 1], req.node, req.desired, before, jcache.justified, last);
    }

    method PopSettled(ghost fs: seq<JustifyInfo>)
      requires Wired() && fs != [] && |stack.Frames()| == |fs|
      requires stack.Frames()[..|fs| - 1] == fs[..|fs| - 1]
      modifies stack
      ensures Wired() && stack.current == old(stack.current) && stack.Frames() == fs[..|fs| - 1]
    {
      stack.PopStack();
    }

    /** The inner loop: settles and pops frames until one of them requests a child. */
    method FindNext(last: SatValue) returns (next: Option<JustifyNode>, last': SatValue)
      requires Busy(last) && stack.Frames() != []
      modifies jcache, stack
      ensures stack.current == old(stack.current) && Keeps(old(jcache.justified), jcache.justified)
      ensures next.None? ==> Busy(last') && stack.Frames() == []
      ensures next.Some? ==>
        && Asking(next.value)
        && StackWork(stack.Frames()) + Weight(next.value.node) < old(StackWork(stack.Frames()))
    {
      next, last' := None, last;
      while stack.sizeValid > 0
        invariant stack.current == old(stack.current) && Keeps(old(jcache.justified), jcache.justified)
        invariant Busy(last')
        invariant StackWork(stack.Frames()) <= old(StackWork(stack.Frames()))
        decreases StackWork(stack.Frames())
      {
        next, last' := JustifyTop(last');
        if next.Some? {
          return;
        }
      }
      next := None;
    }

    lemma KeepLists(before: Cache)
      requires Keeps(before, jcache.justified)
      requires ListOk(assertions.assertions, assertions.index, before, stack.current)
      requires ListOk(localAssertions.assertions, localAssertions.index, before, stack.current)
      requires stack.current.Some? ==>
        stack.current.value in assertions.assertions || stack.current.value in localAssertions.assertions
      ensures ListsOk()
    {
      ListOkKeeps(assertions.assertions, assertions.index, before, jcache.justified, stack.current);
      ListOkKeeps(localAssertions.assertions, localAssertions.index, before, jcache.justified, stack.current);
    }

    /** The start of a call: looks up the last decision, starting the assertion over
        when a backtrack has taken its value away. */
    method Resume() returns (last: SatValue)
      requires Wired() && CacheOk(jcache.justified, sat.assigns) && stack.current.Some?
      requires Resumable(stack.Frames(), stack.current, lastDecisionLit, jcache.justified)
      modifies this`lastDecisionLit, jcache, stack
      ensures Busy(last) && stack.Frames() != [] && lastDecisionLit == None
      ensures stack.current == old(stack.current) && Keeps(old(jcache.justified), jcache.justified)
      ensures
        var known := if old(lastDecisionLit).None? then SatUnknown
                     else Looked(old(jcache.justified), sat.assigns, old(lastDecisionLit).value);
        && last == known
        && stack.Frames() == if old(lastDecisionLit).Some? && known == SatUnknown
                             then [JustifyInfo(stack.current.value, SatTrue, 0)] else old(stack.Frames())
    {
      last := SatUnknown;
      if lastDecisionLit.Some? {
        ghost var fs, before := stack.Frames(), jcache.justified;
        ghost var top := fs[|fs| - 1];
        ChildWellFormed(Base(top.node), top.childIndex - 1);
        last := jcache.LookupValue(lastDecisionLit.value);
        FramesOkGrows(fs, before, jcache.justified, None);
        if last == SatUnknown {
          var curr := stack.current.value;
          assert FrameOk(fs[0], jcache.justified);
          FreshWalk(curr, jcache.justified);
          stack.Clear();
          stack.Reset(curr);
        }
      }
      lastDecisionLit := None;
    }

    /** The literal asked for: unassigned, part of the current assertion, and with the value
        the traversal requested of it, which no known value makes superfluous or wrong. */
    ghost predicate Asked(a: nat, positive: bool)
      reads this, sat, jcache, stack
    {
      && Wired() && lastDecisionLit.Some? && a !in sat.assigns
      && AskedLiteral(stack.Frames(), lastDecisionLit.value, a, positive, jcache.justified)
      && Apt(stack.Frames()[stack.sizeValid - 1], Polarized(lastDecisionLit.value, FromBool(positive)), jcache.justified, sat.assigns)
    }

    /** Pushes a requested child that has no value and is not a literal. */
    method Descend(req: JustifyNode)
      requires Asking(req) && Base(req.node) !in jcache.justified && !IsTheoryLiteral(req.node)
      modifies stack
      ensures Busy(SatUnknown) && stack.current == old(stack.current)
      ensures stack.Frames() == old(stack.Frames()) + [JustifyInfo(req.node, req.desired, 0)]
      ensures StackWork(stack.Frames()) == old(StackWork(stack.Frames())) + Weight(req.node)
    {
      AfterPush(stack.Frames(), stack.current.value, req.node, req.desired, jcache.justified);
      stack.PushToStack(req.node, req.desired);
    }

    /** Decides on a requested literal that has no value. */
    method DecideOn(req: JustifyNode) returns (lit: Literal)
      requires Asking(req) && IsTheoryLiteral(req.node) && Base(req.node).id !in sat.assigns
      modifies this`lastDecisionLit
      ensures Wired() && lit == Literal(Base(req.node).id, Polarized(req.node, req.desired) == SatTrue)
      ensures Resumable(stack.Frames(), stack.current, lastDecisionLit, jcache.justified)
      ensures Asked(lit.atom, lit.positive)
    {
      AfterDecision(stack.Frames(), stack.current.value, req.node, req.desired, jcache.justified);
      lastDecisionLit := Some(req.node);
      lit := Literal(Base(req.node).id, Polarized(req.node, req.desired) != SatFalse);
    }

    /** What to do with a requested child: decide on it, push it, or use its value. */
    method Advance(req: JustifyNode) returns (decision: Option<Literal>, last: SatValue)
      requires Asking(req) && lastDecisionLit == None
      modifies this`lastDecisionLit, jcache, stack
      ensures stack.current == old(stack.current) && Keeps(old(jcache.justified), jcache.justified)
      ensures decision.None? ==>
        && Busy(last) && stack.Frames() != [] && lastDecisionLit == None
        && StackWork(stack.Frames()) <= old(StackWork(stack.Frames())) + Weight(req.node)
      ensures decision.Some? ==>
        && Wired() && CacheOk(jcache.justified, sat.assigns)
        && Resumable(stack.Frames(), stack.current, lastDecisionLit, jcache.justified)
        && Asked(decision.value.atom, decision.value.positive)
      ensures
        var known := Looked(old(jcache.justified), sat.assigns, req.node);
        var fs := old(stack.Frames());
        if known != SatUnknown then decision == None && last == known && stack.Frames() == fs
        else if IsTheoryLiteral(req.node) then
          && decision == Some(Literal(Base(req.node).id, Polarized(req.node, req.desired) == SatTrue)) && stack.Frames() == fs
        else decision == None && last == SatUnknown && stack.Frames() == fs + [JustifyInfo(req.node, req.desired, 0)]
    {
      ghost var fs, before, curr := stack.Frames(), jcache.justified, stack.current.value;
      RequestedWellFormed(fs, curr, req.node, req.desired, before);
      last := jcache.LookupValue(req.node);
      decision := None;
      if last == SatUnknown {
        var nextAtom := Base(req.node);
        if nextAtom.Atom? {
          last := Polarized(req.node, req.desired);
          var lit := DecideOn(req);
          decision := Some(lit);
        } else {
          Descend(req);
        }
      } else {
        AfterKnownChild(fs, curr, req.node, req.desired, before, jcache.justified);
      }
    }

    /** Satisfied whatever the remaining atoms are. */
    ghost predicate EverythingSatisfied()
      reads sat, assertions, localAssertions
    {
      && AllSatisfied(assertions.assertions, sat.assigns)
      && AllSatisfied(localAssertions.assertions, sat.assigns)
    }

    ghost predicate EverythingDecided()
      reads sat, assertions, localAssertions
    {
      && AllDecided(assertions.assertions, sat.assigns)
      && AllDecided(localAssertions.assertions, sat.assigns)
    }

    ghost predicate NoConflict()
      reads sat, assertions, localAssertions
    {
      && NoneFalse(assertions.assertions, sat.assigns)
      && NoneFalse(localAssertions.assertions, sat.assigns)
    }

    lemma StopIsJustified()
      requires Wired() && CacheOk(jcache.justified, sat.assigns) && ListsOk()
      requires stack.current == None && AssertionsLeft() == 0
      ensures EverythingDecided()
      ensures NoConflict() <==> EverythingSatisfied()
    {
      ExhaustedIsDecided(assertions.assertions, jcache.justified, sat.assigns);
      ExhaustedIsDecided(localAssertions.assertions, jcache.justified, sat.assigns);
      DecidedThenSatisfied(assertions.assertions, sat.assigns);
      DecidedThenSatisfied(localAssertions.assertions, sat.assigns);
    }

    /** At the head of the outer loop. */
    ghost predicate AtLoop(last: SatValue)
      reads this, sat, jcache, stack, assertions, localAssertions
    {
      && lastDecisionLit == None
      && Wired() && CacheOk(jcache.justified, sat.assigns) && ListsOk()
      && if stack.current.Some? then Busy(last) && stack.Frames() != []
         else stack.Frames() == [] && AssertionsLeft() == 0
    }

    /** At the end of a call that decides. */
    ghost predicate AtDecision(lit: Literal)
      reads this, sat, jcache, stack, assertions, localAssertions
    {
      && Wired() && CacheOk(jcache.justified, sat.assigns) && ListsOk()
      && Resumable(stack.Frames(), stack.current, lastDecisionLit, jcache.justified)
      && Asked(lit.atom, lit.positive)
    }

    /** One round of the outer loop. */
    method Round(last: SatValue, ghost m0: nat, ghost l0: nat, ghost c0: Option<Formula>)
      returns (decision: Option<Literal>, last': SatValue)
      requires AtLoop(last) && stack.current.Some? && Taken(m0, l0, c0)
      modifies this`lastDecisionLit, jcache, stack, assertions`index, localAssertions`index
      ensures decision.None? ==>
        && AtLoop(last')
        && (AssertionsLeft() < old(AssertionsLeft())
            || (AssertionsLeft() == old(AssertionsLeft()) && StackWork(stack.Frames()) < old(StackWork(stack.Frames()))))
      ensures decision.Some? ==> AtDecision(decision.value)
      ensures Taken(m0, l0, c0)
    {
      var next;
      next, last' := FindRequest(last, m0, l0, c0);
      if next.None? {
        NextAssertion(last', m0, l0, c0);
        decision, last' := None, SatUnknown;
      } else {
        decision, last' := Proceed(next.value, m0, l0, c0);
      }
    }

    /** The inner loop, within a call. */
    method FindRequest(last: SatValue, ghost m0: nat, ghost l0: nat, ghost c0: Option<Formula>)
      returns (next: Option<JustifyNode>, last': SatValue)
      requires AtLoop(last) && stack.current.Some? && Taken(m0, l0, c0)
      modifies jcache, stack
      ensures stack.current == old(stack.current) && ListsOk() && Taken(m0, l0, c0)
      ensures next.None? ==> Busy(last') && stack.Frames() == []
      ensures next.Some? ==>
        && Asking(next.value)
        && StackWork(stack.Frames()) + Weight(next.value.node) < old(StackWork(stack.Frames()))
    {
      ghost var before := jcache.justified;
      next, last' := FindNext(last);
      KeepLists(before);
      KeepTaken(before, m0, l0, c0);
    }

    /** Works on a requested child. */
    method Proceed(req: JustifyNode, ghost m0: nat, ghost l0: nat, ghost c0: Option<Formula>)
      returns (decision: Option<Literal>, last: SatValue)
      requires Asking(req) && lastDecisionLit == None && ListsOk() && Taken(m0, l0, c0)
      modifies this`lastDecisionLit, jcache, stack
      ensures stack.current == old(stack.current) && Taken(m0, l0, c0)
      ensures decision.None? ==>
        AtLoop(last) && StackWork(stack.Frames()) <= old(StackWork(stack.Frames())) + Weight(req.node)
      ensures decision.Some? ==> AtDecision(decision.value)
    {
      ghost var before := jcache.justified;
      decision, last := Advance(req);
      KeepLists(before);
      KeepTaken(before, m0, l0, c0);
    }

    /** The current assertion is exhausted; without a conflict it is true. */
    method NextAssertion(last: SatValue, ghost m0: nat, ghost l0: nat, ghost c0: Option<Formula>)
      requires Busy(last) && ListsOk() && stack.Frames() == [] && lastDecisionLit == None && Taken(m0, l0, c0)
      modifies this`lastDecisionLit, jcache, stack, assertions`index, localAssertions`index
      ensures old(NoConflict()) ==> last == SatTrue
      ensures AtLoop(SatUnknown) && Taken(m0, l0, c0)
      ensures AssertionsLeft() < old(AssertionsLeft()) || (AssertionsLeft() == old(AssertionsLeft()) && stack.current == None)
    {
      CachedIsKleene(jcache.justified, sat.assigns, stack.current.value);
      ghost var curr, before, m, l := stack.current, jcache.justified, assertions.index, localAssertions.index;
      stack.Clear();
      var found := RefreshCurrentAssertion();
      TakeNext(assertions.assertions, m0, m, assertions.index, localAssertions.assertions, l0, l, localAssertions.index,
               c0, curr, stack.current, before, jcache.justified);
    }

    lemma KeepTaken(before: Cache, m0: nat, l0: nat, c0: Option<Formula>)
      requires Keeps(before, jcache.justified)
      requires TakenInOrder(assertions.assertions, m0, assertions.index, localAssertions.assertions, l0, localAssertions.index,
                            c0, stack.current, before)
      ensures Taken(m0, l0, c0)
    {
      TakenKeeps(assertions.assertions, m0, assertions.index, localAssertions.assertions, l0, localAssertions.index,
                 c0, stack.current, before, jcache.justified);
    }

    lemma BackAtBoundary()
      requires Wired() && CacheOk(jcache.justified, sat.assigns) && ListsOk()
      requires Resumable(stack.Frames(), stack.current, lastDecisionLit, jcache.justified)
      requires SavedOk(saved, assertions.assertions)
      ensures Valid()
    {
    }

    /** The outer loop. */
    method Search(last0: SatValue, ghost m0: nat, ghost l0: nat, ghost c0: Option<Formula>) returns (decision: Option<Literal>)
      requires AtLoop(last0) && Taken(m0, l0, c0)
      modifies this`lastDecisionLit, jcache, stack, assertions`index, localAssertions`index
      ensures Wired() && CacheOk(jcache.justified, sat.assigns) && ListsOk()
      ensures Resumable(stack.Frames(), stack.current, lastDecisionLit, jcache.justified)
      ensures decision.None? ==> stack.current == None && AssertionsLeft() == 0
      ensures decision.Some? ==> stack.current.Some? && Asked(decision.value.atom, decision.value.positive)
      ensures Taken(m0, l0, c0)
    {
      var last := last0;
      while stack.current.Some?
        invariant AtLoop(last) && Taken(m0, l0, c0)
        decreases AssertionsLeft(), StackWork(stack.Frames())
      {
        decision, last := Round(last, m0, l0, c0);
        if decision.Some? {
          return;
        }
      }
      return None;
    }

    /** Ensures there is a current assertion and resumes its traversal, if any is left. */
    method Begin() returns (last: SatValue)
      requires Valid()
      modifies this`lastDecisionLit, jcache, stack, assertions`index, localAssertions`index
      ensures AtLoop(last) && Taken(old(assertions.index), old(localAssertions.index), old(stack.current))
    {
      ghost var m0, l0, c0, start := assertions.index, localAssertions.index, stack.current, jcache.justified;
      last := SatUnknown;
      var ok := RefreshCurrentAssertion();
      if c0.None? {
        TakeFirst(assertions.assertions, m0, assertions.index, localAssertions.assertions, l0, localAssertions.index,
                  stack.current, start, jcache.justified);
      }
      if ok {
        ghost var before := jcache.justified;
        last := Resume();
        KeepLists(before);
        KeepTaken(before, m0, l0, c0);
      }
    }

    /** A whole call, apart from how its result is reported. */
    method NextDecision() returns (decision: Option<Literal>)
      requires Valid()
      modifies this`lastDecisionLit, jcache, stack, assertions`index, localAssertions`index
      ensures Valid()
      ensures decision.None? ==> stack.current == None && AssertionsLeft() == 0
      ensures decision.Some? ==> stack.current.Some? && Asked(decision.value.atom, decision.value.positive)
      ensures Taken(old(assertions.index), old(localAssertions.index), old(stack.current))
    {
      ghost var m0, l0, c0 := assertions.index, localAssertions.index, stack.current;
      var last := Begin();
      decision := Search(last, m0, l0, c0);
      BackAtBoundary();
    }

    /** Walks the assertions up to the next decision, or stops. */
    method GetNextInternal() returns (stopSearch: bool, lit: Option<Literal>)
      requires Valid()
      modifies this`lastDecisionLit, jcache, stack, assertions`index, localAssertions`index
      ensures Valid()
      ensures stopSearch ==> lit == None && stack.current == None && EverythingDecided()
      ensures stopSearch ==> (NoConflict() <==> EverythingSatisfied())
      ensures !stopSearch ==> stack.current.Some?
      ensures !stopSearch ==>
        exists a, p :: Asked(a, p) && lit == (if decisionStopOnly then None else Some(Literal(a, p)))
      ensures Taken(old(assertions.index), old(localAssertions.index), old(stack.current))
    {
      var decision := NextDecision();
      if decision.None? {
        StopIsJustified();
        return true, None;
      }
      return false, if decisionStopOnly then None else decision;
    }

    /** True exactly when no assertion is on the stack and none is left to justify; then
        all are decided. It can be false although all are satisfied: see IsDoneTooLate. */
    method IsDone() returns (done: bool)
      requires Valid()
      modifies this`lastDecisionLit, jcache, stack, assertions`index, localAssertions`index
      ensures Valid()
      ensures done ==> EverythingDecided() && (NoConflict() <==> EverythingSatisfied())
      ensures done <==> stack.current == None
      ensures done <==> old(stack.current).None? && old(NothingOpen())
    {
      var found := RefreshCurrentAssertion();
      if !found {
        StopIsJustified();
      }
      return !found;
    }

    method AddAssertions(lems: seq<Formula>)
      requires Valid() && Miniscope.AllWellFormed(lems)
      modifies assertions`assertions
      ensures Valid()
      ensures assertions.assertions == old(assertions.assertions) + Miniscope.Gained(lems)
    {
      ghost var main := assertions.assertions;
      InsertToAssertionList(lems, assertions);
      GainedFits(lems);
      BoundaryAppend(State(), main, Miniscope.Gained(lems));
      SavedOkAppend(saved, main, Miniscope.Gained(lems));
    }

    method AddLocalAssertions(lems: seq<Formula>)
      requires Valid() && Miniscope.AllWellFormed(lems)
      modifies localAssertions`assertions
      ensures Valid()
      ensures localAssertions.assertions == old(localAssertions.assertions) + Miniscope.Gained(lems)
    {
      InsertToAssertionList(lems, localAssertions);
      GainedFits(lems);
    }

    method Presolve()
      requires Valid()
      modifies this`lastDecisionLit, stack, assertions`index, localAssertions`index
      ensures Valid() && stack.current == None && assertions.index == 0 && localAssertions.index == 0
    {
      lastDecisionLit := None;
      assertions.Presolve();
      localAssertions.Presolve();
      stack.Clear();
    }

    // ---- what the solver does between calls ------------------------------

    /** A decision, or a propagation, at the current level. */
    method Assign(a: nat, value: bool)
      requires Valid() && a !in sat.assigns
      modifies sat
      ensures Valid() && sat.assigns == old(sat.assigns)[a := value]
    {
      ghost var sigma := sat.assigns;
      sat.assigns := sat.assigns[a := value];
      CacheOkMonotone(jcache.justified, sigma, sat.assigns);
    }

    method Push()
      requires Valid()
      modifies this`saved
      ensures Valid() && saved == old(saved) + [State()] && State() == old(State())
      ensures Holding(saved[|saved| - 1])
    {
      saved := saved + [State()];
    }

    /** Everything but the main assertions goes back to what it was at the matching push. */
    method Pop()
      requires Valid() && saved != []
      modifies this, sat, jcache, stack, localAssertions, assertions`index
      ensures Valid() && State() == old(saved[|saved| - 1]) && saved == old(saved[..|saved| - 1])
      ensures Holding(old(saved)[|old(saved)| - 1])
    {
      var s := saved[|saved| - 1];
      assert Boundary(s, assertions.assertions);
      sat.assigns, jcache.justified := s.assigns, s.justified;
      stack.current, stack.stack, stack.sizeValid := s.current, s.stack, s.sizeValid;
      lastDecisionLit := s.lastDecision;
      localAssertions.assertions, localAssertions.index := s.local, s.localIndex;
      assertions.index := s.mainIndex;
      saved := saved[..|saved| - 1];
    }
  }

  lemma {:induction false} GainedFits(lems: seq<Formula>)
    requires Miniscope.AllWellFormed(lems)
    ensures
      var more := Miniscope.Gained(lems);
      forall i :: 0 <= i < |more| ==> WellFormed(more[i]) && !IsTheoryLiteral(more[i])
  {
    forall i | 0 <= i < |Miniscope.Gained(lems)|
      ensures WellFormed(Miniscope.Gained(lems)[i]) && !IsTheoryLiteral(Miniscope.Gained(lems)[i])
    {
      Miniscope.MiniscopeIrreducible(lems, i);
    }
  }

  lemma SavedOkAppend(saved: seq<Snapshot>, main: seq<Formula>, more: seq<Formula>)
    requires SavedOk(saved, main)
    requires forall i :: 0 <= i < |more| ==> WellFormed(more[i]) && !IsTheoryLiteral(more[i])
    ensures SavedOk(saved, main + more)
  {
    forall i | 0 <= i < |saved|
      ensures Boundary(saved[i], main + more)
    {
      BoundaryAppend(saved[i], main, more);
    }
  }

  // ---- runs ----------------------------------------------------------------

  /** What can happen between and around calls to the strategy. */
  datatype Event =
    | Assigned(atom: nat, value: bool)
    | Pushed
    | Popped
    | Asserted(lems: seq<Formula>)
    | AssertedLocally(lems: seq<Formula>)
    | CheckStarted
    | NextRequested
    | DoneAsked

  /** The world as the solver sees it: the assignment, both lists of assertions, and the
      assignment and local assertions at each open push. */
  datatype World = World(sigma: Assignment, main: seq<Formula>, local: seq<Formula>, levels: seq<Level>)

  datatype Level = Level(sigma: Assignment, local: seq<Formula>)

  /** What an event does to the world; nothing the strategy answers changes it. An
      assignment to an assigned atom and a pop at level 0 do not occur. */
  ghost function After(w: World, e: Event): World {
    match e
    case Assigned(a, v) => if a in w.sigma then w else w.(sigma := w.sigma[a := v])
    case Pushed => w.(levels := w.levels + [Level(w.sigma, w.local)])
    case Popped =>
      if w.levels == [] then w
      else
        var last := w.levels[|w.levels| - 1];
        World(last.sigma, w.main, last.local, w.levels[..|w.levels| - 1])
    case Asserted(lems) => w.(main := w.main + Miniscope.Gained(lems))
    case AssertedLocally(lems) => w.(local := w.local + Miniscope.Gained(lems))
    case CheckStarted => w
    case NextRequested => w
    case DoneAsked => w
  }

  /** What an event leaves in place. */
  lemma WorldOfEvent(w: World, e: Event)
    ensures
      var w' := After(w, e);
      && (e.Assigned? && e.atom !in w.sigma ==>
            w'.sigma == w.sigma[e.atom := e.value] && w'.main == w.main && w'.local == w.local && w'.levels == w.levels)
      && (e.Asserted? ==>
            w'.main == w.main + Miniscope.Gained(e.lems) && w'.sigma == w.sigma && w'.local == w.local && w'.levels == w.levels)
      && (e.AssertedLocally? ==>
            w'.local == w.local + Miniscope.Gained(e.lems) && w'.sigma == w.sigma && w'.main == w.main && w'.levels == w.levels)
      && (e.Pushed? ==>
            w'.sigma == w.sigma && w'.local == w.local && w'.main == w.main && |w'.levels| == |w.levels| + 1
            && After(w', Popped) == w)
      && (e.Popped? && w.levels != [] ==> |w'.levels| == |w.levels| - 1 && w'.main == w.main)
      && (Question(e) || e.CheckStarted? ==> w' == w)
  {
    if e.Pushed? {
      var w' := After(w, e);
      assert w'.levels[..|w'.levels| - 1] == w.levels;
    }
  }

  ghost function AfterMore(w: World, events: seq<Event>): World {
    if events == [] then w else After(AfterMore(w, events[..|events| - 1]), events[|events| - 1])
  }

  /** The world after a run from the beginning. */
  ghost function AfterAll(events: seq<Event>): World {
    AfterMore(World(map[], [], [], []), events)
  }

  /** The run never pops below depth d. */
  ghost predicate StaysAt(w: World, events: seq<Event>, d: nat) {
    |AfterMore(w, events).levels| >= d && (events != [] ==> StaysAt(w, events[..|events| - 1], d))
  }

  lemma {:induction false} LevelsStay(w: World, events: seq<Event>, d: nat)
    requires d <= |w.levels| && StaysAt(w, events, d)
    ensures AfterMore(w, events).levels[..d] == w.levels[..d]
    ensures w.main <= AfterMore(w, events).main
  {
    if events == [] {
    } else {
      var front, e := events[..|events| - 1], events[|events| - 1];
      LevelsStay(w, front, d);
      var mid, end := AfterMore(w, front), AfterMore(w, events);
      assert forall i :: 0 <= i < d ==> end.levels[i] == mid.levels[i];
    }
  }

  /** Whatever happens between a push and its matching pop, the assignment and the local
      assertions are afterwards those of the push, and the main assertions have only grown. */
  lemma {:induction false} PopUndoesEvents(w: World, events: seq<Event>)
    requires StaysAt(After(w, Pushed), events, |w.levels| + 1)
    requires |AfterMore(After(w, Pushed), events).levels| == |w.levels| + 1
    ensures
      var end := After(AfterMore(After(w, Pushed), events), Popped);
      end.sigma == w.sigma && end.local == w.local && end.levels == w.levels && w.main <= end.main
  {
    var start := After(w, Pushed);
    LevelsStay(start, events, |w.levels| + 1);
    var mid := AfterMore(start, events);
    assert mid.levels[..|w.levels| + 1] == mid.levels && start.levels[..|w.levels| + 1] == start.levels;
    assert start.levels[..|w.levels|] == w.levels;
  }

  /** One answer of the strategy. */
  datatype Answer = Answer(stop: bool, lit: Option<Literal>)

  predicate Question(e: Event) {
    e.NextRequested? || e.DoneAsked?
  }

  /** On a stop every assertion is decided, and so satisfied unless one is false; a
      decision is on an unassigned atom of an assertion. */
  ghost predicate Justified(a: Answer, w: World) {
    && (a.stop ==>
          && AllDecided(w.main, w.sigma) && AllDecided(w.local, w.sigma)
          && (NoneFalse(w.main, w.sigma) && NoneFalse(w.local, w.sigma) <==>
              AllSatisfied(w.main, w.sigma) && AllSatisfied(w.local, w.sigma)))
    && (a.lit.Some? ==>
          && a.lit.value.atom !in w.sigma
          && exists f :: (f in w.main || f in w.local) && Occurs(a.lit.value.atom, f))
  }

  /** Some atom of the assertions has no value. */
  ghost predicate SomeAtomOpen(w: World) {
    exists a, f :: (f in w.main || f in w.local) && Occurs(a, f) && a !in w.sigma
  }

  /** A question gets a justified answer. A call stops unless some atom is open, and then
      decides; isDone is only denied when there are assertions. */
  ghost predicate Fits(e: Event, answer: Option<Answer>, w: World, stopOnly: bool) {
    && (answer.Some? <==> Question(e))
    && (answer.Some? ==> Justified(answer.value, w))
    && (e.NextRequested? && answer.Some? && !answer.value.stop ==>
          SomeAtomOpen(w) && (answer.value.lit == None <==> stopOnly))
    && (e.DoneAsked? && answer.Some? ==> answer.value.lit == None && (w.main == [] && w.local == [] ==> answer.value.stop))
  }

  ghost function Levels(saved: seq<Snapshot>): seq<Level> {
    seq(|saved|, i requires 0 <= i < |saved| => Level(saved[i].assigns, saved[i].local))
  }

  ghost function WorldOf(js: JustificationStrategy): World
    reads js, js.sat, js.assertions, js.localAssertions
  {
    World(js.sat.assigns, js.assertions.assertions, js.localAssertions.assertions, Levels(js.saved))
  }

  method Happen(js: JustificationStrategy, e: Event) returns (answer: Option<Answer>)
    requires js.Valid()
    requires e.Asserted? || e.AssertedLocally? ==> Miniscope.AllWellFormed(e.lems)
    modifies js, js.sat, js.jcache, js.stack, js.assertions, js.localAssertions
    ensures js.Valid() && WorldOf(js) == After(old(WorldOf(js)), e)
    ensures Fits(e, answer, old(WorldOf(js)), js.decisionStopOnly)
  {
    if e.Pushed? || e.Popped? {
      ChangeLevel(js, e);
      return None;
    }
    answer := None;
    match e
    case Assigned(a, v) =>
      if a !in js.sat.assigns { js.Assign(a, v); }
    case Asserted(lems) => js.AddAssertions(lems);
    case AssertedLocally(lems) => js.AddLocalAssertions(lems);
    case CheckStarted => js.Presolve();
    case NextRequested => answer := Ask(js, e);
    case DoneAsked => answer := Ask(js, e);
  }

  method ChangeLevel(js: JustificationStrategy, e: Event)
    requires js.Valid() && (e.Pushed? || e.Popped?)
    modifies js, js.sat, js.jcache, js.stack, js.assertions, js.localAssertions
    ensures js.Valid() && WorldOf(js) == After(old(WorldOf(js)), e)
  {
    if e.Pushed? {
      js.Push();
    } else if js.saved != [] {
      js.Pop();
    }
  }

  method Ask(js: JustificationStrategy, e: Event) returns (answer: Option<Answer>)
    requires js.Valid() && Question(e)
    modifies js`lastDecisionLit, js.jcache, js.stack, js.assertions`index, js.localAssertions`index
    ensures js.Valid() && WorldOf(js) == old(WorldOf(js)) && Fits(e, answer, WorldOf(js), js.decisionStopOnly)
    ensures answer.value.stop <==> js.stack.current == None
    ensures e.DoneAsked? ==> (answer.value.stop <==> old(js.stack.current).None? && old(js.NothingOpen()))
  {
    if e.NextRequested? {
      var stop, lit := js.GetNextInternal();
      if !stop {
        ghost var a, p :| js.Asked(a, p);
        ghost var f := js.stack.Frames()[0].node;
        assert Occurs(a, f) && (f in js.assertions.assertions || f in js.localAssertions.assertions);
      }
      return Some(Answer(stop, lit));
    } else {
      var done := js.IsDone();
      return Some(Answer(done, None));
    }
  }

  ghost predicate AllFit(events: seq<Event>, answers: seq<Option<Answer>>, stopOnly: bool) {
    && |answers| <= |events|
    && forall i {:trigger answers[i]} :: 0 <= i < |answers| ==> Fits(events[i], answers[i], AfterAll(events[..i]), stopOnly)
  }

  lemma {:induction false} OneMoreFits(events: seq<Event>, answers: seq<Option<Answer>>, answer: Option<Answer>, stopOnly: bool)
    requires |answers| < |events| && AllFit(events, answers, stopOnly)
    requires Fits(events[|answers|], answer, AfterAll(events[..|answers|]), stopOnly)
    ensures AllFit(events, answers + [answer], stopOnly)
    ensures AfterAll(events[..|answers| + 1]) == After(AfterAll(events[..|answers|]), events[|answers|])
  {
    var k := |answers|;
    assert events[..k + 1][..k] == events[..k];
  }

  /** In every run, every question is answered and every answer justified. */
  method Run(events: seq<Event>, stopOnly: bool) returns (answers: seq<Option<Answer>>)
    requires forall i :: 0 <= i < |events| && (events[i].Asserted? || events[i].AssertedLocally?) ==>
               Miniscope.AllWellFormed(events[i].lems)
    ensures |answers| == |events| && AllFit(events, answers, stopOnly)
  {
    var js := new JustificationStrategy(stopOnly);
    answers := [];
    for k := 0 to |events|
      invariant fresh(js) && fresh(js.sat) && fresh(js.jcache) && fresh(js.stack)
      invariant fresh(js.assertions) && fresh(js.localAssertions)
      invariant js.Valid() && WorldOf(js) == AfterAll(events[..k])
      invariant |answers| == k && AllFit(events, answers, stopOnly) && js.decisionStopOnly == stopOnly
    {
      answers := NextEvent(js, events, answers);
    }
  }

  method NextEvent(js: JustificationStrategy, events: seq<Event>, answers: seq<Option<Answer>>) returns (more: seq<Option<Answer>>)
    requires js.Valid() && |answers| < |events| && AllFit(events, answers, js.decisionStopOnly)
    requires WorldOf(js) == AfterAll(events[..|answers|])
    requires var e := events[|answers|]; e.Asserted? || e.AssertedLocally? ==> Miniscope.AllWellFormed(e.lems)
    modifies js, js.sat, js.jcache, js.stack, js.assertions, js.localAssertions
    ensures js.Valid() && |more| == |answers| + 1 && AllFit(events, more, js.decisionStopOnly)
    ensures WorldOf(js) == AfterAll(events[..|more|])
  {
    ghost var w := WorldOf(js);
    var answer := Happen(js, events[|answers|]);
    assert Fits(events[|answers|], answer, w, js.decisionStopOnly);
    OneMoreFits(events, answers, answer, js.decisionStopOnly);
    more := answers + [answer];
  }

  /** An assertion of two atoms, open at first and satisfied by one of them. */
  lemma {:induction false} EitherAtom(f: Formula)
    requires f == Or([Atom(0), Atom(1)])
    ensures WellFormed(f) && Miniscope.Gained([f]) == [f]
    ensures Kleene(f, map[]) == SatUnknown
    ensures AllSatisfied([f], map[0 := true])
  {
    Miniscope.GainedWhole(f, [], []);
    assert [f] + [] == [f];
    assert Kleene(f.args[0], map[]) == SatUnknown && Kleene(f.args[1], map[]) == SatUnknown;
    forall total: nat -> bool | Completes(total, map[0 := true])
      ensures Holds(f, total)
    {
      assert Holds(f.args[0], total);
    }
  }

  /** isDone is documented to be true exactly when all assertions are satisfied. It can
      still be false then: right after the decision that satisfies the last assertion,
      that assertion is still on the stack. */
  method IsDoneTooLate() returns (done: bool, js: JustificationStrategy)
    ensures js.Valid() && !done && js.stack.current.Some?
    ensures js.EverythingSatisfied() && js.assertions.assertions != []
  {
    js := new JustificationStrategy(false);
    var f := Or([Atom(0), Atom(1)]);
    EitherAtom(f);
    js.AddAssertions([f]);
    assert js.assertions.assertions == [f];
    done := AskTooEarly(js, f);
  }

  /** The assertion stays on the stack after a call, though the decision satisfies it. */
  method AskTooEarly(js: JustificationStrategy, f: Formula) returns (done: bool)
    requires js.Valid() && js.sat.assigns == map[] && f == Or([Atom(0), Atom(1)])
    requires js.assertions.assertions == [f] && js.localAssertions.assertions == []
    modifies js, js.sat, js.jcache, js.stack, js.assertions`index, js.localAssertions`index
    ensures js.Valid() && !done && js.stack.current.Some? && js.EverythingSatisfied()
  {
    EitherAtom(f);
    var stop, lit := js.GetNextInternal();
    assert Kleene(js.assertions.assertions[0], js.sat.assigns) == SatUnknown;
    js.Assign(0, true);
    done := js.IsDone();
  }

  /** The same without any call before: an assertion that the assignment satisfies has no
      value in the cache until a traversal has given it one. */
  method IsDoneUnasked() returns (done: bool, js: JustificationStrategy)
    ensures js.Valid() && !done && js.stack.current.Some?
    ensures js.EverythingSatisfied() && js.assertions.assertions != []
  {
    js := new JustificationStrategy(false);
    var f := Or([Atom(0), Atom(1)]);
    EitherAtom(f);
    js.AddAssertions([f]);
    assert js.assertions.assertions == [f] && f !in js.jcache.justified;
    done := AskFirst(js, f);
  }

  method AskFirst(js: JustificationStrategy, f: Formula) returns (done: bool)
    requires js.Valid() && js.sat.assigns == map[] && f == Or([Atom(0), Atom(1)]) && f !in js.jcache.justified
    requires js.assertions.assertions == [f] && js.localAssertions.assertions == [] && js.assertions.index == 0
    modifies js, js.sat, js.jcache, js.stack, js.assertions`index, js.localAssertions`index
    ensures js.Valid() && !done && js.stack.current.Some? && js.EverythingSatisfied()
  {
    EitherAtom(f);
    js.Assign(0, true);
    assert js.assertions.assertions[0] == f;
    done := js.IsDone();
  }
}
