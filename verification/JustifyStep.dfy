/** One step of the traversal: settle the top formula, or request its next child. */
module JustifyStep {
  import opened Formulas
  import opened Connectives
  import opened JustifyFrames
  import opened JustifyParts

  /** f is being justified, i of its children were requested, `last` is the value of the latest. */
  ghost predicate StepIn(f: Formula, i: nat, last: SatValue, want: SatValue, cache: Cache) {
    && WellFormed(f) && !f.Not? && !f.Atom? && f !in cache && want != SatUnknown
    && (i == 0 ==> last == SatUnknown)
    && (i > 0 ==> EarlierOk(f, i, cache) && last != SatUnknown && last == Cached(cache, Children(f)[i - 1]))
  }

  /** f is settled exactly when the lookahead or the children worked on settle it, and then
      with its value; otherwise the next child k is requested with the value that is best for
      f. A formula settled after a request has the wanted value exactly when the child
      requested last has the value that was requested of it. */
  ghost predicate StepOut(f: Formula, i: nat, last: SatValue, want: SatValue, cache: Cache, sigma: Assignment,
                          value: SatValue, desired: SatValue, k: nat)
  {
    var vals := Known(cache, sigma, f);
    var first := if |Children(f)| > 0 then Cached(cache, Children(f)[0]) else SatUnknown;
    && IsConnective(f) && value == Found(f, i, want, vals)
    && if value != SatUnknown then
         && value == Kleene(f, sigma)
         && (i > 0 ==> (value == want <==> last == Requested(f, i - 1, want, first)))
       else
         && desired != SatUnknown && k < |Children(f)| && (k == i || (f.Ite? && i == 1 && k == 2))
         && EarlierOk(f, k + 1, cache) && Found(f, k, want, vals) == SatUnknown
         && (Requested(f, k, want, first) == SatUnknown || desired == Requested(f, k, want, first))
         && Best(f, k, desired, want, vals)
  }

  /** A cached child is what a lookup finds. */
  lemma CachedIsKnown(f: Formula, k: nat, cache: Cache, sigma: Assignment)
    requires k < |Children(f)|
    ensures Cached(cache, Children(f)[k]) != SatUnknown ==> Known(cache, sigma, f)[k] == Cached(cache, Children(f)[k])
  {
  }

  /** The value found is the one of all completions. */
  lemma {:induction false} FoundIsKleene(f: Formula, i: nat, want: SatValue, cache: Cache, sigma: Assignment)
    requires CacheOk(cache, sigma) && IsConnective(f) && want != SatUnknown
    ensures
      var value := Found(f, i, want, Known(cache, sigma, f));
      value != SatUnknown ==> value == Kleene(f, sigma)
  {
    var vals := Known(cache, sigma, f);
    if i > 0 {
      KnownSettles(cache, sigma, f, Seen(vals, i));
    } else if f.And? || f.Or? {
      KnownSettles(cache, sigma, f, vals);
    } else {
      KnownSettles(cache, sigma, f, vals[0 := SatUnknown]);
    }
  }

  /** The AND and OR cases, with the lookahead for a child that already forces the wanted value. */
  method StepAndOr(jcache: JustifyCache, f: Formula, i: nat, last: SatValue, want: SatValue)
    returns (value: SatValue, desired: SatValue)
    requires CacheOk(jcache.justified, jcache.sat.assigns)
    requires f.And? || f.Or?
    requires StepIn(f, i, last, want, jcache.justified)
    modifies jcache
    ensures CacheOk(jcache.justified, jcache.sat.assigns)
    ensures Grows(old(jcache.justified), jcache.justified, None)
    ensures StepOut(f, i, last, want, jcache.justified, jcache.sat.assigns, value, desired, i)
  {
    var cs := Children(f);
    ghost var before := jcache.justified;
    ghost var vals := Known(before, jcache.sat.assigns, f);
    value, desired := SatUnknown, SatUnknown;
    if i == 0 {
      if f.And? == (want == SatFalse) {
        var j := 0;
        while j < |cs|
          invariant 0 <= j <= |cs|
          invariant CacheOk(jcache.justified, jcache.sat.assigns)
          invariant Grows(before, jcache.justified, None)
          invariant forall x :: 0 <= x < j ==> vals[x] != want
          invariant value == SatUnknown
        {
          ChildWellFormed(f, j);
          LookedStable(before, jcache.justified, jcache.sat.assigns, cs[j]);
          var v := jcache.LookupValue(cs[j]);
          if v == want {
            value := want;
            break;
          }
          j := j + 1;
        }
      }
      desired := want;
    } else if (f.And? && last == SatFalse) || (f.Or? && last == SatTrue) || i == |cs| {
      value := last;
    } else {
      desired := want;
    }
    AndOrStep(f, i, last, want, before, jcache.justified, jcache.sat.assigns);
  }

  lemma {:induction false} AndOrStep(f: Formula, i: nat, last: SatValue, want: SatValue, before: Cache, cache: Cache, sigma: Assignment)
    requires CacheOk(before, sigma) && CacheOk(cache, sigma) && Grows(before, cache, None)
    requires (f.And? || f.Or?) && StepIn(f, i, last, want, before)
    ensures
      var vals := Known(before, sigma, f);
      var value :=
        if i == 0 then (if want == Forcing(f) && want in vals then want else SatUnknown)
        else if last == Forcing(f) || i == |vals| then last else SatUnknown;
      StepOut(f, i, last, want, cache, sigma, value, if value == SatUnknown || i == 0 then want else SatUnknown, i)
  {
    KnownStable(before, cache, sigma, f);
    if i == 0 { AndOrStart(f, want, cache, sigma); } else { AndOrNext(f, i, last, want, cache, sigma); }
  }

  lemma {:induction false} AndOrStart(f: Formula, want: SatValue, cache: Cache, sigma: Assignment)
    requires CacheOk(cache, sigma) && (f.And? || f.Or?) && IsConnective(f) && want != SatUnknown
    ensures StepOut(f, 0, SatUnknown, want, cache, sigma, Ahead(f, want, Known(cache, sigma, f)), want, 0)
  {
    FoundIsKleene(f, 0, want, cache, sigma);
    AndOrBest(f, 0, want, Known(cache, sigma, f));
  }

  lemma {:induction false} AndOrNext(f: Formula, i: nat, last: SatValue, want: SatValue, cache: Cache, sigma: Assignment)
    requires CacheOk(cache, sigma) && (f.And? || f.Or?) && IsConnective(f) && want != SatUnknown
    requires i > 0 && EarlierOk(f, i, cache) && last != SatUnknown && last == Cached(cache, Children(f)[i - 1])
    ensures
      var value := if last == Forcing(f) || i == |Children(f)| then last else SatUnknown;
      StepOut(f, i, last, want, cache, sigma, value, if value == SatUnknown then want else SatUnknown, i)
  {
    var vals := Known(cache, sigma, f);
    FoundIsKleene(f, i, want, cache, sigma);
    forall j | 0 <= j < i
      ensures vals[j] == Cached(cache, Children(f)[j])
    {
      CachedIsKnown(f, j, cache, sigma);
    }
    AndOrFound(f, i, want, vals);
    if i < |vals| { AndOrBest(f, i, want, vals); }
  }

  method StepImplies(jcache: JustifyCache, f: Formula, i: nat, last: SatValue, want: SatValue)
    returns (value: SatValue, desired: SatValue)
    requires CacheOk(jcache.justified, jcache.sat.assigns)
    requires f.Implies?
    requires StepIn(f, i, last, want, jcache.justified)
    modifies jcache
    ensures CacheOk(jcache.justified, jcache.sat.assigns)
    ensures Grows(old(jcache.justified), jcache.justified, None)
    ensures StepOut(f, i, last, want, jcache.justified, jcache.sat.assigns, value, desired, i)
  {
    ghost var before := jcache.justified;
    value, desired := SatUnknown, SatUnknown;
    if i == 0 {
      ChildWellFormed(f, 1);
      var v := jcache.LookupValue(f.rhs);
      if v == SatTrue {
        value := SatTrue;
      } else {
        desired := want.Invert();
      }
    } else if i == 1 {
      if last == SatFalse {
        value := SatTrue;
      } else {
        desired := want;
      }
    } else {
      value := last;
    }
    ImpliesStep(f, i, last, want, before, jcache.justified, jcache.sat.assigns);
  }

  lemma {:induction false} ImpliesStep(f: Formula, i: nat, last: SatValue, want: SatValue, before: Cache, cache: Cache, sigma: Assignment)
    requires CacheOk(before, sigma) && CacheOk(cache, sigma) && Grows(before, cache, None)
    requires f.Implies? && StepIn(f, i, last, want, before)
    ensures
      var rhs := Looked(before, sigma, f.rhs);
      var value :=
        if i == 0 then (if rhs == SatTrue then SatTrue else SatUnknown)
        else if i == 1 then (if last == SatFalse then SatTrue else SatUnknown)
        else last;
      StepOut(f, i, last, want, cache, sigma, value,
        if value != SatUnknown then SatUnknown else if i == 0 then want.Invert() else want, i)
  {
    KnownStable(before, cache, sigma, f);
    var vals := Known(cache, sigma, f);
    if i > 0 { CachedIsKnown(f, i - 1, cache, sigma); }
    if i == 2 { CachedIsKnown(f, 0, cache, sigma); }
    FoundIsKleene(f, i, want, cache, sigma);
    ImpliesFound(f, i, want, vals);
    if Found(f, i, want, vals) == SatUnknown { ImpliesBest(f, i, want, vals); }
  }

  /** The ITE case; after a false condition the index moves past the then branch. */
  method StepIte(jcache: JustifyCache, stack: JustifyStack, f: Formula, i0: nat, last: SatValue, want: SatValue)
    returns (value: SatValue, desired: SatValue, i: nat)
    requires CacheOk(jcache.justified, jcache.sat.assigns)
    requires f.Ite?
    requires StepIn(f, i0, last, want, jcache.justified)
    requires stack.Valid() && stack.sizeValid > 0
    requires stack.Frames()[stack.sizeValid - 1].childIndex == i0 + 1
    modifies jcache, stack`stack
    ensures CacheOk(jcache.justified, jcache.sat.assigns)
    ensures Grows(old(jcache.justified), jcache.justified, None)
    ensures StepOut(f, i0, last, want, jcache.justified, jcache.sat.assigns, value, desired, i)
    ensures stack.Valid()
    ensures stack.Frames() == old(stack.Frames()[..stack.sizeValid - 1]) + [old(stack.Frames()[stack.sizeValid - 1]).(childIndex := i + 1)]
  {
    ghost var before := jcache.justified;
    value, desired, i := SatUnknown, SatUnknown, i0;
    if i == 0 {
      ChildWellFormed(f, 1);
      ChildWellFormed(f, 2);
      var val1 := jcache.LookupValue(f.thn);
      LookedStable(before, jcache.justified, jcache.sat.assigns, f.els);
      var val2 := jcache.LookupValue(f.els);
      if val1 == val2 {
        value := val1;
      }
      desired := if val1 == want.Invert() || val2 == want then SatFalse else SatTrue;
      IteStart(f, want, before, jcache.justified, jcache.sat.assigns);
    } else if i == 1 {
      if last == SatFalse {
        i := stack.NextChildIndex();
      }
      desired := want;
      IteBranch(f, last, want, jcache.justified, jcache.sat.assigns);
    } else {
      value := last;
      IteSettles(f, i, last, want, jcache.justified, jcache.sat.assigns);
    }
  }

  lemma {:induction false} IteStart(f: Formula, want: SatValue, before: Cache, cache: Cache, sigma: Assignment)
    requires CacheOk(before, sigma) && CacheOk(cache, sigma) && Grows(before, cache, None)
    requires f.Ite? && StepIn(f, 0, SatUnknown, want, before)
    ensures
      var val1, val2 := Looked(before, sigma, f.thn), Looked(before, sigma, f.els);
      StepOut(f, 0, SatUnknown, want, cache, sigma, if val1 == val2 then val1 else SatUnknown,
        if val1 == want.Invert() || val2 == want then SatFalse else SatTrue, 0)
  {
    KnownStable(before, cache, sigma, f);
    var vals := Known(cache, sigma, f);
    FoundIsKleene(f, 0, want, cache, sigma);
    IteFound(f, 0, want, vals);
    if Found(f, 0, want, vals) == SatUnknown { IteBest(f, 0, want, vals); }
  }

  /** Once the condition is known, the branch it selects is requested. */
  lemma {:induction false} IteBranch(f: Formula, last: SatValue, want: SatValue, cache: Cache, sigma: Assignment)
    requires CacheOk(cache, sigma) && f.Ite? && StepIn(f, 1, last, want, cache)
    ensures StepOut(f, 1, last, want, cache, sigma, SatUnknown, want, if last == SatFalse then 2 else 1)
  {
    var vals := Known(cache, sigma, f);
    CachedIsKnown(f, 0, cache, sigma);
    IteFound(f, 1, want, vals);
    var k := if last == SatFalse then 2 else 1;
    IteBest(f, k, want, vals);
  }

  /** With condition and branch known, if-then-else has the value of the branch. */
  lemma {:induction false} IteSettles(f: Formula, i: nat, last: SatValue, want: SatValue, cache: Cache, sigma: Assignment)
    requires CacheOk(cache, sigma) && f.Ite? && i > 1 && StepIn(f, i, last, want, cache)
    ensures StepOut(f, i, last, want, cache, sigma, last, SatUnknown, i)
  {
    var vals := Known(cache, sigma, f);
    CachedIsKnown(f, 0, cache, sigma);
    CachedIsKnown(f, i - 1, cache, sigma);
    FoundIsKleene(f, i, want, cache, sigma);
    IteFound(f, i, want, vals);
  }

  method StepXorIff(jcache: JustifyCache, f: Formula, i: nat, last: SatValue, want: SatValue)
    returns (value: SatValue, desired: SatValue)
    requires CacheOk(jcache.justified, jcache.sat.assigns)
    requires f.Xor? || f.Iff?
    requires StepIn(f, i, last, want, jcache.justified)
    modifies jcache
    ensures CacheOk(jcache.justified, jcache.sat.assigns)
    ensures Grows(old(jcache.justified), jcache.justified, None)
    ensures StepOut(f, i, last, want, jcache.justified, jcache.sat.assigns, value, desired, i)
  {
    ghost var before := jcache.justified;
    value, desired := SatUnknown, SatUnknown;
    if i == 0 {
      ChildWellFormed(f, 1);
      var val1 := jcache.LookupValue(f.rhs);
      if val1 == SatUnknown {
        desired := SatTrue;
      } else {
        desired := if f.Iff? == (want == SatTrue) then val1 else val1.Invert();
      }
    } else if i == 1 {
      desired := if f.Iff? == (want == SatTrue) then last else last.Invert();
    } else {
      ChildWellFormed(f, 0);
      var val0 := jcache.LookupValue(f.lhs);
      assert val0 != SatUnknown;
      value := if (val0 == last) == f.Iff? then SatTrue else SatFalse;
    }
    XorIffStep(f, i, last, want, before, jcache.justified, jcache.sat.assigns);
  }

  lemma {:induction false} XorIffStep(f: Formula, i: nat, last: SatValue, want: SatValue, before: Cache, cache: Cache, sigma: Assignment)
    requires CacheOk(before, sigma) && CacheOk(cache, sigma) && Grows(before, cache, None)
    requires (f.Xor? || f.Iff?) && StepIn(f, i, last, want, before)
    ensures
      var other := if i == 0 then Looked(before, sigma, f.rhs) else last;
      if i < 2 then
        StepOut(f, i, last, want, cache, sigma, SatUnknown,
          if other == SatUnknown then SatTrue else if f.Iff? == (want == SatTrue) then other else other.Invert(), i)
      else
        StepOut(f, i, last, want, cache, sigma,
          if (Cached(cache, f.lhs) == last) == f.Iff? then SatTrue else SatFalse, SatUnknown, i)
  {
    KnownStable(before, cache, sigma, f);
    var vals := Known(cache, sigma, f);
    if i > 0 { CachedIsKnown(f, i - 1, cache, sigma); }
    if i == 2 { CachedIsKnown(f, 0, cache, sigma); }
    FoundIsKleene(f, i, want, cache, sigma);
    XorIffFound(f, i, want, vals);
    if i < 2 { XorIffBest(f, i, want, vals); }
  }

  /** The case split on the kind of f. */
  method Step(jcache: JustifyCache, stack: JustifyStack, f: Formula, i0: nat, last: SatValue, want: SatValue)
    returns (value: SatValue, desired: SatValue, i: nat)
    requires CacheOk(jcache.justified, jcache.sat.assigns)
    requires StepIn(f, i0, last, want, jcache.justified)
    requires stack.Valid() && stack.sizeValid > 0
    requires stack.Frames()[stack.sizeValid - 1].childIndex == i0 + 1
    modifies jcache, stack`stack
    ensures CacheOk(jcache.justified, jcache.sat.assigns)
    ensures Grows(old(jcache.justified), jcache.justified, None)
    ensures StepOut(f, i0, last, want, jcache.justified, jcache.sat.assigns, value, desired, i)
    ensures stack.Valid()
    ensures stack.Frames() == old(stack.Frames()[..stack.sizeValid - 1]) + [old(stack.Frames()[stack.sizeValid - 1]).(childIndex := i + 1)]
  {
    if f.Ite? {
      value, desired, i := StepIte(jcache, stack, f, i0, last, want);
      return;
    }
    i := i0;
    if f.And? || f.Or? {
      value, desired := StepAndOr(jcache, f, i0, last, want);
    } else if f.Implies? {
      value, desired := StepImplies(jcache, f, i0, last, want);
    } else {
      value, desired := StepXorIff(jcache, f, i0, last, want);
    }
  }

  /** The top formula was given its value, which is the one it was to have exactly
      when the child requested last has the value requested of it. */
  ghost predicate Settled(top: JustifyInfo, last: SatValue, last': SatValue, before: Cache, after: Cache) {
    var f := Base(top.node);
    && Grows(before, after, Some(f))
    && last' != SatUnknown && last' == Cached(after, top.node)
    && (0 < top.childIndex <= |Children(f)| ==>
          (last' == top.desired <==>
           last == Requested(f, top.childIndex - 1, Want(top), Cached(after, Children(f)[0]))))
  }

  /** The top frame moved on to request a later child. */
  ghost predicate Moved(top: JustifyInfo, top': JustifyInfo, child: Formula, desired: SatValue, before: Cache, after: Cache) {
    && Grows(before, after, None)
    && top'.node == top.node && top'.desired == top.desired && top.childIndex < top'.childIndex
    && FrameOk(top', after)
    && child == LastChild(top') && desired != SatUnknown
    && AskedFor(top', desired, after)
  }

  /** The child the frame requests with `desired` is the right one to ask for: nothing known
      settles the formula yet, and no other value is better for it. */
  ghost predicate Apt(top: JustifyInfo, desired: SatValue, cache: Cache, sigma: Assignment) {
    var f, k := Base(top.node), top.childIndex - 1;
    && IsConnective(f) && 0 <= k < |Children(f)|
    && Found(f, k, Want(top), Known(cache, sigma, f)) == SatUnknown
    && Best(f, k, desired, Want(top), Known(cache, sigma, f))
  }

  /** If some value of the child settles the formula as wanted, then the value asked for does:
      every completion in which the child has it gives the formula the wanted value. */
  lemma {:induction false} AptIsRight(top: JustifyInfo, desired: SatValue, other: SatValue, cache: Cache, sigma: Assignment,
                                      total: nat -> bool)
    requires CacheOk(cache, sigma) && Apt(top, desired, cache, sigma) && Completes(total, sigma)
    requires desired != SatUnknown && other != SatUnknown && top.desired != SatUnknown
    requires Combine(Base(top.node), Known(cache, sigma, Base(top.node))[top.childIndex - 1 := other]) == Want(top)
    requires FromBool(Holds(Children(Base(top.node))[top.childIndex - 1], total)) == desired
    ensures FromBool(Holds(top.node, total)) == top.desired
  {
    var f, k := Base(top.node), top.childIndex - 1;
    var vals := Known(cache, sigma, f)[k := desired];
    var truths := Truths(Children(f), total);
    forall i | 0 <= i < |vals| && vals[i] != SatUnknown
      ensures vals[i] == FromBool(truths[i])
    {
      if i != k {
        LookedIsKleene(cache, sigma, Children(f)[i]);
        KleeneSound(Children(f)[i], sigma, total);
      }
    }
    assert Combine(f, vals) == Want(top);
    CombineSound(f, vals, truths);
    HoldsByOp(f, total);
  }

  /** The value asked for is wrong only if both are, and true if neither settles the formula. */
  lemma AptIsNotWrong(top: JustifyInfo, desired: SatValue, cache: Cache, sigma: Assignment)
    requires Apt(top, desired, cache, sigma) && top.desired != SatUnknown && desired != SatUnknown
    ensures
      var f, k, vals := Base(top.node), top.childIndex - 1, Known(cache, sigma, Base(top.node));
      var with, against := Combine(f, vals[k := desired]), Combine(f, vals[k := desired.Invert()]);
      && (with == Want(top).Invert() ==> against == with)
      && (with == SatUnknown && against == SatUnknown ==> desired == SatTrue)
  {
  }

  lemma {:induction false} StepSettles(top: JustifyInfo, last: SatValue, before: Cache, mid: Cache, sigma: Assignment,
                    value: SatValue, desired: SatValue, k: nat)
    requires !Base(top.node).Not? && Base(top.node) !in mid && Grows(before, mid, None)
    requires value != SatUnknown && top.desired != SatUnknown
    requires StepOut(Base(top.node), top.childIndex, last, Want(top), mid, sigma, value, desired, k)
    ensures Settled(top, last, Polarized(top.node, value), before, mid[Base(top.node) := value])
  {
    var f := Base(top.node);
    if |Children(f)| > 0 {
      ChildIsLighter(f, 0);
      assert Base(Children(f)[0]) != f;
    }
  }

  lemma {:induction false} StepMoves(top: JustifyInfo, last: SatValue, before: Cache, mid: Cache, sigma: Assignment, desired: SatValue, k: nat)
    requires FrameOk(top, before) && Base(top.node) !in mid && Grows(before, mid, None)
    requires StepOut(Base(top.node), top.childIndex, last, Want(top), mid, sigma, SatUnknown, desired, k)
    ensures Moved(top, top.(childIndex := k + 1), Children(Base(top.node))[k], desired, before, mid)
    ensures Apt(top.(childIndex := k + 1), desired, mid, sigma)
  {
  }
}
