/** The doubly linked list of each scope, threaded through the context objects and
    their saved copies. */
module ScopeChains {
  import opened Formulas

  /** Objects and saved copies are cells of one store, named by their index. */
  type Cell = nat

  /** The address d_ppContextObjPrev holds: a scope's list head, or the next field of a cell. */
  datatype PrevLink = Head(level: nat) | NextOf(cell: Cell)

  datatype Link = Link(next: Option<Cell>, prev: PrevLink)

  /** `at` gives the scope of every cell that is in a list, and `stamp` grows along each
      list. While a scope is being popped, the prev field of its current head `stale`
      is out of date. */
  ghost predicate ChainsOk(links: seq<Link>, heads: seq<Option<Cell>>, at: map<Cell, nat>, stamp: map<Cell, int>,
                           stale: Option<Cell>)
  {
    && InStore(links, heads, at, stamp)
    && NextsOk(links, at, stamp)
    && PrevsOk(links, heads, at, stale)
    && HeadsOk(links, heads, at, stale)
    && StaleOk(links, heads, at, stale)
  }

  ghost predicate InStore(links: seq<Link>, heads: seq<Option<Cell>>, at: map<Cell, nat>, stamp: map<Cell, int>) {
    && stamp.Keys == at.Keys
    && forall c :: c in at ==> c < |links| && at[c] < |heads|
  }

  ghost predicate NextsOk(links: seq<Link>, at: map<Cell, nat>, stamp: map<Cell, int>)
    requires stamp.Keys == at.Keys && forall c :: c in at ==> c < |links|
  {
    forall c {:trigger NextOk(links, at, stamp, c)} :: c in at ==> NextOk(links, at, stamp, c)
  }

  ghost predicate PrevsOk(links: seq<Link>, heads: seq<Option<Cell>>, at: map<Cell, nat>, stale: Option<Cell>)
    requires forall c :: c in at ==> c < |links|
  {
    forall c {:trigger PrevOk(links, heads, at, c)} :: c in at && stale != Some(c) ==> PrevOk(links, heads, at, c)
  }

  ghost predicate HeadsOk(links: seq<Link>, heads: seq<Option<Cell>>, at: map<Cell, nat>, stale: Option<Cell>) {
    forall l {:trigger HeadOk(links, heads, at, stale, l)} :: 0 <= l < |heads| ==> HeadOk(links, heads, at, stale, l)
  }

  /** The head with the stale prev field is the head of the top scope, and no cell leads to it. */
  ghost predicate StaleOk(links: seq<Link>, heads: seq<Option<Cell>>, at: map<Cell, nat>, stale: Option<Cell>)
    requires forall c :: c in at ==> c < |links|
  {
    stale.Some? ==>
      && |heads| > 0 && heads[|heads| - 1] == stale
      && stale.value in at && at[stale.value] == |heads| - 1
      && forall c :: c in at ==> links[c].next != stale
  }

  ghost predicate HeadOk(links: seq<Link>, heads: seq<Option<Cell>>, at: map<Cell, nat>, stale: Option<Cell>, l: nat)
    requires l < |heads|
  {
    heads[l].Some? ==>
      && heads[l].value in at && at[heads[l].value] == l && heads[l].value < |links|
      && (stale != heads[l] ==> links[heads[l].value].prev == Head(l))
  }

  ghost predicate NextOk(links: seq<Link>, at: map<Cell, nat>, stamp: map<Cell, int>, c: Cell)
    requires c < |links| && c in at && stamp.Keys == at.Keys
  {
    var next := links[c].next;
    next.Some? ==>
      && next.value in at && next.value < |links|
      && links[next.value].prev == NextOf(c)
      && at[next.value] == at[c] && stamp[c] < stamp[next.value]
  }

  ghost predicate PrevOk(links: seq<Link>, heads: seq<Option<Cell>>, at: map<Cell, nat>, c: Cell)
    requires c < |links| && c in at
  {
    match links[c].prev
    case Head(l) => l == at[c] && l < |heads| && heads[l] == Some(c)
    case NextOf(b) => b in at && b < |links| && links[b].next == Some(c)
  }

  // ---- the three list operations, cell by cell ---------------------------

  ghost predicate Added(links: seq<Link>, heads: seq<Option<Cell>>, c: Cell, level: nat,
                        links': seq<Link>, heads': seq<Option<Cell>>)
    requires c < |links| && level < |heads|
  {
    && |links'| == |links| && heads' == heads[level := Some(c)]
    && links'[c] == Link(heads[level], Head(level))
    && forall x :: 0 <= x < |links| && x != c ==>
         links'[x] == links[x].(prev := if heads[level] == Some(x) then NextOf(c) else links[x].prev)
  }

  ghost predicate Substituted(links: seq<Link>, heads: seq<Option<Cell>>, a: Cell, b: Cell,
                              links': seq<Link>, heads': seq<Option<Cell>>)
    requires a < |links| && b < |links|
  {
    && |links'| == |links| && |heads'| == |heads|
    && links'[b] == links[a]
    && (forall x :: 0 <= x < |links| && x != b ==>
          links'[x] == Link(if links[a].prev == NextOf(x) then Some(b) else links[x].next,
                            if links[a].next == Some(x) then NextOf(b) else links[x].prev))
    && forall l :: 0 <= l < |heads| ==> heads'[l] == if links[a].prev == Head(l) then Some(b) else heads[l]
  }

  ghost predicate Unlinked(links: seq<Link>, heads: seq<Option<Cell>>, c: Cell,
                           links': seq<Link>, heads': seq<Option<Cell>>)
    requires c < |links|
  {
    && |links'| == |links| && |heads'| == |heads|
    && (forall x :: 0 <= x < |links| ==>
          links'[x] == Link(if links[c].prev == NextOf(x) then links[c].next else links[x].next,
                            if links[c].next == Some(x) then links[c].prev else links[x].prev))
    && forall l :: 0 <= l < |heads| ==> heads'[l] == if links[c].prev == Head(l) then links[c].next else heads[l]
  }

  lemma AddKeepsChains(links: seq<Link>, heads: seq<Option<Cell>>, at: map<Cell, nat>, stamp: map<Cell, int>,
                       c: Cell, level: nat, now: int, links': seq<Link>, heads': seq<Option<Cell>>)
    requires ChainsOk(links, heads, at, stamp, None) && c < |links| && c !in at && level < |heads|
    requires forall x :: x in stamp ==> now < stamp[x]
    requires Added(links, heads, c, level, links', heads')
    ensures ChainsOk(links', heads', at[c := level], stamp[c := now], None)
  {
    var at', stamp' := at[c := level], stamp[c := now];
    assert HeadOk(links, heads, at, None, level);
    forall x | x in at'
      ensures NextOk(links', at', stamp', x)
    {
      if x != c { assert NextOk(links, at, stamp, x); }
    }
    forall x | x in at'
      ensures PrevOk(links', heads', at', x)
    {
      if x != c { assert PrevOk(links, heads, at, x); }
    }
    forall l | 0 <= l < |heads'|
      ensures HeadOk(links', heads', at', None, l)
    {
      assert HeadOk(links, heads, at, None, l);
    }
  }

  lemma SubstituteNext(links: seq<Link>, heads: seq<Option<Cell>>, at: map<Cell, nat>, stamp: map<Cell, int>,
                       stale: Option<Cell>, a: Cell, b: Cell, links': seq<Link>, heads': seq<Option<Cell>>, x: Cell)
    requires ChainsOk(links, heads, at, stamp, stale) && a in at && stale != Some(a)
    requires b < |links| && b !in at
    requires Substituted(links, heads, a, b, links', heads')
    requires x == b || (x in at && x != a)
    ensures NextOk(links', (at - {a})[b := at[a]], (stamp - {a})[b := stamp[a]], x)
    ensures stale.Some? ==> links'[x].next != stale
  {
    assert NextOk(links, at, stamp, a) && PrevOk(links, heads, at, a);
    if x != b { assert NextOk(links, at, stamp, x); }
  }

  lemma SubstitutePrev(links: seq<Link>, heads: seq<Option<Cell>>, at: map<Cell, nat>, stamp: map<Cell, int>,
                       stale: Option<Cell>, a: Cell, b: Cell, links': seq<Link>, heads': seq<Option<Cell>>, x: Cell)
    requires ChainsOk(links, heads, at, stamp, stale) && a in at && stale != Some(a)
    requires b < |links| && b !in at
    requires Substituted(links, heads, a, b, links', heads')
    requires (x == b || (x in at && x != a)) && stale != Some(x)
    ensures PrevOk(links', heads', (at - {a})[b := at[a]], x)
  {
    assert NextOk(links, at, stamp, a) && PrevOk(links, heads, at, a);
    if x != b { assert PrevOk(links, heads, at, x); }
  }

  lemma SubstituteHead(links: seq<Link>, heads: seq<Option<Cell>>, at: map<Cell, nat>, stamp: map<Cell, int>,
                       stale: Option<Cell>, a: Cell, b: Cell, links': seq<Link>, heads': seq<Option<Cell>>, l: nat)
    requires ChainsOk(links, heads, at, stamp, stale) && a in at && stale != Some(a)
    requires b < |links| && b !in at && l < |heads|
    requires Substituted(links, heads, a, b, links', heads')
    ensures HeadOk(links', heads', (at - {a})[b := at[a]], stale, l)
    ensures stale.Some? && l == |heads| - 1 ==> heads'[l] == stale
  {
    assert NextOk(links, at, stamp, a) && PrevOk(links, heads, at, a);
    assert HeadOk(links, heads, at, stale, l);
  }

  lemma SubstituteNexts(links: seq<Link>, heads: seq<Option<Cell>>, at: map<Cell, nat>, stamp: map<Cell, int>,
                              stale: Option<Cell>, a: Cell, b: Cell, links': seq<Link>, heads': seq<Option<Cell>>)
    requires ChainsOk(links, heads, at, stamp, stale) && a in at && stale != Some(a)
    requires b < |links| && b !in at
    requires Substituted(links, heads, a, b, links', heads')
    ensures InStore(links', heads', (at - {a})[b := at[a]], (stamp - {a})[b := stamp[a]])
    ensures NextsOk(links', (at - {a})[b := at[a]], (stamp - {a})[b := stamp[a]])
  {
    var at', stamp' := (at - {a})[b := at[a]], (stamp - {a})[b := stamp[a]];
    forall x | x in at'
      ensures NextOk(links', at', stamp', x)
    {
      SubstituteNext(links, heads, at, stamp, stale, a, b, links', heads', x);
    }
  }

  lemma SubstitutePrevs(links: seq<Link>, heads: seq<Option<Cell>>, at: map<Cell, nat>, stamp: map<Cell, int>,
                              stale: Option<Cell>, a: Cell, b: Cell, links': seq<Link>, heads': seq<Option<Cell>>)
    requires ChainsOk(links, heads, at, stamp, stale) && a in at && stale != Some(a)
    requires b < |links| && b !in at
    requires Substituted(links, heads, a, b, links', heads')
    ensures InStore(links', heads', (at - {a})[b := at[a]], (stamp - {a})[b := stamp[a]])
    ensures PrevsOk(links', heads', (at - {a})[b := at[a]], stale)
  {
    var at' := (at - {a})[b := at[a]];
    forall x | x in at' && stale != Some(x)
      ensures PrevOk(links', heads', at', x)
    {
      SubstitutePrev(links, heads, at, stamp, stale, a, b, links', heads', x);
    }
  }

  lemma SubstituteHeads(links: seq<Link>, heads: seq<Option<Cell>>, at: map<Cell, nat>, stamp: map<Cell, int>,
                              stale: Option<Cell>, a: Cell, b: Cell, links': seq<Link>, heads': seq<Option<Cell>>)
    requires ChainsOk(links, heads, at, stamp, stale) && a in at && stale != Some(a)
    requires b < |links| && b !in at
    requires Substituted(links, heads, a, b, links', heads')
    ensures InStore(links', heads', (at - {a})[b := at[a]], (stamp - {a})[b := stamp[a]])
    ensures HeadsOk(links', heads', (at - {a})[b := at[a]], stale)
    ensures StaleOk(links', heads', (at - {a})[b := at[a]], stale)
  {
    var at' := (at - {a})[b := at[a]];
    forall l | 0 <= l < |heads'|
      ensures HeadOk(links', heads', at', stale, l)
    {
      SubstituteHead(links, heads, at, stamp, stale, a, b, links', heads', l);
    }
    if stale.Some? {
      SubstituteHead(links, heads, at, stamp, stale, a, b, links', heads', |heads| - 1);
      forall x | x in at'
        ensures links'[x].next != stale
      {
        SubstituteNext(links, heads, at, stamp, stale, a, b, links', heads', x);
      }
    }
  }

  lemma SubstituteKeepsChains(links: seq<Link>, heads: seq<Option<Cell>>, at: map<Cell, nat>, stamp: map<Cell, int>,
                              stale: Option<Cell>, a: Cell, b: Cell, links': seq<Link>, heads': seq<Option<Cell>>)
    requires ChainsOk(links, heads, at, stamp, stale) && a in at && stale != Some(a)
    requires b < |links| && b !in at
    requires Substituted(links, heads, a, b, links', heads')
    ensures ChainsOk(links', heads', (at - {a})[b := at[a]], (stamp - {a})[b := stamp[a]], stale)
  {
    SubstituteNexts(links, heads, at, stamp, stale, a, b, links', heads');
    SubstitutePrevs(links, heads, at, stamp, stale, a, b, links', heads');
    SubstituteHeads(links, heads, at, stamp, stale, a, b, links', heads');
  }

  lemma UnlinkCell(links: seq<Link>, heads: seq<Option<Cell>>, at: map<Cell, nat>, stamp: map<Cell, int>,
                   stale: Option<Cell>, c: Cell, links': seq<Link>, heads': seq<Option<Cell>>, x: Cell)
    requires ChainsOk(links, heads, at, stamp, stale) && c in at && stale != Some(c)
    requires Unlinked(links, heads, c, links', heads')
    requires x in at && x != c
    ensures NextOk(links', at - {c}, stamp - {c}, x)
    ensures stale.Some? ==> links'[x].next != stale
    ensures stale != Some(x) ==> PrevOk(links', heads', at - {c}, x)
  {
    assert NextOk(links, at, stamp, c) && PrevOk(links, heads, at, c);
    assert NextOk(links, at, stamp, x);
    assert stale != Some(x) ==> PrevOk(links, heads, at, x);
  }

  lemma UnlinkHead(links: seq<Link>, heads: seq<Option<Cell>>, at: map<Cell, nat>, stamp: map<Cell, int>,
                   stale: Option<Cell>, c: Cell, links': seq<Link>, heads': seq<Option<Cell>>, l: nat)
    requires ChainsOk(links, heads, at, stamp, stale) && c in at && stale != Some(c)
    requires Unlinked(links, heads, c, links', heads') && l < |heads|
    ensures HeadOk(links', heads', at - {c}, stale, l)
    ensures stale.Some? && l == |heads| - 1 ==> heads'[l] == stale
  {
    assert NextOk(links, at, stamp, c) && PrevOk(links, heads, at, c);
    assert HeadOk(links, heads, at, stale, l);
  }

  lemma UnlinkNexts(links: seq<Link>, heads: seq<Option<Cell>>, at: map<Cell, nat>, stamp: map<Cell, int>,
                          stale: Option<Cell>, c: Cell, links': seq<Link>, heads': seq<Option<Cell>>)
    requires ChainsOk(links, heads, at, stamp, stale) && c in at && stale != Some(c)
    requires Unlinked(links, heads, c, links', heads')
    ensures InStore(links', heads', at - {c}, stamp - {c})
    ensures NextsOk(links', at - {c}, stamp - {c})
  {
    var at', stamp' := at - {c}, stamp - {c};
    forall x | x in at'
      ensures NextOk(links', at', stamp', x)
    {
      UnlinkCell(links, heads, at, stamp, stale, c, links', heads', x);
    }
  }

  lemma UnlinkPrevs(links: seq<Link>, heads: seq<Option<Cell>>, at: map<Cell, nat>, stamp: map<Cell, int>,
                          stale: Option<Cell>, c: Cell, links': seq<Link>, heads': seq<Option<Cell>>)
    requires ChainsOk(links, heads, at, stamp, stale) && c in at && stale != Some(c)
    requires Unlinked(links, heads, c, links', heads')
    ensures InStore(links', heads', at - {c}, stamp - {c})
    ensures PrevsOk(links', heads', at - {c}, stale)
  {
    var at' := at - {c};
    forall x | x in at' && stale != Some(x)
      ensures PrevOk(links', heads', at', x)
    {
      UnlinkCell(links, heads, at, stamp, stale, c, links', heads', x);
    }
  }

  lemma UnlinkHeads(links: seq<Link>, heads: seq<Option<Cell>>, at: map<Cell, nat>, stamp: map<Cell, int>,
                          stale: Option<Cell>, c: Cell, links': seq<Link>, heads': seq<Option<Cell>>)
    requires ChainsOk(links, heads, at, stamp, stale) && c in at && stale != Some(c)
    requires Unlinked(links, heads, c, links', heads')
    ensures InStore(links', heads', at - {c}, stamp - {c})
    ensures HeadsOk(links', heads', at - {c}, stale)
    ensures StaleOk(links', heads', at - {c}, stale)
  {
    var at' := at - {c};
    forall l | 0 <= l < |heads'|
      ensures HeadOk(links', heads', at', stale, l)
    {
      UnlinkHead(links, heads, at, stamp, stale, c, links', heads', l);
    }
    if stale.Some? {
      UnlinkHead(links, heads, at, stamp, stale, c, links', heads', |heads| - 1);
      forall x | x in at'
        ensures links'[x].next != stale
      {
        UnlinkCell(links, heads, at, stamp, stale, c, links', heads', x);
      }
    }
  }

  lemma UnlinkKeepsChains(links: seq<Link>, heads: seq<Option<Cell>>, at: map<Cell, nat>, stamp: map<Cell, int>,
                          stale: Option<Cell>, c: Cell, links': seq<Link>, heads': seq<Option<Cell>>)
    requires ChainsOk(links, heads, at, stamp, stale) && c in at && stale != Some(c)
    requires Unlinked(links, heads, c, links', heads')
    ensures ChainsOk(links', heads', at - {c}, stamp - {c}, stale)
  {
    UnlinkNexts(links, heads, at, stamp, stale, c, links', heads');
    UnlinkPrevs(links, heads, at, stamp, stale, c, links', heads');
    UnlinkHeads(links, heads, at, stamp, stale, c, links', heads');
  }

  /** The head of the scope being popped leaves its list; the next cell's prev is now stale. */
  lemma DropHead(links: seq<Link>, heads: seq<Option<Cell>>, at: map<Cell, nat>, stamp: map<Cell, int>,
                 stale: Option<Cell>, o: Cell)
    requires ChainsOk(links, heads, at, stamp, stale) && o in at && stale in {None, Some(o)}
    requires |heads| > 0 && heads[|heads| - 1] == Some(o)
    ensures ChainsOk(links, heads[|heads| - 1 := links[o].next], at - {o}, stamp - {o}, links[o].next)
  {
    var top, at', stamp' := |heads| - 1, at - {o}, stamp - {o};
    var heads' := heads[top := links[o].next];
    assert HeadOk(links, heads, at, stale, top) && NextOk(links, at, stamp, o);
    forall x | x in at'
      ensures NextOk(links, at', stamp', x) && links[x].next != Some(o)
      ensures links[o].next.Some? ==> links[x].next != links[o].next
    {
      assert NextOk(links, at, stamp, x);
    }
    forall x | x in at' && links[o].next != Some(x)
      ensures PrevOk(links, heads', at', x)
    {
      assert PrevOk(links, heads, at, x);
    }
    forall l | 0 <= l < |heads'|
      ensures HeadOk(links, heads', at', links[o].next, l)
    {
      assert HeadOk(links, heads, at, stale, l);
    }
  }

  /** The head o of the popped scope takes the place of its saved copy r. */
  lemma MoveBackKeepsChains(links: seq<Link>, heads: seq<Option<Cell>>, at: map<Cell, nat>, stamp: map<Cell, int>,
                            stale: Option<Cell>, o: Cell, r: Cell, links': seq<Link>, mid: seq<Option<Cell>>)
    requires ChainsOk(links, heads, at, stamp, stale) && o in at && stale in {None, Some(o)}
    requires |heads| > 0 && heads[|heads| - 1] == Some(o)
    requires r in at && at[r] < |heads| - 1
    requires Substituted(links, heads, r, o, links', mid)
    ensures ChainsOk(links', mid[|heads| - 1 := links[o].next], (at - {r})[o := at[r]], (stamp - {r})[o := stamp[r]], links[o].next)
  {
    var top, next := |heads| - 1, links[o].next;
    assert HeadOk(links, heads, at, stale, top);
    assert PrevOk(links, heads, at, r);
    DropHead(links, heads, at, stamp, stale, o);
    assert Substituted(links, heads[top := next], r, o, links', mid[top := next]);
    SubstituteKeepsChains(links, heads[top := next], at - {o}, stamp - {o}, next, r, o, links', mid[top := next]);
    assert (at - {o} - {r})[o := at[r]] == (at - {r})[o := at[r]];
    assert (stamp - {o} - {r})[o := stamp[r]] == (stamp - {r})[o := stamp[r]];
  }

  /** A scope whose list head is null has no cells: every list is reached from its head. */
  lemma EmptyChain(links: seq<Link>, heads: seq<Option<Cell>>, at: map<Cell, nat>, stamp: map<Cell, int>,
                   stale: Option<Cell>, level: nat, cells: set<Cell>)
    requires ChainsOk(links, heads, at, stamp, stale) && level < |heads| && heads[level] == None
    requires forall c :: c in at && at[c] == level ==> c in cells
    ensures forall c :: c in at ==> at[c] != level
  {
    if c :| c in at && at[c] == level {
      Earliest(links, heads, at, stamp, stale, level, c, cells);
    }
  }

  /** Following prev from a cell reaches the head, because stamps go down. */
  lemma {:induction false} Earliest(links: seq<Link>, heads: seq<Option<Cell>>, at: map<Cell, nat>, stamp: map<Cell, int>,
                                    stale: Option<Cell>, level: nat, c: Cell, cells: set<Cell>)
    requires ChainsOk(links, heads, at, stamp, stale) && level < |heads|
    requires c in at && at[c] == level
    requires forall x :: x in at && at[x] == level && stamp[x] <= stamp[c] ==> x in cells
    ensures heads[level].Some?
    decreases cells
  {
    if stale != Some(c) {
      assert PrevOk(links, heads, at, c);
      if links[c].prev.NextOf? {
        var b := links[c].prev.cell;
        assert NextOk(links, at, stamp, b);
        Earliest(links, heads, at, stamp, stale, level, b, cells - {c});
      }
    }
  }

  class Chains {
    var links: seq<Link>
    var heads: seq<Option<Cell>>
    ghost var at: map<Cell, nat>
    ghost var stamp: map<Cell, int>
    ghost var stale: Option<Cell>
    ghost var clock: int

    ghost predicate Valid()
      reads this
    {
      && |heads| > 0 && ChainsOk(links, heads, at, stamp, stale)
      && (forall c :: c in stamp ==> clock < stamp[c])
    }

    constructor ()
      ensures Valid() && at == map[] && |heads| == 1 && links == [] && stale == None
    {
      links, heads := [], [None];
      at, stamp, stale, clock := map[], map[], None, 0;
    }

    /** A cell that is in no list yet. */
    method NewCell() returns (c: Cell)
      requires Valid()
      modifies this`links
      ensures Valid() && c == old(|links|) && |links| == c + 1 && c !in at
    {
      c := |links|;
      links := links + [Link(None, Head(0))];
      forall l | 0 <= l < |heads|
        ensures HeadOk(links, heads, at, stale, l)
      {
        assert HeadOk(old(links), heads, at, stale, l);
      }
      forall x | x in at
        ensures NextOk(links, at, stamp, x) && (stale != Some(x) ==> PrevOk(links, heads, at, x))
      {
        assert NextOk(old(links), at, stamp, x);
        assert stale != Some(x) ==> PrevOk(old(links), heads, at, x);
      }
    }

    /** *prev = v */
    method WriteThrough(p: PrevLink, v: Option<Cell>)
      requires p.Head? ==> p.level < |heads|
      requires p.NextOf? ==> p.cell < |links|
      modifies this`links, this`heads
      ensures links == (if p.NextOf? then old(links)[p.cell := old(links)[p.cell].(next := v)] else old(links))
      ensures heads == (if p.Head? then old(heads)[p.level := v] else old(heads))
    {
      match p
      case Head(l) => heads := heads[l := v];
      case NextOf(b) => links := links[b := links[b].(next := v)];
    }

    method PushFront(c: Cell, level: nat)
      requires c < |links| && level < |heads|
      requires heads[level].Some? ==> heads[level].value < |links| && heads[level].value != c
      modifies this`links, this`heads
      ensures Added(old(links), old(heads), c, level, links, heads)
    {
      if heads[level].Some? {
        var h := heads[level].value;
        links := links[h := links[h].(prev := NextOf(c))];
      }
      links := links[c := Link(heads[level], Head(level))];
      heads := heads[level := Some(c)];
    }

    method AddToChain(c: Cell, level: nat)
      requires Valid() && stale == None
      requires c < |links| && c !in at && level < |heads|
      modifies this
      ensures Valid() && stale == None && at == old(at)[c := level]
      ensures Added(old(links), old(heads), c, level, links, heads)
    {
      assert HeadOk(links, heads, at, None, level);
      PushFront(c, level);
      AddKeepsChains(old(links), old(heads), at, stamp, c, level, clock, links, heads);
      at, stamp, clock := at[c := level], stamp[c := clock], clock - 1;
    }

    /** A cell whose fields lead to other cells than `but`, or to a list head. */
    ghost predicate Surrounded(c: Cell, but: Cell)
      reads this
    {
      && c < |links|
      && (links[c].next.Some? ==> links[c].next.value < |links| && links[c].next.value != but)
      && match links[c].prev
         case Head(l) => l < |heads|
         case NextOf(b) => b < |links| && b != but
    }

    method Splice(a: Cell, b: Cell)
      requires b < |links| && Surrounded(a, b)
      modifies this`links, this`heads
      ensures Substituted(old(links), old(heads), a, b, links, heads)
    {
      links := links[b := links[a]];
      if links[b].next.Some? {
        var d := links[b].next.value;
        links := links[d := links[d].(prev := NextOf(b))];
      }
      WriteThrough(links[b].prev, Some(b));
    }

    /** b takes the place a has in its list. */
    method Substitute(a: Cell, b: Cell)
      requires Valid() && a in at && stale != Some(a)
      requires b < |links| && b !in at
      modifies this
      ensures Valid() && stale == old(stale) && at == (old(at) - {a})[b := old(at)[a]]
      ensures Substituted(old(links), old(heads), a, b, links, heads)
    {
      ghost var links0, heads0 := links, heads;
      ghost var at', stamp' := (at - {a})[b := at[a]], (stamp - {a})[b := stamp[a]];
      assert NextOk(links, at, stamp, a) && PrevOk(links, heads, at, a);
      Splice(a, b);
      SubstituteKeepsChains(links0, heads0, at, stamp, stale, a, b, links, heads);
      at, stamp := at', stamp';
    }

    method Bypass(c: Cell)
      requires Surrounded(c, c)
      modifies this`links, this`heads
      ensures Unlinked(old(links), old(heads), c, links, heads)
    {
      if links[c].next.Some? {
        var d := links[c].next.value;
        links := links[d := links[d].(prev := links[c].prev)];
      }
      WriteThrough(links[c].prev, links[c].next);
    }

    method Unlink(c: Cell)
      requires Valid() && c in at && stale != Some(c)
      modifies this
      ensures Valid() && stale == old(stale) && at == old(at) - {c}
      ensures Unlinked(old(links), old(heads), c, links, heads)
    {
      assert NextOk(links, at, stamp, c) && PrevOk(links, heads, at, c);
      assert links[c].next != Some(c) && links[c].prev != NextOf(c);
      Bypass(c);
      UnlinkKeepsChains(old(links), old(heads), at, stamp, stale, c, links, heads);
      at, stamp := at - {c}, stamp - {c};
    }

    /** A new cell s takes the place of o, and o goes to the front of the top scope. */
    method LeaveCopy(o: Cell) returns (s: Cell)
      requires Valid() && stale == None && o in at
      modifies this
      ensures Valid() && stale == None && |heads| == old(|heads|)
      ensures s == old(|links|) && |links| == s + 1
      ensures at == old(at)[s := old(at)[o]][o := |heads| - 1]
    {
      s := NewCell();
      Substitute(o, s);
      AddToChain(o, |heads| - 1);
      assert at == (old(at) - {o})[s := old(at)[o]][o := |heads| - 1];
    }

    /** o leaves its list and takes the place of r. */
    method MoveTo(o: Cell, r: Cell)
      requires Valid() && o in at && r in at && o != r && stale != Some(o) && stale != Some(r)
      modifies this
      ensures Valid() && stale == old(stale) && |heads| == old(|heads|) && |links| == old(|links|)
      ensures at == (old(at) - {r})[o := old(at)[r]]
    {
      Unlink(o);
      Substitute(r, o);
      assert at == (old(at) - {o} - {r})[o := old(at)[r]];
    }

    method OpenScope()
      requires Valid() && stale == None
      modifies this`heads
      ensures Valid() && heads == old(heads) + [None]
    {
      heads := heads + [None];
      forall l | 0 <= l < |heads|
        ensures HeadOk(links, heads, at, None, l)
      {
        assert l < |heads| - 1 ==> HeadOk(links, old(heads), at, None, l);
      }
      forall c | c in at
        ensures PrevOk(links, heads, at, c)
      {
        assert PrevOk(links, old(heads), at, c);
      }
    }

    method CloseScope()
      requires Valid() && stale == None && |heads| > 1 && heads[|heads| - 1] == None
      modifies this`heads
      ensures Valid() && heads == old(heads[..|heads| - 1])
    {
      var top := |heads| - 1;
      EmptyChain(links, heads, at, stamp, stale, top, at.Keys);
      heads := heads[..top];
      forall l | 0 <= l < |heads|
        ensures HeadOk(links, heads, at, None, l)
      {
        assert HeadOk(links, old(heads), at, None, l);
      }
      forall c | c in at
        ensures PrevOk(links, heads, at, c)
      {
        assert PrevOk(links, old(heads), at, c);
      }
    }

    /** When a pop starts, nothing relies on the prev field of the first cell. */
    ghost method BeginPop()
      requires Valid() && stale == None
      modifies this`stale
      ensures Valid() && stale == heads[|heads| - 1]
    {
      stale := heads[|heads| - 1];
      if stale.Some? {
        assert HeadOk(links, heads, at, None, |heads| - 1);
        forall c | c in at
          ensures links[c].next != stale
        {
          assert NextOk(links, at, stamp, c);
        }
        forall l | 0 <= l < |heads|
          ensures HeadOk(links, heads, at, stale, l)
        {
          assert HeadOk(links, heads, at, None, l);
        }
      }
    }

    /** The head o of the scope being popped goes back to the place of its saved copy r. */
    method MoveHeadBack(o: Cell, r: Cell)
      requires Valid() && o in at && stale in {None, Some(o)}
      requires heads[|heads| - 1] == Some(o)
      requires r in at && at[r] < |heads| - 1
      modifies this
      ensures |heads| == old(|heads|)
      ensures Valid() && stale == old(links)[o].next && heads[|heads| - 1] == stale
      ensures |links| == old(|links|)
      ensures at == (old(at) - {r})[o := old(at)[r]]
    {
      ghost var at', stamp' := (at - {r})[o := at[r]], (stamp - {r})[o := stamp[r]];
      var next := SpliceHead(o, r);
      at, stamp, stale := at', stamp', next;
    }

    method SpliceHead(o: Cell, r: Cell) returns (next: Option<Cell>)
      requires Valid() && o in at && stale in {None, Some(o)}
      requires heads[|heads| - 1] == Some(o)
      requires r in at && at[r] < |heads| - 1
      modifies this`links, this`heads
      ensures |heads| == old(|heads|) && |links| == old(|links|)
      ensures next == old(links)[o].next && heads[|heads| - 1] == next
      ensures ChainsOk(links, heads, (at - {r})[o := at[r]], (stamp - {r})[o := stamp[r]], next)
    {
      next := links[o].next;
      ghost var links0, heads0 := links, heads;
      MoveBackSurrounded(o, r);
      Splice(r, o);
      MoveBackKeepsChains(links0, heads0, at, stamp, stale, o, r, links, heads);
      heads := heads[|heads| - 1 := next];
    }

    lemma MoveBackSurrounded(o: Cell, r: Cell)
      requires Valid() && o in at && heads[|heads| - 1] == Some(o)
      requires r in at && at[r] < |heads| - 1
      ensures Surrounded(r, o) && r != o
    {
      assert HeadOk(links, heads, at, stale, |heads| - 1);
      assert NextOk(links, at, stamp, r) && PrevOk(links, heads, at, r);
      if links[r].prev.NextOf? {
        assert NextOk(links, at, stamp, links[r].prev.cell);
      }
    }
  }
}
