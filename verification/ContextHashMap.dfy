/** A context-dependent map: a hash table over elements that save themselves, kept in
    insertion order by a circular list. */
module ContextHashMap {
  import opened Sequences
  import opened Formulas
  import opened LazySaves

  type Cell = nat

  // ---- the circular list -------------------------------------------------

  datatype RingLink = RingLink(prev: Cell, next: Cell)

  function Next(order: seq<Cell>, i: nat): Cell
    requires i < |order|
  {
    if i + 1 < |order| then order[i + 1] else order[0]
  }

  function Prev(order: seq<Cell>, i: nat): Cell
    requires i < |order|
  {
    if i > 0 then order[i - 1] else order[|order| - 1]
  }

  /** The links go round through `order`, starting at `first`. */
  ghost predicate RingOk(links: seq<RingLink>, first: Option<Cell>, order: seq<Cell>) {
    && Distinct(order)
    && first == (if order == [] then None else Some(order[0]))
    && (forall i :: 0 <= i < |order| ==> order[i] < |links|)
    && (forall i {:trigger LinkOk(links, order, i)} :: 0 <= i < |order| ==> LinkOk(links, order, i))
  }

  ghost predicate LinkOk(links: seq<RingLink>, order: seq<Cell>, i: nat)
    requires i < |order|
  {
    order[i] < |links| && links[order[i]] == RingLink(Prev(order, i), Next(order, i))
  }

  function Drop(order: seq<Cell>, p: nat): seq<Cell>
    requires p < |order|
  {
    order[..p] + order[p + 1..]
  }

  /** Field by field, what linking cell c in between last and f does. */
  ghost predicate LinkedIn(links: seq<RingLink>, c: Cell, last: Cell, f: Cell, links': seq<RingLink>) {
    && c == |links| && |links'| == c + 1 && links'[c] == RingLink(last, f)
    && forall x :: 0 <= x < |links| ==>
         links'[x] == RingLink(if x == f then c else links[x].prev, if x == last then c else links[x].next)
  }

  /** A new cell linked in before the first one, or to itself when it is the only one. */
  ghost predicate LinkedLast(links: seq<RingLink>, order: seq<Cell>, links': seq<RingLink>) {
    if order == [] then links' == links + [RingLink(|links|, |links|)]
    else order[0] < |links| && LinkedIn(links, |links|, links[order[0]].prev, order[0], links')
  }

  /** Field by field, what unlinking cell c does. */
  ghost predicate LinkedOut(links: seq<RingLink>, c: Cell, links': seq<RingLink>)
    requires c < |links|
  {
    && |links'| == |links|
    && forall x :: 0 <= x < |links| ==>
         links'[x] == RingLink(if x == links[c].next then links[c].prev else links[x].prev,
                               if x == links[c].prev then links[c].next else links[x].next)
  }

  /** The head of the list once cell c is unlinked. */
  function FirstWithout(links: seq<RingLink>, first: Option<Cell>, c: Cell): Option<Cell>
    requires c < |links|
  {
    if first != Some(c) then first else if links[c].next == c then None else Some(links[c].next)
  }

  /** Linking a new cell in before the first one puts it last. */
  lemma RingAppend(links: seq<RingLink>, first: Option<Cell>, order: seq<Cell>, links': seq<RingLink>)
    requires RingOk(links, first, order)
    requires LinkedLast(links, order, links')
    ensures RingOk(links', if first.None? then Some(|links|) else first, order + [|links|])
  {
    var order' := order + [|links|];
    if order != [] {
      assert LinkOk(links, order, 0);
      forall i | 0 <= i < |order'|
        ensures LinkOk(links', order', i)
      {
        if i < |order| { assert LinkOk(links, order, i); }
      }
    }
  }

  lemma DropDistinct(order: seq<Cell>, p: nat)
    requires Distinct(order) && p < |order|
    ensures Distinct(Drop(order, p)) && order[p] !in Drop(order, p)
    ensures forall x :: x in Drop(order, p) <==> x in order && x != order[p]
  {
    var order' := Drop(order, p);
    forall x | x in order && x != order[p]
      ensures x in order'
    {
      var j :| 0 <= j < |order| && order[j] == x;
      assert order'[if j < p then j else j - 1] == x;
    }
  }

  /** Unlinking a cell takes it out of the order. */
  lemma RingRemove(links: seq<RingLink>, first: Option<Cell>, order: seq<Cell>, p: nat, links': seq<RingLink>, first': Option<Cell>)
    requires RingOk(links, first, order) && p < |order| && LinkedOut(links, order[p], links')
    requires first' == FirstWithout(links, first, order[p])
    ensures RingOk(links', first', Drop(order, p))
  {
    DropDistinct(order, p);
    var order' := Drop(order, p);
    forall i | 0 <= i < |order'|
      ensures LinkOk(links', order', i)
    {
      RingRemoveAt(links, first, order, p, links', i);
    }
    RingRemoveFirst(links, first, order, p);
  }

  lemma RingRemoveFirst(links: seq<RingLink>, first: Option<Cell>, order: seq<Cell>, p: nat)
    requires RingOk(links, first, order) && p < |order|
    ensures FirstWithout(links, first, order[p]) == if Drop(order, p) == [] then None else Some(Drop(order, p)[0])
  {
    assert LinkOk(links, order, p);
  }

  lemma RingRemoveAt(links: seq<RingLink>, first: Option<Cell>, order: seq<Cell>, p: nat, links': seq<RingLink>, i: nat)
    requires RingOk(links, first, order) && p < |order| && LinkedOut(links, order[p], links')
    requires i < |Drop(order, p)|
    ensures LinkOk(links', Drop(order, p), i)
  {
    var order' := Drop(order, p);
    var j := if i < p then i else i + 1;
    var x := order[j];
    assert order'[i] == x;
    assert LinkOk(links, order, p) && LinkOk(links, order, j);
    assert x == Next(order, p) <==> j == if p + 1 < |order| then p + 1 else 0;
    assert x == Prev(order, p) <==> j == if p > 0 then p - 1 else |order| - 1;
  }

  // ---- the elements ------------------------------------------------------

  /** What an element saves: its data, and whether d_map was set. */
  datatype Memo<V> = Memo(data: V, inMap: bool)

  datatype Element<K, V> = Element(key: K, data: V, scope: nat, saved: seq<Saved<Memo<V>>>)

  /** Only the version an element starts with can be outside the map. */
  ghost predicate ElementOk<K, V>(e: Element<K, V>, level: nat) {
    && ChainOk(e.saved, e.scope, level)
    && forall i :: 1 <= i < |e.saved| ==> e.saved[i].memo.inMap
  }

  ghost function MemoOf<K, V>(e: Element<K, V>, l: nat): Memo<V> {
    MemoAt(e.saved, e.scope, Memo(e.data, true), l)
  }

  ghost predicate HasScope<K, V>(e: Element<K, V>, l: nat) {
    e.scope == l || exists i :: 0 <= i < |e.saved| && e.saved[i].scope == l
  }

  ghost predicate InStore<K, V>(elems: seq<Element<K, V>>, order: seq<Cell>) {
    forall i :: 0 <= i < |order| ==> order[i] < |elems|
  }

  /** Keys and values in insertion order. */
  ghost function View<K, V>(elems: seq<Element<K, V>>, order: seq<Cell>): seq<(K, V)>
    requires InStore(elems, order)
  {
    seq(|order|, i requires 0 <= i < |order| => (elems[order[i]].key, elems[order[i]].data))
  }

  /** The part of the view that was there at scope l, with the values of that time. */
  ghost function ViewAt<K, V>(elems: seq<Element<K, V>>, order: seq<Cell>, l: nat): seq<(K, V)>
    requires InStore(elems, order)
  {
    if order == [] then []
    else
      var n := |order| - 1;
      var memo := MemoOf(elems[order[n]], l);
      ViewAt(elems, order[..n], l) + if memo.inMap then [(elems[order[n]].key, memo.data)] else []
  }

  lemma {:induction false} ViewAtSame<K, V>(elems: seq<Element<K, V>>, elems': seq<Element<K, V>>, order: seq<Cell>, l: nat)
    requires InStore(elems, order) && InStore(elems', order)
    requires forall i :: 0 <= i < |order| ==>
      elems'[order[i]].key == elems[order[i]].key && MemoOf(elems'[order[i]], l) == MemoOf(elems[order[i]], l)
    ensures ViewAt(elems', order, l) == ViewAt(elems, order, l)
  {
    if order == [] {
    } else {
      ViewAtSame(elems, elems', order[..|order| - 1], l);
    }
  }

  /** An element outside the map at scope l does not show there. */
  lemma {:induction false} ViewAtDrop<K, V>(elems: seq<Element<K, V>>, order: seq<Cell>, p: nat, l: nat)
    requires InStore(elems, order)
    requires p < |order| && !MemoOf(elems[order[p]], l).inMap
    ensures InStore(elems, Drop(order, p))
    ensures ViewAt(elems, Drop(order, p), l) == ViewAt(elems, order, l)
  {
    var n := |order| - 1;
    assert forall i :: 0 <= i < n ==> order[..n][i] == order[i];
    if p == n {
      assert Drop(order, p) == order[..n];
    } else {
      ViewAtDrop(elems, order[..n], p, l);
      DropFront(order, p);
    }
  }

  lemma DropFront(order: seq<Cell>, p: nat)
    requires p < |order| - 1
    ensures
      var n, d := |order| - 1, Drop(order, p);
      |d| == n && d[..n - 1] == Drop(order[..n], p) && d[n - 1] == order[n]
  {
  }

  /** Once nothing is newer than scope l, the view of that scope is the current one. */
  lemma {:induction false} ViewAtCurrent<K, V>(elems: seq<Element<K, V>>, order: seq<Cell>, l: nat)
    requires InStore(elems, order) && forall i :: 0 <= i < |order| ==> elems[order[i]].scope <= l
    ensures ViewAt(elems, order, l) == View(elems, order)
  {
    if order == [] {
    } else {
      var n := |order| - 1;
      ViewAtCurrent(elems, order[..n], l);
      assert View(elems, order) == View(elems, order[..n]) + [(elems[order[n]].key, elems[order[n]].data)];
    }
  }

  /** The hash table and the circular list hold the same elements. */
  ghost predicate TableOk<K, V>(elems: seq<Element<K, V>>, order: seq<Cell>, table: map<K, Cell>) {
    && (forall c :: c in order ==> c < |elems| && elems[c].key in table && table[elems[c].key] == c)
    && (forall k :: k in table ==> table[k] in order && table[k] < |elems| && elems[table[k]].key == k)
  }

  /** A removed element was in no older scope, so every older view keeps its entries. */
  lemma RemovedIsNew<K, V>(e: Element<K, V>, level: nat, l: nat)
    requires ElementOk(e, level) && e.scope == level && l < level
    requires e.saved != [] && !e.saved[|e.saved| - 1].memo.inMap
    ensures !MemoOf(e, l).inMap
    ensures forall s :: 0 < s < level ==> !HasScope(e, s)
  {
    assert |e.saved| == 1;
    assert e.saved[0].scope == 0;
    MemoAtIsSaved(e.saved, e.scope, Memo(e.data, true), level, l);
  }

  /** Going back to the saved data changes nothing below the scope being popped. */
  lemma RestoredElement<K, V>(e: Element<K, V>, level: nat)
    requires ElementOk(e, level) && e.scope == level && level > 0
    ensures e.saved != []
    ensures
      var last := e.saved[|e.saved| - 1];
      var e' := Element(e.key, last.memo.data, last.scope, e.saved[..|e.saved| - 1]);
      last.memo.inMap ==>
        && ElementOk(e', level - 1)
        && (forall l :: 0 <= l < level ==> MemoOf(e', l) == MemoOf(e, l))
        && (forall s :: 0 <= s < level ==> (HasScope(e', s) <==> HasScope(e, s)))
  {
    RestoreKeepsMemos(e.saved, e.scope, Memo(e.data, true), 0);
    var n := |e.saved| - 1;
    var last := e.saved[n];
    var e' := Element(e.key, last.memo.data, last.scope, e.saved[..n]);
    if last.memo.inMap {
      forall l | 0 <= l < level
        ensures MemoOf(e', l) == MemoOf(e, l)
      {
        RestoreKeepsMemos(e.saved, e.scope, Memo(e.data, true), l);
      }
      forall s | 0 <= s < level && HasScope(e, s)
        ensures HasScope(e', s)
      {
        var i :| 0 <= i < |e.saved| && e.saved[i].scope == s;
        if i < n { assert e'.saved[i].scope == s; }
      }
      forall s | 0 <= s < level && HasScope(e', s)
        ensures HasScope(e, s)
      {
        if e'.scope == s { assert e.saved[n].scope == s; }
        else {
          var i :| 0 <= i < |e'.saved| && e'.saved[i].scope == s;
          assert e.saved[i].scope == s;
        }
      }
    }
  }

  lemma ChangedMemos<K, V>(e: Element<K, V>, level: nat, v: V, l: nat)
    requires ElementOk(e, level) && l < level
    ensures MemoOf(Changed(e, level, v), l) == MemoOf(e, l)
  {
    if e.scope == level {
      MemoAtIsSaved(e.saved, e.scope, Memo(e.data, true), level, l);
    } else {
      SaveKeepsMemos(e.saved, e.scope, Memo(e.data, true), Memo(v, true), level, l);
    }
  }

  lemma ChangedScopes<K, V>(e: Element<K, V>, level: nat, v: V, s: nat)
    requires ElementOk(e, level) && s <= level
    ensures HasScope(Changed(e, level, v), s) <==> HasScope(e, s) || s == level
  {
    if e.scope != level {
      var e', n := Changed(e, level, v), |e.saved|;
      assert e'.saved[n].scope == e.scope;
      assert forall i :: 0 <= i < n ==> e'.saved[i] == e.saved[i];
    }
  }

  /** Saving an element and changing its data changes nothing below the current scope. */
  lemma ChangedElement<K, V>(e: Element<K, V>, level: nat, v: V)
    requires ElementOk(e, level)
    ensures
      var e' := Changed(e, level, v);
      && ElementOk(e', level) && e'.scope == level && e'.key == e.key && e'.data == v
      && (forall l :: 0 <= l < level ==> MemoOf(e', l) == MemoOf(e, l))
      && (forall s :: 0 <= s <= level ==> (HasScope(e', s) <==> HasScope(e, s) || s == level))
  {
    var e' := Changed(e, level, v);
    if e.scope != level {
      SaveKeepsMemos(e.saved, e.scope, Memo(e.data, true), Memo(v, true), level, 0);
    }
    forall l | 0 <= l < level
      ensures MemoOf(e', l) == MemoOf(e, l)
    {
      ChangedMemos(e, level, v, l);
    }
    forall s | 0 <= s <= level
      ensures HasScope(e', s) <==> HasScope(e, s) || s == level
    {
      ChangedScopes(e, level, v, s);
    }
  }

  /** makeCurrent() and an assignment to the data. */
  function Changed<K, V>(e: Element<K, V>, level: nat, v: V): Element<K, V> {
    if e.scope == level then e.(data := v)
    else Element(e.key, v, level, e.saved + [Saved(e.scope, Memo(e.data, true))])
  }

  // ---- the whole map -----------------------------------------------------

  datatype Store<K, V> = Store(
    links: seq<RingLink>, first: Option<Cell>, elems: seq<Element<K, V>>, table: map<K, Cell>,
    chains: seq<seq<Cell>>, level: nat)

  ghost predicate ElementsOk<K, V>(elems: seq<Element<K, V>>, order: seq<Cell>, level: nat) {
    forall i {:trigger order[i]} :: 0 <= i < |order| ==> order[i] < |elems| && ElementOk(elems[order[i]], level)
  }

  /** The chain of an older scope has the elements with a version there. */
  ghost predicate ChainHas<K, V>(st: Store<K, V>, order: seq<Cell>, l: nat)
    requires l < |st.chains| && InStore(st.elems, order)
  {
    Distinct(st.chains[l]) && forall c :: c in st.chains[l] <==> c in order && HasScope(st.elems[c], l)
  }

  /** The elements of the top scope, each once. */
  ghost predicate TopHas<K, V>(todo: seq<Cell>, st: Store<K, V>, order: seq<Cell>)
    requires InStore(st.elems, order)
  {
    Distinct(todo) && forall c :: c in todo <==> c in order && st.elems[c].scope == st.level
  }

  ghost predicate SnapHas<K, V>(st: Store<K, V>, order: seq<Cell>, snaps: seq<seq<(K, V)>>, l: nat)
    requires l < |snaps| && InStore(st.elems, order)
  {
    snaps[l] == ViewAt(st.elems, order, l)
  }

  /** Everything that holds of a map; `todo` are the elements of the top scope. */
  ghost predicate MapOk<K, V>(st: Store<K, V>, order: seq<Cell>, snaps: seq<seq<(K, V)>>, todo: seq<Cell>) {
    && |st.links| == |st.elems| && RingOk(st.links, st.first, order) && InStore(st.elems, order)
    && TableOk(st.elems, order, st.table) && ElementsOk(st.elems, order, st.level)
    && |st.chains| == st.level + 1 && |snaps| == st.level
    && (forall l {:trigger ChainHas(st, order, l)} :: 1 <= l < st.level ==> ChainHas(st, order, l))
    && (forall l {:trigger SnapHas(st, order, snaps, l)} :: 0 <= l < st.level ==> SnapHas(st, order, snaps, l))
    && (st.level > 0 ==> TopHas(todo, st, order))
  }

  lemma OrderHas<K, V>(st: Store<K, V>, order: seq<Cell>, snaps: seq<seq<(K, V)>>, todo: seq<Cell>, c: Cell)
    requires MapOk(st, order, snaps, todo) && c in order
    ensures c < |st.elems| && ElementOk(st.elems[c], st.level)
    ensures c in todo || st.elems[c].scope < st.level || st.level == 0
  {
    var i :| 0 <= i < |order| && order[i] == c;
    assert ElementOk(st.elems[order[i]], st.level);
  }

  lemma DistinctCons(c: Cell, s: seq<Cell>)
    requires Distinct(s) && c !in s
    ensures Distinct([c] + s)
  {
  }

  lemma DistinctTail(s: seq<Cell>)
    requires Distinct(s) && s != []
    ensures Distinct(s[1..]) && forall c :: c in s[1..] <==> c in s && c != s[0]
  {
    assert s == [s[0]] + s[1..];
  }

  lemma TopScope<K, V>(e: Element<K, V>, level: nat)
    requires ElementOk(e, level)
    ensures HasScope(e, level) <==> e.scope == level
  {
  }

  lemma ReplaceTable<K, V>(elems: seq<Element<K, V>>, order: seq<Cell>, table: map<K, Cell>, level: nat, c: Cell, e: Element<K, V>)
    requires TableOk(elems, order, table) && ElementsOk(elems, order, level)
    requires c < |elems| && e.key == elems[c].key && ElementOk(e, level)
    ensures TableOk(elems[c := e], order, table) && ElementsOk(elems[c := e], order, level)
  {
  }

  /** One element is replaced by one with the same key and the same older versions. */
  lemma ReplaceKeeps<K, V>(st: Store<K, V>, order: seq<Cell>, snaps: seq<seq<(K, V)>>, todo: seq<Cell>, c: Cell,
                           e: Element<K, V>, st': Store<K, V>)
    requires MapOk(st, order, snaps, todo) && c in order && c < |st.elems|
    requires e.key == st.elems[c].key && ElementOk(e, st.level)
    requires forall l :: 0 <= l < st.level ==> MemoOf(e, l) == MemoOf(st.elems[c], l)
    requires forall s :: 0 <= s < st.level ==> (HasScope(e, s) <==> HasScope(st.elems[c], s))
    requires |st'.chains| == |st.chains| && forall l :: 0 <= l < st.level ==> st'.chains[l] == st.chains[l]
    requires st' == st.(elems := st.elems[c := e], chains := st'.chains)
    ensures TableOk(st'.elems, order, st'.table) && ElementsOk(st'.elems, order, st'.level) && InStore(st'.elems, order)
    ensures forall l {:trigger ChainHas(st', order, l)} :: 1 <= l < st'.level ==> ChainHas(st', order, l)
    ensures forall l {:trigger SnapHas(st', order, snaps, l)} :: 0 <= l < st'.level ==> SnapHas(st', order, snaps, l)
  {
    ReplaceTable(st.elems, order, st.table, st.level, c, e);
    forall l | 1 <= l < st'.level
      ensures ChainHas(st', order, l)
    {
      assert ChainHas(st, order, l);
    }
    forall l | 0 <= l < st'.level
      ensures SnapHas(st', order, snaps, l)
    {
      assert SnapHas(st, order, snaps, l);
      ViewAtSame(st.elems, st'.elems, order, l);
    }
  }

  lemma SetKeeps<K, V>(st: Store<K, V>, order: seq<Cell>, snaps: seq<seq<(K, V)>>, c: Cell, v: V, st': Store<K, V>)
    requires |st.chains| == st.level + 1 && MapOk(st, order, snaps, st.chains[st.level]) && c in order && c < |st.elems|
    requires
      var chain := st.chains[st.level];
      st' == st.(elems := st.elems[c := Changed(st.elems[c], st.level, v)],
                 chains := st.chains[st.level := if st.elems[c].scope == st.level then chain else [c] + chain])
    ensures MapOk(st', order, snaps, st'.chains[st'.level])
  {
    var chain := st.chains[st.level];
    OrderHas(st, order, snaps, chain, c);
    ChangedElement(st.elems[c], st.level, v);
    ReplaceKeeps(st, order, snaps, chain, c, Changed(st.elems[c], st.level, v), st');
  }

  /** What inserting a new key does to the fields. */
  ghost predicate AddedTo<K, V>(st: Store<K, V>, order: seq<Cell>, k: K, d: V, st': Store<K, V>) {
    && |st.chains| == st.level + 1 && |st.links| == |st.elems|
    && st' == Store(st'.links, if st.first.None? then Some(|st.elems|) else st.first,
                    st.elems + [NewElement(k, d, st.level)], st.table[k := |st.elems|],
                    st.chains[st.level := [|st.elems|] + st.chains[st.level]], st.level)
    && LinkedLast(st.links, order, st'.links)
  }

  lemma AddTable<K, V>(st: Store<K, V>, order: seq<Cell>, snaps: seq<seq<(K, V)>>, todo: seq<Cell>, k: K, d: V, st': Store<K, V>)
    requires MapOk(st, order, snaps, todo) && k !in st.table && AddedTo(st, order, k, d, st')
    ensures InStore(st'.elems, order + [|st.elems|]) && TableOk(st'.elems, order + [|st.elems|], st'.table)
    ensures ElementsOk(st'.elems, order + [|st.elems|], st'.level)
  {
    var order' := order + [|st.elems|];
    forall i | 0 <= i < |order'|
      ensures order'[i] < |st'.elems| && ElementOk(st'.elems[order'[i]], st'.level)
    {
      if i < |order| { assert ElementOk(st.elems[order[i]], st.level); }
    }
    forall c | c in order'
      ensures c < |st'.elems| && st'.elems[c].key in st'.table && st'.table[st'.elems[c].key] == c
    {
      if c in order { assert st'.elems[c] == st.elems[c]; }
    }
  }

  lemma AddChain<K, V>(st: Store<K, V>, order: seq<Cell>, snaps: seq<seq<(K, V)>>, todo: seq<Cell>, k: K, d: V, st': Store<K, V>, l: nat)
    requires MapOk(st, order, snaps, todo) && AddedTo(st, order, k, d, st') && 1 <= l < st.level
    requires InStore(st'.elems, order + [|st.elems|])
    ensures ChainHas(st', order + [|st.elems|], l)
  {
    assert ChainHas(st, order, l);
  }

  lemma AddSnap<K, V>(st: Store<K, V>, order: seq<Cell>, snaps: seq<seq<(K, V)>>, todo: seq<Cell>, k: K, d: V, st': Store<K, V>, l: nat)
    requires MapOk(st, order, snaps, todo) && AddedTo(st, order, k, d, st') && l < st.level
    requires InStore(st'.elems, order + [|st.elems|])
    ensures SnapHas(st', order + [|st.elems|], snaps, l)
  {
    assert SnapHas(st, order, snaps, l);
    assert (order + [|st.elems|])[..|order|] == order;
    ViewAtSame(st.elems, st'.elems, order, l);
    var e := NewElement(k, d, st.level);
    MemoAtIsSaved(e.saved, st.level, Memo(d, true), st.level, l);
  }

  lemma AddTop<K, V>(st: Store<K, V>, order: seq<Cell>, snaps: seq<seq<(K, V)>>, k: K, d: V, st': Store<K, V>)
    requires AddedTo(st, order, k, d, st') && MapOk(st, order, snaps, st.chains[st.level]) && st.level > 0
    requires InStore(st'.elems, order + [|st.elems|])
    ensures TopHas(st'.chains[st'.level], st', order + [|st.elems|])
  {
    var chain := st.chains[st.level];
    forall c | c in chain
      ensures c < |st.elems|
    {
      assert c in order;
    }
    DistinctCons(|st.elems|, chain);
  }

  /** A new element goes last; no older scope has it. */
  lemma AddKeeps<K, V>(st: Store<K, V>, order: seq<Cell>, snaps: seq<seq<(K, V)>>, k: K, d: V, st': Store<K, V>)
    requires AddedTo(st, order, k, d, st') && MapOk(st, order, snaps, st.chains[st.level]) && k !in st.table
    ensures MapOk(st', order + [|st.elems|], snaps, st'.chains[st'.level])
  {
    var order', chain := order + [|st.elems|], st.chains[st.level];
    RingAppend(st.links, st.first, order, st'.links);
    AddTable(st, order, snaps, chain, k, d, st');
    forall l | 1 <= l < st'.level
      ensures ChainHas(st', order', l)
    {
      AddChain(st, order, snaps, chain, k, d, st', l);
    }
    forall l | 0 <= l < st'.level
      ensures SnapHas(st', order', snaps, l)
    {
      AddSnap(st, order, snaps, chain, k, d, st', l);
    }
    if st.level > 0 { AddTop(st, order, snaps, k, d, st'); }
  }

  /** The element a constructor makes: registered at the bottom outside the map, then made current. */
  function NewElement<K, V>(k: K, d: V, level: nat): Element<K, V> {
    Element(k, d, level, if level == 0 then [] else [Saved(0, Memo(d, false))])
  }

  lemma ViewAppend<K, V>(elems: seq<Element<K, V>>, order: seq<Cell>, e: Element<K, V>)
    requires InStore(elems, order)
    ensures InStore(elems + [e], order + [|elems|])
    ensures View(elems + [e], order + [|elems|]) == View(elems, order) + [(e.key, e.data)]
  {
  }

  // ---- popping a scope ---------------------------------------------------

  function Restored<K, V>(e: Element<K, V>): Element<K, V>
    requires e.saved != []
  {
    var last := e.saved[|e.saved| - 1];
    Element(e.key, last.memo.data, last.scope, e.saved[..|e.saved| - 1])
  }

  /** An element of the top scope has a saved version. */
  lemma TopIsSaved<K, V>(st: Store<K, V>, order: seq<Cell>, snaps: seq<seq<(K, V)>>, todo: seq<Cell>)
    requires MapOk(st, order, snaps, todo) && st.level > 0 && todo != []
    ensures todo[0] in order && todo[0] < |st.elems| && st.elems[todo[0]].saved != []
    ensures st.elems[todo[0]].scope == st.level && ElementOk(st.elems[todo[0]], st.level)
  {
    assert todo[0] in todo;
    OrderHas(st, order, snaps, todo, todo[0]);
    RestoredElement(st.elems[todo[0]], st.level);
  }

  lemma RestoreKeeps<K, V>(st: Store<K, V>, order: seq<Cell>, snaps: seq<seq<(K, V)>>, todo: seq<Cell>)
    requires MapOk(st, order, snaps, todo) && st.level > 0 && todo != []
    requires todo[0] < |st.elems| && st.elems[todo[0]].saved != []
    requires var e := st.elems[todo[0]]; e.saved[|e.saved| - 1].memo.inMap
    ensures MapOk(st.(elems := st.elems[todo[0] := Restored(st.elems[todo[0]])]), order, snaps, todo[1..])
  {
    var c := todo[0];
    TopIsSaved(st, order, snaps, todo);
    RestoredElement(st.elems[c], st.level);
    var st' := st.(elems := st.elems[c := Restored(st.elems[c])]);
    ReplaceKeeps(st, order, snaps, todo, c, Restored(st.elems[c]), st');
    DistinctTail(todo);
  }

  /** What removing the element at position p of the order does to the fields. */
  ghost predicate RemovedFrom<K, V>(st: Store<K, V>, order: seq<Cell>, p: nat, st': Store<K, V>) {
    && p < |order| && order[p] < |st.elems| && |st.links| == |st.elems|
    && LinkedOut(st.links, order[p], st'.links)
    && var c := order[p];
       st' == Store(st'.links, FirstWithout(st.links, st.first, c), st.elems, st.table - {st.elems[c].key}, st.chains, st.level)
  }

  lemma RemoveTable<K, V>(st: Store<K, V>, order: seq<Cell>, snaps: seq<seq<(K, V)>>, todo: seq<Cell>, p: nat, st': Store<K, V>)
    requires MapOk(st, order, snaps, todo) && RemovedFrom(st, order, p, st')
    ensures InStore(st.elems, Drop(order, p)) && TableOk(st.elems, Drop(order, p), st'.table)
    ensures ElementsOk(st.elems, Drop(order, p), st.level)
  {
    DropTable(st.elems, order, p, st.table);
    DropElements(st.elems, order, p, st.level);
  }

  lemma DropTable<K, V>(elems: seq<Element<K, V>>, order: seq<Cell>, p: nat, table: map<K, Cell>)
    requires Distinct(order) && p < |order| && order[p] < |elems| && TableOk(elems, order, table)
    ensures TableOk(elems, Drop(order, p), table - {elems[order[p]].key})
  {
    DropDistinct(order, p);
    assert order[p] in order;
  }

  lemma DropElements<K, V>(elems: seq<Element<K, V>>, order: seq<Cell>, p: nat, level: nat)
    requires ElementsOk(elems, order, level) && p < |order|
    ensures ElementsOk(elems, Drop(order, p), level)
  {
    var order' := Drop(order, p);
    forall i | 0 <= i < |order'|
      ensures order'[i] < |elems| && ElementOk(elems[order'[i]], level)
    {
      var j := if i < p then i else i + 1;
      assert order'[i] == order[j];
    }
  }

  lemma RemoveKeeps<K, V>(st: Store<K, V>, order: seq<Cell>, snaps: seq<seq<(K, V)>>, todo: seq<Cell>, p: nat, st': Store<K, V>)
    requires MapOk(st, order, snaps, todo) && st.level > 0 && todo != []
    requires p < |order| && order[p] == todo[0] && RemovedFrom(st, order, p, st')
    requires var e := st.elems[todo[0]]; e.saved != [] && !e.saved[|e.saved| - 1].memo.inMap
    ensures MapOk(st', Drop(order, p), snaps, todo[1..])
  {
    var c, order' := todo[0], Drop(order, p);
    TopIsSaved(st, order, snaps, todo);
    RingRemove(st.links, st.first, order, p, st'.links, st'.first);
    RemoveTable(st, order, snaps, todo, p, st');
    DropDistinct(order, p);
    DistinctTail(todo);
    forall l | 1 <= l < st'.level
      ensures ChainHas(st', order', l)
    {
      assert ChainHas(st, order, l);
      RemovedIsNew(st.elems[c], st.level, l);
    }
    forall l | 0 <= l < st'.level
      ensures SnapHas(st', order', snaps, l)
    {
      assert SnapHas(st, order, snaps, l);
      RemovedIsNew(st.elems[c], st.level, l);
      ViewAtDrop(st.elems, order, p, l);
    }
  }

  /** A new scope leaves every element as it is. */
  lemma PushElements<K, V>(st: Store<K, V>, order: seq<Cell>, snaps: seq<seq<(K, V)>>, todo: seq<Cell>)
    requires MapOk(st, order, snaps, todo)
    ensures ElementsOk(st.elems, order, st.level + 1)
    ensures forall c :: c in order ==> st.elems[c].scope <= st.level
    ensures forall c :: c in order ==> (HasScope(st.elems[c], st.level) <==> st.elems[c].scope == st.level)
  {
    forall i | 0 <= i < |order|
      ensures order[i] < |st.elems| && ElementOk(st.elems[order[i]], st.level + 1)
    {
      assert ElementOk(st.elems[order[i]], st.level);
    }
    forall c | c in order
      ensures st.elems[c].scope <= st.level && (HasScope(st.elems[c], st.level) <==> st.elems[c].scope == st.level)
    {
      OrderHas(st, order, snaps, todo, c);
      TopScope(st.elems[c], st.level);
    }
  }

  lemma PushSnaps<K, V>(st: Store<K, V>, order: seq<Cell>, snaps: seq<seq<(K, V)>>, todo: seq<Cell>, st': Store<K, V>, l: nat)
    requires MapOk(st, order, snaps, todo) && st'.elems == st.elems && l <= st.level
    ensures SnapHas(st', order, snaps + [View(st.elems, order)], l)
  {
    if l < st.level {
      assert SnapHas(st, order, snaps, l);
    } else {
      PushElements(st, order, snaps, todo);
      ViewAtCurrent(st.elems, order, st.level);
    }
  }

  lemma PushKeeps<K, V>(st: Store<K, V>, order: seq<Cell>, snaps: seq<seq<(K, V)>>)
    requires |st.chains| == st.level + 1 && MapOk(st, order, snaps, st.chains[st.level])
    ensures MapOk(st.(chains := st.chains + [[]], level := st.level + 1), order, snaps + [View(st.elems, order)], [])
  {
    var st', snaps' := st.(chains := st.chains + [[]], level := st.level + 1), snaps + [View(st.elems, order)];
    PushElements(st, order, snaps, st.chains[st.level]);
    forall l | 1 <= l < st'.level
      ensures ChainHas(st', order, l)
    {
      if l < st.level { assert ChainHas(st, order, l); } else { assert TopHas(st.chains[l], st, order); }
    }
    forall l | 0 <= l < st'.level
      ensures SnapHas(st', order, snaps', l)
    {
      PushSnaps(st, order, snaps, st.chains[st.level], st', l);
    }
  }

  /** With the top scope worked off, no element is newer than the scope below. */
  lemma PopElements<K, V>(st: Store<K, V>, order: seq<Cell>, snaps: seq<seq<(K, V)>>)
    requires MapOk(st, order, snaps, []) && st.level > 0
    ensures ElementsOk(st.elems, order, st.level - 1)
    ensures forall i :: 0 <= i < |order| ==> st.elems[order[i]].scope <= st.level - 1
    ensures forall c :: c in order ==> (HasScope(st.elems[c], st.level - 1) <==> st.elems[c].scope == st.level - 1)
  {
    forall i | 0 <= i < |order|
      ensures order[i] < |st.elems| && ElementOk(st.elems[order[i]], st.level - 1)
      ensures st.elems[order[i]].scope <= st.level - 1
      ensures HasScope(st.elems[order[i]], st.level - 1) <==> st.elems[order[i]].scope == st.level - 1
    {
      assert order[i] in order;
      OrderHas(st, order, snaps, [], order[i]);
      TopScope(st.elems[order[i]], st.level - 1);
    }
  }

  /** The map is then the one of the matching push. */
  lemma PopView<K, V>(st: Store<K, V>, order: seq<Cell>, snaps: seq<seq<(K, V)>>)
    requires MapOk(st, order, snaps, []) && st.level > 0
    ensures View(st.elems, order) == snaps[st.level - 1]
  {
    PopElements(st, order, snaps);
    assert SnapHas(st, order, snaps, st.level - 1);
    ViewAtCurrent(st.elems, order, st.level - 1);
  }

  lemma PopKeeps<K, V>(st: Store<K, V>, order: seq<Cell>, snaps: seq<seq<(K, V)>>)
    requires MapOk(st, order, snaps, []) && st.level > 0
    ensures
      var st' := st.(chains := st.chains[..st.level], level := st.level - 1);
      MapOk(st', order, snaps[..st.level - 1], st'.chains[st'.level])
  {
    var st', snaps' := st.(chains := st.chains[..st.level], level := st.level - 1), snaps[..st.level - 1];
    PopElements(st, order, snaps);
    forall l | 1 <= l < st'.level
      ensures ChainHas(st', order, l)
    {
      assert ChainHas(st, order, l);
    }
    if st'.level > 0 { assert ChainHas(st, order, st'.level); }
    forall l | 0 <= l < st'.level
      ensures SnapHas(st', order, snaps', l)
    {
      assert SnapHas(st, order, snaps, l);
    }
  }

  lemma PositionOf(order: seq<Cell>, c: Cell) returns (p: nat)
    requires c in order
    ensures p < |order| && order[p] == c
  {
    p :| 0 <= p < |order| && order[p] == c;
  }

  /** The garbage is what left the order, each element once. */
  ghost predicate Collected(garbage: seq<Cell>, was: seq<Cell>, order: seq<Cell>) {
    && Distinct(garbage)
    && (forall c :: c in garbage <==> c in was && c !in order)
    && (forall c :: c in order ==> c in was)
  }

  lemma CollectOne(garbage: seq<Cell>, was: seq<Cell>, before: seq<Cell>, order: seq<Cell>, c: Cell)
    requires Collected(garbage, was, before) && c in before && forall x :: x in order <==> x in before && x != c
    ensures Collected(garbage + [c], was, order)
  {
  }

  lemma CollectNone(garbage: seq<Cell>, was: seq<Cell>, before: seq<Cell>, order: seq<Cell>)
    requires Collected(garbage, was, before) && forall x :: x in order <==> x in before
    ensures Collected(garbage, was, order)
  {
  }

  class CDHashMap<K(==), V> {
    var links: seq<RingLink>
    var first: Option<Cell>
    var elems: seq<Element<K, V>>
    var table: map<K, Cell>
    var chains: seq<seq<Cell>>
    var level: nat
    /** The elements deleted so far. */
    var deleted: seq<Cell>
    /** The elements in insertion order, and the view at each open push. */
    ghost var order: seq<Cell>
    ghost var snaps: seq<seq<(K, V)>>

    ghost function State(): Store<K, V>
      reads this
    {
      Store(links, first, elems, table, chains, level)
    }

    ghost predicate Valid()
      reads this
    {
      |chains| == level + 1 && MapOk(State(), order, snaps, chains[level])
    }

    /** The entries, in insertion order. */
    ghost function Entries(): seq<(K, V)>
      requires Valid()
      reads this
    {
      View(elems, order)
    }

    constructor (level: nat)
      ensures Valid() && Entries() == [] && this.level == level && snaps == seq(level, _ => []) && deleted == []
    {
      links, first, elems, table, deleted := [], None, [], map[], [];
      this.level := level;
      chains := seq(level + 1, _ => []);
      order, snaps := [], seq(level, _ => []);
      new;
      forall l | 0 <= l < level
        ensures SnapHas(State(), order, snaps, l)
      {
      }
    }

    method Find(k: K) returns (v: Option<V>)
      requires Valid()
      ensures v.Some? <==> exists i :: 0 <= i < |Entries()| && Entries()[i].0 == k
      ensures v.Some? ==> (k, v.value) in Entries()
    {
      if k !in table {
        forall i | 0 <= i < |Entries()|
          ensures Entries()[i].0 != k
        {
          assert order[i] in order;
        }
        return None;
      }
      var c := table[k];
      ghost var p := PositionOf(order, c);
      assert Entries()[p] == (k, elems[c].data);
      return Some(elems[c].data);
    }

    /** The data of an element already in the map. */
    method SetElement(c: Cell, d: V)
      requires Valid() && c in order && c < |elems|
      modifies this`elems, this`chains
      ensures Valid() && elems == old(elems)[c := Changed(old(elems)[c], level, d)]
    {
      ghost var st := State();
      if elems[c].scope != level {
        chains := chains[level := [c] + chains[level]];
      }
      elems := elems[c := Changed(elems[c], level, d)];
      assert chains == st.chains[st.level := if st.elems[c].scope == st.level then st.chains[st.level] else [c] + st.chains[st.level]];
      SetKeeps(st, order, snaps, c, d, State());
    }

    /** The constructor of an element: linked in before the first, so as the last. */
    method AddElement(k: K, d: V)
      requires Valid() && k !in table
      modifies this`elems, this`links, this`first, this`table, this`chains, this`order
      ensures Valid() && Entries() == old(Entries()) + [(k, d)] && order == old(order) + [|old(elems)|]
      ensures |elems| == |old(elems)| + 1
    {
      ghost var st := State();
      Construct(k, d);
      ghost var st' := State();
      AddKeeps(st, order, snaps, k, d, st');
      ViewAppend(st.elems, order, NewElement(k, d, level));
      order := order + [|st.elems|];
      assert State() == st';
    }

    method Construct(k: K, d: V)
      requires Valid()
      modifies this`elems, this`links, this`first, this`table, this`chains
      ensures AddedTo(old(State()), order, k, d, State())
    {
      var c := |elems|;
      LinkLast(c);
      elems := elems + [NewElement(k, d, level)];
      table := table[k := c];
      chains := chains[level := [c] + chains[level]];
    }

    method LinkLast(c: Cell)
      requires Valid() && c == |links|
      modifies this`links, this`first
      ensures first == if old(first).None? then Some(c) else old(first)
      ensures LinkedLast(old(links), order, links)
    {
      if first.None? {
        links := links + [RingLink(c, c)];
        first := Some(c);
      } else {
        var f := first.value;
        assert LinkOk(links, order, 0) && LinkOk(links, order, |order| - 1);
        var last := links[f].prev;
        links := links + [RingLink(last, f)];
        links := links[last := links[last].(next := c)];
        links := links[f := links[f].(prev := c)];
      }
    }

    /** True when the key is new. */
    method Insert(k: K, d: V) returns (isNew: bool)
      requires Valid()
      modifies this`elems, this`links, this`first, this`table, this`chains, this`order
      ensures Valid() && (isNew <==> forall i :: 0 <= i < |old(Entries())| ==> old(Entries())[i].0 != k)
      ensures isNew ==> Entries() == old(Entries()) + [(k, d)]
      ensures !isNew ==>
        && |Entries()| == |old(Entries())|
        && forall i :: 0 <= i < |Entries()| ==>
             Entries()[i] == if old(Entries())[i].0 == k then (k, d) else old(Entries())[i]
    {
      isNew := k !in table;
      forall i | 0 <= i < |Entries()|
        ensures Entries()[i].0 == k <==> k in table && order[i] == table[k]
      {
        assert order[i] in order;
      }
      if isNew {
        AddElement(k, d);
      } else {
        ghost var p := PositionOf(order, table[k]);
        SetElement(table[k], d);
        assert old(Entries())[p].0 == k;
      }
    }

    /** operator[]: the element of a key, made with the default value when missing. */
    method ElementFor(k: K, default: V) returns (c: Cell)
      requires Valid()
      modifies this`elems, this`links, this`first, this`table, this`chains, this`order
      ensures Valid() && c < |elems| && (k, elems[c].data) in Entries()
      ensures Entries() == if k in old(table) then old(Entries()) else old(Entries()) + [(k, default)]
    {
      if k !in table {
        AddElement(k, default);
        c := |elems| - 1;
        assert Entries()[|order| - 1].0 == k;
      } else {
        c := table[k];
      }
      ghost var p := PositionOf(order, c);
      assert Entries()[p] == (k, elems[c].data);
    }

    /** From begin() to end() the iterator passes every entry once, in insertion order. */
    method Iterate() returns (entries: seq<(K, V)>)
      requires Valid()
      ensures entries == Entries()
    {
      entries := [];
      var at := first;
      while at.Some?
        invariant |entries| <= |order| && entries == Entries()[..|entries|]
        invariant at == if |entries| < |order| then Some(order[|entries|]) else None
        decreases |order| - |entries|
      {
        var c := at.value;
        assert LinkOk(links, order, |entries|);
        entries := entries + [(elems[c].key, elems[c].data)];
        at := if first == Some(links[c].next) then None else Some(links[c].next);
      }
    }

    method ContextPush()
      requires Valid()
      modifies this`chains, this`level, this`snaps
      ensures Valid() && Entries() == old(Entries()) && snaps == old(snaps) + [Entries()] && level == old(level) + 1
    {
      PushKeeps(State(), order, snaps);
      snaps := snaps + [View(elems, order)];
      chains := chains + [[]];
      level := level + 1;
    }

    /** restore() of an element whose key was inserted in the scope being popped. */
    method RemoveElement(c: Cell, ghost todo: seq<Cell>)
      requires MapOk(State(), order, snaps, todo) && level > 0 && todo != [] && todo[0] == c
      requires c < |elems| && elems[c].saved != [] && !elems[c].saved[|elems[c].saved| - 1].memo.inMap
      modifies this`links, this`first, this`table, this`order
      ensures MapOk(State(), order, snaps, todo[1..])
      ensures forall x :: x in order <==> x in old(order) && x != c
      ensures |order| < |old(order)|
    {
      ghost var st := State();
      TopIsSaved(st, order, snaps, todo);
      ghost var p := PositionOf(order, c);
      ghost var was := order;
      TakeOut(c, p);
      ghost var st' := State();
      RemoveKeeps(st, was, snaps, todo, p, st');
      DropDistinct(was, p);
      order := Drop(was, p);
      assert State() == st';
    }

    method TakeOut(c: Cell, ghost p: nat)
      requires RingOk(links, first, order) && p < |order| && order[p] == c && c < |links| && |links| == |elems|
      modifies this`links, this`first, this`table
      ensures RemovedFrom(old(State()), order, p, State())
    {
      table := table - {elems[c].key};
      UnlinkElement(c, p);
    }

    method UnlinkElement(c: Cell, ghost p: nat)
      requires RingOk(links, first, order) && p < |order| && order[p] == c && c < |links|
      modifies this`links, this`first
      ensures LinkedOut(old(links), c, links)
      ensures first == FirstWithout(old(links), old(first), c)
    {
      assert LinkOk(links, order, p);
      if first == Some(c) {
        first := if links[c].next == c then None else Some(links[c].next);
      }
      var RingLink(prev, next) := links[c];
      links := links[next := links[next].(prev := prev)];
      links := links[prev := links[prev].(next := next)];
    }

    /** restore() of the next element of the top scope; true when it is garbage afterwards. */
    method RestoreElement(c: Cell, ghost todo: seq<Cell>) returns (gone: bool)
      requires MapOk(State(), order, snaps, todo) && level > 0 && todo != [] && todo[0] == c
      modifies this`elems, this`links, this`first, this`table, this`order
      ensures MapOk(State(), order, snaps, todo[1..])
      ensures forall x :: x in order <==> x in old(order) && !(gone && x == c)
      ensures c in old(order)
    {
      ghost var st := State();
      TopIsSaved(st, order, snaps, todo);
      gone := !elems[c].saved[|elems[c].saved| - 1].memo.inMap;
      if gone {
        RemoveElement(c, todo);
      } else {
        RestoreKeeps(st, order, snaps, todo);
        elems := elems[c := Restored(elems[c])];
        assert State() == st.(elems := st.elems[c := Restored(st.elems[c])]);
      }
    }

    /** Restores every element of the top scope and collects those that left the map. */
    method RestoreScope() returns (garbage: seq<Cell>)
      requires Valid() && level > 0
      modifies this`elems, this`links, this`first, this`table, this`order
      ensures MapOk(State(), order, snaps, [])
      ensures Collected(garbage, old(order), order)
    {
      var todo := chains[level];
      garbage := [];
      while todo != []
        invariant MapOk(State(), order, snaps, todo)
        invariant Collected(garbage, old(order), order)
        decreases |todo|
      {
        ghost var before := order;
        var c := todo[0];
        var gone := RestoreElement(c, todo);
        if gone {
          CollectOne(garbage, old(order), before, order, c);
          garbage := garbage + [c];
        } else {
          CollectNone(garbage, old(order), before, order);
        }
        todo := todo[1..];
      }
    }

    /** Drops the top scope, with no element left in it. */
    method CloseScope()
      requires MapOk(State(), order, snaps, []) && level > 0
      modifies this`chains, this`level, this`snaps
      ensures Valid() && level == old(level) - 1 && snaps == old(snaps)[..level]
      ensures Entries() == old(snaps)[level]
    {
      ghost var st := State();
      PopKeeps(st, order, snaps);
      PopView(st, order, snaps);
      ghost var st' := st.(chains := st.chains[..st.level], level := st.level - 1);
      chains, level, snaps := chains[..level], level - 1, snaps[..level - 1];
      assert State() == st';
    }

    /** Restores every element of the top scope, then deletes those that left the map. */
    method ContextPop()
      requires Valid() && level > 0
      modifies this
      ensures Valid() && level == old(level) - 1 && snaps == old(snaps)[..level]
      ensures Entries() == old(snaps)[level]
      ensures old(deleted) <= deleted && Collected(deleted[|old(deleted)|..], old(order), order)
    {
      var garbage := RestoreScope();
      deleted := deleted + garbage;
      assert deleted[|old(deleted)|..] == garbage;
      CloseScope();
    }
  }
}
