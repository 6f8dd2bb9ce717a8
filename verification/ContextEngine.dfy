/** The context: cheap pushes, each object saved at its first change in a scope. */
module ContextEngine {
  import opened Sequences
  import opened Formulas
  import opened ScopeChains
  import opened EagerContext
  import opened ObjectVersions
  import opened LazySaves
  import opened VersionChains

  /** Every cell of `at` was in a list before, in the same scope. */
  ghost predicate Fewer(at: map<Cell, nat>, before: map<Cell, nat>) {
    forall c :: c in at ==> c in before && at[c] == before[c]
  }

  /** Every object is destroyed by the restore of at most one other object, its owner. */
  ghost predicate KillsOk(kills: map<Cell, seq<Cell>>, objects: set<Cell>) {
    && (forall o :: o in kills ==> Distinct(kills[o]) && o !in kills[o] && Members(kills[o]) <= objects)
    && (forall o, o' :: o in kills && o' in kills && o != o' ==> Members(kills[o]) !! Members(kills[o']))
  }

  ghost function Killed(kills: map<Cell, seq<Cell>>, restored: seq<Cell>): set<Cell> {
    set o, v | o in restored && o in kills && v in kills[o] :: v
  }

  /** What the next restore destroys is still alive, because its owner was not restored before. */
  lemma KillsFresh(kills: map<Cell, seq<Cell>>, objects: set<Cell>, restored: seq<Cell>, o: Cell)
    requires KillsOk(kills, objects) && o !in restored
    ensures
      var victims := if o in kills then kills[o] else [];
      && Distinct(victims) && o !in victims
      && (forall v :: v in victims ==> v in objects && v !in Killed(kills, restored))
      && Killed(kills, restored + [o]) == Killed(kills, restored) + Members(victims)
  {
    var victims := if o in kills then kills[o] else [];
    forall v | v in victims
      ensures v in objects && v !in Killed(kills, restored)
    {
      assert v in Members(kills[o]);
    }
  }

  ghost function Victims(kills: map<Cell, seq<Cell>>): set<Cell> {
    set o, v | o in kills && v in kills[o] :: v
  }

  ghost function AllVictims(kills: seq<map<Cell, seq<Cell>>>): set<Cell> {
    set i, v | 0 <= i < |kills| && v in Victims(kills[i]) :: v
  }

  /** The same for several pops in a row. */
  ghost predicate AllKillsOk(kills: seq<map<Cell, seq<Cell>>>, objects: set<Cell>) {
    && (forall i :: 0 <= i < |kills| ==> KillsOk(kills[i], objects))
    && (forall i, j :: 0 <= i < j < |kills| ==> Victims(kills[i]) !! Victims(kills[j]))
  }

  /** Of the objects `start` of the scope being popped, each of `restored` was restored
      once, `left` are still to come, and the others were destroyed. */
  ghost predicate Popping(kills: map<Cell, seq<Cell>>, start: set<Cell>, restored: seq<Cell>, dead: set<Cell>, left: set<Cell>) {
    && dead == Killed(kills, restored)
    && Distinct(restored) && Members(restored) !! left
    && Members(restored) + left <= start <= Members(restored) + left + dead
  }

  lemma PoppingStep(kills: map<Cell, seq<Cell>>, start: set<Cell>, restored: seq<Cell>, dead: set<Cell>, left: set<Cell>,
                    o: Cell, victims: seq<Cell>)
    requires Popping(kills, start, restored, dead, left) && o in left
    requires Killed(kills, restored + [o]) == dead + Members(victims)
    ensures Popping(kills, start, restored + [o], dead + Members(victims), left - {o} - Members(victims))
  {
    assert o !in Members(restored);
    assert Members(restored + [o]) == Members(restored) + {o};
  }

  ghost function RegionsOf(at: map<Cell, nat>, objects: set<Cell>, region: map<Cell, nat>): map<Cell, nat> {
    map r | r in at && r !in objects && r in region :: region[r]
  }

  lemma RegionsSave(at: map<Cell, nat>, objects: set<Cell>, region: map<Cell, nat>, o: Cell, s: Cell, l: nat, top: nat)
    requires o in objects && s !in at && s !in objects
    ensures RegionsOf(at[s := l][o := top], objects, region[s := top]) == RegionsOf(at, objects, region)[s := top]
  {
  }

  lemma RegionsNew(at: map<Cell, nat>, objects: set<Cell>, region: map<Cell, nat>, o: Cell)
    requires o !in at
    ensures RegionsOf(at[o := 0], objects + {o}, region) == RegionsOf(at, objects, region)
  {
  }

  class Context<T(!new)> {
    const chains: Chains
    var vers: seq<Version<T>>
    ghost var objects: set<Cell>
    ghost var parent: map<Cell, Cell>
    ghost var region: map<Cell, nat>
    /** The eager context this one stands for. */
    ghost var view: Eager<T>

    /** Also holds while a scope is being popped, apart from the current values. */
    ghost predicate Consistent()
      reads this, chains
    {
      && chains.Valid() && |vers| == |chains.links|
      && VersionsOk(vers, chains.at, objects, parent, region)
      && Represents(vers, objects, view.snaps) && |view.snaps| == |chains.heads| - 1
    }

    ghost predicate Valid()
      reads this, chains
    {
      && Consistent() && chains.stale == None
      && view.cur.Keys == objects && forall o :: o in objects ==> view.cur[o] == vers[o].data
    }

    ghost function Level(): nat
      requires Consistent()
      reads this, chains
    {
      |view.snaps|
    }

    /** The saved versions in lists, each with the memory region it was saved in. */
    ghost function SavedRegions(): map<Cell, nat>
      reads this, chains
    {
      RegionsOf(chains.at, objects, region)
    }

    constructor ()
      ensures Valid() && fresh(chains) && view == Eager(map[], []) && objects == {} && SavedRegions() == map[]
    {
      chains := new Chains();
      vers := [];
      objects, parent, region, view := {}, map[], map[], Eager(map[], []);
    }

    method Get(o: Cell) returns (v: T)
      requires Valid() && o in objects
      ensures v == view.cur[o]
    {
      v := vers[o].data;
    }

    method Push()
      requires Valid()
      modifies this`view, chains
      ensures Valid() && view == PushAll(old(view)) && SavedRegions() == old(SavedRegions())
      ensures view.cur == old(view.cur) && view.snaps == old(view.snaps) + [old(view.cur)]
    {
      chains.OpenScope();
      PushRepresents(vers, objects, view);
      view := PushAll(view);
    }

    /** A context object is registered in the bottom scope, whatever the current scope. */
    method NewObject(default: T) returns (o: Cell)
      requires Valid()
      modifies this, chains
      ensures Valid() && o !in old(objects) && objects == old(objects) + {o}
      ensures view == NewOne(old(view), o, default) && SavedRegions() == old(SavedRegions())
      ensures view.cur == old(view.cur)[o := default] && |view.snaps| == |old(view.snaps)|
      ensures forall l :: 0 <= l < |view.snaps| ==> view.snaps[l] == old(view.snaps)[l][o := default]
    {
      ghost var at := chains.at;
      o := chains.NewCell();
      chains.AddToChain(o, 0);
      vers := vers + [Version(0, default, None)];
      NewKeepsVersions(old(vers), at, objects, parent, region, o, default, view.snaps);
      RegionsNew(at, objects, region, o);
      objects := objects + {o};
      view := NewOne(view, o, default);
    }

    /** update(): leaves a saved copy in the scope the object came from. */
    method Update(o: Cell)
      requires Valid() && o in objects && vers[o].level < Level()
      modifies this, chains
      ensures Valid() && objects == old(objects) && view == old(view)
      ensures vers[o].level == Level() && SavedRegions() == old(SavedRegions())[old(|vers|) := Level()]
    {
      ghost var at: map<Cell, nat> := chains.at;
      ghost var top: nat := |view.snaps|;
      var s := chains.LeaveCopy(o);
      vers := vers[o := Version(|chains.heads| - 1, vers[o].data, Some(s))] + [vers[o]];
      SaveKeepsVersions(old(vers), at, objects, parent, region, o, s, top, vers);
      SaveRepresents(old(vers), at, objects, parent, region, o, s, top, vers, view.snaps);
      RegionsSave(at, objects, region, o, s, at[o], top);
      parent, region := Reparent(parent, old(vers)[o].restore, s)[s := o], region[s := top];
    }

    /** makeCurrent() and an assignment to the data. */
    method Set(o: Cell, v: T)
      requires Valid() && o in objects
      modifies this, chains
      ensures Valid() && objects == old(objects) && view == SetOne(old(view), o, v)
      ensures view.cur == old(view.cur)[o := v] && view.snaps == old(view.snaps)
    {
      if vers[o].level != |chains.heads| - 1 {
        Update(o);
      }
      Assign(o, v);
    }

    /** An assignment to the data of an object that is already in the current scope. */
    method Assign(o: Cell, v: T)
      requires Valid() && o in objects && vers[o].level == Level()
      modifies this`vers, this`view
      ensures Valid() && view == SetOne(old(view), o, v)
      ensures view.cur == old(view.cur)[o := v] && view.snaps == old(view.snaps)
    {
      AssignRepresents(vers, chains.at, objects, parent, region, o, v, view.snaps);
      vers := vers[o := vers[o].(data := v)];
      view := SetOne(view, o, v);
    }

    /** o is being destroyed: everything holds but the values of o. */
    ghost predicate Doomed(o: Cell)
      reads this, chains
    {
      && chains.Valid() && |vers| == |chains.links|
      && o in objects && chains.stale != Some(o)
      && VersionsOk(vers, chains.at, objects, parent, region)
      && Represents(vers, objects - {o}, view.snaps)
    }

    method RestoreDoomed(o: Cell)
      requires Doomed(o) && vers[o].restore.Some?
      modifies this`vers, this`parent, chains
      ensures Doomed(o) && vers[o].level < old(vers[o].level)
      ensures chains.stale == old(chains.stale) && |chains.heads| == old(|chains.heads|)
      ensures Fewer(chains.at - {o}, old(chains.at))
      ensures forall x :: x in objects && x != o ==> vers[x] == old(vers)[x]
    {
      var r := vers[o].restore.value;
      ghost var at: map<Cell, nat> := chains.at;
      RestoreKeepsVersions(vers, at, objects, parent, region, o, r);
      RestoreOthers(vers, at, objects, parent, region, o, r, view.snaps);
      assert chains.stale != Some(r) by {
        assert HeadOk(chains.links, chains.heads, at, chains.stale, |chains.heads| - 1);
      }
      chains.MoveTo(o, r);
      parent := Reparent(parent, vers[r].restore, o);
      vers := vers[o := vers[r]];
    }

    /** destroy(): takes the object and all its saved versions out of their lists. */
    method Destroy(o: Cell)
      requires Consistent() && o in objects && chains.stale != Some(o)
      modifies this`vers, this`parent, this`objects, this`view, chains
      ensures Consistent() && objects == old(objects) - {o} && o !in chains.at
      ensures view == Without(old(view), {o})
      ensures view.cur == old(view.cur) - {o} && |view.snaps| == |old(view.snaps)|
      ensures forall l :: 0 <= l < |view.snaps| ==> view.snaps[l] == old(view.snaps)[l] - {o}
      ensures chains.stale == old(chains.stale) && |chains.heads| == old(|chains.heads|)
      ensures Fewer(chains.at, old(chains.at))
      ensures forall x :: x in objects ==> vers[x] == old(vers)[x]
      ensures old(Valid()) ==> Valid()
    {
      WithoutRepresents(vers, objects, view.snaps, o);
      view := Without(view, {o});
      DropVersions(o);
      RemoveDoomed(o);
    }

    /** The last version of an object leaves its list. */
    method RemoveDoomed(o: Cell)
      requires Doomed(o) && vers[o].restore == None && |view.snaps| == |chains.heads| - 1
      modifies this`objects, chains
      ensures Consistent() && objects == old(objects) - {o} && o !in chains.at
      ensures chains.stale == old(chains.stale) && |chains.heads| == old(|chains.heads|)
      ensures Fewer(chains.at, old(chains.at))
    {
      RemoveKeepsVersions(vers, chains.at, objects, parent, region, o);
      chains.Unlink(o);
      objects := objects - {o};
    }

    /** Goes back through all saved versions of an object that is being destroyed. */
    method DropVersions(o: Cell)
      requires Doomed(o)
      modifies this`vers, this`parent, chains
      ensures Doomed(o) && vers[o].restore == None
      ensures chains.stale == old(chains.stale) && |chains.heads| == old(|chains.heads|)
      ensures Fewer(chains.at - {o}, old(chains.at))
      ensures forall x :: x in objects && x != o ==> vers[x] == old(vers)[x]
    {
      while vers[o].restore.Some?
        invariant Doomed(o)
        invariant chains.stale == old(chains.stale) && |chains.heads| == old(|chains.heads|)
        invariant Fewer(chains.at - {o}, old(chains.at))
        invariant forall x :: x in objects && x != o ==> vers[x] == old(vers)[x]
        decreases vers[o].level
      {
        RestoreDoomed(o);
      }
    }

    /** What restore() of o destroys, as when a list of context objects is cut back. */
    method DestroyAll(victims: seq<Cell>, o: Cell)
      requires Consistent() && o in objects && chains.stale == Some(o)
      requires Distinct(victims) && o !in victims && forall v :: v in victims ==> v in objects
      modifies this`vers, this`parent, this`objects, this`view, chains
      ensures Consistent() && o in objects && chains.stale == Some(o) && |chains.heads| == old(|chains.heads|)
      ensures objects == old(objects) - Members(victims)
      ensures view == Without(old(view), Members(victims))
      ensures Fewer(chains.at, old(chains.at)) && Members(victims) !! chains.at.Keys
      ensures forall x :: x in objects ==> vers[x] == old(vers)[x]
    {
      WithoutNone(view);
      assert Members(victims[..0]) == {};
      for i := 0 to |victims|
        invariant Consistent() && o in objects && chains.stale == Some(o) && |chains.heads| == old(|chains.heads|)
        invariant objects == old(objects) - Members(victims[..i])
        invariant view == Without(old(view), Members(victims[..i]))
        invariant Fewer(chains.at, old(chains.at)) && Members(victims[..i]) !! chains.at.Keys
        invariant forall x :: x in objects ==> vers[x] == old(vers)[x]
      {
        assert Members(victims[..i + 1]) == Members(victims[..i]) + {victims[i]};
        WithoutMore(old(view), Members(victims[..i]), {victims[i]});
        Destroy(victims[i]);
      }
      assert victims[..|victims|] == victims;
    }

    lemma HeadIsObject(o: Cell)
      requires Consistent() && chains.heads[|chains.heads| - 1] == Some(o)
      ensures o in objects && chains.at[o] == |chains.heads| - 1
    {
      assert HeadOk(chains.links, chains.heads, chains.at, chains.stale, |chains.heads| - 1);
      if o !in objects {
        SavedIsOlder(vers, chains.at, objects, parent, region, o);
        assert false;
      }
    }

    /** restoreAndContinue() of the head of the scope being popped. */
    method RestoreAndContinue(o: Cell, victims: seq<Cell>)
      requires Consistent() && chains.stale == Some(o) && |chains.heads| > 1
      requires Distinct(victims) && o !in victims && forall v :: v in victims ==> v in objects
      modifies this`vers, this`parent, this`objects, this`view, chains
      ensures Consistent() && |chains.heads| == old(|chains.heads|)
      ensures chains.stale == chains.heads[|chains.heads| - 1]
      ensures objects == old(objects) - Members(victims)
      ensures view == Without(old(view), Members(victims))
      ensures Fewer(chains.at - {o}, old(chains.at)) && Members(victims) !! chains.at.Keys
      ensures o in chains.at && chains.at[o] < |chains.heads| - 1
      ensures forall x :: x in objects && x != o ==> vers[x] == old(vers)[x]
    {
      HeadIsObject(o);
      DestroyAll(victims, o);
      RestoreHead(o);
    }

    /** The head of the scope being popped goes back to its saved version. */
    method RestoreHead(o: Cell)
      requires Consistent() && chains.stale == Some(o) && |chains.heads| > 1
      modifies this`vers, this`parent, chains
      ensures Consistent() && |chains.heads| == old(|chains.heads|)
      ensures chains.stale == chains.heads[|chains.heads| - 1]
      ensures Fewer(chains.at - {o}, old(chains.at))
      ensures o in chains.at && chains.at[o] < |chains.heads| - 1
      ensures forall x :: x in objects && x != o ==> vers[x] == old(vers)[x]
    {
      HeadIsObject(o);
      assert RestoreOk(vers, chains.at, objects, parent, region, o);
      var r := vers[o].restore.value;
      RestoreKeepsVersions(vers, chains.at, objects, parent, region, o, r);
      RestoreRepresents(vers, chains.at, objects, parent, region, o, r, view.snaps);
      parent := Reparent(parent, vers[r].restore, o);
      vers := vers[o := vers[r]];
      chains.MoveHeadBack(o, r);
    }

    /** The cells in the list of the top scope. */
    ghost function TopCells(): set<Cell>
      reads chains
    {
      set c | c in chains.at && chains.at[c] == |chains.heads| - 1
    }

    lemma TopCellsAreObjects()
      requires Consistent()
      ensures forall c :: c in TopCells() ==> c in objects && vers[c].level == |chains.heads| - 1
    {
      forall c | c in TopCells()
        ensures c in objects
      {
        if c !in objects {
          SavedIsOlder(vers, chains.at, objects, parent, region, c);
          assert false;
        }
      }
    }

    /** One object of the scope being popped is restored; exactly it and its victims leave the list. */
    method PopOne(o: Cell, victims: seq<Cell>)
      requires Consistent() && chains.stale == Some(o) && |chains.heads| > 1
      requires Distinct(victims) && o !in victims && forall v :: v in victims ==> v in objects
      modifies this`vers, this`parent, this`objects, this`view, chains
      ensures Consistent() && |chains.heads| == old(|chains.heads|)
      ensures chains.stale == chains.heads[|chains.heads| - 1]
      ensures objects == old(objects) - Members(victims)
      ensures view == Without(old(view), Members(victims))
      ensures o in old(TopCells()) && TopCells() == old(TopCells()) - {o} - Members(victims)
      ensures Fewer(chains.at - {o}, old(chains.at)) && Members(victims) !! chains.at.Keys
    {
      HeadIsObject(o);
      TopCellsAreObjects();
      RestoreAndContinue(o, victims);
      TopCellsAreObjects();
      forall c | c in old(TopCells()) - {o} - Members(victims)
        ensures c in TopCells()
      {
        assert c in objects && vers[c] == old(vers)[c];
      }
    }

    /** The list of the top scope is empty, so the scope can go. */
    method ClosePopped()
      requires Consistent() && chains.stale == None && |chains.heads| > 1 && chains.heads[|chains.heads| - 1] == None
      modifies this`view, chains
      ensures Valid() && view == PopAll(old(view)) && chains.at == old(chains.at)
    {
      chains.CloseScope();
      PopRepresents(vers, objects, view.snaps);
      view := PopAll(view);
    }

    /** In the middle of a pop that began with the objects `before` and the eager context `was`. */
    ghost predicate Walking(kills: map<Cell, seq<Cell>>, before: set<Cell>, was: Eager<T>, start: set<Cell>,
                            restored: seq<Cell>, dead: set<Cell>)
      reads this, chains
    {
      && Consistent() && |chains.heads| > 1 && chains.stale == chains.heads[|chains.heads| - 1]
      && objects == before - dead && view == Without(was, dead) && dead !! chains.at.Keys
      && Popping(kills, start, restored, dead, TopCells())
    }

    method PopHead(kills: map<Cell, seq<Cell>>, ghost before: set<Cell>, ghost was: Eager<T>, ghost start: set<Cell>,
                   ghost restored: seq<Cell>, ghost dead: set<Cell>)
      returns (ghost restored': seq<Cell>, ghost dead': set<Cell>)
      requires Walking(kills, before, was, start, restored, dead) && KillsOk(kills, before)
      requires chains.heads[|chains.heads| - 1].Some?
      modifies this`vers, this`parent, this`objects, this`view, chains
      ensures Walking(kills, before, was, start, restored', dead')
      ensures TopCells() < old(TopCells()) && chains.at.Keys <= old(chains.at.Keys)
    {
      var o := chains.heads[|chains.heads| - 1].value;
      HeadIsObject(o);
      var victims := if o in kills then kills[o] else [];
      assert o in TopCells() && o !in Members(restored);
      KillsFresh(kills, before, restored, o);
      WithoutMore(was, dead, Members(victims));
      PoppingStep(kills, start, restored, dead, TopCells(), o, victims);
      PopOne(o, victims);
      restored', dead' := restored + [o], dead + Members(victims);
    }

    /** Deletes the top scope: every object in its list is restored, in list order; the
        restore of o also destroys the objects kills[o]. */
    method Pop(kills: map<Cell, seq<Cell>>) returns (ghost restored: seq<Cell>, ghost dead: set<Cell>)
      requires Valid() && Level() > 0
      requires KillsOk(kills, objects)
      modifies this`vers, this`parent, this`objects, this`view, chains
      ensures Valid() && objects == old(objects) - dead
      ensures view == Without(PopAll(old(view)), dead)
      ensures view.cur == old(view.snaps)[|view.snaps|] - dead && |view.snaps| == |old(view.snaps)| - 1
      ensures forall l :: 0 <= l < |view.snaps| ==> view.snaps[l] == old(view.snaps)[l] - dead
      ensures Popping(kills, old(TopCells()), restored, dead, {})
      ensures dead !! chains.at.Keys && dead <= Victims(kills) && chains.at.Keys <= old(chains.at.Keys)
    {
      ghost var was := view;
      restored, dead := WalkScope(kills);
      WithoutPop(was, dead);
      ClosePopped();
    }

    /** Scope::~Scope: works off the list of the top scope. */
    method WalkScope(kills: map<Cell, seq<Cell>>) returns (ghost restored: seq<Cell>, ghost dead: set<Cell>)
      requires Valid() && Level() > 0 && KillsOk(kills, objects)
      modifies this`vers, this`parent, this`objects, this`view, chains
      ensures Walking(kills, old(objects), old(view), old(TopCells()), restored, dead)
      ensures chains.heads[|chains.heads| - 1] == None && TopCells() == {}
      ensures dead <= Victims(kills) && chains.at.Keys <= old(chains.at.Keys)
    {
      restored, dead := [], {};
      WithoutNone(view);
      chains.BeginPop();
      while chains.heads[|chains.heads| - 1].Some?
        invariant Walking(kills, old(objects), old(view), old(TopCells()), restored, dead)
        invariant chains.at.Keys <= old(chains.at.Keys)
        decreases TopCells()
      {
        restored, dead := PopHead(kills, old(objects), old(view), old(TopCells()), restored, dead);
      }
      EmptyChain(chains.links, chains.heads, chains.at, chains.stamp, None, |chains.heads| - 1, chains.at.Keys);
    }

    /** Pops of the eager context `was` came down to the current level, and the objects `dead`
        of those `before` were destroyed on the way. */
    ghost predicate CameDown(was: Eager<T>, before: set<Cell>, dead: set<Cell>)
      reads this, chains
    {
      && Valid() && objects == before - dead && dead !! chains.at.Keys
      && Level() <= |was.snaps| && view == Without(DownTo(was, Level()), dead)
    }

    /** Pops down to a level; the i-th pop destroys what kills[i] says. */
    method PopTo(level: nat, kills: seq<map<Cell, seq<Cell>>>) returns (ghost dead: set<Cell>)
      requires Valid() && AllKillsOk(kills, objects)
      modifies this`vers, this`parent, this`objects, this`view, chains
      ensures Valid() && objects == old(objects) - dead && dead !! chains.at.Keys
      ensures view == Without(DownTo(old(view), level), dead)
      ensures |view.snaps| == if level < |old(view.snaps)| then level else |old(view.snaps)|
      ensures view.cur == (if level < |old(view.snaps)| then old(view.snaps)[level] else old(view.cur)) - dead
      ensures dead <= AllVictims(kills)
    {
      dead := {};
      WithoutNone(view);
      ghost var was, before := view, objects;
      var i := 0;
      while level < |chains.heads| - 1
        invariant CameDown(was, before, dead) && (level <= Level() || view == was)
        invariant forall j :: i <= j < |kills| ==> Victims(kills[j]) !! dead
        invariant dead <= AllVictims(kills) && (dead != {} ==> level <= Level())
        decreases |chains.heads|
      {
        ghost var more := PopNext(if i < |kills| then kills[i] else map[], was, before, dead);
        dead := dead + more;
        i := i + 1;
      }
    }

    method PopNext(kills: map<Cell, seq<Cell>>, ghost was: Eager<T>, ghost before: set<Cell>, ghost dead: set<Cell>)
      returns (ghost more: set<Cell>)
      requires CameDown(was, before, dead) && Level() > 0 && KillsOk(kills, before) && Victims(kills) !! dead
      modifies this`vers, this`parent, this`objects, this`view, chains
      ensures CameDown(was, before, dead + more) && more <= Victims(kills)
      ensures |chains.heads| == old(|chains.heads|) - 1
    {
      ghost var restored;
      ghost var down := DownTo(was, Level());
      restored, more := Pop(kills);
      WithoutPop(down, dead);
      WithoutMore(PopAll(down), dead, more);
      assert PopAll(down) == DownTo(was, Level());
    }

    /** One object of a context is a chain of lazily saved memos, and its memo at every open
        push is the copy an eager context would have made. */
    lemma ObjectIsLazilySaved(o: Cell, l: nat)
      requires Valid() && o in objects && l < Level()
      ensures ChainOk(SavedChain(vers, o), vers[o].level, Level())
      ensures o in view.snaps[l] && MemoAt(SavedChain(vers, o), vers[o].level, vers[o].data, l) == view.snaps[l][o]
    {
      SavedChainOk(vers, chains.at, objects, parent, region, o, Level());
      ValueIsMemo(vers, chains.at, objects, parent, region, o, l);
      assert CopyOk(vers, objects, view.snaps, l, o);
    }

    /** A new cell is not among the saved versions. */
    lemma FreshIsUnsaved(s: Cell)
      requires Consistent() && s == |vers|
      ensures s !in SavedRegions()
    {
    }

    /** Nothing in any list was allocated in a region that a pop has released. */
    lemma NoReleasedCellListed(r: Cell)
      requires Valid() && r in chains.at && r !in objects
      ensures r in region && region[r] <= Level()
    {
      SavedIsOlder(vers, chains.at, objects, parent, region, r);
    }
  }

  lemma NewKeepsVersions<T>(vers: seq<Version<T>>, at: map<Cell, nat>, objects: set<Cell>, parent: map<Cell, Cell>,
                            region: map<Cell, nat>, o: Cell, default: T, snaps: seq<map<Cell, T>>)
    requires VersionsOk(vers, at, objects, parent, region) && o == |vers|
    requires Represents(vers, objects, snaps)
    ensures
      var vers' := vers + [Version(0, default, None)];
      && VersionsOk(vers', at[o := 0], objects + {o}, parent, region)
      && Represents(vers', objects + {o}, NewOne(Eager(map[], snaps), o, default).snaps)
  {
    var vers', at' := vers + [Version(0, default, None)], at[o := 0];
    forall c | c in at'
      ensures RestoreOk(vers', at', objects + {o}, parent, region, c)
    {
      if c != o { assert RestoreOk(vers, at, objects, parent, region, c); }
    }
    forall r | r in at' && r !in objects + {o}
      ensures SavedOk(vers', at', parent, r)
    {
      assert SavedOk(vers, at, parent, r);
    }
    var snaps' := NewOne(Eager(map[], snaps), o, default).snaps;
    forall l: nat, x: Cell | l < |snaps'|
      ensures CopyOk(vers', objects + {o}, snaps', l, x)
    {
      assert CopyOk(vers, objects, snaps, l, x);
      if x in objects { StoreGrows(vers, vers', at, objects, parent, region, x, l); }
    }
  }

  lemma {:induction false} StoreGrows<T>(vers: seq<Version<T>>, vers': seq<Version<T>>, at: map<Cell, nat>, objects: set<Cell>,
                                         parent: map<Cell, Cell>, region: map<Cell, nat>, c: Cell, l: nat)
    requires VersionsOk(vers, at, objects, parent, region) && c in at && vers <= vers'
    ensures ValueAt(vers', c, l) == ValueAt(vers, c, l)
    decreases vers[c].level
  {
    assert RestoreOk(vers, at, objects, parent, region, c);
    if vers[c].restore.Some? {
      StoreGrows(vers, vers', at, objects, parent, region, vers[c].restore.value, l);
    }
  }

  lemma WithoutRepresents<T>(vers: seq<Version<T>>, objects: set<Cell>, snaps: seq<map<Cell, T>>, o: Cell)
    requires forall x :: x in objects ==> x < |vers|
    requires Represents(vers, objects, snaps)
    ensures Represents(vers, objects - {o}, Without(Eager(map[], snaps), {o}).snaps)
  {
    var snaps' := Without(Eager(map[], snaps), {o}).snaps;
    forall l: nat, x: Cell | l < |snaps'|
      ensures CopyOk(vers, objects - {o}, snaps', l, x)
    {
      assert CopyOk(vers, objects, snaps, l, x);
    }
  }

  lemma RestoreOthers<T>(vers: seq<Version<T>>, at: map<Cell, nat>, objects: set<Cell>, parent: map<Cell, Cell>,
                         region: map<Cell, nat>, o: Cell, r: Cell, snaps: seq<map<Cell, T>>)
    requires VersionsOk(vers, at, objects, parent, region) && o in objects && r < |vers|
    requires Represents(vers, objects - {o}, snaps)
    ensures Represents(vers[o := vers[r]], objects - {o}, snaps)
  {
    var vers', rest := vers[o := vers[r]], objects - {o};
    forall l: nat, x: Cell | l < |snaps|
      ensures CopyOk(vers', rest, snaps, l, x)
    {
      assert CopyOk(vers, rest, snaps, l, x);
      if x in rest { ValueFrame(vers, vers', at, objects, parent, region, o, x, l); }
    }
  }

  lemma RemoveKeepsVersions<T>(vers: seq<Version<T>>, at: map<Cell, nat>, objects: set<Cell>, parent: map<Cell, Cell>,
                               region: map<Cell, nat>, o: Cell)
    requires VersionsOk(vers, at, objects, parent, region) && o in objects && vers[o].restore == None
    ensures VersionsOk(vers, at - {o}, objects - {o}, parent, region)
  {
    forall c | c in at - {o}
      ensures RestoreOk(vers, at - {o}, objects - {o}, parent, region, c)
    {
      assert RestoreOk(vers, at, objects, parent, region, c);
    }
    forall r | r in at - {o} && r !in objects - {o}
      ensures SavedOk(vers, at - {o}, parent, r)
    {
      assert SavedOk(vers, at, parent, r);
    }
  }

  /** Once nothing is newer than the scope below, the current values are its copies. */
  lemma PopRepresents<T>(vers: seq<Version<T>>, objects: set<Cell>, snaps: seq<map<Cell, T>>)
    requires snaps != [] && forall o :: o in objects ==> o < |vers| && vers[o].level < |snaps|
    requires Represents(vers, objects, snaps)
    ensures Represents(vers, objects, snaps[..|snaps| - 1])
    ensures snaps[|snaps| - 1].Keys == objects
    ensures forall o :: o in objects ==> snaps[|snaps| - 1][o] == vers[o].data
  {
    var top := |snaps| - 1;
    forall o: Cell
      ensures o in snaps[top] <==> o in objects
      ensures o in objects ==> snaps[top][o] == vers[o].data
    {
      assert CopyOk(vers, objects, snaps, top, o);
    }
    forall l: nat, o: Cell | l < top
      ensures CopyOk(vers, objects, snaps[..top], l, o)
    {
      assert CopyOk(vers, objects, snaps, l, o);
    }
  }

  lemma PushRepresents<T>(vers: seq<Version<T>>, objects: set<Cell>, view: Eager<T>)
    requires forall o :: o in objects ==> o < |vers| && vers[o].level <= |view.snaps|
    requires Represents(vers, objects, view.snaps)
    requires view.cur.Keys == objects && forall o :: o in objects ==> view.cur[o] == vers[o].data
    ensures Represents(vers, objects, PushAll(view).snaps)
  {
    forall l: nat, o: Cell | l < |view.snaps| + 1
      ensures CopyOk(vers, objects, PushAll(view).snaps, l, o)
    {
      if l < |view.snaps| { assert CopyOk(vers, objects, view.snaps, l, o); }
    }
  }
}
