/** What the containers see of a context: the saved versions of one object, as a chain of memos. */
module VersionChains {
  import opened Formulas
  import opened ScopeChains
  import opened ObjectVersions
  import opened LazySaves

  /** The versions a cell restores from, oldest first, each with its scope. */
  ghost function SavedChain<T>(vers: seq<Version<T>>, c: Cell): seq<Saved<T>>
    requires c < |vers|
    decreases vers[c].level
  {
    var v := vers[c];
    if v.restore.Some? && v.restore.value < |vers| && vers[v.restore.value].level < v.level
    then
      var r := vers[v.restore.value];
      SavedChain(vers, v.restore.value) + [Saved(r.level, r.data)]
    else []
  }

  lemma {:induction false} SavedChainOk<T>(vers: seq<Version<T>>, at: map<Cell, nat>, objects: set<Cell>,
                                           parent: map<Cell, Cell>, region: map<Cell, nat>, c: Cell, level: nat)
    requires VersionsOk(vers, at, objects, parent, region) && c in at && vers[c].level <= level
    ensures ChainOk(SavedChain(vers, c), vers[c].level, level)
    decreases vers[c].level
  {
    assert RestoreOk(vers, at, objects, parent, region, c);
    if vers[c].restore.None? {
    } else {
      var r := vers[c].restore.value;
      SavedChainOk(vers, at, objects, parent, region, r, vers[r].level);
      var older := SavedChain(vers, r);
      assert older != [] ==> (older + [Saved(vers[r].level, vers[r].data)])[0] == older[0];
    }
  }

  /** The value of an object at a scope is the memo that was current there. */
  lemma {:induction false} ValueIsMemo<T>(vers: seq<Version<T>>, at: map<Cell, nat>, objects: set<Cell>,
                                          parent: map<Cell, Cell>, region: map<Cell, nat>, c: Cell, l: nat)
    requires VersionsOk(vers, at, objects, parent, region) && c in at
    ensures MemoAt(SavedChain(vers, c), vers[c].level, vers[c].data, l) == ValueAt(vers, c, l)
    decreases vers[c].level
  {
    assert RestoreOk(vers, at, objects, parent, region, c);
    if vers[c].restore.None? {
    } else {
      var r := vers[c].restore.value;
      ValueIsMemo(vers, at, objects, parent, region, r, l);
      var chain := SavedChain(vers, c);
      assert chain[..|chain| - 1] == SavedChain(vers, r);
    }
  }

  lemma {:induction false} ChainFrame<T>(vers: seq<Version<T>>, vers': seq<Version<T>>, at: map<Cell, nat>, objects: set<Cell>,
                                         parent: map<Cell, Cell>, region: map<Cell, nat>, o: Cell, c: Cell)
    requires VersionsOk(vers, at, objects, parent, region) && o in objects && c in at && c != o
    requires |vers'| >= |vers| && forall x :: x in at && x != o ==> vers'[x] == vers[x]
    ensures SavedChain(vers', c) == SavedChain(vers, c)
    decreases vers[c].level
  {
    assert RestoreOk(vers, at, objects, parent, region, c);
    if vers[c].restore.None? {
    } else {
      ChainFrame(vers, vers', at, objects, parent, region, o, vers[c].restore.value);
    }
  }

  /** update() adds the current memo to the chain of the object, and changes no other chain. */
  lemma {:induction false} SaveExtendsChain<T>(vers: seq<Version<T>>, at: map<Cell, nat>, objects: set<Cell>,
                                               parent: map<Cell, Cell>, region: map<Cell, nat>,
                                               o: Cell, s: Cell, top: nat, vers': seq<Version<T>>, x: Cell)
    requires VersionsOk(vers, at, objects, parent, region) && o in objects && at[o] < top && x in objects
    requires Saves(vers, o, s, top, vers')
    ensures SavedChain(vers', x) == SavedChain(vers, x) + if x == o then [Saved(vers[o].level, vers[o].data)] else []
  {
    if x != o {
      ChainFrame(vers, vers', at, objects, parent, region, o, x);
    } else {
      assert RestoreOk(vers, at, objects, parent, region, o);
      if vers[o].restore.Some? {
        ChainFrame(vers, vers', at, objects, parent, region, o, vers[o].restore.value);
      }
      assert SavedChain(vers', s) == SavedChain(vers, o);
    }
  }

  /** restore() goes back to the newest memo of the chain, and changes no other chain. */
  lemma {:induction false} RestoreDropsMemo<T>(vers: seq<Version<T>>, at: map<Cell, nat>, objects: set<Cell>,
                                               parent: map<Cell, Cell>, region: map<Cell, nat>, o: Cell, r: Cell, x: Cell)
    requires VersionsOk(vers, at, objects, parent, region) && o in objects && x in objects
    requires vers[o].restore == Some(r) && r < |vers|
    ensures
      var chain, vers' := SavedChain(vers, o), vers[o := vers[r]];
      && chain != [] && chain[|chain| - 1] == Saved(vers'[o].level, vers'[o].data)
      && SavedChain(vers', x) == if x == o then chain[..|chain| - 1] else SavedChain(vers, x)
  {
    var vers' := vers[o := vers[r]];
    assert RestoreOk(vers, at, objects, parent, region, o);
    if x != o {
      ChainFrame(vers, vers', at, objects, parent, region, o, x);
    } else {
      assert RestoreOk(vers, at, objects, parent, region, r);
      if vers[r].restore.Some? {
        ChainFrame(vers, vers', at, objects, parent, region, o, vers[r].restore.value);
      }
      assert SavedChain(vers', o) == SavedChain(vers, r);
    }
  }
}
