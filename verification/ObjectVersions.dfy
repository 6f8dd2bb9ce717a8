/** The saved versions of each context object, newest first along the restore pointers. */
module ObjectVersions {
  import opened Formulas
  import opened ScopeChains
  import opened EagerContext

  /** The fields a cell keeps apart from its list links: d_pScope, the data and d_pContextObjRestore. */
  datatype Version<T> = Version(level: nat, data: T, restore: Option<Cell>)

  /** Each cell in a list is the current version of a live object or a saved version
      that exactly one newer cell restores from. A cell is saved in the region of the
      scope its newer version belongs to. */
  ghost predicate VersionsOk<T>(vers: seq<Version<T>>, at: map<Cell, nat>, objects: set<Cell>,
                                parent: map<Cell, Cell>, region: map<Cell, nat>)
  {
    && objects <= at.Keys
    && (forall c :: c in at ==> c < |vers| && vers[c].level == at[c])
    && (forall c {:trigger RestoreOk(vers, at, objects, parent, region, c)} :: c in at ==>
          RestoreOk(vers, at, objects, parent, region, c))
    && (forall r {:trigger SavedOk(vers, at, parent, r)} :: r in at && r !in objects ==> SavedOk(vers, at, parent, r))
  }

  ghost predicate RestoreOk<T>(vers: seq<Version<T>>, at: map<Cell, nat>, objects: set<Cell>,
                               parent: map<Cell, Cell>, region: map<Cell, nat>, c: Cell)
    requires c < |vers|
  {
    match vers[c].restore
    case None => vers[c].level == 0
    case Some(r) =>
      && r in at && r !in objects && r in parent && parent[r] == c && r != c
      && r < |vers| && vers[r].level < vers[c].level
      && r in region && region[r] == vers[c].level
  }

  ghost predicate SavedOk<T>(vers: seq<Version<T>>, at: map<Cell, nat>, parent: map<Cell, Cell>, r: Cell) {
    r in parent && parent[r] in at && parent[r] < |vers| && vers[parent[r]].restore == Some(r)
  }

  /** A saved version belongs to an older scope than the version that restores from it. */
  lemma SavedIsOlder<T>(vers: seq<Version<T>>, at: map<Cell, nat>, objects: set<Cell>,
                        parent: map<Cell, Cell>, region: map<Cell, nat>, r: Cell)
    requires VersionsOk(vers, at, objects, parent, region) && r in at && r !in objects
    ensures r in parent && parent[r] in at && at[r] < at[parent[r]]
    ensures r in region && region[r] == at[parent[r]]
  {
    assert SavedOk(vers, at, parent, r);
    assert RestoreOk(vers, at, objects, parent, region, parent[r]);
  }

  /** The value at scope l: that of the newest version saved at or below it. */
  ghost function ValueAt<T>(vers: seq<Version<T>>, c: Cell, l: nat): T
    requires c < |vers|
    decreases vers[c].level
  {
    var v := vers[c];
    if v.level > l && v.restore.Some? && v.restore.value < |vers| && vers[v.restore.value].level < v.level
    then ValueAt(vers, v.restore.value, l)
    else v.data
  }

  /** The store holds exactly what the eager context holds. */
  ghost predicate Represents<T>(vers: seq<Version<T>>, objects: set<Cell>, snaps: seq<map<Cell, T>>)
    requires forall o :: o in objects ==> o < |vers|
  {
    forall l: nat, o: Cell {:trigger CopyOk(vers, objects, snaps, l, o)} ::
      l < |snaps| ==> CopyOk(vers, objects, snaps, l, o)
  }

  ghost predicate CopyOk<T>(vers: seq<Version<T>>, objects: set<Cell>, snaps: seq<map<Cell, T>>, l: nat, o: Cell)
    requires l < |snaps| && forall o :: o in objects ==> o < |vers|
  {
    (o in snaps[l] <==> o in objects) && (o in objects ==> snaps[l][o] == ValueAt(vers, o, l))
  }

  // ---- how each operation changes the versions ---------------------------

  /** Other objects' versions are not touched by a change to the cell of o. */
  lemma {:induction false} ValueFrame<T>(vers: seq<Version<T>>, vers': seq<Version<T>>, at: map<Cell, nat>, objects: set<Cell>,
                                         parent: map<Cell, Cell>, region: map<Cell, nat>, o: Cell, c: Cell, l: nat)
    requires VersionsOk(vers, at, objects, parent, region) && o in objects && c in at && c != o
    requires |vers'| >= |vers| && forall x :: x in at && x != o ==> vers'[x] == vers[x]
    ensures ValueAt(vers', c, l) == ValueAt(vers, c, l)
    decreases vers[c].level
  {
    assert RestoreOk(vers, at, objects, parent, region, c);
    if vers[c].restore.Some? {
      ValueFrame(vers, vers', at, objects, parent, region, o, vers[c].restore.value, l);
    }
  }

  /** A version's value only depends on the older versions when it is newer than l. */
  lemma {:induction false} SameVersion<T>(vers: seq<Version<T>>, vers': seq<Version<T>>, at: map<Cell, nat>, objects: set<Cell>,
                       parent: map<Cell, Cell>, region: map<Cell, nat>, o: Cell, c: Cell, c': Cell, l: nat)
    requires VersionsOk(vers, at, objects, parent, region) && o in objects && c in at
    requires |vers'| >= |vers| && forall x :: x in at && x != o ==> vers'[x] == vers[x]
    requires c' < |vers'| && vers'[c'] == vers[c]
    ensures ValueAt(vers', c', l) == ValueAt(vers, c, l)
  {
    assert RestoreOk(vers, at, objects, parent, region, c);
    if vers[c].restore.Some? {
      ValueFrame(vers, vers', at, objects, parent, region, o, vers[c].restore.value, l);
    }
  }

  ghost function Reparent(parent: map<Cell, Cell>, child: Option<Cell>, p: Cell): map<Cell, Cell> {
    if child.Some? then parent[child.value := p] else parent
  }

  /** What save() does to the versions: the copy s takes over those of o, and o becomes
      the newest, at scope `top`. */
  ghost predicate Saves<T>(vers: seq<Version<T>>, o: Cell, s: Cell, top: nat, vers': seq<Version<T>>) {
    o < |vers| && s == |vers| && vers' == vers[o := Version(top, vers[o].data, Some(s))] + [vers[o]]
  }

  lemma SaveKeepsRestores<T>(vers: seq<Version<T>>, at: map<Cell, nat>, objects: set<Cell>, parent: map<Cell, Cell>,
                             region: map<Cell, nat>, o: Cell, s: Cell, top: nat, vers': seq<Version<T>>, c: Cell)
    requires VersionsOk(vers, at, objects, parent, region) && o in objects && at[o] < top
    requires Saves(vers, o, s, top, vers') && (c in at || c == s)
    ensures c < |vers'| && vers'[c].level == at[s := at[o]][o := top][c]
    ensures RestoreOk(vers', at[s := at[o]][o := top], objects, Reparent(parent, vers[o].restore, s)[s := o], region[s := top], c)
  {
    assert RestoreOk(vers, at, objects, parent, region, o);
    if c != s && c != o { assert RestoreOk(vers, at, objects, parent, region, c); }
  }

  lemma SaveKeepsSaved<T>(vers: seq<Version<T>>, at: map<Cell, nat>, objects: set<Cell>, parent: map<Cell, Cell>,
                          region: map<Cell, nat>, o: Cell, s: Cell, top: nat, vers': seq<Version<T>>, r: Cell)
    requires VersionsOk(vers, at, objects, parent, region) && o in objects && at[o] < top
    requires Saves(vers, o, s, top, vers') && (r in at || r == s) && r !in objects
    ensures SavedOk(vers', at[s := at[o]][o := top], Reparent(parent, vers[o].restore, s)[s := o], r)
  {
    assert RestoreOk(vers, at, objects, parent, region, o);
    if r != s { assert SavedOk(vers, at, parent, r); }
  }

  lemma SaveKeepsVersions<T>(vers: seq<Version<T>>, at: map<Cell, nat>, objects: set<Cell>, parent: map<Cell, Cell>,
                             region: map<Cell, nat>, o: Cell, s: Cell, top: nat, vers': seq<Version<T>>)
    requires VersionsOk(vers, at, objects, parent, region) && o in objects && at[o] < top
    requires Saves(vers, o, s, top, vers')
    ensures VersionsOk(vers', at[s := at[o]][o := top], objects, Reparent(parent, vers[o].restore, s)[s := o], region[s := top])
  {
    var at' := at[s := at[o]][o := top];
    var parent', region' := Reparent(parent, vers[o].restore, s)[s := o], region[s := top];
    forall c | c in at'
      ensures c < |vers'| && vers'[c].level == at'[c] && RestoreOk(vers', at', objects, parent', region', c)
    {
      SaveKeepsRestores(vers, at, objects, parent, region, o, s, top, vers', c);
    }
    forall r | r in at' && r !in objects
      ensures SavedOk(vers', at', parent', r)
    {
      SaveKeepsSaved(vers, at, objects, parent, region, o, s, top, vers', r);
    }
  }

  lemma SaveRepresents<T>(vers: seq<Version<T>>, at: map<Cell, nat>, objects: set<Cell>, parent: map<Cell, Cell>,
                          region: map<Cell, nat>, o: Cell, s: Cell, top: nat, vers': seq<Version<T>>, snaps: seq<map<Cell, T>>)
    requires VersionsOk(vers, at, objects, parent, region) && o in objects && at[o] < top
    requires Saves(vers, o, s, top, vers')
    requires Represents(vers, objects, snaps) && |snaps| <= top
    ensures Represents(vers', objects, snaps)
  {
    forall l: nat, x: Cell | l < |snaps|
      ensures CopyOk(vers', objects, snaps, l, x)
    {
      assert CopyOk(vers, objects, snaps, l, x);
      if x == o {
        SameVersion(vers, vers', at, objects, parent, region, o, o, s, l);
      } else if x in objects {
        ValueFrame(vers, vers', at, objects, parent, region, o, x, l);
      }
    }
  }

  /** A change of the data of an object already at scope `top` is not seen by older scopes. */
  lemma AssignRepresents<T>(vers: seq<Version<T>>, at: map<Cell, nat>, objects: set<Cell>, parent: map<Cell, Cell>,
                            region: map<Cell, nat>, o: Cell, v: T, snaps: seq<map<Cell, T>>)
    requires VersionsOk(vers, at, objects, parent, region) && o in objects && at[o] == |snaps|
    requires Represents(vers, objects, snaps)
    ensures VersionsOk(vers[o := vers[o].(data := v)], at, objects, parent, region)
    ensures Represents(vers[o := vers[o].(data := v)], objects, snaps)
  {
    var vers' := vers[o := vers[o].(data := v)];
    forall c | c in at
      ensures RestoreOk(vers', at, objects, parent, region, c)
    {
      assert RestoreOk(vers, at, objects, parent, region, c);
    }
    forall r | r in at && r !in objects
      ensures SavedOk(vers', at, parent, r)
    {
      assert SavedOk(vers, at, parent, r);
    }
    forall l: nat, x: Cell | l < |snaps|
      ensures CopyOk(vers', objects, snaps, l, x)
    {
      assert CopyOk(vers, objects, snaps, l, x);
      if x == o {
        assert RestoreOk(vers, at, objects, parent, region, o);
        if vers[o].restore.Some? {
          ValueFrame(vers, vers', at, objects, parent, region, o, vers[o].restore.value, l);
        }
      } else if x in objects {
        ValueFrame(vers, vers', at, objects, parent, region, o, x, l);
      }
    }
  }

  /** restore(): o takes back the fields of the version it restores from. */
  lemma RestoreKeepsVersions<T>(vers: seq<Version<T>>, at: map<Cell, nat>, objects: set<Cell>, parent: map<Cell, Cell>,
                                region: map<Cell, nat>, o: Cell, r: Cell)
    requires VersionsOk(vers, at, objects, parent, region) && o in objects && vers[o].restore == Some(r)
    ensures r in at && r < |vers| && at[r] < at[o] && r !in objects && r != o
    ensures VersionsOk(vers[o := vers[r]], (at - {r})[o := at[r]], objects, Reparent(parent, vers[r].restore, o), region)
  {
    assert RestoreOk(vers, at, objects, parent, region, o);
    var vers', at' := vers[o := vers[r]], (at - {r})[o := at[r]];
    var parent' := Reparent(parent, vers[r].restore, o);
    assert RestoreOk(vers, at, objects, parent, region, r);
    forall c | c in at'
      ensures RestoreOk(vers', at', objects, parent', region, c)
    {
      assert RestoreOk(vers, at, objects, parent, region, c);
    }
    forall x | x in at' && x !in objects
      ensures SavedOk(vers', at', parent', x)
    {
      assert SavedOk(vers, at, parent, x);
    }
  }

  lemma RestoreRepresents<T>(vers: seq<Version<T>>, at: map<Cell, nat>, objects: set<Cell>, parent: map<Cell, Cell>,
                             region: map<Cell, nat>, o: Cell, r: Cell, snaps: seq<map<Cell, T>>)
    requires VersionsOk(vers, at, objects, parent, region) && o in objects && vers[o].restore == Some(r)
    requires Represents(vers, objects, snaps) && |snaps| <= at[o]
    ensures r < |vers| && Represents(vers[o := vers[r]], objects, snaps)
  {
    assert RestoreOk(vers, at, objects, parent, region, o);
    var vers' := vers[o := vers[r]];
    forall l: nat, x: Cell | l < |snaps|
      ensures CopyOk(vers', objects, snaps, l, x)
    {
      assert CopyOk(vers, objects, snaps, l, x);
      if x == o {
        SameVersion(vers, vers', at, objects, parent, region, o, r, o, l);
      } else if x in objects {
        ValueFrame(vers, vers', at, objects, parent, region, o, x, l);
      }
    }
  }
}
