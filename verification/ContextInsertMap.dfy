/** A context-dependent map that takes one insertion per key. */
module ContextInsertMap {
  import opened Sequences
  import opened LazySaves

  ghost predicate SameKeys<K, V>(keys: seq<K>, table: map<K, V>) {
    Distinct(keys) && table.Keys == Members(keys)
  }

  /** The entries of the first n keys inserted. */
  ghost function Upto<K, V>(keys: seq<K>, table: map<K, V>, n: nat): map<K, V>
    requires n <= |keys| && SameKeys(keys, table)
  {
    map k | k in table && k in keys[..n] :: table[k]
  }

  /** Removing the last key leaves the entries of the others. */
  lemma DropLastKey<K, V>(keys: seq<K>, table: map<K, V>)
    requires SameKeys(keys, table) && keys != []
    ensures SameKeys(keys[..|keys| - 1], table - {keys[|keys| - 1]})
    ensures table - {keys[|keys| - 1]} == Upto(keys, table, |keys| - 1)
  {
    var n := |keys| - 1;
    assert keys == keys[..n] + [keys[n]];
    assert keys[n] !in keys[..n];
  }

  /** Entries of a shorter prefix do not depend on what comes after it. */
  lemma UptoUpto<K, V>(keys: seq<K>, table: map<K, V>, keys': seq<K>, table': map<K, V>, m: nat, n: nat)
    requires SameKeys(keys, table) && SameKeys(keys', table') && n <= m <= |keys| && m <= |keys'|
    requires keys[..m] == keys'[..m] && forall k :: k in keys[..m] ==> k in table && k in table' && table[k] == table'[k]
    ensures Upto(keys', table', n) == Upto(keys, table, n)
  {
    assert keys[..n] == keys[..m][..n] == keys'[..n];
    forall k | k in keys[..n]
      ensures k in keys[..m]
    {
      assert k in keys[..m][..n];
    }
  }

  /** The key stack and the hash table, kept in step. */
  class InsertHashMap<K(==), V> {
    var keys: seq<K>
    var table: map<K, V>

    ghost predicate Valid()
      reads this
    {
      SameKeys(keys, table)
    }

    constructor ()
      ensures Valid() && keys == [] && table == map[]
    {
      keys, table := [], map[];
    }

    method PushBack(k: K, d: V)
      requires Valid() && k !in table
      modifies this
      ensures Valid() && keys == old(keys) + [k] && table == old(table)[k := d]
    {
      table := table[k := d];
      keys := keys + [k];
    }

    method PopBack()
      requires Valid() && keys != []
      modifies this
      ensures Valid() && keys == old(keys)[..|old(keys)| - 1] && table == Upto(old(keys), old(table), |old(keys)| - 1)
    {
      DropLastKey(keys, table);
      var back := keys[|keys| - 1];
      table := table - {back};
      keys := keys[..|keys| - 1];
    }

    method PopToSize(s: nat)
      requires Valid() && s <= |keys|
      modifies this
      ensures Valid() && keys == old(keys)[..s] && table == Upto(old(keys), old(table), s)
    {
      while |keys| > s
        invariant Valid() && s <= |keys| <= |old(keys)|
        invariant keys == old(keys)[..|keys|] && table == Upto(old(keys), old(table), |keys|)
        decreases |keys|
      {
        ghost var n := |keys|;
        PopBack();
        assert keys == old(keys)[..n - 1];
        assert table == Upto(old(keys), old(table), n - 1);
      }
    }
  }

  class CDInsertHashMap<K(==), V> {
    const insertMap: InsertHashMap<K, V>
    var size: nat
    var scope: nat
    var level: nat
    var saved: seq<Saved<nat>>
    /** The map at each open push. */
    ghost var snaps: seq<map<K, V>>

    ghost predicate Valid()
      reads this, insertMap
    {
      && insertMap.Valid() && size == |insertMap.keys| && |snaps| == level
      && ChainOk(saved, scope, level) && SizesOk(saved, size)
      && forall l {:trigger RecordedAt(l)} :: 0 <= l < level ==> RecordedAt(l)
    }

    ghost predicate RecordedAt(l: nat)
      reads this, insertMap
    {
      && l < |snaps| && insertMap.Valid()
      && var n := MemoAt(saved, scope, size, l);
         n <= |insertMap.keys| && snaps[l] == Upto(insertMap.keys, insertMap.table, n)
    }

    constructor (level: nat)
      ensures Valid() && fresh(insertMap) && insertMap.table == map[] && insertMap.keys == []
      ensures this.level == level && snaps == seq(level, _ => map[])
    {
      insertMap := new InsertHashMap<K, V>();
      size, scope, saved := 0, 0, [];
      this.level := level;
      snaps := seq(level, _ => map[]);
      new;
      forall l | 0 <= l < level
        ensures RecordedAt(l)
      {
      }
    }

    method MakeCurrent()
      requires Valid()
      modifies this
      ensures Valid() && scope == level && size == old(size) && snaps == old(snaps) && level == old(level)
    {
      if scope != level {
        SaveKeepsSizes(saved, scope, size, level);
        saved, scope := saved + [Saved(scope, size)], level;
        forall l | 0 <= l < level
          ensures RecordedAt(l)
        {
          assert old(RecordedAt(l));
        }
      }
    }

    method Insert(k: K, d: V)
      requires Valid() && k !in insertMap.table
      modifies this, insertMap
      ensures Valid() && insertMap.table == old(insertMap.table)[k := d] && insertMap.keys == old(insertMap.keys) + [k]
      ensures snaps == old(snaps) && level == old(level)
    {
      MakeCurrent();
      ghost var keys, table := insertMap.keys, insertMap.table;
      ghost var n := size;
      ghost var before: map<nat, nat> := map l: nat | 0 <= l < level :: MemoAt(saved, scope, size, l);
      forall l | 0 <= l < level
        ensures RecordedAt(l) && before[l] <= n
      {
        MemoAtMost(saved, scope, n, level, l);
      }
      size := size + 1;
      insertMap.PushBack(k, d);
      forall l | 0 <= l < level
        ensures RecordedAt(l)
      {
        MemoAtIsSaved(saved, scope, n, level, l);
        UptoUpto(keys, table, insertMap.keys, insertMap.table, n, before[l]);
      }
    }

    method InsertSafe(k: K, d: V) returns (inserted: bool)
      requires Valid()
      modifies this, insertMap
      ensures Valid() && snaps == old(snaps) && level == old(level)
      ensures inserted <==> k !in old(insertMap.table)
      ensures insertMap.table == if inserted then old(insertMap.table)[k := d] else old(insertMap.table)
    {
      inserted := k !in insertMap.table;
      if inserted {
        Insert(k, d);
      }
    }

    method ContextPush()
      requires Valid()
      modifies this
      ensures Valid() && snaps == old(snaps) + [insertMap.table]
    {
      snaps := snaps + [insertMap.table];
      level := level + 1;
      forall l | 0 <= l < level
        ensures RecordedAt(l)
      {
        if l < level - 1 {
          assert old(RecordedAt(l));
        } else {
          assert insertMap.keys[..size] == insertMap.keys;
        }
      }
    }

    /** restore(), when the map changed in the scope being popped. */
    method Restore()
      requires Valid() && scope == level && level > 0
      modifies this, insertMap
      ensures insertMap.Valid() && size == |insertMap.keys| && level == old(level) && snaps == old(snaps)
      ensures ChainOk(saved, scope, level - 1) && SizesOk(saved, size)
      ensures forall l {:trigger RecordedAt(l)} :: 0 <= l < level ==> RecordedAt(l)
    {
      ghost var keys, table, n := insertMap.keys, insertMap.table, size;
      RestoreKeepsMemos(saved, scope, n, level - 1);
      var last := saved[|saved| - 1];
      insertMap.PopToSize(last.memo);
      size, scope, saved := last.memo, last.scope, saved[..|saved| - 1];
      forall l | 0 <= l < level
        ensures RecordedAt(l)
      {
        assert old(RecordedAt(l));
        RestoreKeepsMemos(old(saved), old(scope), n, l);
        MemoAtMost(old(saved), old(scope), n, level, l);
        UptoUpto(keys, table, insertMap.keys, insertMap.table, size, MemoAt(saved, scope, size, l));
      }
    }

    method ContextPop()
      requires Valid() && level > 0
      modifies this, insertMap
      ensures Valid() && insertMap.table == old(snaps[|snaps| - 1]) && snaps == old(snaps[..|snaps| - 1])
    {
      if scope == level {
        Restore();
      }
      assert RecordedAt(level - 1);
      assert insertMap.keys[..size] == insertMap.keys;
      label Restored:
      snaps := snaps[..|snaps| - 1];
      level := level - 1;
      forall l | 0 <= l < level
        ensures RecordedAt(l)
      {
        assert old@Restored(RecordedAt(l));
      }
    }
  }
}
