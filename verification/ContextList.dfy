/** Context-dependent lists. */
module ContextList {
  import opened LazySaves
  import opened Vectors

  /** A list that keeps its elements up to the last saved size keeps every recorded list. */
  lemma {:induction false} PrefixKept<T>(list: seq<T>, list': seq<T>, n: nat, k: nat)
    requires k <= n <= |list| && n <= |list'| && list[..n] == list'[..n]
    ensures list'[..k] == list[..k]
  {
    assert list[..n][..k] == list[..k] && list'[..n][..k] == list'[..k];
  }

  /** The list as a context object: it saves its size alone. */
  class CDList<T> {
    const base: Vector<T>
    /** The scope of the last change, the current level, and the saved sizes. */
    var scope: nat
    var level: nat
    var saved: seq<Saved<nat>>
    /** The list at each open push. */
    ghost var snaps: seq<seq<T>>

    ghost predicate Valid()
      reads this, base
    {
      && base.Valid() && |snaps| == level
      && ChainOk(saved, scope, level) && SizesOk(saved, base.size)
      && Recorded(snaps, base.list, saved, scope, base.size)
    }

    constructor (callCleanup: bool, level: nat)
      ensures Valid() && fresh(base) && base.list == [] && base.cleaned == [] && base.callCleanup == callCleanup
      ensures this.level == level && snaps == seq(level, _ => [])
    {
      base := new Vector<T>(callCleanup);
      scope, saved := 0, [];
      this.level := level;
      snaps := seq(level, _ => []);
    }

    /** save(), at the first change in a scope. */
    method MakeCurrent()
      requires Valid()
      modifies this`saved, this`scope
      ensures Valid() && scope == level
    {
      if scope != level {
        SaveKeepsSizes(saved, scope, base.size, level);
        RecordedSave(snaps, base.list, saved, scope, base.size);
        saved, scope := saved + [Saved(scope, base.size)], level;
      }
    }

    method PushBack(data: T)
      requires Valid()
      modifies this`saved, this`scope, base
      ensures Valid() && base.list == old(base.list) + [data] && base.cleaned == old(base.cleaned)
    {
      MakeCurrent();
      ghost var list := base.list;
      base.PushBack(data);
      RecordedGrows(snaps, list, base.list, saved, scope);
    }

    method ContextPush()
      requires Valid()
      modifies this`level, this`snaps
      ensures Valid() && snaps == old(snaps) + [base.list] && level == old(level) + 1
    {
      RecordedPush(snaps, base.list, saved, scope);
      snaps, level := snaps + [base.list], level + 1;
    }

    /** restore(), when the list changed in the scope being popped. */
    method Restore()
      requires Valid() && scope == level && level > 0
      modifies this`saved, this`scope, base
      ensures base.Valid() && ChainOk(saved, scope, level - 1) && SizesOk(saved, base.size)
      ensures Recorded(snaps, base.list, saved, scope, base.size)
      ensures base.list <= old(base.list)
      ensures base.cleaned == old(base.cleaned) + if base.callCleanup then Reversed(old(base.list)[|base.list|..]) else []
    {
      RecordedRestore(snaps, base.list, saved, scope);
      var last := saved[|saved| - 1];
      base.TruncateList(last.memo);
      scope, saved := last.scope, saved[..|saved| - 1];
    }

    /** The list of the matching push is back; what was appended since is cleaned up once,
        newest first. */
    method ContextPop()
      requires Valid() && level > 0
      modifies this, base
      ensures Valid() && level == old(level) - 1 && snaps == old(snaps)[..level]
      ensures base.list == old(snaps)[level] && base.list <= old(base.list)
      ensures base.cleaned == old(base.cleaned) + if base.callCleanup then Reversed(old(base.list)[|base.list|..]) else []
    {
      if scope == level {
        Restore();
      }
      assert old(base.list)[|old(base.list)|..] == [];
      LastRecorded(snaps, base.list, saved, scope);
      level, snaps := level - 1, snaps[..level - 1];
    }
  }

  /** The list recorded at each push is the prefix of the size saved for it. */
  ghost predicate Recorded<T>(snaps: seq<seq<T>>, list: seq<T>, saved: seq<Saved<nat>>, scope: nat, size: nat) {
    forall l {:trigger RecordedAt(snaps, list, saved, scope, size, l)} :: 0 <= l < |snaps| ==>
      RecordedAt(snaps, list, saved, scope, size, l)
  }

  ghost predicate RecordedAt<T>(snaps: seq<seq<T>>, list: seq<T>, saved: seq<Saved<nat>>, scope: nat, size: nat, l: nat)
    requires l < |snaps|
  {
    var n := MemoAt(saved, scope, size, l);
    n <= |list| && snaps[l] == list[..n]
  }

  lemma RecordedSave<T>(snaps: seq<seq<T>>, list: seq<T>, saved: seq<Saved<nat>>, scope: nat, size: nat)
    requires Recorded(snaps, list, saved, scope, size) && ChainOk(saved, scope, |snaps|) && scope < |snaps|
    ensures Recorded(snaps, list, saved + [Saved(scope, size)], |snaps|, size)
  {
    forall l | 0 <= l < |snaps|
      ensures RecordedAt(snaps, list, saved + [Saved(scope, size)], |snaps|, size, l)
    {
      assert RecordedAt(snaps, list, saved, scope, size, l);
      SaveKeepsMemos(saved, scope, size, size, |snaps|, l);
    }
  }

  lemma RecordedGrows<T>(snaps: seq<seq<T>>, list: seq<T>, list': seq<T>, saved: seq<Saved<nat>>, scope: nat)
    requires Recorded(snaps, list, saved, scope, |list|) && |snaps| == scope && ChainOk(saved, scope, scope)
    requires list <= list'
    ensures Recorded(snaps, list', saved, scope, |list'|)
  {
    forall l | 0 <= l < |snaps|
      ensures RecordedAt(snaps, list', saved, scope, |list'|, l)
    {
      assert RecordedAt(snaps, list, saved, scope, |list|, l);
      MemoAtIsSaved(saved, scope, |list|, scope, l);
    }
  }

  lemma RecordedPush<T>(snaps: seq<seq<T>>, list: seq<T>, saved: seq<Saved<nat>>, scope: nat)
    requires Recorded(snaps, list, saved, scope, |list|) && scope <= |snaps|
    ensures Recorded(snaps + [list], list, saved, scope, |list|)
  {
    forall l | 0 <= l < |snaps| + 1
      ensures RecordedAt(snaps + [list], list, saved, scope, |list|, l)
    {
      if l < |snaps| { assert RecordedAt(snaps, list, saved, scope, |list|, l); } else { assert list[..|list|] == list; }
    }
  }

  /** Cutting back to the saved size loses no element an older version needs. */
  lemma RecordedRestore<T>(snaps: seq<seq<T>>, list: seq<T>, saved: seq<Saved<nat>>, scope: nat)
    requires Recorded(snaps, list, saved, scope, |list|) && ChainOk(saved, scope, scope) && |snaps| == scope && scope > 0
    requires SizesOk(saved, |list|)
    ensures saved != []
    ensures
      var n, rest := saved[|saved| - 1].memo, saved[..|saved| - 1];
      && n <= |list| && ChainOk(rest, saved[|saved| - 1].scope, scope - 1) && SizesOk(rest, n)
      && Recorded(snaps, list[..n], rest, saved[|saved| - 1].scope, n)
  {
    RestoreKeepsMemos(saved, scope, |list|, 0);
    var last, rest := saved[|saved| - 1], saved[..|saved| - 1];
    forall l | 0 <= l < |snaps|
      ensures RecordedAt(snaps, list[..last.memo], rest, last.scope, last.memo, l)
    {
      assert RecordedAt(snaps, list, saved, scope, |list|, l);
      RestoreKeepsMemos(saved, scope, |list|, l);
      MemoAtMost(saved, scope, |list|, scope, l);
      PrefixKept(list, list[..last.memo], last.memo, MemoAt(saved, scope, |list|, l));
    }
  }

  /** A list unchanged since the last push is the one recorded there. */
  lemma LastRecorded<T>(snaps: seq<seq<T>>, list: seq<T>, saved: seq<Saved<nat>>, scope: nat)
    requires Recorded(snaps, list, saved, scope, |list|) && scope < |snaps|
    ensures Recorded(snaps[..|snaps| - 1], list, saved, scope, |list|)
    ensures list == snaps[|snaps| - 1]
  {
    assert RecordedAt(snaps, list, saved, scope, |list|, |snaps| - 1);
    var older := snaps[..|snaps| - 1];
    forall l | 0 <= l < |older|
      ensures RecordedAt(older, list, saved, scope, |list|, l)
    {
      assert RecordedAt(snaps, list, saved, scope, |list|, l);
    }
  }
}
