/** The first-in-first-out queue built on the context-dependent list. */
module ContextQueue {
  import opened LazySaves
  import opened Vectors

  /** What save() copies: the list itself is not copied. */
  datatype QueueMemo = QueueMemo(size: nat, iter: nat, lastsave: nat)

  /** The queue a memo stands for. */
  ghost function Contents<T>(list: seq<T>, m: QueueMemo): seq<T> {
    if m.iter <= m.size <= |list| then list[m.iter..m.size] else []
  }

  /** The size each version must keep: that of the version before it. */
  ghost predicate FloorOk(saved: seq<Saved<QueueMemo>>, m: QueueMemo) {
    && m.iter <= m.size
    && m.lastsave == (if saved == [] then 0 else saved[|saved| - 1].memo.size)
    && m.lastsave <= m.size
  }

  ghost predicate FloorsOk(saved: seq<Saved<QueueMemo>>, m: QueueMemo) {
    FloorOk(saved, m) && forall i :: 0 <= i < |saved| ==> FloorOk(saved[..i], saved[i].memo)
  }

  lemma {:induction false} SavedBelow(saved: seq<Saved<QueueMemo>>, m: QueueMemo, i: nat)
    requires FloorsOk(saved, m) && i < |saved|
    ensures saved[i].memo.size <= m.lastsave
    decreases |saved|
  {
    var n := |saved| - 1;
    assert FloorOk(saved[..n], saved[n].memo);
    if i < n {
      assert forall k :: 0 <= k < n ==> saved[..n][..k] == saved[..k];
      SavedBelow(saved[..n], saved[n].memo, i);
    }
  }

  /** Dropping the newest saved memo and going back to it. */
  lemma FloorsPop(saved: seq<Saved<QueueMemo>>, m: QueueMemo)
    requires FloorsOk(saved, m) && saved != []
    ensures FloorsOk(saved[..|saved| - 1], saved[|saved| - 1].memo)
  {
    var n := |saved| - 1;
    assert FloorOk(saved[..n], saved[n].memo);
    forall i | 0 <= i < n
      ensures FloorOk(saved[..n][..i], saved[i].memo)
    {
      assert FloorOk(saved[..i], saved[i].memo) && saved[..n][..i] == saved[..i];
    }
  }

  lemma FloorsPush(saved: seq<Saved<QueueMemo>>, m: QueueMemo, scope: nat)
    requires FloorsOk(saved, m)
    ensures FloorsOk(saved + [Saved(scope, m)], m.(lastsave := m.size))
  {
    var saved' := saved + [Saved(scope, m)];
    forall i | 0 <= i < |saved'|
      ensures FloorOk(saved'[..i], saved'[i].memo)
    {
      assert saved'[..i] == saved[..i];
      if i < |saved| { assert FloorOk(saved[..i], saved[i].memo); } else { assert saved[..i] == saved; }
    }
  }

  /** The queue recorded at each push is the one its memo stands for. */
  ghost predicate Recorded<T>(snaps: seq<seq<T>>, list: seq<T>, saved: seq<Saved<QueueMemo>>, scope: nat, m: QueueMemo) {
    forall l {:trigger RecordedAt(snaps, list, saved, scope, m, l)} :: 0 <= l < |snaps| ==>
      RecordedAt(snaps, list, saved, scope, m, l)
  }

  ghost predicate RecordedAt<T>(snaps: seq<seq<T>>, list: seq<T>, saved: seq<Saved<QueueMemo>>, scope: nat, m: QueueMemo, l: nat)
    requires l < |snaps|
  {
    snaps[l] == Contents(list, MemoAt(saved, scope, m, l))
  }

  /** A list that keeps the size of the newest saved memo keeps every recorded queue. */
  lemma RecordedKept<T>(snaps: seq<seq<T>>, list: seq<T>, list': seq<T>, saved: seq<Saved<QueueMemo>>, scope: nat,
                        m: QueueMemo, m': QueueMemo)
    requires Recorded(snaps, list, saved, scope, m) && |snaps| == scope
    requires ChainOk(saved, scope, scope) && FloorsOk(saved, m)
    requires m.lastsave <= |list| && m.lastsave <= |list'| && list[..m.lastsave] == list'[..m.lastsave]
    ensures Recorded(snaps, list', saved, scope, m')
  {
    forall l | 0 <= l < |snaps|
      ensures RecordedAt(snaps, list', saved, scope, m', l)
    {
      assert RecordedAt(snaps, list, saved, scope, m, l);
      MemoAtIsSaved(saved, scope, m, scope, l);
      var i :| 0 <= i < |saved| && saved[i].memo == MemoAt(saved, scope, m, l);
      SavedBelow(saved, m, i);
      assert FloorOk(saved[..i], saved[i].memo);
      SamePrefix(list, list', m.lastsave, saved[i].memo);
    }
  }

  lemma RecordedSave<T>(snaps: seq<seq<T>>, list: seq<T>, saved: seq<Saved<QueueMemo>>, scope: nat, m: QueueMemo, m': QueueMemo)
    requires Recorded(snaps, list, saved, scope, m) && ChainOk(saved, scope, |snaps|) && scope < |snaps|
    ensures ChainOk(saved + [Saved(scope, m)], |snaps|, |snaps|)
    ensures Recorded(snaps, list, saved + [Saved(scope, m)], |snaps|, m')
  {
    SaveKeepsMemos(saved, scope, m, m', |snaps|, 0);
    forall l | 0 <= l < |snaps|
      ensures RecordedAt(snaps, list, saved + [Saved(scope, m)], |snaps|, m', l)
    {
      assert RecordedAt(snaps, list, saved, scope, m, l);
      SaveKeepsMemos(saved, scope, m, m', |snaps|, l);
    }
  }

  lemma RecordedRestore<T>(snaps: seq<seq<T>>, list: seq<T>, saved: seq<Saved<QueueMemo>>, scope: nat, m: QueueMemo)
    requires Recorded(snaps, list, saved, scope, m) && ChainOk(saved, scope, scope) && |snaps| == scope && scope > 0
    requires FloorsOk(saved, m) && m.size <= |list|
    ensures saved != []
    ensures
      var n := |saved| - 1;
      var m' := saved[n].memo;
      && m'.size <= |list| && ChainOk(saved[..n], saved[n].scope, scope - 1)
      && Recorded(snaps, list[..m'.size], saved[..n], saved[n].scope, m')
  {
    RestoreKeepsMemos(saved, scope, m, 0);
    var n := |saved| - 1;
    var m' := saved[n].memo;
    RecordedKept(snaps, list, list[..m'.size], saved, scope, m, m);
    forall l | 0 <= l < |snaps|
      ensures RecordedAt(snaps, list[..m'.size], saved[..n], saved[n].scope, m', l)
    {
      assert RecordedAt(snaps, list[..m'.size], saved, scope, m, l);
      RestoreKeepsMemos(saved, scope, m, l);
    }
  }

  class CDQueue<T> {
    const base: Vector<T>
    var iter: nat
    var lastsave: nat
    /** The scope of the last change, the current level, and the saved memos. */
    var scope: nat
    var level: nat
    var saved: seq<Saved<QueueMemo>>
    /** The queue at each open push. */
    ghost var snaps: seq<seq<T>>

    ghost function Memo(): QueueMemo
      reads this, base
    {
      QueueMemo(base.size, iter, lastsave)
    }

    ghost predicate Valid()
      reads this, base
    {
      && base.Valid() && |snaps| == level
      && ChainOk(saved, scope, level) && FloorsOk(saved, Memo())
      && Recorded(snaps, base.list, saved, scope, Memo())
    }

    /** The elements waiting, in order. */
    ghost function View(): seq<T>
      requires Valid()
      reads this, base
    {
      base.list[iter..base.size]
    }

    constructor (callCleanup: bool, level: nat)
      ensures Valid() && fresh(base) && View() == [] && this.level == level
      ensures snaps == seq(level, _ => [])
    {
      base := new Vector<T>(callCleanup);
      iter, lastsave, scope, saved := 0, 0, 0, [];
      this.level := level;
      snaps := seq(level, _ => []);
    }

    /** save(), at the first change in a scope. */
    method MakeCurrent()
      requires Valid()
      modifies this
      ensures Valid() && scope == level && View() == old(View()) && snaps == old(snaps) && level == old(level)
    {
      if scope != level {
        ghost var memo := Memo();
        RecordedSave(snaps, base.list, saved, scope, memo, memo.(lastsave := memo.size));
        FloorsPush(saved, memo, scope);
        saved := saved + [Saved(scope, QueueMemo(base.size, iter, lastsave))];
        lastsave := base.size;
        scope := level;
      }
    }

    method Push(data: T)
      requires Valid()
      modifies this, base
      ensures Valid() && View() == old(View()) + [data] && snaps == old(snaps) && level == old(level)
    {
      MakeCurrent();
      ghost var list, memo := base.list, Memo();
      base.PushBack(data);
      RecordedKept(snaps, list, base.list, saved, scope, memo, Memo());
    }

    /** Elements enqueued and dequeued in the same scope are dropped once the queue is empty:
        the list then has only what saved versions need. */
    method Pop()
      requires Valid() && View() != []
      modifies this, base
      ensures Valid() && View() == old(View())[1..] && snaps == old(snaps) && level == old(level)
      ensures View() == [] ==> base.size == lastsave
    {
      MakeCurrent();
      ghost var list, memo := base.list, Memo();
      iter := iter + 1;
      if iter == base.size && lastsave != base.size {
        base.TruncateList(lastsave);
        iter := lastsave;
      }
      RecordedKept(snaps, list, base.list, saved, scope, memo, Memo());
    }

    method Empty() returns (b: bool)
      requires Valid()
      ensures b <==> View() == []
    {
      b := iter == base.size;
    }

    method Size() returns (n: nat)
      requires Valid()
      ensures n == |View()|
    {
      n := base.size - iter;
    }

    method Front() returns (x: T)
      requires Valid() && View() != []
      ensures x == View()[0]
    {
      x := base.list[iter];
    }

    method Back() returns (x: T)
      requires Valid() && View() != []
      ensures x == View()[|View()| - 1]
    {
      x := base.list[base.size - 1];
    }

    method ContextPush()
      requires Valid()
      modifies this
      ensures Valid() && View() == old(View()) && snaps == old(snaps) + [old(View())]
    {
      RecordedPush(snaps, base.list, saved, scope, Memo());
      snaps := snaps + [View()];
      level := level + 1;
    }

    /** restore(), when the queue changed in the scope being popped. */
    method ContextPop()
      requires Valid() && level > 0
      modifies this, base
      ensures Valid() && View() == old(snaps[|snaps| - 1]) && snaps == old(snaps[..|snaps| - 1])
    {
      if scope == level {
        Restore();
      }
      ghost var memo, before := Memo(), snaps;
      LastRecorded(before, base.list, saved, scope, memo);
      level, snaps := level - 1, before[..level - 1];
      assert Memo() == memo;
    }

    method Restore()
      requires Valid() && scope == level && level > 0
      modifies this, base
      ensures base.Valid() && level == old(level) && snaps == old(snaps)
      ensures ChainOk(saved, scope, level - 1) && FloorsOk(saved, Memo())
      ensures Recorded(snaps, base.list, saved, scope, Memo())
    {
      RecordedRestore(snaps, base.list, saved, scope, Memo());
      FloorsPop(saved, Memo());
      var last := saved[|saved| - 1];
      iter, lastsave := last.memo.iter, last.memo.lastsave;
      base.TruncateList(last.memo.size);
      scope, saved := last.scope, saved[..|saved| - 1];
    }
  }

  /** A queue unchanged since the last push is the one recorded there. */
  lemma LastRecorded<T>(snaps: seq<seq<T>>, list: seq<T>, saved: seq<Saved<QueueMemo>>, scope: nat, m: QueueMemo)
    requires Recorded(snaps, list, saved, scope, m) && scope < |snaps|
    ensures Recorded(snaps[..|snaps| - 1], list, saved, scope, m)
    ensures Contents(list, m) == snaps[|snaps| - 1]
  {
    assert RecordedAt(snaps, list, saved, scope, m, |snaps| - 1);
    var older := snaps[..|snaps| - 1];
    forall l | 0 <= l < |older|
      ensures RecordedAt(older, list, saved, scope, m, l)
    {
      assert RecordedAt(snaps, list, saved, scope, m, l);
    }
  }

  lemma RecordedPush<T>(snaps: seq<seq<T>>, list: seq<T>, saved: seq<Saved<QueueMemo>>, scope: nat, m: QueueMemo)
    requires Recorded(snaps, list, saved, scope, m) && scope <= |snaps|
    ensures Recorded(snaps + [Contents(list, m)], list, saved, scope, m)
  {
    forall l | 0 <= l < |snaps| + 1
      ensures RecordedAt(snaps + [Contents(list, m)], list, saved, scope, m, l)
    {
      if l < |snaps| { assert RecordedAt(snaps, list, saved, scope, m, l); }
    }
  }

  lemma SamePrefix<T>(list: seq<T>, list': seq<T>, n: nat, m: QueueMemo)
    requires n <= |list| && n <= |list'| && list[..n] == list'[..n]
    requires m.iter <= m.size <= n
    ensures Contents(list', m) == Contents(list, m)
  {
    assert list[m.iter..m.size] == list[..n][m.iter..m.size];
    assert list'[m.iter..m.size] == list'[..n][m.iter..m.size];
  }
}
