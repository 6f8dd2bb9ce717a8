/** What a container keeps for a context: a memo saved at its first change in a scope. */
module LazySaves {

  /** A saved memo and the scope it was current in. */
  datatype Saved<M> = Saved(scope: nat, memo: M)

  /** Saved memos, oldest first, from the bottom scope up to a scope below the current one. */
  ghost predicate ChainOk<M>(saved: seq<Saved<M>>, scope: nat, level: nat) {
    && scope <= level
    && (if saved == [] then scope == 0 else saved[0].scope == 0 && saved[|saved| - 1].scope < scope)
    && forall i, j :: 0 <= i < j < |saved| ==> saved[i].scope < saved[j].scope
  }

  /** The memo that was current at scope l: the newest one saved at or below l. */
  ghost function MemoAt<M>(saved: seq<Saved<M>>, scope: nat, memo: M, l: nat): M {
    if scope <= l || saved == [] then memo
    else MemoAt(saved[..|saved| - 1], saved[|saved| - 1].scope, saved[|saved| - 1].memo, l)
  }

  ghost function Memos<M>(saved: seq<Saved<M>>): set<M> {
    set i | 0 <= i < |saved| :: saved[i].memo
  }

  /** Below the scope of the last change, only saved memos count. */
  lemma {:induction false} MemoAtIsSaved<M>(saved: seq<Saved<M>>, scope: nat, memo: M, level: nat, l: nat)
    requires ChainOk(saved, scope, level) && l < scope
    ensures MemoAt(saved, scope, memo, l) in Memos(saved)
    ensures forall memo' :: MemoAt(saved, scope, memo', l) == MemoAt(saved, scope, memo, l)
  {
    var n := |saved| - 1;
    var last := saved[n];
    if last.scope <= l {
      assert saved[n].memo in Memos(saved);
    } else {
      MemoAtIsSaved(saved[..n], last.scope, last.memo, level, l);
      assert Memos(saved[..n]) <= Memos(saved);
    }
  }

  /** Saving keeps the memo of every older scope. */
  lemma SaveKeepsMemos<M>(saved: seq<Saved<M>>, scope: nat, memo: M, memo': M, level: nat, l: nat)
    requires ChainOk(saved, scope, level) && scope < level && l < level
    ensures ChainOk(saved + [Saved(scope, memo)], level, level)
    ensures MemoAt(saved + [Saved(scope, memo)], level, memo', l) == MemoAt(saved, scope, memo, l)
  {
    var saved' := saved + [Saved(scope, memo)];
    assert saved'[..|saved'| - 1] == saved;
  }

  /** Restoring keeps the memo of every older scope. */
  lemma RestoreKeepsMemos<M>(saved: seq<Saved<M>>, scope: nat, memo: M, l: nat)
    requires ChainOk(saved, scope, scope) && scope > 0 && l < scope
    ensures saved != [] && ChainOk(saved[..|saved| - 1], saved[|saved| - 1].scope, scope - 1)
    ensures MemoAt(saved[..|saved| - 1], saved[|saved| - 1].scope, saved[|saved| - 1].memo, l) == MemoAt(saved, scope, memo, l)
  {
  }

  ghost predicate SizesOk(saved: seq<Saved<nat>>, size: nat) {
    && (forall i, j :: 0 <= i <= j < |saved| ==> saved[i].memo <= saved[j].memo)
    && (forall i :: 0 <= i < |saved| ==> saved[i].memo <= size)
  }

  lemma {:induction false} SaveKeepsSizes(saved: seq<Saved<nat>>, scope: nat, size: nat, level: nat)
    requires ChainOk(saved, scope, level) && SizesOk(saved, size) && scope < level
    ensures ChainOk(saved + [Saved(scope, size)], level, level) && SizesOk(saved + [Saved(scope, size)], size)
    ensures forall l :: 0 <= l < level ==>
      MemoAt(saved + [Saved(scope, size)], level, size, l) == MemoAt(saved, scope, size, l)
  {
    SaveKeepsMemos(saved, scope, size, size, level, 0);
    forall l | 0 <= l < level
      ensures MemoAt(saved + [Saved(scope, size)], level, size, l) == MemoAt(saved, scope, size, l)
    {
      SaveKeepsMemos(saved, scope, size, size, level, l);
    }
  }

  lemma MemoAtMost(saved: seq<Saved<nat>>, scope: nat, size: nat, level: nat, l: nat)
    requires ChainOk(saved, scope, level) && SizesOk(saved, size)
    ensures MemoAt(saved, scope, size, l) <= size
    ensures l < scope ==> saved != [] && MemoAt(saved, scope, size, l) <= saved[|saved| - 1].memo
  {
    if l < scope {
      MemoAtIsSaved(saved, scope, size, level, l);
    }
  }
}
