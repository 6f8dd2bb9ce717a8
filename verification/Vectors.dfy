/** The storage of context-dependent lists and queues. */
module Vectors {

  /** The elements of s, last one first. */
  ghost function Reversed<T>(s: seq<T>): seq<T> {
    if s == [] then [] else [s[|s| - 1]] + Reversed(s[..|s| - 1])
  }

  lemma {:induction false} ReversedAt<T>(s: seq<T>, i: nat)
    requires i < |s|
    ensures |Reversed(s)| == |s| && Reversed(s)[i] == s[|s| - 1 - i]
  {
    if |s| > 1 {
      ReversedAt(s[..|s| - 1], if i > 0 then i - 1 else 0);
    }
  }

  lemma {:induction false} CleanNewest<T>(cleaned: seq<T>, list: seq<T>, a: nat, b: nat)
    requires a < b <= |list|
    ensures cleaned + Reversed(list[a..b]) == cleaned + [list[b - 1]] + Reversed(list[a..b - 1])
  {
    var rest := list[a..b];
    assert rest[..|rest| - 1] == list[a..b - 1];
    assert cleaned + ([list[b - 1]] + Reversed(list[a..b - 1])) == cleaned + [list[b - 1]] + Reversed(list[a..b - 1]);
  }

  /** The list itself: appended to, and cut back with a clean-up of each dropped element. */
  class Vector<T> {
    var list: seq<T>
    var size: nat
    const callCleanup: bool
    /** The elements cleaned up so far. */
    var cleaned: seq<T>

    ghost predicate Valid()
      reads this
    {
      size == |list|
    }

    constructor (callCleanup: bool)
      ensures Valid() && list == [] && cleaned == [] && this.callCleanup == callCleanup
    {
      list, size, cleaned := [], 0, [];
      this.callCleanup := callCleanup;
    }

    method PushBack(data: T)
      requires Valid()
      modifies this
      ensures Valid() && list == old(list) + [data] && cleaned == old(cleaned)
    {
      list := list + [data];
      size := size + 1;
    }

    /** The dropped elements are cleaned up once each, newest first. */
    method TruncateList(newSize: nat)
      requires Valid() && newSize <= size
      modifies this
      ensures Valid() && list == old(list)[..newSize]
      ensures cleaned == old(cleaned) + if callCleanup then Reversed(old(list)[newSize..]) else []
    {
      if callCleanup {
        assert list[newSize..size] == list[newSize..];
        while size != newSize
          invariant newSize <= size <= |list| && list == old(list)
          invariant cleaned + Reversed(list[newSize..size]) == old(cleaned) + Reversed(list[newSize..])
          decreases size
        {
          CleanNewest(cleaned, list, newSize, size);
          size := size - 1;
          cleaned := cleaned + [list[size]];
        }
        assert list[newSize..size] == [];
      } else {
        size := newSize;
      }
      list := list[..size];
    }
  }
}
