/** The mutable parts of the decision strategy: the solver's assignment, the
    justify cache, the justify stack and the assertion lists. */
module JustifyParts {
  import opened Formulas
  import opened JustifyFrames

  /** Stands for the SAT solver and the CNF stream: atoms are their own literals. */
  class SatSolver {
    var assigns: Assignment

    constructor ()
      ensures assigns == map[]
    {
      assigns := map[];
    }
  }

  class JustifyCache {
    const sat: SatSolver
    var justified: Cache

    constructor (sat: SatSolver)
      ensures this.sat == sat && justified == map[]
    {
      this.sat := sat;
      justified := map[];
    }

    method LookupValue(n: Formula) returns (v: SatValue)
      requires CacheOk(justified, sat.assigns)
      requires !Base(n).Not?
      modifies this
      ensures CacheOk(justified, sat.assigns)
      ensures Grows(old(justified), justified, None)
      ensures v == Cached(justified, n) && v == Looked(old(justified), sat.assigns, n)
      ensures v == SatUnknown ==> justified == old(justified) && Base(n) !in justified
      ensures v == SatUnknown && IsTheoryLiteral(n) ==> Base(n).id !in sat.assigns
    {
      var atom := Base(n);
      if atom in justified {
        return Polarized(n, justified[atom]);
      }
      if atom.Atom? {
        if atom.id in sat.assigns {
          var val := FromBool(sat.assigns[atom.id]);
          justified := justified[atom := val];
          return Polarized(n, val);
        }
      }
      return SatUnknown;
    }

    /** The map allows one insertion per key. */
    method SetValue(n: Formula, value: SatValue)
      requires CacheOk(justified, sat.assigns)
      requires n !in justified && !n.Not?
      requires value != SatUnknown && value == Kleene(n, sat.assigns)
      modifies this
      ensures CacheOk(justified, sat.assigns)
      ensures justified == old(justified)[n := value]
    {
      justified := justified[n := value];
    }
  }

  class JustifyStack {
    var current: Option<Formula>
    /** Valid up to sizeValid; entries above are kept for reuse. */
    var stack: seq<JustifyInfo>
    var sizeValid: nat

    ghost predicate Valid()
      reads this
    {
      sizeValid <= |stack|
    }

    ghost function Frames(): seq<JustifyInfo>
      requires Valid()
      reads this
    {
      stack[..sizeValid]
    }

    constructor ()
      ensures Valid() && current == None && stack == [] && sizeValid == 0
    {
      current, stack, sizeValid := None, [], 0;
    }

    method Reset(curr: Formula)
      requires Valid()
      modifies this
      ensures Valid() && current == Some(curr)
      ensures Frames() == [JustifyInfo(curr, SatTrue, 0)]
    {
      current := Some(curr);
      sizeValid := 0;
      PushToStack(curr, SatTrue);
    }

    method Clear()
      requires Valid()
      modifies this
      ensures Valid() && current == None && Frames() == []
    {
      current := None;
      sizeValid := 0;
    }

    method PushToStack(n: Formula, desired: SatValue)
      requires Valid()
      modifies this
      ensures Valid() && current == old(current)
      ensures Frames() == old(Frames()) + [JustifyInfo(n, desired, 0)]
    {
      GetOrAllocJustifyInfo(sizeValid);
      stack := stack[sizeValid := JustifyInfo(n, desired, 0)];
      sizeValid := sizeValid + 1;
    }

    method GetOrAllocJustifyInfo(i: nat)
      requires Valid() && i <= |stack|
      modifies this`stack
      ensures i < |stack| && old(stack) <= stack
    {
      if i == |stack| {
        stack := stack + [JustifyInfo(Atom(0), SatUnknown, 0)];
      }
    }

    method PopStack()
      requires Valid() && sizeValid > 0
      modifies this
      ensures Valid() && current == old(current)
      ensures Frames() == old(Frames()[..sizeValid - 1])
    {
      sizeValid := sizeValid - 1;
    }

    /** getNextChildIndex of the top frame. */
    method NextChildIndex() returns (i: nat)
      requires Valid() && sizeValid > 0
      modifies this`stack
      ensures Valid()
      ensures i == old(Frames()[sizeValid - 1].childIndex)
      ensures Frames() == old(Frames()[..sizeValid - 1]) + [old(Frames()[sizeValid - 1]).(childIndex := i + 1)]
    {
      var ji := stack[sizeValid - 1];
      i := ji.childIndex;
      stack := stack[sizeValid - 1 := ji.(childIndex := i + 1)];
    }
  }

  /** Static order only: both lists are built with the dynamic order off. */
  class AssertionList {
    var assertions: seq<Formula>
    var index: nat

    constructor ()
      ensures assertions == [] && index == 0
    {
      assertions, index := [], 0;
    }

    method Presolve()
      modifies this`index
      ensures index == 0
    {
      index := 0;
    }

    method AddAssertion(n: Formula)
      modifies this`assertions
      ensures assertions == old(assertions) + [n]
    {
      assertions := assertions + [n];
    }

    method GetNextAssertion() returns (n: Option<Formula>)
      requires index <= |assertions|
      modifies this`index
      ensures index <= |assertions|
      ensures n == None ==> old(index) == |assertions| && index == old(index)
      ensures n.Some? ==> index == old(index) + 1 && n.value == assertions[old(index)]
    {
      if index == |assertions| {
        return None;
      }
      index := index + 1;
      return Some(assertions[index - 1]);
    }
  }
}
