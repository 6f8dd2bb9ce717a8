/** A context and the memory its saved versions live in. */
module ManagedContext {
  import opened Formulas
  import opened ScopeChains
  import opened EagerContext
  import opened ContextEngine
  import opened ContextMemory

  /** Block b was allocated after push l and before the next one. */
  ghost predicate InRegion(b: nat, l: nat, marks: seq<nat>, live: nat) {
    1 <= l <= |marks| && marks[l - 1] <= b < if l < |marks| then marks[l] else live
  }

  /** Each saved version has a live block of its own, in the region it was saved in. */
  ghost predicate Placed(saved: map<Cell, nat>, block: map<Cell, nat>, marks: seq<nat>, live: nat) {
    && (forall r :: r in saved ==> r in block && InRegion(block[r], saved[r], marks, live))
    && (forall r, q :: r in saved && q in saved && r != q ==> r in block && q in block && block[r] != block[q])
  }

  lemma PushPlaced(saved: map<Cell, nat>, block: map<Cell, nat>, marks: seq<nat>, live: nat)
    requires Placed(saved, block, marks, live)
    ensures Placed(saved, block, marks + [live], live)
  {
  }

  lemma SavePlaced(saved: map<Cell, nat>, block: map<Cell, nat>, marks: seq<nat>, live: nat, s: Cell)
    requires Placed(saved, block, marks, live) && marks != [] && s !in saved
    requires forall l :: 0 <= l < |marks| ==> marks[l] <= live
    ensures Placed(saved[s := |marks|], block[s := live], marks, live + 1)
  {
    forall r | r in saved
      ensures block[r] != live
    {
      assert InRegion(block[r], saved[r], marks, live);
    }
  }

  /** What is saved after a pop lies in the regions that stay. */
  lemma PopPlaced(saved: map<Cell, nat>, saved': map<Cell, nat>, block: map<Cell, nat>, marks: seq<nat>, live: nat)
    requires Placed(saved, block, marks, live) && marks != []
    requires forall r :: r in saved' ==> r in saved && saved'[r] == saved[r] && saved[r] < |marks|
    ensures Placed(saved', block, marks[..|marks| - 1], marks[|marks| - 1])
  {
  }

  class ManagedContext<T(!new)> {
    const ctx: Context<T>
    const cmm: ContextMemoryManager
    /** The block each saved version was allocated as. */
    ghost var block: map<Cell, nat>

    ghost predicate Valid()
      reads this, ctx, ctx.chains, cmm
    {
      && ctx.Valid() && cmm.Valid() && |cmm.marks| == ctx.Level()
      && Placed(ctx.SavedRegions(), block, cmm.marks, |cmm.blocks|)
    }

    constructor ()
      ensures Valid() && fresh(ctx) && fresh(ctx.chains) && fresh(cmm) && ctx.view == Eager(map[], [])
    {
      ctx := new Context<T>();
      cmm := new ContextMemoryManager();
      block := map[];
    }

    /** No list has a version in released memory, and no two versions share a byte. */
    lemma SavedVersionsAreLive(r: Cell, q: Cell, chunk: nat, byte: int)
      requires Valid() && r in ctx.chains.at && r !in ctx.objects && q in ctx.chains.at && q !in ctx.objects
      ensures r in block && block[r] < |cmm.blocks| && q in block && block[q] < |cmm.blocks|
      ensures r != q && cmm.Occupies(block[r], chunk, byte) ==> !cmm.Occupies(block[q], chunk, byte)
    {
      ctx.NoReleasedCellListed(r);
      ctx.NoReleasedCellListed(q);
      MarksBound(block[r], ctx.SavedRegions()[r]);
      MarksBound(block[q], ctx.SavedRegions()[q]);
      cmm.LiveBlocksDisjoint(block[r], block[q], chunk, byte);
    }

    lemma MarksBound(b: nat, l: nat)
      requires cmm.Valid() && InRegion(b, l, cmm.marks, |cmm.blocks|)
      ensures b < |cmm.blocks|
    {
      cmm.MarksAreLive();
    }

    method Push()
      requires Valid()
      modifies ctx, ctx.chains, cmm
      ensures Valid() && ctx.view == PushAll(old(ctx.view))
    {
      PushPlaced(ctx.SavedRegions(), block, cmm.marks, |cmm.blocks|);
      cmm.Push();
      ctx.Push();
    }

    /** Fails, which ends the program, exactly when a copy is needed that exceeds a chunk. */
    method Set(o: Cell, v: T, size: nat) returns (ok: bool)
      requires Valid() && o in ctx.objects
      modifies this, ctx, ctx.chains, cmm
      ensures ok <==> old(ctx.vers[o].level == ctx.Level()) || size <= CHUNK_SIZE
      ensures ok ==> Valid() && ctx.view == SetOne(old(ctx.view), o, v)
    {
      if ctx.vers[o].level != |ctx.chains.heads| - 1 {
        ok := SaveCopy(o, size);
        if !ok {
          return false;
        }
      }
      ctx.Assign(o, v);
      return true;
    }

    /** Allocates the copy that update() leaves behind. */
    method SaveCopy(o: Cell, size: nat) returns (ok: bool)
      requires Valid() && o in ctx.objects && ctx.vers[o].level < ctx.Level()
      modifies this, ctx, ctx.chains, cmm
      ensures ok <==> size <= CHUNK_SIZE
      ensures ok ==> Valid() && ctx.view == old(ctx.view) && ctx.objects == old(ctx.objects) && ctx.vers[o].level == ctx.Level()
    {
      ghost var saved, live, s, marks := ctx.SavedRegions(), |cmm.blocks|, |ctx.vers|, cmm.marks;
      cmm.MarksAreLive();
      ctx.FreshIsUnsaved(s);
      SavePlaced(saved, block, marks, live, s);
      ok := Allocate(size);
      if !ok {
        return;
      }
      ctx.Update(o);
      block := block[s := live];
    }

    method Allocate(size: nat) returns (ok: bool)
      requires cmm.Valid()
      modifies cmm
      ensures ok <==> size <= CHUNK_SIZE
      ensures ok ==> cmm.Valid() && cmm.marks == old(cmm.marks) && |cmm.blocks| == |old(cmm.blocks)| + 1
    {
      var copy := cmm.NewData(size);
      ok := copy.Some?;
    }

    /** The versions of the popped scope are restored before their memory is released. */
    method Pop(kills: map<Cell, seq<Cell>>) returns (ghost dead: set<Cell>)
      requires Valid() && ctx.Level() > 0 && KillsOk(kills, ctx.objects)
      modifies ctx, ctx.chains, cmm
      ensures Valid() && ctx.view == Without(PopAll(old(ctx.view)), dead)
      ensures |cmm.freeChunks| <= MAX_FREE_CHUNKS
    {
      ghost var saved := ctx.SavedRegions();
      dead := PopContext(kills);
      PopPlaced(saved, ctx.SavedRegions(), block, cmm.marks, |cmm.blocks|);
      cmm.Pop();
    }

    method PopContext(kills: map<Cell, seq<Cell>>) returns (ghost dead: set<Cell>)
      requires ctx.Valid() && ctx.Level() > 0 && KillsOk(kills, ctx.objects)
      modifies ctx, ctx.chains
      ensures ctx.Valid() && ctx.view == Without(PopAll(old(ctx.view)), dead)
      ensures
        var saved, saved' := old(ctx.SavedRegions()), ctx.SavedRegions();
        forall r :: r in saved' ==> r in saved && saved'[r] == saved[r] && saved[r] < old(ctx.Level())
    {
      ghost var restored;
      restored, dead := ctx.Pop(kills);
      forall r | r in ctx.SavedRegions()
        ensures r in old(ctx.SavedRegions()) && ctx.SavedRegions()[r] <= ctx.Level()
      {
        ctx.NoReleasedCellListed(r);
      }
    }
  }
}
