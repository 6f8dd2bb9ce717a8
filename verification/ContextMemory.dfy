/** The region-based memory manager: chunks, a bump pointer and saved regions. */
module ContextMemory {
  import opened Sequences
  import opened Formulas
  import opened Vectors

  const CHUNK_SIZE := 16384
  const MAX_FREE_CHUNKS := 100

  /** An address: an offset into a chunk, possibly one past its end. */
  datatype Address = Address(chunk: nat, offset: nat)

  /** A block handed out: the position of its chunk in the active list, and its bytes. */
  datatype Block = Block(index: nat, offset: nat, size: nat)

  /** How often chunk c occurs among the active, free and released chunks. */
  ghost function Places(active: seq<nat>, free: seq<nat>, released: set<nat>, c: nat): nat {
    multiset(active)[c] + multiset(free)[c] + if c in released then 1 else 0
  }

  /** Every chunk obtained is active, free or released, and only one of them. */
  ghost predicate ChunksOk(active: seq<nat>, free: seq<nat>, released: set<nat>, mallocs: nat) {
    forall c: nat {:trigger Places(active, free, released, c)} ::
      Places(active, free, released, c) == if c < mallocs then 1 else 0
  }

  /** The active chunks are different chunks. */
  lemma ActiveDiffer(active: seq<nat>, free: seq<nat>, released: set<nat>, mallocs: nat, i: nat, j: nat)
    requires ChunksOk(active, free, released, mallocs) && i < j < |active|
    ensures active[i] != active[j]
  {
    assert Places(active, free, released, active[i]) <= 1;
    assert active == active[..j] + [active[j]] + active[j + 1..];
    assert active[i] in active[..j];
  }

  lemma MallocChunk(active: seq<nat>, released: set<nat>, mallocs: nat)
    requires ChunksOk(active, [], released, mallocs)
    ensures ChunksOk(active + [mallocs], [], released, mallocs + 1)
  {
    forall c: nat
      ensures Places(active + [mallocs], [], released, c) == if c < mallocs + 1 then 1 else 0
    {
      assert Places(active, [], released, c) == if c < mallocs then 1 else 0;
    }
  }

  /** The newest free chunk becomes active, or the newest active chunk becomes free. */
  lemma MoveChunk(active: seq<nat>, free: seq<nat>, c: nat, released: set<nat>, mallocs: nat)
    ensures ChunksOk(active, free + [c], released, mallocs) <==> ChunksOk(active + [c], free, released, mallocs)
  {
    forall x: nat
      ensures Places(active + [c], free, released, x) == Places(active, free + [c], released, x)
    {
    }
    if ChunksOk(active + [c], free, released, mallocs) {
      forall x: nat
        ensures Places(active, free + [c], released, x) == if x < mallocs then 1 else 0
      {
        assert Places(active + [c], free, released, x) == if x < mallocs then 1 else 0;
      }
    }
  }

  lemma ReleaseChunk(active: seq<nat>, free: seq<nat>, released: set<nat>, mallocs: nat)
    requires ChunksOk(active, free, released, mallocs) && free != []
    ensures ChunksOk(active, free[1..], released + {free[0]}, mallocs)
  {
    assert free == [free[0]] + free[1..];
    assert Places(active, free, released, free[0]) == if free[0] < mallocs then 1 else 0;
    forall c: nat
      ensures Places(active, free[1..], released + {free[0]}, c) == if c < mallocs then 1 else 0
    {
      assert Places(active, free, released, c) == if c < mallocs then 1 else 0;
    }
  }

  /** Block b ends at or before the position (index, offset). */
  ghost predicate Before(b: Block, index: nat, offset: nat) {
    b.index < index || (b.index == index && b.offset + b.size <= offset)
  }

  /** Blocks lie in active chunks, one after the other, all before the bump pointer. */
  ghost predicate BlocksOk(blocks: seq<Block>, index: nat, offset: nat) {
    && (forall p :: 0 <= p < |blocks| ==> blocks[p].offset + blocks[p].size <= CHUNK_SIZE && Before(blocks[p], index, offset))
    && (forall p, q :: 0 <= p < q < |blocks| ==> Before(blocks[p], blocks[q].index, blocks[q].offset))
  }

  /** Two live blocks share no byte. */
  ghost predicate Disjoint(b: Block, c: Block) {
    forall index, byte :: !(Contains(b, index, byte) && Contains(c, index, byte))
  }

  ghost predicate Contains(b: Block, index: nat, byte: int) {
    b.index == index && b.offset <= byte < b.offset + b.size
  }

  lemma BlocksDisjoint(blocks: seq<Block>, index: nat, offset: nat, p: nat, q: nat)
    requires BlocksOk(blocks, index, offset) && p < |blocks| && q < |blocks| && p != q
    ensures Disjoint(blocks[p], blocks[q])
  {
    if p < q {
      assert Before(blocks[p], blocks[q].index, blocks[q].offset);
    } else {
      assert Before(blocks[q], blocks[p].index, blocks[p].offset);
    }
  }

  /** A bump pointer into active chunk `index`. */
  ghost predicate PointerOk(active: seq<nat>, next: Address, end: Address, index: nat) {
    && index < |active|
    && next.chunk == active[index] && end == Address(active[index], CHUNK_SIZE)
    && next.offset <= CHUNK_SIZE
  }

  /** The state a push stored: its pointer, and the blocks live at that time. */
  ghost predicate RegionOk(active: seq<nat>, blocks: seq<Block>, next: Address, end: Address, index: nat, live: nat) {
    && PointerOk(active, next, end, index)
    && live <= |blocks| && BlocksOk(blocks[..live], index, next.offset)
  }

  /** More chunks and more blocks leave a saved region as it is. */
  lemma RegionGrows(active: seq<nat>, blocks: seq<Block>, active': seq<nat>, blocks': seq<Block>,
                    next: Address, end: Address, index: nat, live: nat)
    requires RegionOk(active, blocks, next, end, index, live) && active <= active' && blocks <= blocks'
    ensures RegionOk(active', blocks', next, end, index, live)
  {
    assert blocks'[..live] == blocks[..live];
  }

  /** All saved regions, oldest first. */
  ghost predicate RegionsOk(active: seq<nat>, blocks: seq<Block>, nexts: seq<Address>, ends: seq<Address>,
                            indices: seq<nat>, lives: seq<nat>)
  {
    && |nexts| == |ends| == |indices| == |lives|
    && (forall i {:trigger RegionOk(active, blocks, nexts[i], ends[i], indices[i], lives[i])} :: 0 <= i < |lives| ==>
          RegionOk(active, blocks, nexts[i], ends[i], indices[i], lives[i]))
    && (forall i, j :: 0 <= i < j < |lives| ==> indices[i] <= indices[j] && lives[i] <= lives[j])
  }

  /** The regions below the newest only use the chunks and blocks that stay. */
  lemma PopRegions(active: seq<nat>, blocks: seq<Block>, nexts: seq<Address>, ends: seq<Address>,
                   indices: seq<nat>, lives: seq<nat>)
    requires RegionsOk(active, blocks, nexts, ends, indices, lives) && lives != []
    ensures
      var top := |lives| - 1;
      && indices[top] < |active| && lives[top] <= |blocks|
      && PointerOk(active[..indices[top] + 1], nexts[top], ends[top], indices[top])
      && BlocksOk(blocks[..lives[top]], indices[top], nexts[top].offset)
      && RegionsOk(active[..indices[top] + 1], blocks[..lives[top]], nexts[..top], ends[..top], indices[..top], lives[..top])
  {
    var top := |lives| - 1;
    assert RegionOk(active, blocks, nexts[top], ends[top], indices[top], lives[top]);
    forall i | 0 <= i < top
      ensures RegionOk(active[..indices[top] + 1], blocks[..lives[top]], nexts[..top][i], ends[..top][i], indices[..top][i], lives[..top][i])
    {
      assert RegionOk(active, blocks, nexts[i], ends[i], indices[i], lives[i]);
      assert blocks[..lives[top]][..lives[i]] == blocks[..lives[i]];
    }
  }

  lemma PushRegion(active: seq<nat>, blocks: seq<Block>, nexts: seq<Address>, ends: seq<Address>,
                   indices: seq<nat>, lives: seq<nat>, next: Address, end: Address, index: nat)
    requires RegionsOk(active, blocks, nexts, ends, indices, lives)
    requires PointerOk(active, next, end, index) && BlocksOk(blocks, index, next.offset) && |active| == index + 1
    ensures RegionsOk(active, blocks, nexts + [next], ends + [end], indices + [index], lives + [|blocks|])
  {
    assert blocks[..|blocks|] == blocks;
    var nexts', ends', indices', lives' := nexts + [next], ends + [end], indices + [index], lives + [|blocks|];
    forall i | 0 <= i < |lives'|
      ensures RegionOk(active, blocks, nexts'[i], ends'[i], indices'[i], lives'[i]) && indices'[i] <= index
    {
      if i < |lives| { assert RegionOk(active, blocks, nexts[i], ends[i], indices[i], lives[i]); }
    }
  }

  lemma RegionsGrow(active: seq<nat>, blocks: seq<Block>, active': seq<nat>, blocks': seq<Block>,
                    nexts: seq<Address>, ends: seq<Address>, indices: seq<nat>, lives: seq<nat>)
    requires RegionsOk(active, blocks, nexts, ends, indices, lives) && active <= active' && blocks <= blocks'
    ensures RegionsOk(active', blocks', nexts, ends, indices, lives)
  {
    forall i | 0 <= i < |lives|
      ensures RegionOk(active', blocks', nexts[i], ends[i], indices[i], lives[i])
    {
      assert RegionOk(active, blocks, nexts[i], ends[i], indices[i], lives[i]);
      RegionGrows(active, blocks, active', blocks', nexts[i], ends[i], indices[i], lives[i]);
    }
  }

  lemma BlockAdded(blocks: seq<Block>, index: nat, offset: nat, b: Block)
    requires BlocksOk(blocks, index, offset)
    requires b.offset + b.size <= CHUNK_SIZE
    requires b.index > index || (b.index == index && b.offset == offset)
    ensures BlocksOk(blocks + [b], b.index, b.offset + b.size)
  {
  }

  class ContextMemoryManager {
    var chunkList: seq<nat>
    var freeChunks: seq<nat>
    var nextFree: Address
    var endChunk: Address
    var indexChunkList: nat
    var nextFreeStack: seq<Address>
    var endChunkStack: seq<Address>
    var indexChunkListStack: seq<nat>
    /** How many chunks malloc has returned; each gets the next number. */
    var mallocs: nat
    ghost var released: set<nat>
    ghost var blocks: seq<Block>
    /** How many blocks were live at each push. */
    ghost var marks: seq<nat>

    ghost predicate Valid()
      reads this
    {
      && ChunksOk(chunkList, freeChunks, released, mallocs) && |chunkList| == indexChunkList + 1
      && PointerOk(chunkList, nextFree, endChunk, indexChunkList)
      && BlocksOk(blocks, indexChunkList, nextFree.offset)
      && RegionsOk(chunkList, blocks, nextFreeStack, endChunkStack, indexChunkListStack, marks)
    }

    /** Byte `byte` of chunk `chunk` belongs to the live block p. */
    ghost predicate Occupies(p: nat, chunk: nat, byte: int)
      reads this
    {
      && p < |blocks| && blocks[p].index < |chunkList| && chunkList[blocks[p].index] == chunk
      && Contains(blocks[p], blocks[p].index, byte)
    }

    /** Every live block lies in one active chunk, and no two share a byte of any chunk. */
    lemma LiveBlocksDisjoint(p: nat, q: nat, chunk: nat, byte: int)
      requires Valid() && p < |blocks| && q < |blocks|
      ensures blocks[p].index < |chunkList| && blocks[p].offset + blocks[p].size <= CHUNK_SIZE
      ensures p != q && Occupies(p, chunk, byte) ==> !Occupies(q, chunk, byte)
    {
      assert Before(blocks[p], indexChunkList, nextFree.offset);
      if p != q && Occupies(p, chunk, byte) {
        var i, j := blocks[p].index, blocks[q].index;
        if i < j {
          ActiveDiffer(chunkList, freeChunks, released, mallocs, i, j);
        } else if j < i {
          if j < |chunkList| { ActiveDiffer(chunkList, freeChunks, released, mallocs, j, i); }
        } else {
          BlocksDisjoint(blocks, indexChunkList, nextFree.offset, p, q);
          assert Contains(blocks[p], i, byte);
        }
      }
    }

    /** The blocks counted at a push are among the live ones. */
    lemma MarksAreLive()
      requires Valid()
      ensures forall l :: 0 <= l < |marks| ==> marks[l] <= |blocks|
    {
      forall l | 0 <= l < |marks|
        ensures marks[l] <= |blocks|
      {
        assert RegionOk(chunkList, blocks, nextFreeStack[l], endChunkStack[l], indexChunkListStack[l], marks[l]);
      }
    }

    constructor ()
      ensures Valid() && blocks == [] && marks == [] && freeChunks == [] && released == {}
    {
      chunkList, freeChunks, mallocs := [0], [], 1;
      nextFree, endChunk, indexChunkList := Address(0, 0), Address(0, CHUNK_SIZE), 0;
      nextFreeStack, endChunkStack, indexChunkListStack := [], [], [];
      released, blocks, marks := {}, [], [];
      MallocChunk([], {}, 0);
      assert [] + [0] == [0];
    }

    method NewChunk()
      requires ChunksOk(chunkList, freeChunks, released, mallocs) && |chunkList| == indexChunkList + 1
      modifies this`chunkList, this`freeChunks, this`nextFree, this`endChunk, this`indexChunkList, this`mallocs
      ensures ChunksOk(chunkList, freeChunks, released, mallocs)
      ensures indexChunkList == old(indexChunkList) + 1 && |chunkList| == indexChunkList + 1
      ensures chunkList == old(chunkList) + [chunkList[indexChunkList]]
      ensures freeChunks == (if old(freeChunks) == [] then [] else old(freeChunks)[..|old(freeChunks)| - 1])
      ensures PointerOk(chunkList, nextFree, endChunk, indexChunkList) && nextFree.offset == 0
    {
      indexChunkList := indexChunkList + 1;
      if freeChunks == [] {
        MallocChunk(chunkList, released, mallocs);
        chunkList := chunkList + [mallocs];
        mallocs := mallocs + 1;
      } else {
        var back := freeChunks[|freeChunks| - 1];
        assert freeChunks == freeChunks[..|freeChunks| - 1] + [back];
        MoveChunk(chunkList, freeChunks[..|freeChunks| - 1], back, released, mallocs);
        chunkList := chunkList + [back];
        freeChunks := freeChunks[..|freeChunks| - 1];
      }
      nextFree := Address(chunkList[|chunkList| - 1], 0);
      endChunk := Address(nextFree.chunk, nextFree.offset + CHUNK_SIZE);
    }

    /** Fails, which ends the program, exactly when the request exceeds a chunk. */
    method NewData(size: nat) returns (res: Option<Address>)
      requires Valid()
      modifies this
      ensures res.Some? <==> size <= CHUNK_SIZE
      ensures res.Some? ==> Valid() && marks == old(marks) && old(chunkList) <= chunkList
      ensures res.Some? ==> blocks == old(blocks) + [Block(indexChunkList, res.value.offset, size)]
      ensures res.Some? ==> res.value.chunk == chunkList[indexChunkList]
      ensures old(nextFree.offset) + size <= CHUNK_SIZE ==>
        res == Some(old(nextFree)) && chunkList == old(chunkList) && freeChunks == old(freeChunks)
      ensures old(nextFree.offset) + size > CHUNK_SIZE && res.Some? ==>
        res.value.offset == 0 && |chunkList| == |old(chunkList)| + 1
    {
      var start := nextFree;
      nextFree := Address(nextFree.chunk, nextFree.offset + size);
      if nextFree.offset > endChunk.offset {
        NewChunk();
        start := nextFree;
        nextFree := Address(nextFree.chunk, nextFree.offset + size);
        if nextFree.offset > endChunk.offset {
          return None;
        }
      }
      ghost var added := Block(indexChunkList, start.offset, size);
      BlockAdded(blocks, old(indexChunkList), old(nextFree.offset), added);
      RegionsGrow(old(chunkList), blocks, chunkList, blocks + [added],
                  nextFreeStack, endChunkStack, indexChunkListStack, marks);
      blocks := blocks + [added];
      return Some(start);
    }

    method Push()
      requires Valid()
      modifies this
      ensures Valid() && blocks == old(blocks) && marks == old(marks) + [|blocks|] && chunkList == old(chunkList)
    {
      PushRegion(chunkList, blocks, nextFreeStack, endChunkStack, indexChunkListStack, marks,
                 nextFree, endChunk, indexChunkList);
      nextFreeStack := nextFreeStack + [nextFree];
      endChunkStack := endChunkStack + [endChunk];
      indexChunkListStack := indexChunkListStack + [indexChunkList];
      marks := marks + [|blocks|];
    }

    method FreeNewChunks(index: nat)
      requires ChunksOk(chunkList, freeChunks, released, mallocs)
      requires |chunkList| == indexChunkList + 1 && index <= indexChunkList
      modifies this`chunkList, this`freeChunks, this`indexChunkList
      ensures ChunksOk(chunkList, freeChunks, released, mallocs)
      ensures indexChunkList == index && chunkList == old(chunkList)[..index + 1]
      ensures freeChunks == old(freeChunks) + Reversed(old(chunkList)[index + 1..])
    {
      assert chunkList[index + 1..|chunkList|] == chunkList[index + 1..];
      while indexChunkList > index
        invariant index <= indexChunkList && |chunkList| == indexChunkList + 1
        invariant chunkList <= old(chunkList)
        invariant freeChunks + Reversed(old(chunkList)[index + 1..indexChunkList + 1]) ==
                  old(freeChunks) + Reversed(old(chunkList)[index + 1..])
        invariant ChunksOk(chunkList, freeChunks, released, mallocs)
      {
        var back := chunkList[|chunkList| - 1];
        assert chunkList == chunkList[..|chunkList| - 1] + [back];
        MoveChunk(chunkList[..|chunkList| - 1], freeChunks, back, released, mallocs);
        CleanNewest(freeChunks, old(chunkList), index + 1, indexChunkList + 1);
        freeChunks := freeChunks + [back];
        chunkList := chunkList[..|chunkList| - 1];
        indexChunkList := indexChunkList - 1;
      }
      assert old(chunkList)[index + 1..index + 1] == [];
    }

    method DeleteExcessChunks()
      requires ChunksOk(chunkList, freeChunks, released, mallocs)
      modifies this`freeChunks, this`released
      ensures ChunksOk(chunkList, freeChunks, released, mallocs) && |freeChunks| <= MAX_FREE_CHUNKS
      ensures
        var excess := if |old(freeChunks)| <= MAX_FREE_CHUNKS then 0 else |old(freeChunks)| - MAX_FREE_CHUNKS;
        freeChunks == old(freeChunks)[excess..] && released == old(released) + Members(old(freeChunks)[..excess])
    {
      ghost var gone := 0;
      while |freeChunks| > MAX_FREE_CHUNKS
        invariant ChunksOk(chunkList, freeChunks, released, mallocs)
        invariant gone <= |old(freeChunks)| && freeChunks == old(freeChunks)[gone..]
        invariant gone > 0 ==> |freeChunks| >= MAX_FREE_CHUNKS
        invariant released == old(released) + Members(old(freeChunks)[..gone])
      {
        ReleaseChunk(chunkList, freeChunks, released, mallocs);
        assert old(freeChunks)[..gone + 1] == old(freeChunks)[..gone] + [freeChunks[0]];
        gone := gone + 1;
        released := released + {freeChunks[0]};
        freeChunks := freeChunks[1..];
      }
    }

    /** The chunks taken since the push become free, of which a bounded number is kept. */
    method PopChunks(index: nat)
      requires ChunksOk(chunkList, freeChunks, released, mallocs)
      requires |chunkList| == indexChunkList + 1 && index <= indexChunkList
      modifies this`chunkList, this`freeChunks, this`indexChunkList, this`released
      ensures ChunksOk(chunkList, freeChunks, released, mallocs) && |freeChunks| <= MAX_FREE_CHUNKS
      ensures indexChunkList == index && chunkList == old(chunkList)[..index + 1]
    {
      FreeNewChunks(index);
      DeleteExcessChunks();
    }

    /** Puts back the bump pointer of the push, and forgets the blocks allocated since. */
    method PopPointer() returns (index: nat)
      requires RegionsOk(chunkList, blocks, nextFreeStack, endChunkStack, indexChunkListStack, marks) && marks != []
      modifies this`nextFree, this`endChunk, this`nextFreeStack, this`endChunkStack, this`indexChunkListStack,
               this`blocks, this`marks
      ensures index == old(indexChunkListStack)[|old(marks)| - 1] && index < |chunkList|
      ensures PointerOk(chunkList[..index + 1], nextFree, endChunk, index) && BlocksOk(blocks, index, nextFree.offset)
      ensures RegionsOk(chunkList[..index + 1], blocks, nextFreeStack, endChunkStack, indexChunkListStack, marks)
      ensures marks == old(marks)[..|old(marks)| - 1]
      ensures blocks <= old(blocks) && |blocks| == old(marks)[|old(marks)| - 1]
    {
      PopRegions(chunkList, blocks, nextFreeStack, endChunkStack, indexChunkListStack, marks);
      var top := |nextFreeStack| - 1;
      index := indexChunkListStack[top];
      nextFree, endChunk := nextFreeStack[top], endChunkStack[top];
      nextFreeStack, endChunkStack, indexChunkListStack := nextFreeStack[..top], endChunkStack[..top], indexChunkListStack[..top];
      blocks, marks := blocks[..marks[top]], marks[..top];
    }

    /** Ends the current region. */
    method Pop()
      requires Valid() && marks != []
      modifies this
      ensures Valid() && |freeChunks| <= MAX_FREE_CHUNKS
      ensures marks == old(marks)[..|old(marks)| - 1]
      ensures blocks <= old(blocks) && |blocks| == old(marks)[|old(marks)| - 1]
      ensures chunkList <= old(chunkList) && |chunkList| == old(indexChunkListStack)[|old(marks)| - 1] + 1
    {
      var index := PopPointer();
      PopChunks(index);
    }
  }
}
