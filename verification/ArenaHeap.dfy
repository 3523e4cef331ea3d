/** The arena as kernel/arena/src/arena.c lays it out: blocks linked by `next`, changed in
place.  Each method is proved against the function of the same name in ArenaModel. */
module ArenaHeap {
  import opened Options
  import M = ArenaModel
  import Bits

  class Chunk {
    const size: nat
    const num: nat
    ghost const index: nat // its place in the chain
    var used: nat
    var next: Chunk?

    constructor (size: nat, num: nat, ghost index: nat)
      ensures this.size == size && this.num == num && this.index == index && used == 0 && next == null
    {
      this.size, this.num, this.index := size, num, index;
      used, next := 0, null;
    }

    function Value(): M.Block
      reads this`used
    {
      M.Block(size, used, num)
    }
  }

  /** `ak_arena_mark_t` */
  datatype Mark = Mark(block: Chunk?, offset: nat, num: nat)

  /** Each block of the chain points to the one after it. */
  ghost predicate Linked(chain: seq<Chunk>, repr: set<Chunk>)
    reads repr
  {
    && (forall i :: 0 <= i < |chain| ==> chain[i] in repr && chain[i].index == i)
    && (forall i {:trigger chain[i].next} :: 0 <= i < |chain| ==> chain[i].next == After(chain, i))
  }

  ghost function After(chain: seq<Chunk>, i: nat): Chunk? {
    if i + 1 < |chain| then chain[i + 1] else null
  }

  ghost predicate Shows(chain: seq<Chunk>, repr: set<Chunk>, blocks: seq<M.Block>)
    requires forall i :: 0 <= i < |chain| ==> chain[i] in repr
    reads repr
  {
    && |blocks| == |chain|
    && (forall i :: 0 <= i < |chain| ==> blocks[i] == chain[i].Value())
  }

  /** The loops of reset and restore: nothing is used any more from block `i` on. */
  method EmptyFrom(first: Chunk?, ghost i: nat, ghost chain: seq<Chunk>, ghost repr: set<Chunk>,
                   ghost was: seq<M.Block>)
    returns (reclaimed: nat)
    requires Linked(chain, repr) && Shows(chain, repr, was)
    requires i <= |chain| && first == if i < |chain| then chain[i] else null
    modifies repr`used
    ensures Linked(chain, repr) && reclaimed == M.SumUsed(was[i..])
    ensures Shows(chain, repr, EmptiedPart(was, i, |chain|))
  {
    var block := first;
    ghost var j := i;
    reclaimed := 0;
    while block != null
      invariant i <= j <= |chain| && (j < |chain| <==> block != null)
      invariant block != null ==> block == chain[j]
      invariant Linked(chain, repr) && Shows(chain, repr, EmptiedPart(was, i, j))
      invariant reclaimed + M.SumUsed(was[j..]) == M.SumUsed(was[i..])
      decreases |chain| - j
    {
      SumFrom(was, j);
      EmptiedStep(was, i, j);
      assert block.Value() == EmptiedPart(was, i, j)[j] == was[j];
      reclaimed := reclaimed + block.used;
      SetUsed(block, 0, j, chain, repr, EmptiedPart(was, i, j));
      block, j := block.next, j + 1;
    }
    assert was[j..] == [];
  }

  method SetUsed(block: Chunk, used: nat, ghost i: nat, ghost chain: seq<Chunk>, ghost repr: set<Chunk>,
                 ghost was: seq<M.Block>)
    requires Linked(chain, repr) && i < |chain| && block == chain[i] && Shows(chain, repr, was)
    modifies block`used
    ensures Linked(chain, repr)
    ensures Shows(chain, repr, was[i := M.Block(block.size, used, block.num)])
  {
    block.used := used;
  }

  class Arena {
    var firstBlock: Chunk
    var currentBlock: Chunk
    const blockSize: nat
    var totalAllocated: nat
    var totalUsed: int
    var nextBlockNum: nat
    ghost var chain: seq<Chunk>     // the blocks from firstBlock on
    ghost var repr: set<Chunk>
    ghost var blocks: seq<M.Block>  // what they hold
    ghost var cur: nat

    ghost predicate Valid()
      reads this, repr
    {
      && Linked(chain, repr) && Shows(chain, repr, blocks)
      && cur < |chain| && blockSize > 0 && M.Words(View())
      && firstBlock == chain[0] && currentBlock == chain[cur]
    }

    ghost function View(): M.Arena
      reads this
    {
      M.Arena(blocks, cur, blockSize, totalAllocated, totalUsed, nextBlockNum)
    }

    constructor (blockSize: nat)
      requires blockSize > 0 && M.IsWord(blockSize)
      ensures Valid() && View() == M.New(blockSize) && fresh(repr)
    {
      var block := new Chunk(blockSize, 0, 0);
      firstBlock, currentBlock := block, block;
      this.blockSize := blockSize;
      totalAllocated, totalUsed, nextBlockNum := blockSize, 0, 1;
      chain, repr, blocks, cur := [block], {block}, [M.Block(blockSize, 0, 0)], 0;
    }

    /** `ak_arena_new` */
    static method New(blockSize: nat) returns (r: Arena?)
      requires M.IsWord(blockSize)
      ensures r == null <==> blockSize == 0
      ensures r != null ==> fresh(r) && fresh(r.repr) && r.Valid() && r.View() == M.New(blockSize)
    {
      if blockSize == 0 {
        return null;
      }
      r := new Arena(blockSize);
    }

    /** `ak_arena_alloc_aligned` */
    method AllocAligned(size: nat, align: nat) returns (r: Option<M.Ptr>)
      requires Valid() && M.IsWord(size) && M.IsWord(align)
      modifies this, repr
      ensures Valid() && (View(), r) == M.AllocAligned(old(View()), size, align)
      ensures fresh(repr - old(repr))
    {
      if size == 0 {
        return None;
      }
      if align == 0 || Bits.And(align, align - 1) != 0 {
        return None;
      }
      assert M.IsWord(currentBlock.Value().used);
      var alignedOffset := Bits.AlignUp(currentBlock.used, align);
      var newBlockSize := SizeFor(size);
      r := Carve(size, alignedOffset, newBlockSize);
    }

    /** Takes the room from the current block if it has enough, or else from a new one. */
    method Carve(size: nat, offset: nat, newBlockSize: nat) returns (r: Option<M.Ptr>)
      requires Valid() && M.IsWord(size)
      modifies this, repr
      ensures Valid() && (View(), r) == M.Carve(old(View()), size, offset, newBlockSize)
      ensures fresh(repr - old(repr))
    {
      hide M.Carve, Bits.Wrap, Bits.Pow2;
      CarveIs(View(), size, offset, newBlockSize);
      Bits.WrapOnce(size);
      var block, alignedOffset := currentBlock, offset;
      var needed := Bits.Wrap(alignedOffset - block.used + size);
      if Bits.Wrap(block.used + needed) > block.size {
        block := AddBlock(newBlockSize);
        alignedOffset := 0;
        needed := size;
      }
      Bump(Bits.Wrap(alignedOffset + size), needed);
      r := Some(M.Ptr(block.num, alignedOffset));
    }

    /** `needed` more bytes of the current block are used, up to `end`. */
    method Bump(end: nat, needed: nat)
      requires Valid() && M.IsWord(end)
      modifies this`totalUsed, this`blocks, currentBlock`used
      ensures Valid()
      ensures View() == Bumped(old(View()), end, needed)
    {
      SetUsed(currentBlock, end, cur, chain, repr, blocks);
      blocks := blocks[cur := M.Block(currentBlock.size, end, currentBlock.num)];
      totalUsed := totalUsed + needed;
    }

    /** How large a new block for `size` bytes is made. */
    method SizeFor(size: nat) returns (newBlockSize: nat)
      requires Valid() && M.IsWord(size)
      ensures newBlockSize == M.NewBlockSize(View(), size)
    {
      newBlockSize := blockSize;
      if size > newBlockSize {
        newBlockSize := Bits.AlignUp(size, blockSize);
      }
    }

    /** A new block becomes the current one and is counted. */
    method AddBlock(size: nat) returns (block: Chunk)
      requires Valid()
      modifies this, repr
      ensures Valid() && block == chain[cur] && block.used == 0 && block.size == size
      ensures View() == WithBlock(old(View()), size)
      ensures fresh(repr - old(repr))
    {
      assert currentBlock in repr;
      hide Bits.Pow2, Linked;
      block := new Chunk(size, nextBlockNum, cur + 1);
      Link(block);
      nextBlockNum, totalAllocated := nextBlockNum + 1, totalAllocated + size;
    }

    /** The new block takes the place of whatever came after the current one. */
    method Link(block: Chunk)
      requires Valid() && block !in repr && block.next == null && block.index == cur + 1 && block.used == 0
      modifies this`currentBlock, this`chain, this`repr, this`blocks, this`cur, currentBlock`next
      ensures Valid() && cur == old(cur) + 1 && chain == old(chain)[..cur] + [block] && repr == old(repr) + {block}
      ensures blocks == old(blocks)[..cur] + [block.Value()]
    {
      hide Bits.Pow2;
      currentBlock.next := block;
      currentBlock := block;
      cur := cur + 1;
      chain, repr, blocks := chain[..cur] + [block], repr + {block}, blocks[..cur] + [block.Value()];
    }

    /** `ak_arena_calloc`, but for the zeroing of the bytes */
    method Calloc(nmemb: nat, size: nat) returns (r: Option<M.Ptr>)
      requires Valid() && M.IsWord(nmemb) && M.IsWord(size)
      modifies this, repr
      ensures Valid() && fresh(repr - old(repr))
      ensures (View(), r) == if M.CallocSize(nmemb, size).None? then (old(View()), None)
                             else M.AllocAligned(old(View()), M.CallocSize(nmemb, size).value, M.ALIGNMENT)
    {
      hide Bits.Pow2, M.AllocAligned;
      if nmemb == 0 || size == 0 {
        return None;
      }
      var totalSize := Bits.Wrap(nmemb * size);
      if totalSize / nmemb != size {
        return None;
      }
      r := AllocAligned(totalSize, M.ALIGNMENT);
    }

    /** `ak_arena_realloc`; AddressTest shows that its comparison of addresses is this one. */
    method Realloc(p: Option<M.Ptr>, oldSize: nat, newSize: nat) returns (r: Option<M.Ptr>)
      requires Valid() && M.IsWord(newSize)
      modifies this, repr
      ensures Valid()
      ensures (View(), r) == if p.None? then M.AllocAligned(old(View()), newSize, M.ALIGNMENT)
                             else M.Realloc(old(View()), p.value, oldSize, newSize)
      ensures fresh(repr - old(repr))
    {
      hide Bits.Pow2, M.Carve;
      if newSize == 0 {
        return None;
      }
      if p.None? {
        r := AllocAligned(newSize, M.ALIGNMENT);
        return;
      }
      if newSize <= oldSize {
        return p;
      }
      var block := currentBlock;
      if p.value.num == block.num && p.value.offset + oldSize == block.used {
        var additional := newSize - oldSize;
        if Bits.Wrap(block.used + additional) <= block.size {
          Bump(Bits.Wrap(block.used + additional), additional);
          return p;
        }
      }
      r := AllocAligned(newSize, M.ALIGNMENT);
    }

    method Reset()
      requires Valid()
      modifies this, repr
      ensures Valid() && View() == M.Reset(old(View())) && chain == old(chain) && repr == old(repr)
      ensures totalUsed == 0 && currentBlock == firstBlock == old(firstBlock)
      ensures forall block :: block in chain ==> block.used == 0
      ensures totalAllocated == old(totalAllocated) && nextBlockNum == old(nextBlockNum)
    {
      var reclaimed := EmptyFrom(firstBlock, 0, chain, repr, blocks);
      assert EmptiedPart(blocks, 0, |chain|) == M.Emptied(blocks);
      blocks := M.Emptied(blocks);
      currentBlock, totalUsed, cur := firstBlock, 0, 0;
    }

    method Snapshot() returns (mark: Mark)
      requires Valid()
      ensures mark.block == chain[cur] && mark.num == chain[cur].num
      ensures M.Ptr(mark.num, mark.offset) == M.Snapshot(View())
    {
      return Mark(currentBlock, currentBlock.used, currentBlock.num);
    }

    /** `ak_arena_restore`; a mark whose block is not in the chain changes nothing. */
    method Restore(mark: Mark)
      requires Valid() && M.ArenaInv(View()) && M.IsWord(mark.offset)
      modifies this, repr
      ensures Valid() && chain == old(chain) && repr == old(repr)
      ensures View() == if mark.block != null && mark.block.num == mark.num && mark.block in chain
                        then M.Restore(old(View()), M.Ptr(mark.num, mark.offset)) else old(View())
    {
      if mark.block == null {
        return;
      }
      var block: Chunk := mark.block;
      if block.num != mark.num {
        return;
      }
      var current, i := Locate(block);
      if current != block {
        return;
      }
      RestoreIs(View(), i, mark.offset);
      Reclaim(block, i, mark.offset);
    }

    /** Looks the block up in the chain. */
    method Locate(block: Chunk) returns (current: Chunk?, ghost i: nat)
      requires Valid()
      ensures current == block <==> block in chain
      ensures current == block ==> i < |chain| && chain[i] == block
    {
      current, i := firstBlock, 0;
      while current != null && current != block
        invariant i <= |chain| && (i < |chain| <==> current != null)
        invariant current != null ==> current == chain[i]
        invariant block !in chain[..i]
        decreases |chain| - i
      {
        assert chain[..i + 1] == chain[..i] + [chain[i]];
        current, i := current.next, i + 1;
      }
      assert current == null ==> chain[..i] == chain;
    }

    /** What lies behind block `i` is emptied, and the block itself cut to `offset`. */
    method Reclaim(block: Chunk, ghost i: nat, offset: nat)
      requires Valid() && i < |chain| && block == chain[i] && M.IsWord(offset)
      modifies this, repr
      ensures Valid() && chain == old(chain) && repr == old(repr)
      ensures View() == Reclaimed(old(View()), i, offset)
    {
      var reclaimed := EmptyFrom(block.next, i + 1, chain, repr, blocks);
      blocks := EmptiedPart(blocks, i + 1, |chain|);
      assert block.Value() == blocks[i];
      CutTo(block, i, offset, reclaimed);
    }

    /** Block `i` is cut to `offset` and becomes the current one. */
    method CutTo(block: Chunk, ghost i: nat, offset: nat, reclaimed: int)
      requires Valid() && i < |chain| && block == chain[i] && M.IsWord(offset)
      modifies this, block`used
      ensures Valid() && chain == old(chain) && repr == old(repr)
      ensures View() == old(View()).(blocks := old(View()).blocks[i := M.Block(block.size, offset, block.num)],
                                     cur := i,
                                     totalUsed := old(totalUsed) - (reclaimed + (old(block.used) - offset)))
    {
      hide Bits.Pow2;
      totalUsed := totalUsed - (reclaimed + (block.used - offset));
      SetUsed(block, offset, i, chain, repr, blocks);
      blocks := blocks[i := M.Block(block.size, offset, block.num)];
      currentBlock, cur := block, i;
    }
  }

  /** The arena once a block of the given size has been linked in behind the current one. */
  ghost function WithBlock(a: M.Arena, size: nat): M.Arena
    requires M.Shaped(a)
  {
    a.(blocks := a.blocks[..a.cur + 1] + [M.Block(size, 0, a.nextNum)], cur := a.cur + 1,
       nextNum := a.nextNum + 1, totalAllocated := a.totalAllocated + size)
  }

  /** The arena once its current block is used up to `end`, `needed` bytes more than before. */
  ghost function Bumped(a: M.Arena, end: nat, needed: int): M.Arena
    requires M.Shaped(a)
  {
    a.(blocks := a.blocks[a.cur := M.Current(a).(used := end)], totalUsed := a.totalUsed + needed)
  }

  /** An allocation is a bump of the current block, after adding one if it has no room. */
  lemma CarveIs(a: M.Arena, size: nat, offset: nat, n: nat)
    requires M.Shaped(a)
    ensures var b := M.Current(a);
            M.Carve(a, size, offset, n) ==
            if !M.HasRoom(b, size, offset)
            then (Bumped(WithBlock(a, n), size, size), Some(M.Ptr(a.nextNum, 0)))
            else (Bumped(a, Bits.Wrap(offset + size), Bits.Wrap(offset - b.used + size)), Some(M.Ptr(b.num, offset)))
  {
    hide M.HasRoom, Bits.Wrap, Bits.Pow2;
    assert Bumped(WithBlock(a, n), size, size).blocks == a.blocks[..a.cur + 1] + [M.Block(n, size, a.nextNum)];
  }

  /** Blocks `i` up to `j` emptied. */
  ghost function EmptiedPart(bs: seq<M.Block>, i: nat, j: nat): (r: seq<M.Block>)
    ensures |r| == |bs|
    ensures forall k {:trigger r[k]} :: 0 <= k < |bs| ==> r[k] == if i <= k < j then bs[k].(used := 0) else bs[k]
  {
    seq(|bs|, k requires 0 <= k < |bs| => if i <= k < j then bs[k].(used := 0) else bs[k])
  }

  lemma EmptiedStep(bs: seq<M.Block>, i: nat, j: nat)
    requires i <= j < |bs|
    ensures EmptiedPart(bs, i, j)[j := bs[j].(used := 0)] == EmptiedPart(bs, i, j + 1)
  {
  }

  lemma SumFrom(bs: seq<M.Block>, j: nat)
    requires j < |bs|
    ensures M.SumUsed(bs[j..]) == bs[j].used + M.SumUsed(bs[j + 1..])
  {
    assert bs[j..][0] == bs[j] && bs[j..][1..] == bs[j + 1..];
  }

  /** What is left once the blocks after the `i`-th are emptied and it is cut to `offset`. */
  ghost function Reclaimed(a: M.Arena, i: nat, offset: nat): M.Arena
    requires i < |a.blocks|
  {
    a.(blocks := EmptiedPart(a.blocks, i + 1, |a.blocks|)[i := a.blocks[i].(used := offset)], cur := i,
       totalUsed := a.totalUsed - (M.SumUsed(a.blocks[i + 1..]) + (a.blocks[i].used - offset)))
  }

  lemma RestoreIs(a: M.Arena, i: nat, offset: nat)
    requires M.ArenaInv(a) && i < |a.blocks|
    ensures M.Restore(a, M.Ptr(a.blocks[i].num, offset)) == Reclaimed(a, i, offset)
  {
    FindIs(a.blocks, i);
    assert Reclaimed(a, i, offset).blocks == M.CutBack(a.blocks, i, offset);
  }

  lemma {:induction false} FindIs(bs: seq<M.Block>, i: nat)
    requires i < |bs| && forall j, k :: 0 <= j < k < |bs| ==> bs[j].num != bs[k].num
    ensures M.Find(bs, bs[i].num) == i
  {
    var j := M.Find(bs, bs[i].num);
    if j < i {
      assert false;
    }
  }
}
