/** What single calls of the arena do, told by the chain they leave. */
module ArenaCalls {
  import opened Options
  import opened ArenaModel
  import opened ArenaProof
  import Bits

  // ---------------------------------------------------------------- reset

  /** The chain is still there, with nothing in it. */
  ghost predicate AllFree(a: Arena, a': Arena) {
    && a'.totalUsed == 0 && a'.cur == 0
    && |a'.blocks| == |a.blocks|
    && (forall i :: 0 <= i < |a.blocks| ==>
          && a'.blocks[i].used == 0
          && a'.blocks[i].size == a.blocks[i].size && a'.blocks[i].num == a.blocks[i].num)
    && a'.totalAllocated == a.totalAllocated && a'.nextNum == a.nextNum && a'.blockSize == a.blockSize
  }

  lemma ResetFreesAll(w: World)
    requires Inv(w)
    ensures CanDo(w, DoReset) && AllFree(w.a, Do(w, DoReset).a)
    ensures Do(w, DoReset).live == [] && Do(w, DoReset).saved == []
  {
  }

  /** The first allocation after a reset is at the start of the first block, if it fits. */
  lemma ResetStartsOver(w: World, size: nat)
    requires Inv(w) && 0 < size <= w.a.blocks[0].size
    ensures CanDo(w, DoReset) && CanDo(Do(w, DoReset), DoAlloc(size, 1))
    ensures var w' := Do(Do(w, DoReset), DoAlloc(size, 1));
      w'.live == [Alloc(Ptr(w.a.blocks[0].num, 0), size, 1)] && w'.a.totalUsed == size
  {
    hide Bits.Pow2, Bits.Wrap, Bits.AlignUp, Bits.And, SumUsed;
    var w1 := Do(w, DoReset);
    ResetInv(w);
    OneIsValid();
    assert BlockInv(w.a.blocks[0]);
    AllocByOne(w1.a, size);
    RoomIs(Current(w1.a), size, 0);
    Bits.WrapOnce(size);
    Bits.AlignUpIs(0, 1);
  }

  // ---------------------------------------------------------------- allocation

  /** The least multiple of the alignment that is not below what is used. */
  ghost predicate IsNextAligned(used: nat, align: nat, offset: nat) {
    && used <= offset && align > 0 && offset % align == 0
    && forall m: nat :: used <= m && m % align == 0 ==> offset <= m
  }

  /** Room is taken at the next aligned offset of the current block, and no more than asked. */
  ghost predicate TakenInPlace(a: Arena, a': Arena, p: Ptr, size: nat, align: nat)
    requires Shaped(a)
  {
    var b := Current(a);
    && p.num == b.num && IsNextAligned(b.used, align, p.offset) && p.offset + size <= b.size
    && a' == a.(blocks := a'.blocks, totalUsed := a.totalUsed + (p.offset + size - b.used))
    && a'.blocks == a.blocks[a.cur := b.(used := p.offset + size)]
  }

  /** A block of the usual size, or for more than that of some multiple that is enough and not
      a block too much, follows the current one, with the allocation at its start. */
  ghost predicate TakenFromNew(a: Arena, a': Arena, p: Ptr, size: nat)
    requires Shaped(a)
  {
    && a'.cur == a.cur + 1 && |a'.blocks| == a.cur + 2
    && a'.blocks[..a.cur + 1] == a.blocks[..a.cur + 1]
    && var next := a'.blocks[a.cur + 1];
    && p == Ptr(next.num, 0) && next.num == a.nextNum && next.used == size
    && (size <= a.blockSize ==> next.size == a.blockSize)
    && size <= next.size < size + a.blockSize
    && a'.nextNum == a.nextNum + 1 && a'.blockSize == a.blockSize
    && a'.totalAllocated == a.totalAllocated + next.size && a'.totalUsed == a.totalUsed + size
  }

  lemma NewBlockEnough(a: Arena, size: nat)
    requires Shaped(a) && IsWord(a.blockSize) && Words(a) && 0 < size && IsWord(size)
    requires size > a.blockSize ==> IsWord(size + a.blockSize - 1)
    ensures size <= a.blockSize ==> NewBlockSize(a, size) == a.blockSize
    ensures size > a.blockSize ==> size <= NewBlockSize(a, size) < size + a.blockSize
  {
    hide Bits.Pow2, Bits.AlignUp;
    if size > a.blockSize {
      Bits.AlignUpAtLeast(size, a.blockSize);
    }
  }

  /** What an allocation that is granted takes, and from where. */
  lemma AllocTakes(a: Arena, size: nat, align: nat)
    requires ArenaInv(a) && IsWord(size) && IsWord(align) && size > 0 && ValidAlign(align) && Fits(a, size, align)
    ensures var (a', r) := AllocAligned(a, size, align);
      && r.Some?
      && if exists offset: nat :: IsNextAligned(Current(a).used, align, offset) && offset + size <= Current(a).size
         then TakenInPlace(a, a', r.value, size, align)
         else TakenFromNew(a, a', r.value, size)
  {
    hide Bits.Pow2, Bits.Wrap, Bits.AlignUp, Bits.And, SumUsed, HasRoom, NewBlockSize, IsNextAligned;
    var b, offset := Current(a), Bits.AlignUp(Current(a).used, align);
    ArenaWords(a);
    assert BlockInv(b);
    AlignedOffset(b.used, align);
    if IsWord(b.used + align - 1) {
      NextAligned(b.used, align);
    }
    if HasRoom(b, size, offset) {
      AllocInRoom(a, size, align);
    } else {
      NoRoom(a, size, align);
      NewBlockEnough(a, size);
    }
  }

  lemma NextAligned(used: nat, align: nat)
    requires IsWord(used) && IsWord(align) && ValidAlign(align) && IsWord(used + align - 1)
    ensures IsNextAligned(used, align, Bits.AlignUp(used, align))
  {
    hide Bits.Pow2, Bits.AlignUp, Bits.And;
    Bits.PowerOfTwoTest(align);
    Bits.AlignUpLeastMultiple(used, align);
  }

  lemma AllocInRoom(a: Arena, size: nat, align: nat)
    requires ArenaInv(a) && IsWord(size) && IsWord(align) && size > 0 && ValidAlign(align)
    requires var offset := Bits.AlignUp(Current(a).used, align);
      && HasRoom(Current(a), size, offset)
      && IsWord(Current(a).used + align - 1) && IsWord(offset + size)
    ensures var (a', r) := AllocAligned(a, size, align);
      r.Some? && TakenInPlace(a, a', r.value, size, align)
  {
    hide Bits.Pow2, Bits.Wrap, Bits.AlignUp, Bits.And, SumUsed, HasRoom, NewBlockSize, IsNextAligned;
    var b, offset := Current(a), Bits.AlignUp(Current(a).used, align);
    assert BlockInv(b);
    ArenaWords(a);
    NextAligned(b.used, align);
    assert b.used <= offset by { AlignedOffset(b.used, align); }
    RoomIs(b, size, offset);
    Bits.WrapOnce(offset + size);
    Bits.WrapOnce(offset - b.used + size);
  }

  /** Where the test finds no room there is none. */
  lemma NoRoom(a: Arena, size: nat, align: nat)
    requires ArenaInv(a) && IsWord(size) && IsWord(align) && size > 0 && ValidAlign(align)
    requires !HasRoom(Current(a), size, Bits.AlignUp(Current(a).used, align))
    ensures forall offset: nat :: IsNextAligned(Current(a).used, align, offset) ==> offset + size > Current(a).size
  {
    hide Bits.Pow2, Bits.Wrap, Bits.AlignUp, Bits.And, SumUsed, HasRoom;
    var b := Current(a);
    ArenaWords(a);
    assert BlockInv(b);
    forall offset: nat | IsNextAligned(b.used, align, offset) && offset + size <= b.size
      ensures false
    {
      assert IsWord(offset + size);
      var up := Bits.AlignUp(b.used, align);
      if IsWord(b.used + align - 1) {
        NextAligned(b.used, align);
        assert up == offset;
        RoomIs(b, size, offset);
      } else {
        Bits.PowerOfTwoTest(align);
        Bits.MultipleFits(offset, align);
      }
    }
  }

  // ---------------------------------------------------------------- realloc and restore

  /** To nothing, or to no more than it has, an allocation stays and so does the arena. */
  lemma ReallocStays(a: Arena, p: Ptr, oldSize: nat, newSize: nat)
    requires Shaped(a) && Words(a) && IsWord(newSize) && newSize <= oldSize
    ensures Realloc(a, p, oldSize, newSize) == (a, if newSize == 0 then None else Some(p))
  {
  }

  /** The last allocation of the current block grows where it is if there is room: the block
      is used further by just what is asked in addition. */
  lemma ReallocGrows(a: Arena, p: Ptr, oldSize: nat, newSize: nat)
    requires ArenaInv(a) && Words(a) && IsWord(newSize) && newSize > oldSize
    requires var b := Current(a); p.num == b.num && p.offset + oldSize == b.used
    requires Current(a).used + (newSize - oldSize) <= Current(a).size
    ensures Realloc(a, p, oldSize, newSize) ==
            (a.(blocks := a.blocks[a.cur := Current(a).(used := p.offset + newSize)],
                totalUsed := a.totalUsed + (newSize - oldSize)), Some(p))
  {
    hide Bits.Pow2, Bits.Wrap, SumUsed;
    assert BlockInv(Current(a));
    Bits.WrapOnce(Current(a).used + (newSize - oldSize));
  }

  /** Any other that grows is moved: it gets what an allocation of its new size gets. */
  lemma ReallocMoves(a: Arena, p: Ptr, oldSize: nat, newSize: nat)
    requires ArenaInv(a) && Words(a) && IsWord(newSize) && newSize > oldSize
    requires ReallocFits(a, p, oldSize, newSize)
    requires var b := Current(a);
      !(p.num == b.num && p.offset + oldSize == b.used && b.used + (newSize - oldSize) <= b.size)
    ensures var (a', r) := Realloc(a, p, oldSize, newSize);
      && r.Some?
      && if exists offset: nat :: IsNextAligned(Current(a).used, 8, offset) && offset + newSize <= Current(a).size
         then TakenInPlace(a, a', r.value, newSize, 8)
         else TakenFromNew(a, a', r.value, newSize)
  {
    hide Bits.Pow2, Bits.Wrap, Bits.And, SumUsed, AllocAligned, TakenInPlace, TakenFromNew, IsNextAligned;
    var b := Current(a);
    assert BlockInv(b);
    Bits.WrapOnce(b.used + (newSize - oldSize));
    EightIsValid();
    AllocTakes(a, newSize, ALIGNMENT);
  }

  /** A mark of a block that is not in the chain restores nothing. */
  lemma RestoreIgnores(a: Arena, m: Mark)
    requires forall i :: 0 <= i < |a.blocks| ==> a.blocks[i].num != m.num
    ensures Restore(a, m) == a
  {
  }

  /** The alignments that are taken are the powers of two. */
  lemma ValidAlignIff(align: nat)
    ensures ValidAlign(align) <==> Bits.IsPow2(align)
  {
    hide Bits.And;
    if align > 0 {
      Bits.PowerOfTwoTest(align);
    }
  }
}
