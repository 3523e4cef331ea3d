/** What every operation of the arena keeps, over any run with nested snapshots. */
module ArenaProof {
  import opened Options
  import opened ArenaModel
  import Bits

  // ---------------------------------------------------------------- sums

  lemma {:induction false} SumAppend(xs: seq<Block>, ys: seq<Block>)
    ensures SumUsed(xs + ys) == SumUsed(xs) + SumUsed(ys)
  {
    if xs == [] {
      assert [] + ys == ys;
    } else {
      assert (xs + ys)[1..] == xs[1..] + ys;
      SumAppend(xs[1..], ys);
    }
  }

  lemma {:induction false} SumZero(xs: seq<Block>)
    requires forall i :: 0 <= i < |xs| ==> xs[i].used == 0
    ensures SumUsed(xs) == 0
  {
    if xs != [] {
      SumZero(xs[1..]);
    }
  }

  /** The sum over a chain, taken apart at block `i`. */
  lemma SumAt(xs: seq<Block>, i: nat)
    requires i < |xs|
    ensures SumUsed(xs) == SumUsed(xs[..i]) + xs[i].used + SumUsed(xs[i + 1..])
  {
    SumAppend(xs[..i], xs[i..]);
    assert xs == xs[..i] + xs[i..];
    assert xs[i..][1..] == xs[i + 1..];
  }

  lemma {:induction false} FindUnique(bs: seq<Block>, i: nat)
    requires i < |bs| && forall j, k :: 0 <= j < k < |bs| ==> bs[j].num != bs[k].num
    ensures Find(bs, bs[i].num) == i
  {
  }

  // ---------------------------------------------------------------- growing

  /** `a'` has grown from `a` at or after the current block. */
  ghost predicate Grown(a: Arena, a': Arena)
    requires Shaped(a) && Shaped(a')
  {
    && a.cur <= a'.cur
    && (forall j :: 0 <= j < a.cur ==> a'.blocks[j] == a.blocks[j])
    && a'.blocks[a.cur].num == Current(a).num && a'.blocks[a.cur].size == Current(a).size
    && a'.blocks[a.cur].used >= Current(a).used
  }

  lemma LiveFrame(bs: seq<Block>, bs': seq<Block>, upTo: nat, live: seq<Alloc>)
    requires upTo < |bs| && upTo < |bs'|
    requires forall j :: 0 <= j <= upTo ==> bs'[j].num == bs[j].num && bs'[j].used >= bs[j].used
    requires LiveInv(bs, upTo, live)
    ensures LiveInv(bs', upTo, live)
  {
    forall i | 0 <= i < |live|
      ensures Lies(bs', upTo, live[i])
    {
      var j: nat :| j <= upTo && LiesIn(bs, j, live[i]);
      assert LiesIn(bs', j, live[i]);
    }
  }

  lemma LiveWiden(bs: seq<Block>, upTo: nat, upTo': nat, live: seq<Alloc>)
    requires upTo <= upTo' < |bs| && LiveInv(bs, upTo, live)
    ensures LiveInv(bs, upTo', live)
  {
    forall i | 0 <= i < |live|
      ensures Lies(bs, upTo', live[i])
    {
      var j: nat :| j <= upTo && LiesIn(bs, j, live[i]);
      assert LiesIn(bs, j, live[i]);
    }
  }

  /** A snapshot survives whatever leaves the chain below its mark as it is. */
  lemma SavedKept(a: Arena, a': Arena, v: Saved, i: nat)
    requires Shaped(a) && Shaped(a') && SavedInv(a, v) && i == Find(a.blocks, v.mark.num)
    requires i <= a'.cur && a'.blocks[..i] == a.blocks[..i]
    requires a'.blocks[i].num == v.mark.num && v.mark.offset <= a'.blocks[i].used
    ensures SavedInv(a', v) && Find(a'.blocks, v.mark.num) == i
  {
    hide LiveInv, SumUsed;
    var i' := Find(a'.blocks, v.mark.num);
    assert forall j :: 0 <= j < i ==> a'.blocks[j] == a'.blocks[..i][j] == a.blocks[..i][j];
    assert i' == i;
    LiveFrame(CutBack(a.blocks, i, v.mark.offset), CutBack(a'.blocks, i, v.mark.offset), i, v.live);
  }

  /** A snapshot taken earlier survives growth. */
  lemma SavedGrown(a: Arena, a': Arena, v: Saved)
    requires Shaped(a) && Shaped(a') && Grown(a, a') && SavedInv(a, v)
    ensures SavedInv(a', v) && Find(a'.blocks, v.mark.num) == Find(a.blocks, v.mark.num)
  {
    hide LiveInv, SumUsed;
    var i := Find(a.blocks, v.mark.num);
    assert a'.blocks[..i] == a.blocks[..i];
    SavedKept(a, a', v, i);
  }

  lemma AllSavedGrown(w: World, a': Arena)
    requires Inv(w) && Shaped(a') && Grown(w.a, a')
    ensures forall k :: 0 <= k < |w.saved| ==> SavedInv(a', w.saved[k])
    ensures forall k, l :: 0 <= k < l < |w.saved| ==> Nested(a', w.saved[k], w.saved[l])
  {
    forall k | 0 <= k < |w.saved|
      ensures SavedInv(a', w.saved[k]) && Find(a'.blocks, w.saved[k].mark.num) == Find(w.a.blocks, w.saved[k].mark.num)
    {
      SavedGrown(w.a, a', w.saved[k]);
    }
    forall k, l | 0 <= k < l < |w.saved|
      ensures Nested(a', w.saved[k], w.saved[l])
    {
      assert Nested(w.a, w.saved[k], w.saved[l]);
    }
  }

  // ---------------------------------------------------------------- allocation

  /** What an allocation returns: room nobody has, aligned, and an arena grown by it. */
  ghost predicate Served(a: Arena, a': Arena, x: Alloc)
    requires Shaped(a)
  {
    && ArenaInv(a') && Grown(a, a')
    && LiesIn(a'.blocks, a'.cur, x)
    && (x.p.num == Current(a).num ==> Current(a).used <= x.p.offset)
    && (forall j :: 0 <= j < |a.blocks| && a.blocks[j].num == x.p.num ==> j == a.cur)
  }

  /** The current block used up to `end`. */
  ghost function Bumped(a: Arena, end: nat): Arena
    requires Shaped(a)
  {
    a.(blocks := a.blocks[a.cur := Current(a).(used := end)], totalUsed := a.totalUsed + (end - Current(a).used))
  }

  lemma AllocInPlace(a: Arena, end: nat)
    requires ArenaInv(a)
    requires Current(a).used <= end <= Current(a).size
    ensures ArenaInv(Bumped(a, end))
  {
    var bs := Bumped(a, end).blocks;
    assert ChainInv(Bumped(a, end)) by {
      hide SumUsed;
    }
    hide ChainInv;
    SumAt(a.blocks, a.cur);
    SumAt(bs, a.cur);
    assert bs[..a.cur] == a.blocks[..a.cur] && bs[a.cur + 1..] == a.blocks[a.cur + 1..];
  }

  /** A new block behind the current one, with an allocation at its start. */
  ghost function Extended(a: Arena, size: nat, blockSize: nat): Arena
    requires Shaped(a)
  {
    a.(blocks := a.blocks[..a.cur + 1] + [Block(blockSize, size, a.nextNum)], cur := a.cur + 1,
       nextNum := a.nextNum + 1, totalAllocated := a.totalAllocated + blockSize, totalUsed := a.totalUsed + size)
  }

  lemma SumExtended(a: Arena, size: nat, blockSize: nat)
    requires Shaped(a) && forall i :: a.cur < i < |a.blocks| ==> a.blocks[i].used == 0
    ensures SumUsed(Extended(a, size, blockSize).blocks) == SumUsed(a.blocks) + size
  {
    var kept, cut, next := a.blocks[..a.cur + 1], a.blocks[a.cur + 1..], Block(blockSize, size, a.nextNum);
    SumAppend(kept, cut);
    assert a.blocks == kept + cut;
    SumZero(cut);
    SumAppend(kept, [next]);
    assert [next][1..] == [];
  }

  lemma AllocNewBlock(a: Arena, size: nat, blockSize: nat)
    requires ArenaInv(a) && 0 < size <= blockSize && IsWord(blockSize)
    ensures ArenaInv(Extended(a, size, blockSize))
  {
    hide SumUsed, Bits.Pow2;
    SumExtended(a, size, blockSize);
  }

  lemma RoomIs(b: Block, size: nat, offset: nat)
    requires BlockInv(b) && IsWord(size) && b.used <= offset && IsWord(offset + size)
    ensures HasRoom(b, size, offset) <==> offset + size <= b.size
  {
    Bits.WrapOnce(offset - b.used + size);
    Bits.WrapOnce(offset + size);
  }

  lemma CarveServes(a: Arena, size: nat, align: nat, offset: nat, n: nat)
    requires ArenaInv(a) && 0 < size && align > 0 && offset % align == 0
    requires IsWord(size) && IsWord(offset) && IsWord(n)
    ensures var (a', r) := Carve(a, size, offset, n);
      && r.Some?
      && (Served(a, a', Alloc(r.value, size, align)) <==>
          if HasRoom(Current(a), size, offset) then Current(a).used <= offset && IsWord(offset + size) else size <= n)
  {
    hide Bits.Pow2, Bits.Wrap, SumUsed;
    var b := Current(a);
    if !HasRoom(b, size, offset) {
      if size <= n {
        AllocNewBlock(a, size, n);
      } else {
        var a' := Carve(a, size, offset, n).0;
        assert !BlockInv(a'.blocks[a'.cur]);
      }
    } else {
      Bits.WrapOnce(offset + size);
      if b.used <= offset && IsWord(offset + size) {
        RoomIs(b, size, offset);
        Bits.WrapOnce(offset - b.used + size);
        AllocInPlace(a, offset + size);
      }
    }
  }

  /** An allocation fails as documented, and otherwise serves its caller exactly if it fits. */
  lemma AllocServes(a: Arena, size: nat, align: nat)
    requires ArenaInv(a) && IsWord(size) && IsWord(align)
    ensures var (a', r) := AllocAligned(a, size, align);
      && (r == None <==> size == 0 || !ValidAlign(align))
      && (r == None ==> a' == a)
      && (r.Some? ==> (Served(a, a', Alloc(r.value, size, align)) <==> Fits(a, size, align)))
  {
    if size > 0 && ValidAlign(align) {
      hide Bits.Pow2, Bits.And, Bits.AlignUp, ArenaInv, Served, HasRoom, Carve;
      ArenaWords(a);
      AlignedOffset(Current(a).used, align);
      Bits.AlignUpAtLeast(size, a.blockSize);
      CarveServes(a, size, align, Bits.AlignUp(Current(a).used, align), NewBlockSize(a, size));
    }
  }

  lemma AlignedOffset(used: nat, align: nat)
    requires IsWord(used) && IsWord(align) && ValidAlign(align)
    ensures var offset := Bits.AlignUp(used, align);
      IsWord(offset) && offset % align == 0 && (used <= offset <==> IsWord(used + align - 1))
  {
    hide Bits.Pow2, Bits.And, Bits.AlignUp;
    Bits.PowerOfTwoTest(align);
    Bits.AlignUpAtLeast(used, align);
    Bits.AlignUpIs(used, align);
    if IsWord(used + align - 1) {
      Bits.AlignUpLeastMultiple(used, align);
    }
  }

  lemma ArenaWords(a: Arena)
    requires ArenaInv(a)
    ensures Shaped(a) && Words(a) && IsWord(a.blockSize)
  {
  }

  /** The new allocation is disjoint from every live one. */
  lemma ServedDisjoint(a: Arena, a': Arena, x: Alloc, live: seq<Alloc>)
    requires ArenaInv(a) && Served(a, a', x) && LiveInv(a.blocks, a.cur, live)
    ensures LiveInv(a'.blocks, a'.cur, live)
    ensures forall i :: 0 <= i < |live| ==> Disjoint(live[i], x)
    ensures Lies(a'.blocks, a'.cur, x)
  {
    LiveFrame(a.blocks, a'.blocks, a.cur, live);
    LiveWiden(a'.blocks, a.cur, a'.cur, live);
    forall i | 0 <= i < |live|
      ensures Disjoint(live[i], x)
    {
      var j: nat :| j <= a.cur && LiesIn(a.blocks, j, live[i]);
    }
  }

  lemma WithAllocInv(w: World, size: nat, align: nat)
    requires Inv(w) && IsWord(size) && IsWord(align) && Fits(w.a, size, align)
    ensures Inv(WithAlloc(w, AllocAligned(w.a, size, align), size, align))
  {
    AllocServes(w.a, size, align);
    var (a', r) := AllocAligned(w.a, size, align);
    if r.Some? {
      ServedDisjoint(w.a, a', Alloc(r.value, size, align), w.live);
      AllSavedGrown(w, a');
    }
  }

  // ---------------------------------------------------------------- calloc

  /** Dividing the wrapped product back catches every product that does not fit. */
  lemma CallocExact(nmemb: nat, size: nat)
    requires nmemb > 0 && size > 0
    ensures CallocSize(nmemb, size) ==
            if nmemb * size < Bits.Pow2(64) then Some(nmemb * size) else None
  {
    var w := Bits.Pow2(64);
    var product := nmemb * size;
    var total := Bits.Wrap(product);
    if product < w {
      Bits.ModUnique(product, w, 0, product);
      Bits.ModUnique(product, nmemb, size, 0);
    } else {
      assert total == nmemb * (total / nmemb) + total % nmemb;
      assert total < product;
    }
  }

  // ---------------------------------------------------------------- realloc

  /** An allocation may change its size where it lies, if nothing live is in the way. */
  lemma Resized(bs: seq<Block>, upTo: nat, live: seq<Alloc>, i: nat, size: nat)
    requires upTo < |bs| && LiveInv(bs, upTo, live) && i < |live|
    requires Lies(bs, upTo, live[i].(size := size))
    requires forall j :: 0 <= j < |live| && j != i ==> Disjoint(live[j], live[i].(size := size))
    ensures LiveInv(bs, upTo, live[i := live[i].(size := size)])
  {
  }

  lemma Shrunk(w: World, i: nat, size: nat)
    requires Inv(w) && i < |w.live| && 0 < size <= w.live[i].size
    ensures Inv(w.(live := w.live[i := w.live[i].(size := size)]))
  {
    var j: nat :| j <= w.a.cur && LiesIn(w.a.blocks, j, w.live[i]);
    assert LiesIn(w.a.blocks, j, w.live[i].(size := size));
    forall l | 0 <= l < |w.live| && l != i
      ensures Disjoint(w.live[l], w.live[i].(size := size))
    {
      assert if l < i then Disjoint(w.live[l], w.live[i]) else Disjoint(w.live[i], w.live[l]);
    }
    Resized(w.a.blocks, w.a.cur, w.live, i, size);
  }

  /** Past the last allocation of the current block there is nothing live. */
  lemma ClearAbove(w: World, i: nat, more: nat)
    requires Shaped(w.a) && LiveInv(w.a.blocks, w.a.cur, w.live) && i < |w.live|
    requires forall j, k :: 0 <= j < k < |w.a.blocks| ==> w.a.blocks[j].num != w.a.blocks[k].num
    requires w.live[i].p.num == Current(w.a).num && w.live[i].p.offset + w.live[i].size == Current(w.a).used
    ensures forall l :: 0 <= l < |w.live| && l != i ==> Disjoint(w.live[l], w.live[i].(size := w.live[i].size + more))
  {
    forall l | 0 <= l < |w.live| && l != i
      ensures Disjoint(w.live[l], w.live[i].(size := w.live[i].size + more))
    {
      assert if l < i then Disjoint(w.live[l], w.live[i]) else Disjoint(w.live[i], w.live[l]);
      assert Lies(w.a.blocks, w.a.cur, w.live[l]);
    }
  }

  lemma GrownLive(w: World, i: nat, more: nat)
    requires Shaped(w.a) && LiveInv(w.a.blocks, w.a.cur, w.live) && i < |w.live|
    requires forall j, k :: 0 <= j < k < |w.a.blocks| ==> w.a.blocks[j].num != w.a.blocks[k].num
    requires w.live[i].p.num == Current(w.a).num && w.live[i].p.offset + w.live[i].size == Current(w.a).used
    ensures LiveInv(Bumped(w.a, Current(w.a).used + more).blocks, w.a.cur,
                    w.live[i := w.live[i].(size := w.live[i].size + more)])
  {
    var a', x := Bumped(w.a, Current(w.a).used + more), w.live[i].(size := w.live[i].size + more);
    LiveFrame(w.a.blocks, a'.blocks, w.a.cur, w.live);
    assert Lies(w.a.blocks, w.a.cur, w.live[i]);
    assert LiesIn(a'.blocks, a'.cur, x);
    ClearAbove(w, i, more);
    Resized(a'.blocks, a'.cur, w.live, i, x.size);
  }

  /** The last allocation of the current block grows in place. */
  lemma GrownInPlace(w: World, i: nat, more: nat)
    requires Inv(w) && i < |w.live| && more > 0
    requires w.live[i].p.num == Current(w.a).num && w.live[i].p.offset + w.live[i].size == Current(w.a).used
    requires Current(w.a).used + more <= Current(w.a).size
    ensures Inv(w.(a := Bumped(w.a, Current(w.a).used + more),
                   live := w.live[i := w.live[i].(size := w.live[i].size + more)]))
  {
    var a' := Bumped(w.a, Current(w.a).used + more);
    AllocInPlace(w.a, Current(w.a).used + more);
    AllSavedGrown(w, a');
    GrownLive(w, i, more);
  }

  lemma Replaced(bs: seq<Block>, upTo: nat, live: seq<Alloc>, i: nat, x: Alloc)
    requires upTo < |bs| && LiveInv(bs, upTo, live) && i < |live| && Lies(bs, upTo, x)
    requires forall l :: 0 <= l < |live| ==> Disjoint(live[l], x)
    ensures LiveInv(bs, upTo, live[i := x])
  {
  }

  /** What becomes of the world in each branch of a realloc. */
  lemma ReallocCases(w: World, i: nat, newSize: nat)
    requires CanDo(w, DoRealloc(i, newSize)) && ArenaInv(w.a)
    ensures var x, b, w' := w.live[i], Current(w.a), Do(w, DoRealloc(i, newSize));
      var moved := AllocAligned(w.a, newSize, ALIGNMENT);
      if newSize == 0 then w' == w
      else if newSize <= x.size then w' == w.(live := w.live[i := x.(size := newSize)])
      else if GrowsInPlace(w.a, x.p, x.size, newSize)
      then b.used + (newSize - x.size) <= b.size &&
           w' == w.(a := Bumped(w.a, b.used + (newSize - x.size)), live := w.live[i := x.(size := newSize)])
      else moved.1.Some? && moved.1.value != x.p ==>
           w' == w.(a := moved.0, live := w.live[i := Alloc(moved.1.value, newSize, ALIGNMENT)])
  {
    hide ArenaInv, AllocAligned, Fits, Bits.Wrap, Bits.Pow2;
    var x := w.live[i];
    if newSize > x.size && GrowsInPlace(w.a, x.p, x.size, newSize) {
      Bits.WrapOnce(Current(w.a).used + (newSize - x.size));
    }
  }

  lemma ReallocInv(w: World, i: nat, newSize: nat)
    requires Inv(w) && CanDo(w, DoRealloc(i, newSize))
    ensures Inv(Do(w, DoRealloc(i, newSize)))
  {
    hide Inv, LiveInv, SavedInv, AllocAligned, Fits, Do, Bumped, Bits.Pow2, Bits.Wrap;
    var x := w.live[i];
    assert ArenaInv(w.a) by { InvHas(w); }
    ReallocCases(w, i, newSize);
    if newSize == 0 {
    } else if newSize <= x.size {
      Shrunk(w, i, newSize);
    } else if GrowsInPlace(w.a, x.p, x.size, newSize) {
      GrownInPlace(w, i, newSize - x.size);
    } else {
      EightIsValid();
      ReallocMoved(w, i, newSize);
    }
  }

  lemma InvHas(w: World)
    requires Inv(w)
    ensures ArenaInv(w.a) && Shaped(w.a) && LiveInv(w.a.blocks, w.a.cur, w.live)
  {
  }

  lemma ReallocMoved(w: World, i: nat, newSize: nat)
    requires Inv(w) && i < |w.live| && newSize > 0 && IsWord(newSize) && Fits(w.a, newSize, ALIGNMENT)
    requires ValidAlign(ALIGNMENT)
    ensures var (a', r) := AllocAligned(w.a, newSize, ALIGNMENT);
      r.Some? && r.value != w.live[i].p && Inv(w.(a := a', live := w.live[i := Alloc(r.value, newSize, ALIGNMENT)]))
  {
    AllocServes(w.a, newSize, ALIGNMENT);
    var (a', r) := AllocAligned(w.a, newSize, ALIGNMENT);
    var x, y := w.live[i], Alloc(r.value, newSize, ALIGNMENT);
    ServedDisjoint(w.a, a', y, w.live);
    assert Lies(w.a.blocks, w.a.cur, x) && Disjoint(x, y);
    AllSavedGrown(w, a');
    Replaced(a'.blocks, a'.cur, w.live, i, y);
  }

  /** Grown in place, an allocation still lies in the used part of its block exactly if the
      sum of realloc's own test did not wrap. */
  lemma GrownLiesIff(w: World, i: nat, newSize: nat)
    requires Inv(w) && CanCall(w, DoRealloc(i, newSize)) && newSize > w.live[i].size
    requires GrowsInPlace(w.a, w.live[i].p, w.live[i].size, newSize)
    ensures var w' := Do(w, DoRealloc(i, newSize));
      LiesIn(w'.a.blocks, w'.a.cur, w'.live[i]) <==> IsWord(Current(w.a).used + (newSize - w.live[i].size))
  {
    hide Bits.Wrap, Bits.Pow2, AllocAligned;
    InvHas(w);
    assert Lies(w.a.blocks, w.a.cur, w.live[i]);
    Bits.WrapOnce(Current(w.a).used + (newSize - w.live[i].size));
  }

  // ---------------------------------------------------------------- where the blocks are

  /** `base` gives the address of each block; blocks do not overlap. */
  ghost predicate LaidOut(bs: seq<Block>, base: nat -> int) {
    forall i, j :: 0 <= i < j < |bs| ==>
      base(bs[i].num) + bs[i].size <= base(bs[j].num) || base(bs[j].num) + bs[j].size <= base(bs[i].num)
  }

  /** Wherever the blocks are, the addresses realloc compares are equal for a live
      allocation exactly if it is the last one in the current block. */
  lemma AddressTest(w: World, i: nat, base: nat -> int)
    requires Inv(w) && i < |w.live| && LaidOut(w.a.blocks, base)
    ensures var x, b := w.live[i], Current(w.a);
      base(x.p.num) + x.p.offset + x.size == base(b.num) + b.used <==>
      x.p.num == b.num && x.p.offset + x.size == b.used
  {
    InvHas(w);
    var x, b := w.live[i], Current(w.a);
    assert Lies(w.a.blocks, w.a.cur, x);
    var j: nat :| j <= w.a.cur && LiesIn(w.a.blocks, j, x);
    if j < w.a.cur {
      assert b.used > 0 && BlockInv(w.a.blocks[j]) && BlockInv(b);
    }
  }

  lemma EightIsValid()
    ensures ValidAlign(8)
  {
    assert Bits.And(8, 7) == 2 * Bits.And(4, 3) == 4 * Bits.And(2, 1) == 8 * Bits.And(1, 0) == 0;
  }

  // ---------------------------------------------------------------- reset, snapshot, restore

  lemma ResetInv(w: World)
    requires Inv(w)
    ensures Inv(Do(w, DoReset))
  {
    SumZero(Emptied(w.a.blocks));
  }

  lemma SnapshotSaved(a: Arena, live: seq<Alloc>)
    requires ArenaInv(a) && LiveInv(a.blocks, a.cur, live)
    ensures SavedInv(a, Saved(Snapshot(a), live, a.totalUsed)) && Find(a.blocks, Current(a).num) == a.cur
  {
    FindUnique(a.blocks, a.cur);
    SumAt(a.blocks, a.cur);
    SumZero(a.blocks[a.cur + 1..]);
    LiveFrame(a.blocks, CutBack(a.blocks, a.cur, Current(a).used), a.cur, live);
  }

  lemma SnapshotInv(w: World)
    requires Inv(w)
    ensures Inv(Do(w, DoSnapshot))
  {
    hide ChainInv, LiveInv, SumUsed, Bits.Pow2;
    assert Shaped(w.a) by { InvHas(w); }
    var v := Saved(Snapshot(w.a), w.live, w.a.totalUsed);
    SnapshotSaved(w.a, w.live);
    forall k | 0 <= k < |w.saved|
      ensures Nested(w.a, w.saved[k], v)
    {
      assert SavedInv(w.a, w.saved[k]);
    }
  }

  lemma CutBackSum(a: Arena, i: nat, offset: nat)
    requires i < |a.blocks| && offset <= a.blocks[i].used && a.totalUsed == SumUsed(a.blocks)
    ensures var reclaimed := SumUsed(a.blocks[i + 1..]) + (a.blocks[i].used - offset);
      && SumUsed(CutBack(a.blocks, i, offset)) == a.totalUsed - reclaimed
      && a.totalUsed - reclaimed == SumUsed(a.blocks[..i]) + offset
  {
    var bs := CutBack(a.blocks, i, offset);
    SumAt(a.blocks, i);
    SumAt(bs, i);
    assert bs[..i] == a.blocks[..i];
    SumZero(bs[i + 1..]);
  }

  lemma CutBackChain(a: Arena, i: nat, offset: nat)
    requires ChainInv(a) && i <= a.cur && offset <= a.blocks[i].used && (i > 0 ==> offset > 0)
    ensures ChainInv(a.(blocks := CutBack(a.blocks, i, offset), cur := i))
  {
    hide Bits.Pow2;
    var bs := CutBack(a.blocks, i, offset);
    forall j | 0 <= j < |bs|
      ensures bs[j].num == a.blocks[j].num && bs[j].size == a.blocks[j].size && bs[j].used <= a.blocks[j].used
      ensures 0 < j <= i ==> bs[j].used > 0
      ensures i < j ==> bs[j].used == 0
    {
    }
  }

  lemma RestoreArena(a: Arena, v: Saved)
    requires ArenaInv(a) && SavedInv(a, v)
    ensures var a' := Restore(a, v.mark);
      && Shaped(a') && ArenaInv(a') && a'.totalUsed == v.totalUsed && LiveInv(a'.blocks, a'.cur, v.live)
      && a'.cur == Find(a.blocks, v.mark.num) && a'.blocks == CutBack(a.blocks, a'.cur, v.mark.offset)
  {
    hide LiveInv, SumUsed, CutBack;
    var i := Find(a.blocks, v.mark.num);
    CutBackSum(a, i, v.mark.offset);
    CutBackChain(a, i, v.mark.offset);
  }

  /** An earlier snapshot survives the restoring of a later one. */
  lemma SavedRestored(a: Arena, u: Saved, v: Saved)
    requires Shaped(a) && ArenaInv(a) && SavedInv(a, u) && SavedInv(a, v) && (u == v || Nested(a, u, v))
    ensures SavedInv(Restore(a, v.mark), u)
    ensures Find(Restore(a, v.mark).blocks, u.mark.num) == Find(a.blocks, u.mark.num)
  {
    hide LiveInv, SumUsed, Restore, ChainInv, Bits.Pow2;
    RestoreArena(a, v);
    var a', i := Restore(a, v.mark), Find(a.blocks, u.mark.num);
    CutBackKeeps(a.blocks, a'.cur, v.mark.offset, i);
    SavedKept(a, a', u, i);
  }

  lemma AllSavedRestored(w: World, k: nat)
    requires Inv(w) && k < |w.saved|
    ensures var a' := Restore(w.a, w.saved[k].mark);
      && Shaped(a')
      && (forall l :: 0 <= l <= k ==> SavedInv(a', w.saved[l]))
      && (forall l, m :: 0 <= l < m <= k ==> Nested(a', w.saved[l], w.saved[m]))
  {
    hide LiveInv, SavedInv;
    var v := w.saved[k];
    RestoreArena(w.a, v);
    var a' := Restore(w.a, v.mark);
    forall l | 0 <= l <= k
      ensures SavedInv(a', w.saved[l]) && Find(a'.blocks, w.saved[l].mark.num) == Find(w.a.blocks, w.saved[l].mark.num)
    {
      SavedRestored(w.a, w.saved[l], v);
    }
    forall l, m | 0 <= l < m <= k
      ensures Nested(a', w.saved[l], w.saved[m])
    {
      assert Nested(w.a, w.saved[l], w.saved[m]);
    }
  }

  lemma RestoreInv(w: World, k: nat)
    requires Inv(w) && k < |w.saved|
    ensures Inv(Do(w, DoRestore(k)))
    ensures Do(w, DoRestore(k)).a.totalUsed == w.saved[k].totalUsed
  {
    hide LiveInv, SavedInv, Nested, Restore, SumUsed;
    RestoreArena(w.a, w.saved[k]);
    AllSavedRestored(w, k);
  }

  lemma DoInv(w: World, op: Op)
    requires Inv(w) && CanDo(w, op)
    ensures Inv(Do(w, op))
  {
    hide Inv, AllocAligned, Realloc, Restore;
    match op
    case DoAlloc(size, align) => WithAllocInv(w, size, align);
    case DoCalloc(n, size) =>
      if CallocSize(n, size).Some? {
        WithAllocInv(w, CallocSize(n, size).value, ALIGNMENT);
      }
    case DoRealloc(i, newSize) => ReallocInv(w, i, newSize);
    case DoReset => ResetInv(w);
    case DoSnapshot => SnapshotInv(w);
    case DoRestore(k) => RestoreInv(w, k);
  }

  // ---------------------------------------------------------------- over whole runs

  /** The operations can be carried out one after the other. */
  predicate CanRun(w: World, ops: seq<Op>)
    decreases |ops|
  {
    ops == [] || (CanDo(w, ops[0]) && CanRun(Do(w, ops[0]), ops[1..]))
  }

  function RunOps(w: World, ops: seq<Op>): World
    requires CanRun(w, ops)
    decreases |ops|
  {
    if ops == [] then w else RunOps(Do(w, ops[0]), ops[1..])
  }

  lemma NewInv(blockSize: nat)
    requires blockSize > 0 && IsWord(blockSize)
    ensures Inv(World(New(blockSize), [], []))
  {
  }

  lemma {:induction false} RunInv(w: World, ops: seq<Op>)
    requires Inv(w) && CanRun(w, ops)
    ensures Inv(RunOps(w, ops))
    decreases |ops|
  {
    if ops != [] {
      DoInv(w, ops[0]);
      RunInv(Do(w, ops[0]), ops[1..]);
    }
  }

  /** In every reachable state: live allocations lie in the used part of their blocks, on
      their alignments, pairwise disjoint; blocks past the current one are empty; and
      total_used is the sum over the chain. */
  lemma ArenaIsSound(blockSize: nat, ops: seq<Op>)
    requires blockSize > 0 && IsWord(blockSize) && CanRun(World(New(blockSize), [], []), ops)
    ensures var w := RunOps(World(New(blockSize), [], []), ops);
      && Shaped(w.a)
      && (forall i :: 0 <= i < |w.live| ==> Lies(w.a.blocks, w.a.cur, w.live[i]))
      && (forall i, j :: 0 <= i < j < |w.live| ==> Disjoint(w.live[i], w.live[j]))
      && (forall i :: 0 <= i < |w.a.blocks| ==> w.a.blocks[i].used <= w.a.blocks[i].size)
      && (forall i :: w.a.cur < i < |w.a.blocks| ==> w.a.blocks[i].used == 0)
      && w.a.totalUsed == SumUsed(w.a.blocks)
  {
    NewInv(blockSize);
    RunInv(World(New(blockSize), [], []), ops);
  }

  /** Operations that leave the k-th snapshot alone. */
  predicate KeepsSnapshot(ops: seq<Op>, k: nat) {
    forall i :: 0 <= i < |ops| ==> ops[i] != DoReset && (ops[i].DoRestore? ==> ops[i].k >= k)
  }

  /** What no operation above the k-th snapshot can change: the snapshot, and the chain
      up to it. */
  ghost predicate Remembers(w: World, k: nat, a: Arena, v: Saved)
    requires Shaped(a)
  {
    k < |w.saved| && w.saved[k] == v && Recognised(w.a, a, v)
  }

  /** `b` begins with the chain of `a` up to its current block, which `v` marks. */
  ghost predicate Recognised(b: Arena, a: Arena, v: Saved)
    requires Shaped(a)
  {
    && Shaped(b) && a.cur <= b.cur
    && b.blocks[..a.cur] == a.blocks[..a.cur]
    && b.blocks[a.cur].(used := 0) == Current(a).(used := 0)
    && Find(b.blocks, v.mark.num) == a.cur
  }

  /** Every operation but reset and restore grows the arena and keeps the snapshots. */
  lemma OpGrows(w: World, op: Op)
    requires Inv(w) && CanDo(w, op) && op != DoReset && !op.DoRestore?
    ensures Shaped(Do(w, op).a) && Grown(w.a, Do(w, op).a) && w.saved <= Do(w, op).saved
  {
    hide AllocAligned, Fits, HasRoom, Bits.Wrap, Bits.Pow2;
    match op
    case DoAlloc(size, align) => AllocServes(w.a, size, align);
    case DoCalloc(n, size) =>
      if CallocSize(n, size).Some? {
        AllocServes(w.a, CallocSize(n, size).value, ALIGNMENT);
      }
    case DoRealloc(i, newSize) =>
      AllocServes(w.a, newSize, ALIGNMENT);
      ReallocCases(w, i, newSize);
    case DoSnapshot =>
  }

  lemma GrownRemembers(w: World, w': World, k: nat, a: Arena, v: Saved)
    requires Inv(w) && Inv(w') && Shaped(a) && Remembers(w, k, a, v)
    requires Grown(w.a, w'.a) && w.saved <= w'.saved
    ensures Remembers(w', k, a, v)
  {
    assert w'.a.blocks[..a.cur] == w.a.blocks[..a.cur];
    FindUnique(w'.a.blocks, a.cur);
    assert w.a.blocks[Find(w.a.blocks, v.mark.num)].num == v.mark.num;
  }

  lemma CutBackKeeps(bs: seq<Block>, i: nat, offset: nat, n: nat)
    requires n <= i < |bs|
    ensures CutBack(bs, i, offset)[..n] == bs[..n]
    ensures CutBack(bs, i, offset)[n].(used := 0) == bs[n].(used := 0)
  {
  }

  lemma RestoreRemembers(b: Arena, u: Saved, a: Arena, v: Saved)
    requires ArenaInv(b) && Shaped(a) && Recognised(b, a, v)
    requires SavedInv(b, u) && SavedInv(b, v) && (v == u || Nested(b, v, u))
    ensures Recognised(Restore(b, u.mark), a, v)
  {
    RestoreArena(b, u);
    SavedRestored(b, v, u);
    CutBackKeeps(b.blocks, Find(b.blocks, u.mark.num), u.mark.offset, a.cur);
  }

  lemma RestoreToRemembers(w: World, l: nat, k: nat, a: Arena, v: Saved)
    requires Inv(w) && Shaped(a) && Remembers(w, k, a, v) && k <= l < |w.saved|
    ensures Remembers(Do(w, DoRestore(l)), k, a, v)
  {
    hide SavedInv, LiveInv;
    var u := w.saved[l];
    assert v == u || Nested(w.a, v, u);
    RestoreRemembers(w.a, u, a, v);
    assert Do(w, DoRestore(l)).a == Restore(w.a, u.mark);
  }

  lemma DoRemembers(w: World, op: Op, k: nat, a: Arena, v: Saved)
    requires Inv(w) && CanDo(w, op) && Shaped(a) && Remembers(w, k, a, v)
    requires op != DoReset && (op.DoRestore? ==> op.k >= k)
    ensures Remembers(Do(w, op), k, a, v)
  {
    if op.DoRestore? {
      RestoreToRemembers(w, op.k, k, a, v);
    } else {
      DoInv(w, op);
      OpGrows(w, op);
      GrownRemembers(w, Do(w, op), k, a, v);
    }
  }

  lemma {:induction false} RunRemembers(w: World, ops: seq<Op>, k: nat, a: Arena, v: Saved)
    requires Inv(w) && CanRun(w, ops) && Shaped(a) && Remembers(w, k, a, v) && KeepsSnapshot(ops, k)
    ensures Remembers(RunOps(w, ops), k, a, v)
    decreases |ops|
  {
    if ops != [] {
      assert KeepsSnapshot(ops[1..], k);
      DoRemembers(w, ops[0], k, a, v);
      DoInv(w, ops[0]);
      RunRemembers(Do(w, ops[0]), ops[1..], k, a, v);
    }
  }

  lemma RestoredArena(b: Arena, a: Arena, v: Saved)
    requires ArenaInv(b) && SavedInv(b, v) && Shaped(a) && Recognised(b, a, v) && v.mark == Snapshot(a)
    ensures var a' := Restore(b, v.mark);
      && a'.totalUsed == v.totalUsed && a'.cur == a.cur < |a'.blocks|
      && a'.blocks[..a.cur + 1] == a.blocks[..a.cur + 1]
      && (forall i :: a.cur < i < |a'.blocks| ==> a'.blocks[i].used == 0)
  {
    hide LiveInv, SumUsed, Restore;
    RestoreArena(b, v);
    var a' := Restore(b, v.mark);
    assert a'.blocks[..a.cur] == a.blocks[..a.cur] && a'.blocks[a.cur] == a.blocks[a.cur];
    assert a'.blocks[..a.cur + 1] == a'.blocks[..a.cur] + [a'.blocks[a.cur]];
    assert a.blocks[..a.cur + 1] == a.blocks[..a.cur] + [a.blocks[a.cur]];
  }

  /** `back` has all that `w` had: the live allocations, total_used, the current block and
      its fill, and the chain before it; what follows in the chain is empty. */
  ghost predicate BroughtBack(w: World, back: World)
    requires Shaped(w.a)
  {
    && back.live == w.live && back.a.totalUsed == w.a.totalUsed && back.a.cur == w.a.cur < |back.a.blocks|
    && back.a.blocks[..w.a.cur + 1] == w.a.blocks[..w.a.cur + 1]
    && (forall i :: w.a.cur < i < |back.a.blocks| ==> back.a.blocks[i].used == 0)
  }

  lemma RestoredIs(w: World, k: nat, was: World, v: Saved)
    requires Inv(w) && Shaped(was.a) && Remembers(w, k, was.a, v)
    requires v == Saved(Snapshot(was.a), was.live, was.a.totalUsed)
    ensures CanCall(w, DoRestore(k)) && BroughtBack(was, Do(w, DoRestore(k)))
  {
    hide LiveInv, SavedInv, Recognised, Restore, Bits.Pow2;
    RestoredArena(w.a, was.a, v);
  }

  /** Taking a snapshot, doing anything that leaves it alone, and restoring it. */
  lemma RestoreBringsBack(w: World, ops: seq<Op>)
    requires Inv(w)
    requires CanRun(Do(w, DoSnapshot), ops) && KeepsSnapshot(ops, |w.saved|)
    ensures CanCall(RunOps(Do(w, DoSnapshot), ops), DoRestore(|w.saved|))
    ensures BroughtBack(w, Do(RunOps(Do(w, DoSnapshot), ops), DoRestore(|w.saved|)))
  {
    var k := |w.saved|;
    var s := Do(w, DoSnapshot);
    SnapshotInv(w);
    FindUnique(w.a.blocks, w.a.cur);
    RunInv(s, ops);
    RunRemembers(s, ops, k, w.a, s.saved[k]);
    RestoredIs(RunOps(s, ops), k, w, s.saved[k]);
  }

  // ---------------------------------------------------------------- total_allocated

  function SumSize(bs: seq<Block>): nat {
    if bs == [] then 0 else bs[0].size + SumSize(bs[1..])
  }

  lemma {:induction false} SizeAppend(xs: seq<Block>, ys: seq<Block>)
    ensures SumSize(xs + ys) == SumSize(xs) + SumSize(ys)
  {
    if xs == [] {
      assert [] + ys == ys;
    } else {
      assert (xs + ys)[1..] == xs[1..] + ys;
      SizeAppend(xs[1..], ys);
    }
  }

  lemma {:induction false} SizeKept(xs: seq<Block>, ys: seq<Block>)
    requires |xs| == |ys| && forall i :: 0 <= i < |xs| ==> xs[i].size == ys[i].size
    ensures SumSize(xs) == SumSize(ys)
  {
    if xs != [] {
      SizeKept(xs[1..], ys[1..]);
    }
  }

  /** What total_allocated has over the size of the chain. */
  function Drift(a: Arena): int {
    a.totalAllocated - SumSize(a.blocks)
  }

  /** The operation opens a new block where others follow the current one; those are lost. */
  predicate CutsOff(w: World, op: Op)
    requires CanDo(w, op)
  {
    Do(w, op).a.nextNum > w.a.nextNum && w.a.cur + 1 < |w.a.blocks|
  }

  predicate NeverCutsOff(w: World, ops: seq<Op>)
    requires CanRun(w, ops)
    decreases |ops|
  {
    ops == [] || (!CutsOff(w, ops[0]) && NeverCutsOff(Do(w, ops[0]), ops[1..]))
  }

  lemma {:induction false} SizePositive(bs: seq<Block>)
    requires forall i :: 0 <= i < |bs| ==> bs[i].size > 0
    ensures SumSize(bs) > 0 <==> bs != []
  {
    if bs != [] {
      SizePositive(bs[1..]);
    }
  }

  /** The drift grows by the size of what is cut off. */
  lemma CarveDrifts(a: Arena, size: nat, offset: nat, n: nat)
    requires ArenaInv(a)
    ensures var a' := Carve(a, size, offset, n).0;
      && Drift(a') == Drift(a) + (if a'.nextNum == a.nextNum then 0 else SumSize(a.blocks[a.cur + 1..]))
      && a'.nextNum >= a.nextNum
      && (SumSize(a.blocks[a.cur + 1..]) > 0 <==> a.cur + 1 < |a.blocks|)
  {
    hide HasRoom, Bits.Wrap;
    var b, kept, next := Current(a), a.blocks[..a.cur + 1], Block(n, size, a.nextNum);
    SizePositive(a.blocks[a.cur + 1..]);
    if !HasRoom(b, size, offset) {
      SizeAppend(kept, a.blocks[a.cur + 1..]);
      assert a.blocks == kept + a.blocks[a.cur + 1..];
      SizeAppend(kept, [next]);
      assert [next][1..] == [];
    } else {
      SizeKept(a.blocks, a.blocks[a.cur := b.(used := Bits.Wrap(offset + size))]);
    }
  }

  /** `a'` follows `a`, and the drift has grown exactly if blocks were cut off. */
  ghost predicate Drifts(a: Arena, a': Arena) {
    && Drift(a') >= Drift(a)
    && (Drift(a') > Drift(a) <==> a'.nextNum > a.nextNum && a.cur + 1 < |a.blocks|)
  }

  lemma AllocDrifts(a: Arena, size: nat, align: nat)
    requires ArenaInv(a) && Shaped(a) && Words(a) && IsWord(size) && IsWord(align)
    ensures Drifts(a, AllocAligned(a, size, align).0)
  {
    hide Drift, Carve, Bits.AlignUp, Bits.And, ArenaInv;
    if size > 0 && ValidAlign(align) {
      CarveDrifts(a, size, Bits.AlignUp(Current(a).used, align), NewBlockSize(a, size));
    }
  }

  lemma SameSizes(a: Arena, a': Arena)
    requires |a'.blocks| == |a.blocks| && forall i :: 0 <= i < |a.blocks| ==> a'.blocks[i].size == a.blocks[i].size
    requires a'.totalAllocated == a.totalAllocated && a'.nextNum == a.nextNum
    ensures Drifts(a, a')
  {
    SizeKept(a.blocks, a'.blocks);
  }

  lemma ReallocDrifts(a: Arena, p: Ptr, oldSize: nat, newSize: nat)
    requires ArenaInv(a) && Words(a) && IsWord(newSize)
    ensures Drifts(a, Realloc(a, p, oldSize, newSize).0)
  {
    hide Drifts, AllocAligned, Bits.Pow2, Bits.Wrap;
    if newSize > oldSize && !GrowsInPlace(a, p, oldSize, newSize) {
      AllocDrifts(a, newSize, ALIGNMENT);
    } else {
      SameSizes(a, Realloc(a, p, oldSize, newSize).0);
    }
  }

  lemma DoDrifts(w: World, op: Op)
    requires Inv(w) && CanDo(w, op)
    ensures Drifts(w.a, Do(w, op).a)
  {
    hide Drifts, AllocAligned, Realloc, Inv, Fits, ReallocFits, Bits.Pow2;
    InvHas(w);
    match op
    case DoAlloc(size, align) => AllocDrifts(w.a, size, align);
    case DoCalloc(n, size) =>
      if CallocSize(n, size).Some? {
        AllocDrifts(w.a, CallocSize(n, size).value, ALIGNMENT);
      } else {
        SameSizes(w.a, w.a);
      }
    case DoRealloc(i, newSize) => ReallocDrifts(w.a, w.live[i].p, w.live[i].size, newSize);
    case _ => SameSizes(w.a, Do(w, op).a);
  }

  lemma {:induction false} RunDrifts(w: World, ops: seq<Op>)
    requires Inv(w) && CanRun(w, ops)
    ensures Drift(RunOps(w, ops).a) >= Drift(w.a)
    ensures Drift(RunOps(w, ops).a) == Drift(w.a) <==> NeverCutsOff(w, ops)
    decreases |ops|
  {
    if ops != [] {
      hide Drift, Do, CanDo, Inv;
      DoDrifts(w, ops[0]);
      DoInv(w, ops[0]);
      RunDrifts(Do(w, ops[0]), ops[1..]);
    }
  }

  lemma NewSize(blockSize: nat)
    ensures Drift(New(blockSize)) == 0
  {
    var bs := New(blockSize).blocks;
    assert bs[1..] == [] && SumSize(bs) == blockSize + SumSize(bs[1..]);
  }

  /** total_allocated is the size of the chain exactly if no block was ever cut off. */
  lemma AllocatedIsSizeIff(blockSize: nat, ops: seq<Op>)
    requires blockSize > 0 && IsWord(blockSize) && CanRun(World(New(blockSize), [], []), ops)
    ensures var w := World(New(blockSize), [], []);
      RunOps(w, ops).a.totalAllocated == SumSize(RunOps(w, ops).a.blocks) <==> NeverCutsOff(w, ops)
  {
    hide Inv, Do, CanDo, RunOps, CanRun, NeverCutsOff, Bits.Pow2;
    NewInv(blockSize);
    NewSize(blockSize);
    RunDrifts(World(New(blockSize), [], []), ops);
  }

  // ---------------------------------------------------------------- runs that go wrong

  lemma OneIsValid()
    ensures ValidAlign(1) && Bits.IsPow2(1)
  {
    assert Bits.And(1, 0) == 0;
    assert 1 == Bits.Pow2(0);
  }

  /** With alignment 1 an allocation is carved right behind what is used. */
  lemma AllocByOne(a: Arena, size: nat)
    requires Shaped(a) && Words(a) && size > 0 && IsWord(size)
    ensures AllocAligned(a, size, 1) == Carve(a, size, Current(a).used, NewBlockSize(a, size))
    ensures IsWord(Current(a).used + size) && (size > a.blockSize ==> IsWord(size + a.blockSize - 1)) ==>
              Fits(a, size, 1)
  {
    hide Bits.AlignUp, Bits.And, Carve, HasRoom;
    OneIsValid();
    Bits.AlignUpIs(Current(a).used, 1);
  }

  lemma DoByOne(w: World, size: nat)
    requires Shaped(w.a) && Words(w.a) && size > 0 && BlockInv(Current(w.a))
    requires IsWord(Current(w.a).used + size) && (size > w.a.blockSize ==> IsWord(size + w.a.blockSize - 1))
    ensures CanDo(w, DoAlloc(size, 1))
    ensures Do(w, DoAlloc(size, 1)).a == if Current(w.a).used + size <= Current(w.a).size
                                         then Bumped(w.a, Current(w.a).used + size)
                                         else Extended(w.a, size, NewBlockSize(w.a, size))
  {
    hide Bits.AlignUp, Bits.And, Bits.Wrap, HasRoom, Fits, AllocAligned, NewBlockSize;
    AllocByOne(w.a, size);
    RoomIs(Current(w.a), size, Current(w.a).used);
    Bits.WrapOnce(size);
    Bits.WrapOnce(Current(w.a).used + size);
  }

  /** Fill a block and one more, reset, and ask for more than a block. */
  function DriftingRun(blockSize: nat): seq<Op> {
    [DoAlloc(blockSize, 1), DoAlloc(blockSize, 1), DoReset, DoAlloc(blockSize + 1, 1)]
  }

  /** The second block is lost to the chain and still counted. */
  lemma DriftingRunDrifts(blockSize: nat)
    requires blockSize > 0 && IsWord(2 * blockSize)
    ensures var w := World(New(blockSize), [], []);
      CanRun(w, DriftingRun(blockSize)) && Drift(RunOps(w, DriftingRun(blockSize)).a) == blockSize
  {
    hide Do, Bits.Pow2, Bits.AlignUp, CanDo;
    var w := World(New(blockSize), [], []);
    var n := NewBlockSize(w.a, blockSize + 1);
    DoByOne(w, blockSize);
    var w1 := Do(w, DoAlloc(blockSize, 1));
    DoByOne(w1, blockSize);
    var w2 := Do(w1, DoAlloc(blockSize, 1));
    assert w2.a.blocks == [Block(blockSize, blockSize, 0), Block(blockSize, blockSize, 1)];
    var w3 := Do(w2, DoReset);
    assert CanDo(w2, DoReset) && w3 == World(Reset(w2.a), [], []) by { ResetIs(w2); }
    DoByOne(w3, blockSize + 1);
    var w4 := Do(w3, DoAlloc(blockSize + 1, 1));
    assert w4.a.blocks == [Block(blockSize, 0, 0), Block(n, blockSize + 1, 2)];
    assert Drift(w4.a) == blockSize by { SizeOfTwo(w4.a.blocks); }
    FourSteps(w, DriftingRun(blockSize));
  }

  lemma ResetIs(w: World)
    requires Shaped(w.a) && Words(w.a)
    ensures CanDo(w, DoReset) && Do(w, DoReset) == World(Reset(w.a), [], [])
  {
  }

  lemma SizeOfTwo(bs: seq<Block>)
    requires |bs| == 2
    ensures SumSize(bs) == bs[0].size + bs[1].size
  {
    assert SumSize(bs[1..][1..]) == 0;
  }

  lemma FourSteps(w: World, ops: seq<Op>)
    requires |ops| == 4
    requires CanDo(w, ops[0])
    requires var w1 := Do(w, ops[0]); CanDo(w1, ops[1])
    requires var w2 := Do(Do(w, ops[0]), ops[1]); CanDo(w2, ops[2])
    requires var w3 := Do(Do(Do(w, ops[0]), ops[1]), ops[2]); CanDo(w3, ops[3])
    ensures CanRun(w, ops) && RunOps(w, ops) == Do(Do(Do(Do(w, ops[0]), ops[1]), ops[2]), ops[3])
  {
    hide Do, CanCall;
    var o1, o2, o3 := ops[1..], ops[2..], ops[3..];
    assert o1[1..] == o2 && o2[1..] == o3 && o3[1..] == [];
    var w1 := Do(w, ops[0]);
    var w2 := Do(w1, ops[1]);
    var w3 := Do(w2, ops[2]);
    assert CanRun(w3, o3) && RunOps(w3, o3) == Do(w3, ops[3]);
    assert CanRun(w2, o2) && RunOps(w2, o2) == RunOps(w3, o3);
    assert CanRun(w1, o1) && RunOps(w1, o1) == RunOps(w2, o2);
  }

  /** In an arena whose first byte is allocated, all of the address space but that byte is
      granted as well; the sum wraps to 0, and the next byte handed out is the first again. */
  lemma HugeAllocOverlaps(blockSize: nat)
    requires blockSize > 0 && IsWord(blockSize)
    ensures var byte, huge := DoAlloc(1, 1), DoAlloc(Bits.Pow2(64) - 1, 1);
      var w1 := Do(World(New(blockSize), [], []), byte);
      && CanDo(World(New(blockSize), [], []), byte) && CanCall(w1, huge) && !CanDo(w1, huge)
      && var w2 := Do(w1, huge);
      && CanDo(w2, byte)
      && var w3 := Do(w2, byte);
      && |w3.live| == 3 && w3.live[0] == w3.live[2] && w3.live[0].size == 1
  {
    hide Bits.Pow2, Bits.AlignUp, Bits.And, Bits.Wrap;
    var w := World(New(blockSize), [], []);
    OneIsValid();
    DoByOne(w, 1);
    var w1 := Do(w, DoAlloc(1, 1));
    var size := Bits.Pow2(64) - 1;
    AllocByOne(w1.a, size);
    Bits.AlignUpIs(1, 1);
    Bits.WrapOnce(size);
    Bits.WrapOnce(size + 1);
    var w2 := Do(w1, DoAlloc(size, 1));
    DoByOne(w2, 1);
  }
}
