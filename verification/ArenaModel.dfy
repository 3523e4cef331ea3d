/** The arena allocator of kernel/arena/src/arena.c on values.

A block is known by its number, a pointer by block and offset.  Sizes are computed in
64 bits, as `size_t`; the totals and the block counter are integers.  `World` adds what
the client holds: the live allocations and the snapshots it may still restore.
*/
module ArenaModel {
  import opened Options
  import Bits

  const ALIGNMENT: nat := 8 // AK_ARENA_DEFAULT_ALIGNMENT

  datatype Block = Block(size: nat, used: nat, num: nat)

  /** The chain from first_block on; `cur` is the index of current_block. */
  datatype Arena = Arena(blocks: seq<Block>, cur: nat, blockSize: nat,
                         totalAllocated: nat, totalUsed: int, nextNum: nat)

  datatype Ptr = Ptr(num: nat, offset: nat)

  type Mark = Ptr

  predicate Shaped(a: Arena) {
    a.cur < |a.blocks| && a.blockSize > 0
  }

  function Current(a: Arena): Block
    requires Shaped(a)
  {
    a.blocks[a.cur]
  }

  function New(blockSize: nat): Arena {
    Arena([Block(blockSize, 0, 0)], 0, blockSize, blockSize, 0, 1)
  }

  predicate IsWord(n: nat) {
    n < Bits.Pow2(64)
  }

  /** What a call computes with fits a `size_t`. */
  predicate Words(a: Arena) {
    IsWord(a.blockSize) && forall i :: 0 <= i < |a.blocks| ==> IsWord(a.blocks[i].used)
  }

  predicate ValidAlign(align: nat) {
    align != 0 && Bits.And(align, align - 1) == 0
  }

  function NewBlockSize(a: Arena, size: nat): nat
    requires Shaped(a) && Words(a) && IsWord(size)
  {
    if size > a.blockSize then Bits.AlignUp(size, a.blockSize) else a.blockSize
  }

  /** The test for enough space in the current block. */
  predicate HasRoom(b: Block, size: nat, offset: nat) {
    Bits.Wrap(b.used + Bits.Wrap(offset - b.used + size)) <= b.size
  }

  /** `ak_arena_alloc_aligned` */
  function AllocAligned(a: Arena, size: nat, align: nat): (Arena, Option<Ptr>)
    requires Shaped(a) && Words(a) && IsWord(size) && IsWord(align)
  {
    if size == 0 || !ValidAlign(align) then (a, None)
    else Carve(a, size, Bits.AlignUp(Current(a).used, align), NewBlockSize(a, size))
  }

  /** At `offset` in the current block if there is room, or else at the start of a new one. */
  function Carve(a: Arena, size: nat, offset: nat, newBlockSize: nat): (Arena, Option<Ptr>)
    requires Shaped(a)
  {
    var b := Current(a);
    if !HasRoom(b, size, offset) then
      var next := Block(newBlockSize, size, a.nextNum);
      (a.(blocks := a.blocks[..a.cur + 1] + [next], cur := a.cur + 1, nextNum := a.nextNum + 1,
          totalAllocated := a.totalAllocated + next.size, totalUsed := a.totalUsed + size),
       Some(Ptr(next.num, 0)))
    else
      (a.(blocks := a.blocks[a.cur := b.(used := Bits.Wrap(offset + size))],
          totalUsed := a.totalUsed + Bits.Wrap(offset - b.used + size)),
       Some(Ptr(b.num, offset)))
  }

  /** Neither the end of the allocation nor the size of the new block has wrapped, whichever
      of the two the call uses. */
  predicate Fits(a: Arena, size: nat, align: nat)
    requires Shaped(a) && Words(a) && IsWord(size) && IsWord(align)
  {
    size > 0 && ValidAlign(align) ==>
      var b := Current(a);
      var offset := Bits.AlignUp(b.used, align);
      if HasRoom(b, size, offset) then IsWord(b.used + align - 1) && IsWord(offset + size)
      else size > a.blockSize ==> IsWord(size + a.blockSize - 1)
  }

  /** The allocation is the last one in the current block and has room there. */
  predicate GrowsInPlace(a: Arena, p: Ptr, oldSize: nat, newSize: nat)
    requires Shaped(a) && oldSize <= newSize
  {
    var b := Current(a);
    p.num == b.num && p.offset + oldSize == b.used && Bits.Wrap(b.used + (newSize - oldSize)) <= b.size
  }

  /** `ak_arena_realloc`, given a pointer */
  function Realloc(a: Arena, p: Ptr, oldSize: nat, newSize: nat): (Arena, Option<Ptr>)
    requires Shaped(a) && Words(a) && IsWord(newSize)
  {
    if newSize == 0 then (a, None)
    else if newSize <= oldSize then (a, Some(p))
    else if GrowsInPlace(a, p, oldSize, newSize) then
      var used := Bits.Wrap(Current(a).used + (newSize - oldSize));
      (a.(blocks := a.blocks[a.cur := Current(a).(used := used)], totalUsed := a.totalUsed + (newSize - oldSize)),
       Some(p))
    else AllocAligned(a, newSize, ALIGNMENT)
  }

  predicate ReallocFits(a: Arena, p: Ptr, oldSize: nat, newSize: nat)
    requires Shaped(a) && Words(a) && IsWord(newSize)
  {
    newSize > oldSize ==>
      if GrowsInPlace(a, p, oldSize, newSize) then IsWord(Current(a).used + (newSize - oldSize))
      else Fits(a, newSize, ALIGNMENT)
  }

  /** `ak_arena_calloc`: the product is taken modulo 2^64, and tested by dividing back. */
  function CallocSize(nmemb: nat, size: nat): (r: Option<nat>)
    ensures r.Some? ==> IsWord(r.value)
  {
    if nmemb == 0 || size == 0 then None
    else
      var total := Bits.Wrap(nmemb * size);
      if total / nmemb != size then None else Some(total)
  }

  function Emptied(bs: seq<Block>): (r: seq<Block>)
    ensures |r| == |bs|
    ensures forall i :: 0 <= i < |bs| ==> r[i] == bs[i].(used := 0)
  {
    seq(|bs|, i requires 0 <= i < |bs| => bs[i].(used := 0))
  }

  function Reset(a: Arena): Arena {
    a.(blocks := Emptied(a.blocks), cur := 0, totalUsed := 0)
  }

  function Snapshot(a: Arena): Mark
    requires Shaped(a)
  {
    Ptr(Current(a).num, Current(a).used)
  }

  /** The place in the chain of the block with a number; the length if it is not there. */
  function Find(bs: seq<Block>, num: nat): (i: nat)
    ensures i <= |bs|
    ensures i < |bs| ==> bs[i].num == num
    ensures forall j :: 0 <= j < i ==> bs[j].num != num
  {
    if bs == [] then 0 else if bs[0].num == num then 0 else 1 + Find(bs[1..], num)
  }

  function SumUsed(bs: seq<Block>): nat {
    if bs == [] then 0 else bs[0].used + SumUsed(bs[1..])
  }

  /** The chain cut back to `offset` bytes in block `i`. */
  function CutBack(bs: seq<Block>, i: nat, offset: nat): (r: seq<Block>)
    requires i < |bs|
    ensures |r| == |bs|
  {
    bs[..i] + [bs[i].(used := offset)] + Emptied(bs[i + 1..])
  }

  function Restore(a: Arena, m: Mark): Arena {
    var i := Find(a.blocks, m.num);
    if i == |a.blocks| then a
    else
      var reclaimed := SumUsed(a.blocks[i + 1..]) + (a.blocks[i].used - m.offset);
      a.(blocks := CutBack(a.blocks, i, m.offset), cur := i, totalUsed := a.totalUsed - reclaimed)
  }

  // ---------------------------------------------------------------- the client's side

  datatype Alloc = Alloc(p: Ptr, size: nat, align: nat)

  /** A snapshot, with what was live and used when it was taken. */
  datatype Saved = Saved(mark: Mark, live: seq<Alloc>, totalUsed: int)

  datatype World = World(a: Arena, live: seq<Alloc>, saved: seq<Saved>)

  datatype Op =
    | DoAlloc(size: nat, align: nat)
    | DoCalloc(nmemb: nat, size: nat)
    | DoRealloc(i: nat, newSize: nat) // of the i-th live allocation
    | DoReset
    | DoSnapshot
    | DoRestore(k: nat)               // to the k-th snapshot; later ones are given up

  /** The arguments are of type `size_t`, and what is named is there. */
  predicate CanCall(w: World, op: Op) {
    Shaped(w.a) && Words(w.a) &&
    match op
    case DoAlloc(size, align) => IsWord(size) && IsWord(align)
    case DoCalloc(n, size) => IsWord(n) && IsWord(size)
    case DoRealloc(i, newSize) => i < |w.live| && IsWord(newSize)
    case DoRestore(k) => k < |w.saved|
    case _ => true
  }

  /** And no sum the call depends on wraps. */
  predicate CanDo(w: World, op: Op) {
    CanCall(w, op) &&
    match op
    case DoAlloc(size, align) => Fits(w.a, size, align)
    case DoCalloc(n, size) =>
      var total := CallocSize(n, size);
      total.Some? ==> Fits(w.a, total.value, ALIGNMENT)
    case DoRealloc(i, newSize) => ReallocFits(w.a, w.live[i].p, w.live[i].size, newSize)
    case _ => true
  }

  function WithAlloc(w: World, r: (Arena, Option<Ptr>), size: nat, align: nat): World {
    match r.1
    case None => w.(a := r.0)
    case Some(p) => w.(a := r.0, live := w.live + [Alloc(p, size, align)])
  }

  /** `realloc` to zero returns NULL and changes nothing; otherwise the allocation is
      replaced by its resized self, wherever it is now. */
  function Do(w: World, op: Op): World
    requires CanCall(w, op)
  {
    match op
    case DoAlloc(size, align) => WithAlloc(w, AllocAligned(w.a, size, align), size, align)
    case DoCalloc(n, size) =>
      (match CallocSize(n, size)
       case None => w
       case Some(total) => WithAlloc(w, AllocAligned(w.a, total, ALIGNMENT), total, ALIGNMENT))
    case DoRealloc(i, newSize) =>
      var (a, r) := Realloc(w.a, w.live[i].p, w.live[i].size, newSize);
      (match r
       case None => w.(a := a)
       case Some(p) =>
         var align := if p == w.live[i].p then w.live[i].align else ALIGNMENT;
         w.(a := a, live := w.live[i := Alloc(p, newSize, align)]))
    case DoReset => World(Reset(w.a), [], [])
    case DoSnapshot => w.(saved := w.saved + [Saved(Snapshot(w.a), w.live, w.a.totalUsed)])
    case DoRestore(k) => World(Restore(w.a, w.saved[k].mark), w.saved[k].live, w.saved[..k + 1])
  }

  // ---------------------------------------------------------------- invariants

  predicate BlockInv(b: Block) {
    b.used <= b.size && 0 < b.size && IsWord(b.size)
  }

  ghost predicate ChainInv(a: Arena) {
    && Shaped(a) && IsWord(a.blockSize)
    && (forall i :: 0 <= i < |a.blocks| ==> BlockInv(a.blocks[i]) && a.blocks[i].num < a.nextNum)
    && (forall i, j :: 0 <= i < j < |a.blocks| ==> a.blocks[i].num != a.blocks[j].num)
    && (forall i :: 0 < i <= a.cur ==> a.blocks[i].used > 0)
    && (forall i :: a.cur < i < |a.blocks| ==> a.blocks[i].used == 0)
  }

  ghost predicate ArenaInv(a: Arena) {
    ChainInv(a) && a.totalUsed == SumUsed(a.blocks)
  }

  /** An allocation lies in the used part of block `i`, on its alignment. */
  ghost predicate LiesIn(bs: seq<Block>, i: nat, x: Alloc)
    requires i < |bs|
  {
    && bs[i].num == x.p.num
    && x.size > 0
    && x.p.offset + x.size <= bs[i].used
    && x.align > 0 && x.p.offset % x.align == 0
  }

  ghost predicate Lies(bs: seq<Block>, upTo: nat, x: Alloc)
    requires upTo < |bs|
  {
    exists i: nat :: i <= upTo && LiesIn(bs, i, x)
  }

  predicate Disjoint(x: Alloc, y: Alloc) {
    x.p.num != y.p.num || x.p.offset + x.size <= y.p.offset || y.p.offset + y.size <= x.p.offset
  }

  ghost predicate LiveInv(bs: seq<Block>, upTo: nat, live: seq<Alloc>)
    requires upTo < |bs|
  {
    && (forall i :: 0 <= i < |live| ==> Lies(bs, upTo, live[i]))
    && (forall i, j :: 0 <= i < j < |live| ==> Disjoint(live[i], live[j]))
  }

  /** A snapshot can be restored: the chain still begins as it did. */
  ghost predicate SavedInv(a: Arena, v: Saved)
    requires Shaped(a)
  {
    var i := Find(a.blocks, v.mark.num);
    && i <= a.cur
    && v.mark.offset <= a.blocks[i].used
    && (i > 0 ==> v.mark.offset > 0)
    && v.totalUsed == SumUsed(a.blocks[..i]) + v.mark.offset
    && LiveInv(CutBack(a.blocks, i, v.mark.offset), i, v.live)
  }

  /** Of two snapshots the earlier marks the lower place. */
  ghost predicate Nested(a: Arena, u: Saved, v: Saved) {
    var i, j := Find(a.blocks, u.mark.num), Find(a.blocks, v.mark.num);
    i < j || (i == j && u.mark.offset <= v.mark.offset)
  }

  ghost predicate Inv(w: World) {
    && ArenaInv(w.a)
    && LiveInv(w.a.blocks, w.a.cur, w.live)
    && (forall k :: 0 <= k < |w.saved| ==> SavedInv(w.a, w.saved[k]))
    && (forall k, l :: 0 <= k < l < |w.saved| ==> Nested(w.a, w.saved[k], w.saved[l]))
  }
}
