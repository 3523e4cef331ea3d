/** kernel/arbuff/src/arbuff.c used by one thread: the structure itself, its creation,
and `ak_arbuff_clear`, which is not meant to run beside other calls.

`SoloPush` and `SoloPop` are what the atomic steps of RingMachine add up to when a
thread runs alone; the methods of `ArBuff` are proved against them.
*/
module RingBuffer {
  import opened Options
  import opened RingMachine
  import Bits

  // ---------------------------------------------------------------- next_power_of_2

  /** Bit `i` of `n` says whether `x` has a bit among `i .. i + s - 1`. */
  ghost predicate Smeared(x: nat, n: nat, s: nat) {
    forall i: nat :: Bits.Bit(n, i) <==> exists j: nat :: i <= j < i + s && Bits.Bit(x, j)
  }

  /** `n | n >> s` */
  function Smear(n: nat, s: nat): nat {
    Bits.Or(n, Bits.Shr(n, s))
  }

  lemma SmearTwice(x: nat, n: nat, s: nat)
    requires Smeared(x, n, s)
    ensures Smeared(x, Smear(n, s), 2 * s)
  {
    forall i: nat
      ensures Bits.Bit(Smear(n, s), i) <==> exists j: nat :: i <= j < i + 2 * s && Bits.Bit(x, j)
    {
      Bits.BitOr(n, Bits.Shr(n, s), i);
      Bits.BitShr(n, s, i);
      assert Bits.Bit(n, i) <==> exists j: nat :: i <= j < i + s && Bits.Bit(x, j);
      assert Bits.Bit(n, i + s) <==> exists j: nat :: i + s <= j < i + s + s && Bits.Bit(x, j);
    }
  }

  lemma SmearWord(x: nat)
    ensures Smeared(x, Smear(Smear(Smear(Smear(Smear(Smear(x, 1), 2), 4), 8), 16), 32), 64)
  {
    SmearTwice(x, x, 1);
    SmearTwice(x, Smear(x, 1), 2);
    SmearTwice(x, Smear(Smear(x, 1), 2), 4);
    SmearTwice(x, Smear(Smear(Smear(x, 1), 2), 4), 8);
    SmearTwice(x, Smear(Smear(Smear(Smear(x, 1), 2), 4), 8), 16);
    SmearTwice(x, Smear(Smear(Smear(Smear(Smear(x, 1), 2), 4), 8), 16), 32);
  }

  ghost predicate LeastPow2(request: nat, r: nat) {
    Bits.IsPow2(r) && request <= r && forall k: nat :: request <= Bits.Pow2(k) ==> r <= Bits.Pow2(k)
  }

  /** The least power of two not below `request`, by smearing the top bit downwards;
      requests above 2^63 wrap to 0. */
  method NextPowerOf2(request: nat) returns (r: nat)
    requires request < Bits.Pow2(64)
    ensures request <= Bits.Pow2(63) ==> LeastPow2(request, r)
    ensures request > Bits.Pow2(63) ==> r == 0
  {
    hide *;
    if request == 0 {
      OneIsLeast();
      return 1;
    }
    ghost var x := request - 1;
    var n := request - 1;
    n := Smear(n, 1);
    n := Smear(n, 2);
    n := Smear(n, 4);
    n := Smear(n, 8);
    n := Smear(n, 16);
    n := Smear(n, 32);
    SmearWord(x);
    r := (n + 1) % Bits.Pow2(64);
    WordSuccessor(request, n);
  }

  lemma OneIsLeast()
    ensures LeastPow2(0, 1) && Bits.Pow2(63) > 0
  {
    assert 1 == Bits.Pow2(0);
  }

  lemma WordSuccessor(request: nat, n: nat)
    requires 1 <= request < Bits.Pow2(64) && Smeared(request - 1, n, 64)
    ensures request <= Bits.Pow2(63) ==> LeastPow2(request, (n + 1) % Bits.Pow2(64))
    ensures request > Bits.Pow2(63) ==> (n + 1) % Bits.Pow2(64) == 0
  {
    hide Bits.Pow2, Smeared;
    var t := FullySmeared(request - 1, n);
    LeastPower(request, t);
    WrapsOnce(n + 1, Bits.Pow2(64));
  }

  lemma WrapsOnce(n: nat, w: nat)
    requires n <= w && w > 0
    ensures n < w ==> n % w == n
    ensures n == w ==> n % w == 0
  {
  }

  /** Smeared over a whole word, a number is all ones below its successor power. */
  lemma FullySmeared(x: nat, n: nat) returns (t: nat)
    requires x < Bits.Pow2(64) && Smeared(x, n, 64)
    ensures t <= 64 && n + 1 == Bits.Pow2(t) && x < Bits.Pow2(t)
    ensures t > 0 ==> Bits.Pow2(t - 1) <= x
  {
    if x == 0 {
      forall i: nat
        ensures !Bits.Bit(n, i)
      {
        forall j: nat
          ensures !Bits.Bit(0, j)
        {
          Bits.ZeroBits(j);
        }
      }
      Bits.NoBits(n);
      t := 0;
    } else {
      var top := Bits.TopBit(x);
      if top >= 64 {
        Bits.Pow2Mono(64, top);
      }
      t := top + 1;
      forall i: nat
        ensures Bits.Bit(n, i) <==> i < t
      {
        assert i <= top ==> i <= top < i + 64 && Bits.Bit(x, top);
      }
      Bits.AllOnes(n, t);
    }
  }

  lemma LeastPower(request: nat, t: nat)
    requires 1 <= request <= Bits.Pow2(t) && t <= 64
    requires t > 0 ==> Bits.Pow2(t - 1) < request
    ensures t <= 63 <==> request <= Bits.Pow2(63)
    ensures t <= 63 ==> Bits.Pow2(t) < Bits.Pow2(64)
    ensures LeastPow2(request, Bits.Pow2(t))
  {
    hide Bits.Pow2;
    if t <= 63 {
      Bits.Pow2Mono(t, 63);
      Bits.Pow2Mono(t, 64);
    }
    forall k: nat | request <= Bits.Pow2(k)
      ensures Bits.Pow2(t) <= Bits.Pow2(k)
    {
      if k < t {
        Bits.Pow2Mono(k, t - 1);
        assert false;
      }
      Bits.Pow2Mono(t, k);
    }
  }

  // ---------------------------------------------------------------- alone

  /** No call in flight: published from tail to head, free from head to tail + cap. */
  ghost predicate Settled(m: Memory) {
    && Shaped(m)
    && m.tail <= m.head <= m.tail + m.cap
    && (forall p: nat :: m.tail <= p < m.head ==> SlotOf(m, p).sequence == p + 1)
    && (forall p: nat :: m.head <= p < m.tail + m.cap ==> SlotOf(m, p).sequence == p)
  }

  ghost function Contents(m: Memory): seq<Item>
    requires Settled(m)
  {
    seq(m.head - m.tail, i requires 0 <= i < m.head - m.tail => SlotOf(m, m.tail + i).value)
  }

  function SoloPush(m: Memory, x: Item): (Memory, bool)
    requires Shaped(m)
  {
    if SlotOf(m, m.head).sequence == m.head
    then (PutSlot(m, m.head, Slot(x, m.head + 1)).(head := m.head + 1), true)
    else (m, false)
  }

  function SoloPop(m: Memory): (Memory, Option<Item>)
    requires Shaped(m)
  {
    if SlotOf(m, m.tail).sequence == m.tail + 1
    then (PutSlot(m, m.tail, SlotOf(m, m.tail).(sequence := m.tail + m.cap)).(tail := m.tail + 1),
          Some(SlotOf(m, m.tail).value))
    else (m, None)
  }

  /** Thread `t` takes `n` steps while nobody else moves. */
  function Alone(s: Ring, t: Tid, n: nat): (r: Ring)
    requires Shaped(s.mem)
    ensures Shaped(r.mem)
  {
    if n == 0 then s else Step(Alone(s, t, n - 1), t, Go).0
  }

  /** `SoloPush` is the five atomic steps of a push, with nobody in between; the last one
      taken returns what it says. */
  lemma SoloPushIsMachine(s: Ring, t: Tid, x: Item)
    requires Shaped(s.mem) && PcOf(s, t) == Idle
    requires SlotOf(s.mem, s.mem.head).sequence <= s.mem.head
    ensures var s0, (m', ok) := Step(s, t, CallPush(x)).0, SoloPush(s.mem, x);
      && PcOf(Alone(s0, t, 5), t) == Idle && Alone(s0, t, 5).mem == m'
      && (ok ==> Step(Alone(s0, t, 4), t, Go).1 == PushReturned(s.mem.head))
      && (!ok ==> Step(Alone(s0, t, 1), t, Go).1 == PushRefused(s.mem.head))
  {
    hide Index;
    var m := s.mem;
    var s0 := Step(s, t, CallPush(x)).0;
    var s2 := Alone(s0, t, 2);
    assert Alone(s0, t, 1) == At(s0, t, PushSequence(x, m.head));
    if SlotOf(m, m.head).sequence == m.head {
      assert s2 == At(Alone(s0, t, 1), t, PushCas(x, m.head));
      var s4 := Alone(s0, t, 4);
      var s3 := Alone(s0, t, 3);
      assert s3.mem == m.(head := m.head + 1) && PcOf(s3, t) == PushStore(x, m.head);
      assert s4.mem == PutSlot(s3.mem, m.head, SlotOf(m, m.head).(value := x)) && PcOf(s4, t) == PushPublish(x, m.head);
      var s5 := Alone(s0, t, 5);
      assert s5.mem == PutSlot(s4.mem, m.head, SlotOf(s4.mem, m.head).(sequence := m.head + 1));
    } else {
      assert s2.mem == m && PcOf(s2, t) == Idle;
      assert Alone(s0, t, 3) == s2;
      assert Alone(s0, t, 4) == s2;
    }
  }

  /** `SoloPop` is the five atomic steps of a pop, with nobody in between; the last one
      taken, if there is an item, returns it. */
  lemma SoloPopIsMachine(s: Ring, t: Tid)
    requires Shaped(s.mem) && PcOf(s, t) == Idle
    requires SlotOf(s.mem, s.mem.tail).sequence <= s.mem.tail + 1
    ensures var s0, (m', r) := Step(s, t, CallPop).0, SoloPop(s.mem);
      && PcOf(Alone(s0, t, 5), t) == Idle && Alone(s0, t, 5).mem == m'
      && (r.Some? ==> Step(Alone(s0, t, 4), t, Go).1 == PopReturned(s.mem.tail, r.value))
      && (r.None? ==> Step(Alone(s0, t, 1), t, Go).1 == PopRefused(s.mem.tail))
  {
    hide Index;
    var m := s.mem;
    var s0 := Step(s, t, CallPop).0;
    var s2 := Alone(s0, t, 2);
    assert Alone(s0, t, 1) == At(s0, t, PopSequence(m.tail));
    if SlotOf(m, m.tail).sequence == m.tail + 1 {
      assert s2 == At(Alone(s0, t, 1), t, PopCas(m.tail));
      var s3, s4 := Alone(s0, t, 3), Alone(s0, t, 4);
      assert s3.mem == m.(tail := m.tail + 1) && PcOf(s3, t) == PopLoad(m.tail);
      assert s4.mem == s3.mem && PcOf(s4, t) == PopPublish(m.tail, SlotOf(m, m.tail).value);
      var s5 := Alone(s0, t, 5);
      assert s5.mem == PutSlot(s4.mem, m.tail, SlotOf(s4.mem, m.tail).(sequence := m.tail + m.cap));
    } else {
      assert s2.mem == m && PcOf(s2, t) == Idle;
      assert Alone(s0, t, 3) == s2;
      assert Alone(s0, t, 4) == s2;
    }
  }

  /** On two slots or more, a push alone appends and fails exactly when full, and a pop
      alone takes the oldest item and fails exactly when empty. */
  lemma SoloIsQueue(m: Memory, x: Item)
    requires Settled(m) && m.cap >= 2
    ensures var (m', ok) := SoloPush(m, x);
      Settled(m') && ok == (|Contents(m)| < m.cap)
      && Contents(m') == if ok then Contents(m) + [x] else Contents(m)
    ensures var (m', r) := SoloPop(m);
      Settled(m') && (r == None <==> Contents(m) == [])
      && (r.Some? ==> Contents(m) == [r.value] + Contents(m'))
  {
    SoloPushAppends(m, x);
    SoloPopTakes(m);
  }

  lemma SoloPushAppends(m: Memory, x: Item)
    requires Settled(m) && m.cap >= 2
    ensures var (m', ok) := SoloPush(m, x);
      Settled(m') && ok == (|Contents(m)| < m.cap)
      && Contents(m') == if ok then Contents(m) + [x] else Contents(m)
  {
    hide Index;
    var (m', ok) := SoloPush(m, x);
    if m.head == m.tail + m.cap {
      SameIndex(m.cap, m.head);
      assert SlotOf(m, m.head) == SlotOf(m, m.tail);
    } else {
      IndexFacts(m.cap);
      assert forall q: nat :: m.tail <= q < m.tail + m.cap && q != m.head ==> SlotOf(m', q) == SlotOf(m, q);
      assert SlotOf(m', m.head) == Slot(x, m.head + 1);
    }
  }

  lemma SoloPopSlots(m: Memory)
    requires Settled(m) && m.cap >= 2 && m.tail < m.head
    ensures forall q: nat :: m.tail < q < m.tail + m.cap ==> SlotOf(SoloPop(m).0, q) == SlotOf(m, q)
    ensures SlotOf(SoloPop(m).0, m.tail + m.cap).sequence == m.tail + m.cap
  {
    IndexFacts(m.cap);
    SameIndex(m.cap, m.tail + m.cap);
  }

  lemma SoloPopSettled(m: Memory)
    requires Settled(m) && m.cap >= 2 && m.tail < m.head
    ensures Settled(SoloPop(m).0)
  {
    SoloPopSlots(m);
    var m' := SoloPop(m).0;
    forall p: nat | m'.tail <= p < m'.tail + m.cap
      ensures SlotOf(m', p).sequence == if p < m'.head then p + 1 else p
    {
      if p < m.tail + m.cap {
        assert SlotOf(m', p) == SlotOf(m, p);
      }
    }
  }

  lemma ContentsShift(m: Memory, m': Memory)
    requires Settled(m) && Settled(m') && m'.head == m.head > m.tail && m'.tail == m.tail + 1
    requires forall q: nat :: m.tail < q < m.head ==> SlotOf(m', q) == SlotOf(m, q)
    ensures Contents(m) == [SlotOf(m, m.tail).value] + Contents(m')
  {
    hide SlotOf, Settled;
  }

  lemma SoloPopTakes(m: Memory)
    requires Settled(m) && m.cap >= 2
    ensures var (m', r) := SoloPop(m);
      Settled(m') && (r == None <==> Contents(m) == [])
      && (r.Some? ==> Contents(m) == [r.value] + Contents(m'))
  {
    hide Index;
    if m.tail < m.head {
      SoloPopSettled(m);
      SoloPopSlots(m);
      hide Contents;
      ContentsShift(m, SoloPop(m).0);
    }
  }

  // ---------------------------------------------------------------- clear

  function Cleared(m: Memory): Memory
    requires Shaped(m)
  {
    Memory(m.cap, m.head, m.head, seq(m.cap, i requires 0 <= i < m.cap => Slot(0, m.head + i)))
  }

  /** `ak_arbuff_clear` numbers slot i with head + i; that is the number of a free slot
      only when head is a multiple of the capacity. */
  lemma ClearSettlesIff(m: Memory)
    requires Shaped(m)
    ensures m.head % m.cap == 0 ==> Settled(Cleared(m)) && Contents(Cleared(m)) == []
    ensures Settled(Cleared(m)) ==> m.head % m.cap == 0
  {
    var m' := Cleared(m);
    forall p: nat | m.head <= p < m.head + m.cap
      ensures Index(m.cap, p) == p % m.cap
    {
      IndexIsMod(m.cap, p);
    }
    if m.head % m.cap == 0 {
      forall p: nat | m.head <= p < m.head + m.cap
        ensures SlotOf(m', p).sequence == p
      {
        assert p == m.cap * (m.head / m.cap) + (p - m.head);
        Bits.ModUnique(p, m.cap, m.head / m.cap, p - m.head);
      }
    } else {
      assert SlotOf(m', m.head).sequence == m.head + m.head % m.cap;
    }
  }

  /** A push alone spins while the slot of head carries a number above head. */
  lemma {:induction false} PushSpins(s: Ring, t: Tid, x: Item, n: nat)
    requires Shaped(s.mem) && PcOf(s, t) == Idle
    requires SlotOf(s.mem, s.mem.head).sequence > s.mem.head
    ensures var s' := Alone(Step(s, t, CallPush(x)).0, t, n);
            s'.mem == s.mem && (PcOf(s', t) == PushHead(x) || PcOf(s', t) == PushSequence(x, s.mem.head))
  {
    if n > 0 {
      PushSpins(s, t, x, n - 1);
    }
  }

  ghost predicate PushReturnsAlone(s: Ring, t: Tid, x: Item)
    requires Shaped(s.mem)
  {
    exists n :: PcOf(Alone(Step(s, t, CallPush(x)).0, t, n), t) == Idle
  }

  /** After a clear, a push by a thread on its own returns if and only if head is a
      multiple of the capacity; otherwise it loops for ever. */
  lemma PushAfterClear(m: Memory, ths: map<Tid, PC>, t: Tid, x: Item)
    requires Shaped(m) && PcOf(Ring(Cleared(m), ths), t) == Idle
    ensures PushReturnsAlone(Ring(Cleared(m), ths), t, x) <==> m.head % m.cap == 0
  {
    var s := Ring(Cleared(m), ths);
    IndexIsMod(m.cap, m.head);
    assert SlotOf(s.mem, m.head).sequence == m.head + m.head % m.cap;
    if m.head % m.cap == 0 {
      SoloPushIsMachine(s, t, x);
    } else {
      forall n: nat
        ensures PcOf(Alone(Step(s, t, CallPush(x)).0, t, n), t) != Idle
      {
        PushSpins(s, t, x, n);
      }
    }
  }

  // ---------------------------------------------------------------- the structure

  lemma LeastIsCapacity(request: nat, cap: nat)
    requires LeastPow2(request, cap)
    ensures Capacity(cap)
  {
    hide Bits.Pow2;
    var k: nat :| cap == Bits.Pow2(k);
    Bits.PowerOfTwoTest(cap);
  }

  lemma InitSettled(cap: nat)
    requires Capacity(cap)
    ensures Settled(InitMemory(cap)) && Contents(InitMemory(cap)) == []
  {
    forall p: nat | p < cap
      ensures Index(cap, p) == p
    {
      IndexIsMod(cap, p);
      Bits.ModUnique(p, cap, 0, p);
    }
  }

  lemma SettledHas(m: Memory)
    ensures Settled(m) ==> Capacity(m.cap)
  {
  }

  const SLOT_BYTES: nat := 16 // sizeof(ak_arbuff_slot_t)

  /** How many slots there is room for in what is allocated for a capacity. */
  function SlotsIn(cap: nat): nat {
    Bits.Wrap(SLOT_BYTES * cap) / SLOT_BYTES
  }

  lemma SixteenTimes(k: nat)
    ensures 16 * Bits.Pow2(k) == Bits.Pow2(k + 4)
  {
    assert Bits.Pow2(k + 4) == 2 * Bits.Pow2(k + 3) == 4 * Bits.Pow2(k + 2) == 8 * Bits.Pow2(k + 1);
  }

  lemma WrapsToNothing(k: nat)
    requires 60 <= k < 64
    ensures Bits.Wrap(Bits.Pow2(k + 4)) == 0
  {
    var w, m := Bits.Pow2(64), if k == 60 then 1 else if k == 61 then 2 else if k == 62 then 4 else 8;
    assert Bits.Pow2(65) == 2 * w && Bits.Pow2(66) == 4 * w && Bits.Pow2(67) == 8 * w;
    Bits.ModUnique(Bits.Pow2(k + 4), w, m, 0);
  }

  /** From 2^60 slots on their size in bytes wraps to 0. */
  lemma SlotsInIs(cap: nat)
    requires Bits.IsPow2(cap) && cap < Bits.Pow2(64)
    ensures SlotsIn(cap) == if cap <= Bits.Pow2(59) then cap else 0
  {
    hide Bits.Pow2, Bits.Wrap;
    var k: nat :| cap == Bits.Pow2(k);
    if k >= 64 {
      Bits.Pow2Mono(64, k);
    }
    SixteenTimes(k);
    if k <= 59 {
      Bits.Pow2Mono(k, 59);
      Bits.Pow2Mono(k + 4, 64);
      Bits.WrapOnce(SLOT_BYTES * cap);
    } else {
      Bits.Pow2Mono(59, k);
      WrapsToNothing(k);
    }
  }

  /** The rounding keeps a request on its side of 2^59. */
  lemma RoundedFits(request: nat, cap: nat)
    requires LeastPow2(request, cap)
    ensures request <= Bits.Pow2(59) <==> cap <= Bits.Pow2(59)
    ensures Bits.IsPow2(cap)
  {
    hide Bits.Pow2;
    assert Bits.IsPow2(Bits.Pow2(59));
  }

  lemma NewFacts(request: nat, cap: nat)
    requires 0 < request < Bits.Pow2(64)
    requires if request <= Bits.Pow2(63) then LeastPow2(request, cap) else cap == 0
    ensures cap < Bits.Pow2(64) && Bits.Pow2(59) <= Bits.Pow2(63)
    ensures request <= Bits.Pow2(59) <==> cap > 0 && SlotsIn(cap) == cap && Capacity(cap)
    ensures request > Bits.Pow2(59) ==> SlotsIn(cap) == 0
  {
    hide Bits.Pow2, LeastPow2;
    Bits.Pow2Mono(59, 63);
    Bits.Pow2Mono(63, 64);
    if request <= Bits.Pow2(63) {
      RoundedFits(request, cap);
      LeastIsCapacity(request, cap);
      assert cap <= Bits.Pow2(63) by { LeastAtMost(request, cap, 63); }
      SlotsInIs(cap);
    } else {
      Bits.WrapOnce(0);
    }
  }

  lemma LeastAtMost(request: nat, cap: nat, k: nat)
    requires LeastPow2(request, cap) && request <= Bits.Pow2(k)
    ensures cap <= Bits.Pow2(k)
  {
    hide Bits.Pow2;
    assert Bits.IsPow2(Bits.Pow2(k));
  }

  class ArBuff {
    const slots: array<Slot>
    const capacity: nat
    const mask: nat
    var head: nat
    var tail: nat

    ghost function Mem(): Memory
      reads this, slots
    {
      Memory(capacity, head, tail, slots[..])
    }

    ghost predicate Valid()
      reads this, slots
    {
      slots.Length == capacity && mask + 1 == capacity && Settled(Mem())
    }

    /** The slots there is memory for are set up. */
    constructor (cap: nat)
      requires cap < Bits.Pow2(64)
      ensures fresh(slots) && capacity == cap && slots.Length == SlotsIn(cap)
      ensures Valid() <==> cap > 0 && SlotsIn(cap) == cap && Capacity(cap)
      ensures Valid() ==> Mem() == InitMemory(cap) && Contents(Mem()) == []
    {
      capacity, mask := cap, Bits.Wrap(cap - 1);
      head, tail := 0, 0;
      slots := new Slot[SlotsIn(cap)](i => Slot(0, i));
      new;
      hide Bits.Pow2, Bits.Wrap, Settled, SlotOf;
      Bits.WrapOnce(cap - 1);
      if Capacity(cap) {
        InitSettled(cap);
        assert SlotsIn(cap) == cap ==> slots[..] == InitMemory(cap).slots;
      } else {
        assert !Valid() by { SettledHas(Mem()); }
      }
    }

    /** `ak_arbuff_new`; above 2^59 it hands out a ring without memory for its slots, and above
        2^63 without slots. */
    static method New(request: nat) returns (r: ArBuff?)
      requires request < Bits.Pow2(64)
      ensures r == null <==> request == 0
      ensures r != null ==> fresh(r) && fresh(r.slots)
      ensures r != null && request <= Bits.Pow2(63) ==> LeastPow2(request, r.capacity)
      ensures r != null && request > Bits.Pow2(63) ==> r.capacity == 0
      ensures r != null ==> (r.Valid() <==> request <= Bits.Pow2(59))
      ensures r != null ==> if request <= Bits.Pow2(59) then Contents(r.Mem()) == [] else r.slots.Length == 0
    {
      if request == 0 {
        return null;
      }
      var cap := NextPowerOf2(request);
      NewFacts(request, cap);
      hide Bits.Pow2, LeastPow2, Contents;
      r := new ArBuff(cap);
    }

    method Push(item: Item) returns (ok: bool)
      requires Valid()
      modifies this`head, slots
      ensures Mem() == SoloPush(old(Mem()), item).0 && ok == SoloPush(old(Mem()), item).1
      ensures capacity >= 2 ==> Valid() && ok == (|old(Contents(Mem()))| < capacity)
      ensures capacity >= 2 ==> Contents(Mem()) == old(Contents(Mem())) + if ok then [item] else []
    {
      hide Contents;
      if capacity >= 2 {
        SoloIsQueue(Mem(), item);
      }
      var at := head;
      var claimed := false;
      while !claimed
        invariant at == old(head) && slots[..] == old(slots[..])
        invariant head == at + if claimed then 1 else 0
        invariant claimed ==> SlotOf(old(Mem()), at).sequence == at
        decreases !claimed
      {
        at := head;
        var diff: int := slots[Index(mask + 1, at)].sequence - at;
        if diff == 0 {
          head := at + 1;
          claimed := true;
        } else if diff < 0 {
          return false;
        } else {
          HeadNotAhead(Mem());
          assert false;
        }
      }
      var i := Index(mask + 1, at);
      slots[i] := slots[i].(value := item);
      slots[i] := slots[i].(sequence := at + 1);
      assert slots[..] == old(slots[..])[i := Slot(item, at + 1)];
      return true;
    }

    method Pop() returns (r: Option<Item>)
      requires Valid()
      modifies this`tail, slots
      ensures Mem() == SoloPop(old(Mem())).0 && r == SoloPop(old(Mem())).1
      ensures capacity >= 2 ==> Valid() && (r == None <==> old(Contents(Mem())) == [])
      ensures capacity >= 2 && r.Some? ==> old(Contents(Mem())) == [r.value] + Contents(Mem())
    {
      hide Contents;
      if capacity >= 2 {
        SoloIsQueue(Mem(), 0);
      }
      var at := tail;
      var claimed := false;
      while !claimed
        invariant at == old(tail) && slots[..] == old(slots[..])
        invariant tail == at + if claimed then 1 else 0
        invariant claimed ==> SlotOf(old(Mem()), at).sequence == at + 1
        decreases !claimed
      {
        at := tail;
        var diff: int := slots[Index(mask + 1, at)].sequence - (at + 1);
        if diff == 0 {
          tail := at + 1;
          claimed := true;
        } else if diff < 0 {
          return None;
        } else {
          HeadNotAhead(Mem());
          assert false;
        }
      }
      var i := Index(mask + 1, at);
      r := Some(slots[i].value);
      slots[i] := slots[i].(sequence := at + mask + 1);
      assert slots[..] == old(slots[..])[i := old(slots[..])[i].(sequence := at + mask + 1)];
    }

    method Count() returns (n: nat)
      requires Valid()
      ensures n == |Contents(Mem())| <= capacity
    {
      n := 0;
      if head >= tail {
        n := head - tail;
      }
    }

    method Clear()
      requires Valid()
      modifies this`tail, slots
      ensures Mem() == Cleared(old(Mem()))
      ensures tail == head == old(head) && forall i :: 0 <= i < slots.Length ==> slots[i] == Slot(0, head + i)
      ensures Valid() <==> head % capacity == 0
      ensures Valid() ==> Contents(Mem()) == []
    {
      tail := head;
      for i := 0 to capacity
        invariant tail == head
        invariant forall k :: 0 <= k < i ==> slots[k] == Slot(0, head + k)
      {
        slots[i] := slots[i].(value := 0);
        slots[i] := slots[i].(sequence := head + i);
      }
      assert slots[..] == Cleared(old(Mem())).slots;
      ClearSettlesIff(old(Mem()));
    }
  }

  lemma HeadNotAhead(m: Memory)
    requires Settled(m)
    ensures SlotOf(m, m.head).sequence <= m.head
    ensures SlotOf(m, m.tail).sequence <= m.tail + 1
  {
    if m.head == m.tail + m.cap {
      SameIndex(m.cap, m.head);
    }
  }
}
