/** Every step of the ring buffer keeps its invariant, and what that means for whole runs. */
module RingProof {
  import opened RingMachine
  import Bits

  lemma InitInv(cap: nat)
    requires cap >= 2 && Capacity(cap)
    ensures Inv(Init(cap), History([], {}, {}))
  {
    forall p: nat | p < cap
      ensures SlotOf(InitMemory(cap), p).sequence == p
    {
      FirstLap(cap, p);
    }
  }

  lemma FirstLap(cap: nat, p: nat)
    requires Capacity(cap) && p < cap
    ensures Index(cap, p) == p
  {
    IndexIsMod(cap, p);
    Bits.ModUnique(p, cap, 0, p);
  }

  // ---------------------------------------------------------------- the memory

  lemma ClaimPush(m: Memory, h: History, x: Item)
    requires MemoryInv(m, h) && Freed(m.cap, h, m.head)
    ensures MemoryInv(m.(head := m.head + 1), Record(h, PushClaimed(m.head, x)))
  {
    var m' := m.(head := m.head + 1);
    assert m.head < m.tail + m.cap;
    assert forall p: nat :: SlotOf(m', p) == SlotOf(m, p);
  }

  /** Storing a value into an unpublished slot disturbs no published value. */
  lemma StoreValue(m: Memory, h: History, p: nat, x: Item)
    requires MemoryInv(m, h) && p < m.head && p !in h.published
    ensures MemoryInv(PutSlot(m, p, SlotOf(m, p).(value := x)), h)
    ensures SlotOf(PutSlot(m, p, SlotOf(m, p).(value := x)), p).value == x
  {
    var m' := PutSlot(m, p, SlotOf(m, p).(value := x));
    assert forall q: nat :: SlotOf(m', q).sequence == SlotOf(m, q).sequence;
    forall q: nat | q < m.head && q in h.published && q !in h.returned
      ensures SlotOf(m', q).value == h.items[q]
    {
      LiveSlotsDiffer(m, h, p, q);
    }
  }

  /** Two live positions less than a capacity apart have different slots. */
  lemma LiveSlotsDiffer(m: Memory, h: History, p: nat, q: nat)
    requires Shaped(m) && CountersInv(m, h)
    requires p < m.head && q < m.head && p != q
    requires p !in h.returned && q !in h.returned
    requires p >= m.tail || q >= m.tail
    ensures Index(m.cap, p) != Index(m.cap, q)
  {
    IndexFacts(m.cap);
    if p < m.tail {
      assert m.head <= p + m.cap;
    }
    if q < m.tail {
      assert m.head <= q + m.cap;
    }
  }

  lemma Publish(m: Memory, h: History, p: nat)
    requires MemoryInv(m, h) && p < m.head && p !in h.published
    requires SlotOf(m, p).value == h.items[p]
    ensures MemoryInv(PutSlot(m, p, SlotOf(m, p).(sequence := p + 1)), Record(h, PushReturned(p)))
    ensures forall q: nat :: SlotOf(PutSlot(m, p, SlotOf(m, p).(sequence := p + 1)), q).value == SlotOf(m, q).value
  {
    var m' := PutSlot(m, p, SlotOf(m, p).(sequence := p + 1));
    assert forall q: nat :: SlotOf(m', q).value == SlotOf(m, q).value;
    WindowSlots(m, m', p);
  }

  /** Writing the slot of a window position changes no other window position. */
  lemma WindowSlots(m: Memory, m': Memory, p: nat)
    requires Shaped(m) && Shaped(m') && m'.cap == m.cap && m.tail <= p < m.tail + m.cap
    requires exists slot :: m' == PutSlot(m, p, slot)
    ensures forall q: nat :: m.tail <= q < m.tail + m.cap && q != p ==> SlotOf(m', q) == SlotOf(m, q)
  {
    IndexFacts(m.cap);
  }

  lemma ClaimPop(m: Memory, h: History)
    requires MemoryInv(m, h) && m.tail in h.published
    ensures MemoryInv(m.(tail := m.tail + 1), h)
  {
    var m' := m.(tail := m.tail + 1);
    assert forall p: nat :: SlotOf(m', p) == SlotOf(m, p);
    SameIndex(m.cap, m.tail + m.cap);
    assert SlotOf(m, m.tail + m.cap) == SlotOf(m, m.tail);
  }

  lemma Return(m: Memory, h: History, p: nat, x: Item)
    requires MemoryInv(m, h) && p < m.tail && p !in h.returned
    ensures MemoryInv(PutSlot(m, p, SlotOf(m, p).(sequence := p + m.cap)), Record(h, PopReturned(p, x)))
    ensures forall q: nat :: SlotOf(PutSlot(m, p, SlotOf(m, p).(sequence := p + m.cap)), q).value == SlotOf(m, q).value
  {
    var m' := PutSlot(m, p, SlotOf(m, p).(sequence := p + m.cap));
    assert forall q: nat :: SlotOf(m', q).value == SlotOf(m, q).value;
    SameIndex(m.cap, p + m.cap);
    assert m.head <= p + m.cap;
    assert m' == PutSlot(m, p + m.cap, SlotOf(m, p).(sequence := p + m.cap));
    WindowSlots(m, m', p + m.cap);
  }

  // ---------------------------------------------------------------- the threads

  /** Thread `t` has moved to `pc`; what remains to check is local. */
  lemma Moved(s: Ring, h: History, s': Ring, h': History, t: Tid, pc: PC)
    requires Inv(s, h) && s'.threads == s.threads[t := pc]
    requires MemoryInv(s'.mem, h') && ThreadInv(s'.mem, h', pc)
    requires forall u :: u != t ==> ThreadInv(s'.mem, h', PcOf(s, u))
    requires h.published <= h'.published && h.returned <= h'.returned
    requires forall p: nat :: s.mem.head <= p < s'.mem.head ==> Pushing(pc, p)
    requires forall p: nat :: s.mem.tail <= p < s'.mem.tail ==> Popping(pc, p)
    requires forall p: nat :: Pushing(PcOf(s, t), p) && p !in h'.published ==> Pushing(pc, p)
    requires forall p: nat :: Popping(PcOf(s, t), p) && p !in h'.returned ==> Popping(pc, p)
    requires forall u, p: nat :: u != t && Pushing(pc, p) ==> !Pushing(PcOf(s, u), p)
    requires forall u, p: nat :: u != t && Popping(pc, p) ==> !Popping(PcOf(s, u), p)
    ensures Inv(s', h')
  {
    assert PcOf(s', t) == pc;
    assert forall u {:trigger PcOf(s', u)} :: u != t ==> PcOf(s', u) == PcOf(s, u);
    forall p: nat | p < s'.mem.head && p !in h'.published
      ensures exists u :: Pushing(PcOf(s', u), p)
    {
      if p < s.mem.head {
        var u :| Pushing(PcOf(s, u), p);
        assert Pushing(PcOf(s', u), p);
      }
    }
    forall p: nat | p < s'.mem.tail && p !in h'.returned
      ensures exists u :: Popping(PcOf(s', u), p)
    {
      if p < s.mem.tail {
        var u :| Popping(PcOf(s, u), p);
        assert Popping(PcOf(s', u), p);
      }
    }
  }

  /** A step that only moves a thread between states that own no position. */
  lemma LocalStep(s: Ring, h: History, t: Tid, pc: PC)
    requires Inv(s, h)
    requires forall p: nat :: !Pushing(PcOf(s, t), p) && !Popping(PcOf(s, t), p)
    requires forall p: nat :: !Pushing(pc, p) && !Popping(pc, p)
    requires ThreadInv(s.mem, h, pc)
    ensures Inv(At(s, t, pc), h)
  {
    Moved(s, h, At(s, t, pc), h, t, pc);
  }

  lemma PushCasStep(s: Ring, h: History, t: Tid, x: Item)
    requires Inv(s, h) && PcOf(s, t) == PushCas(x, s.mem.head)
    ensures Inv(Step(s, t, Go).0, Record(h, Step(s, t, Go).1))
  {
    var (s', e) := Step(s, t, Go);
    assert ThreadInv(s.mem, h, PcOf(s, t));
    ClaimPush(s.mem, h, x);
    forall u
      ensures ThreadInv(s'.mem, Record(h, e), PcOf(s, u)) && !Pushing(PcOf(s, u), s.mem.head)
    {
      assert ThreadInv(s.mem, h, PcOf(s, u));
    }
    Moved(s, h, s', Record(h, e), t, PushStore(x, s.mem.head));
  }

  lemma PushStoreStep(s: Ring, h: History, t: Tid, x: Item, p: nat)
    requires Inv(s, h) && PcOf(s, t) == PushStore(x, p)
    ensures Inv(Step(s, t, Go).0, Record(h, Step(s, t, Go).1))
  {
    var (s', _) := Step(s, t, Go);
    assert ThreadInv(s.mem, h, PcOf(s, t));
    StoreValue(s.mem, h, p, x);
    forall u | u != t
      ensures ThreadInv(s'.mem, h, PcOf(s, u))
    {
      assert ThreadInv(s.mem, h, PcOf(s, u));
      if PcOf(s, u).PushPublish? {
        assert Pushing(PcOf(s, u), PcOf(s, u).at) && Pushing(PcOf(s, t), p);
        LiveSlotsDiffer(s.mem, h, p, PcOf(s, u).at);
      }
    }
    Moved(s, h, s', h, t, PushPublish(x, p));
  }

  lemma PushPublishStep(s: Ring, h: History, t: Tid, x: Item, p: nat)
    requires Inv(s, h) && PcOf(s, t) == PushPublish(x, p)
    ensures Inv(Step(s, t, Go).0, Record(h, Step(s, t, Go).1))
  {
    hide SequencesInv, ValuesInv;
    var (s', e) := Step(s, t, Go);
    assert ThreadInv(s.mem, h, PcOf(s, t));
    Publish(s.mem, h, p);
    forall u | u != t
      ensures ThreadInv(s'.mem, Record(h, e), PcOf(s, u))
    {
      assert ThreadInv(s.mem, h, PcOf(s, u));
      assert Pushing(PcOf(s, u), p) ==> Pushing(PcOf(s, t), p);
    }
    Moved(s, h, s', Record(h, e), t, Idle);
  }

  lemma PopCasStep(s: Ring, h: History, t: Tid)
    requires Inv(s, h) && PcOf(s, t) == PopCas(s.mem.tail)
    ensures Inv(Step(s, t, Go).0, Record(h, Step(s, t, Go).1))
  {
    var (s', _) := Step(s, t, Go);
    assert ThreadInv(s.mem, h, PcOf(s, t));
    ClaimPop(s.mem, h);
    forall u
      ensures ThreadInv(s'.mem, h, PcOf(s, u)) && !Popping(PcOf(s, u), s.mem.tail)
    {
      assert ThreadInv(s.mem, h, PcOf(s, u));
    }
    Moved(s, h, s', h, t, PopLoad(s.mem.tail));
  }

  lemma PopLoadStep(s: Ring, h: History, t: Tid, p: nat)
    requires Inv(s, h) && PcOf(s, t) == PopLoad(p)
    ensures Inv(Step(s, t, Go).0, Record(h, Step(s, t, Go).1))
  {
    var (s', _) := Step(s, t, Go);
    assert ThreadInv(s.mem, h, PcOf(s, t));
    forall u | u != t
      ensures !Popping(PcOf(s, u), p)
    {
      assert Popping(PcOf(s, t), p);
    }
    Moved(s, h, s', h, t, PopPublish(p, SlotOf(s.mem, p).value));
  }

  lemma ReturnKeeps(m: Memory, h: History, p: nat, x: Item, pc: PC)
    requires MemoryInv(m, h) && p < m.tail && p !in h.returned
    requires ThreadInv(m, h, pc) && !Popping(pc, p)
    ensures ThreadInv(PutSlot(m, p, SlotOf(m, p).(sequence := p + m.cap)), Record(h, PopReturned(p, x)), pc)
  {
  }

  lemma PopPublishStep(s: Ring, h: History, t: Tid, p: nat, x: Item)
    requires Inv(s, h) && PcOf(s, t) == PopPublish(p, x)
    ensures Inv(Step(s, t, Go).0, Record(h, Step(s, t, Go).1))
  {
    hide SequencesInv, ValuesInv;
    assert ThreadInv(s.mem, h, PcOf(s, t));
    var m' := PutSlot(s.mem, p, SlotOf(s.mem, p).(sequence := p + s.mem.cap));
    var h' := Record(h, PopReturned(p, x));
    assert Popping(PcOf(s, t), p);
    Return(s.mem, h, p, x);
    forall u | u != t
      ensures ThreadInv(m', h', PcOf(s, u))
    {
      ReturnKeeps(s.mem, h, p, x, PcOf(s, u));
    }
    Moved(s, h, At(s.(mem := m'), t, Idle), h', t, Idle);
    assert Step(s, t, Go) == (At(s.(mem := m'), t, Idle), PopReturned(p, x));
  }

  /** A past position has its slot in the current window, at least one lap later. */
  lemma {:induction false} Lap(m: Memory, p: nat) returns (w: nat)
    requires Shaped(m) && p < m.tail
    ensures m.tail <= w < m.tail + m.cap && p + m.cap <= w
    ensures SlotOf(m, w) == SlotOf(m, p)
    decreases m.tail - p
  {
    SameIndex(m.cap, p + m.cap);
    if p + m.cap >= m.tail {
      w := p + m.cap;
    } else {
      w := Lap(m, p + m.cap);
    }
  }

  /** What a pusher learns from the sequence of the slot of a past value of head. */
  lemma PushLook(m: Memory, h: History, at: nat)
    requires MemoryInv(m, h) && at <= m.head
    ensures SlotOf(m, at).sequence < at <==> !Freed(m.cap, h, at)
  {
    if at < m.tail {
      var w := Lap(m, at);
    } else if at == m.tail + m.cap {
      SameIndex(m.cap, at);
    }
  }

  /** What a popper learns from the sequence of the slot of a past value of tail. */
  lemma PopLook(m: Memory, h: History, at: nat)
    requires MemoryInv(m, h) && at <= m.tail
    ensures SlotOf(m, at).sequence < at + 1 <==> at !in h.published
  {
    if at < m.tail {
      var w := Lap(m, at);
    }
  }

  lemma PushMoves(s: Ring, h: History, t: Tid)
    requires Inv(s, h)
    requires PcOf(s, t).PushHead? || PcOf(s, t).PushSequence? || PcOf(s, t).PushCas?
    ensures Inv(Step(s, t, Go).0, Record(h, Step(s, t, Go).1))
  {
    var pc := PcOf(s, t);
    assert ThreadInv(s.mem, h, pc);
    if pc.PushCas? && pc.at == s.mem.head {
      PushCasStep(s, h, t, pc.item);
    } else {
      if pc.PushSequence? {
        PushLook(s.mem, h, pc.at);
      }
      LocalStep(s, h, t, PcOf(Step(s, t, Go).0, t));
    }
  }

  lemma PopMoves(s: Ring, h: History, t: Tid)
    requires Inv(s, h)
    requires PcOf(s, t).PopTail? || PcOf(s, t).PopSequence? || PcOf(s, t).PopCas?
    ensures Inv(Step(s, t, Go).0, Record(h, Step(s, t, Go).1))
  {
    var pc := PcOf(s, t);
    assert ThreadInv(s.mem, h, pc);
    if pc.PopCas? && pc.at == s.mem.tail {
      PopCasStep(s, h, t);
    } else {
      if pc.PopSequence? {
        PopLook(s.mem, h, pc.at);
      }
      LocalStep(s, h, t, PcOf(Step(s, t, Go).0, t));
    }
  }

  lemma CountMoves(s: Ring, h: History, t: Tid)
    requires Inv(s, h)
    requires PcOf(s, t).CountHead? || PcOf(s, t).CountTail?
    ensures Inv(Step(s, t, Go).0, Record(h, Step(s, t, Go).1))
  {
    LocalStep(s, h, t, PcOf(Step(s, t, Go).0, t));
  }

  /** Every move of every thread keeps the invariant. */
  lemma StepInv(s: Ring, h: History, t: Tid, mv: Move)
    requires Inv(s, h)
    ensures Inv(Step(s, t, mv).0, Record(h, Step(s, t, mv).1))
  {
    var pc := PcOf(s, t);
    if mv == Go {
      match pc
      case Idle =>
      case PushStore(x, p) => PushStoreStep(s, h, t, x, p);
      case PushPublish(x, p) => PushPublishStep(s, h, t, x, p);
      case PopLoad(p) => PopLoadStep(s, h, t, p);
      case PopPublish(p, x) => PopPublishStep(s, h, t, p, x);
      case PushHead(_) => PushMoves(s, h, t);
      case PushSequence(_, _) => PushMoves(s, h, t);
      case PushCas(_, _) => PushMoves(s, h, t);
      case CountHead => CountMoves(s, h, t);
      case CountTail(_) => CountMoves(s, h, t);
      case _ => PopMoves(s, h, t);
    } else {
      CallMoves(s, h, t, mv);
    }
  }

  lemma CallMoves(s: Ring, h: History, t: Tid, mv: Move)
    requires Inv(s, h) && mv != Go
    ensures Inv(Step(s, t, mv).0, Record(h, Step(s, t, mv).1))
  {
    var s' := Step(s, t, mv).0;
    if s' != s {
      LocalStep(s, h, t, PcOf(s', t));
    }
  }
}
