/** The lock-free ring buffer of kernel/arbuff/src/arbuff.c as a machine of atomic steps.

Any number of threads push, pop and count; a schedule says which thread moves and
how.  Each step is one atomic access of the source: a load of `head`, `tail` or a
slot's `sequence`, a compare-and-swap, a store of a slot's `value` or `sequence`.
Memory is sequentially consistent and positions do not wrap.
*/
module RingMachine {
  import Bits

  type Item = int
  type Tid = nat

  datatype Slot = Slot(value: Item, sequence: nat)

  /** What a thread is about to do. */
  datatype PC =
    | Idle
    | PushHead(item: Item)              // load head
    | PushSequence(item: Item, at: nat) // load the sequence of the slot of `at`
    | PushCas(item: Item, at: nat)      // compare-and-swap head from `at`
    | PushStore(item: Item, at: nat)    // owns position `at`; store the value
    | PushPublish(item: Item, at: nat)  // store the sequence
    | PopTail                           // load tail
    | PopSequence(at: nat)              // load the sequence of the slot of `at`
    | PopCas(at: nat)                   // compare-and-swap tail from `at`
    | PopLoad(at: nat)                  // owns position `at`; load the value
    | PopPublish(at: nat, item: Item)   // store the sequence
    | CountHead                         // load head
    | CountTail(head: nat)              // load tail

  /** The fields of `ak_arbuff_t`; `mask` is `cap - 1`. */
  datatype Memory = Memory(cap: nat, head: nat, tail: nat, slots: seq<Slot>)

  datatype Ring = Ring(mem: Memory, threads: map<Tid, PC>)

  /** A thread starts a call, takes its next atomic step, or takes the weak
      compare-and-swap's liberty to fail although the value matches. */
  datatype Move = CallPush(item: Item) | CallPop | CallCount | Go | CasMiss

  datatype Event =
    | Quiet
    | PushClaimed(pos: nat, item: Item)  // the compare-and-swap on head succeeded
    | PushReturned(pos: nat)             // the sequence is stored: returns 0
    | PushRefused(at: nat)               // returns -1
    | PopClaimed(pos: nat)               // the compare-and-swap on tail succeeded
    | PopReturned(pos: nat, item: Item)  // the sequence is stored: returns the item
    | PopRefused(at: nat)                // returns NULL
    | Counted(n: nat)                    // ak_arbuff_count returns n

  predicate Capacity(cap: nat) {
    cap >= 1 && Bits.And(cap, cap - 1) == 0
  }

  predicate Shaped(m: Memory) {
    Capacity(m.cap) && |m.slots| == m.cap
  }

  function InitMemory(cap: nat): Memory {
    Memory(cap, 0, 0, seq(cap, i requires 0 <= i < cap => Slot(0, i)))
  }

  function Init(cap: nat): Ring {
    Ring(InitMemory(cap), map[])
  }

  function PcOf(s: Ring, t: Tid): PC {
    if t in s.threads then s.threads[t] else Idle
  }

  function At(s: Ring, t: Tid, pc: PC): Ring {
    s.(threads := s.threads[t := pc])
  }

  /** `pos & mask`. */
  function Index(cap: nat, pos: nat): (i: nat)
    requires cap > 0
    ensures i < cap
  {
    Bits.AndAtMost(pos, cap - 1);
    Bits.And(pos, cap - 1)
  }

  function SlotOf(m: Memory, pos: nat): Slot
    requires Shaped(m)
  {
    m.slots[Index(m.cap, pos)]
  }

  function PutSlot(m: Memory, pos: nat, slot: Slot): Memory
    requires Shaped(m)
  {
    m.(slots := m.slots[Index(m.cap, pos) := slot])
  }

  /** One move of thread `t`; a move the thread is not able to make changes nothing. */
  function Step(s: Ring, t: Tid, mv: Move): (Ring, Event)
    requires Shaped(s.mem)
  {
    var m := s.mem;
    match (PcOf(s, t), mv)
    case (Idle, CallPush(x)) => (At(s, t, PushHead(x)), Quiet)
    case (Idle, CallPop) => (At(s, t, PopTail), Quiet)
    case (Idle, CallCount) => (At(s, t, CountHead), Quiet)
    case (PushHead(x), Go) => (At(s, t, PushSequence(x, m.head)), Quiet)
    case (PushSequence(x, h), Go) =>
      var diff: int := SlotOf(m, h).sequence - h;
      if diff == 0 then (At(s, t, PushCas(x, h)), Quiet)
      else if diff < 0 then (At(s, t, Idle), PushRefused(h))
      else (At(s, t, PushHead(x)), Quiet)
    case (PushCas(x, h), Go) =>
      if m.head == h then (At(s.(mem := m.(head := h + 1)), t, PushStore(x, h)), PushClaimed(h, x))
      else (At(s, t, PushHead(x)), Quiet)
    case (PushCas(x, h), CasMiss) => (At(s, t, PushHead(x)), Quiet)
    case (PushStore(x, p), Go) =>
      (At(s.(mem := PutSlot(m, p, SlotOf(m, p).(value := x))), t, PushPublish(x, p)), Quiet)
    case (PushPublish(x, p), Go) =>
      (At(s.(mem := PutSlot(m, p, SlotOf(m, p).(sequence := p + 1))), t, Idle), PushReturned(p))
    case (PopTail, Go) => (At(s, t, PopSequence(m.tail)), Quiet)
    case (PopSequence(l), Go) =>
      var diff: int := SlotOf(m, l).sequence - (l + 1);
      if diff == 0 then (At(s, t, PopCas(l)), Quiet)
      else if diff < 0 then (At(s, t, Idle), PopRefused(l))
      else (At(s, t, PopTail), Quiet)
    case (PopCas(l), Go) =>
      if m.tail == l then (At(s.(mem := m.(tail := l + 1)), t, PopLoad(l)), PopClaimed(l))
      else (At(s, t, PopTail), Quiet)
    case (PopCas(l), CasMiss) => (At(s, t, PopTail), Quiet)
    case (PopLoad(p), Go) => (At(s, t, PopPublish(p, SlotOf(m, p).value)), Quiet)
    case (PopPublish(p, x), Go) =>
      (At(s.(mem := PutSlot(m, p, SlotOf(m, p).(sequence := p + m.cap))), t, Idle), PopReturned(p, x))
    case (CountHead, Go) => (At(s, t, CountTail(m.head)), Quiet)
    case (CountTail(h), Go) =>
      (At(s, t, Idle), Counted(if h >= m.tail then h - m.tail else 0))
    case _ => (s, Quiet)
  }

  type Schedule = seq<(Tid, Move)>

  /** The state and the events after a schedule; event `i` is that of move `i`. */
  function Run(cap: nat, sched: Schedule): (r: (Ring, seq<Event>))
    requires Capacity(cap)
    ensures Shaped(r.0.mem) && r.0.mem.cap == cap && |r.1| == |sched|
  {
    if sched == [] then (Init(cap), [])
    else
      var (s, es) := Run(cap, sched[..|sched| - 1]);
      var (t, m) := sched[|sched| - 1];
      var (s', e) := Step(s, t, m);
      (s', es + [e])
  }

  // ---------------------------------------------------------------- what has happened

  /** The claimed items in claim order, and the positions whose push and pop are
      published, read off the events. */
  datatype History = History(items: seq<Item>, published: set<nat>, returned: set<nat>)

  function Record(h: History, e: Event): History {
    match e
    case PushClaimed(_, x) => h.(items := h.items + [x])
    case PushReturned(p) => h.(published := h.published + {p})
    case PopReturned(p, _) => h.(returned := h.returned + {p})
    case _ => h
  }

  function HistoryOf(es: seq<Event>): History {
    if es == [] then History([], {}, {})
    else Record(HistoryOf(es[..|es| - 1]), es[|es| - 1])
  }

  // ---------------------------------------------------------------- the invariant

  /** The pop that frees the slot for position `p` is published. */
  ghost predicate Freed(cap: nat, h: History, p: nat) {
    p < cap || p - cap in h.returned
  }

  ghost predicate CountersInv(m: Memory, h: History) {
    && m.cap >= 2
    && |h.items| == m.head
    && m.tail <= m.head <= m.tail + m.cap
    && (forall p :: p in h.published ==> p < m.head)
    && (forall p :: p in h.returned ==> p < m.tail)
    && (forall p: nat :: p < m.tail ==> p in h.published)
    && (forall p: nat :: p < m.tail && p !in h.returned ==> m.head <= p + m.cap)
  }

  /** The one sequence value each position of the window [tail, tail + cap) can have. */
  ghost predicate SequencesInv(m: Memory, h: History)
    requires Shaped(m)
  {
    && (forall p: nat :: m.tail <= p < m.head ==>
          SlotOf(m, p).sequence == if p in h.published then p + 1 else p)
    && (forall p: nat :: m.head <= p < m.tail + m.cap ==>
          SlotOf(m, p).sequence == if Freed(m.cap, h, p) then p else p - m.cap + 1)
  }

  /** A published value stays in its slot until its pop is published. */
  ghost predicate ValuesInv(m: Memory, h: History)
    requires Shaped(m) && |h.items| == m.head
  {
    forall p: nat :: p < m.head && p in h.published && p !in h.returned ==>
      SlotOf(m, p).value == h.items[p]
  }

  ghost predicate MemoryInv(m: Memory, h: History) {
    Shaped(m) && CountersInv(m, h) && SequencesInv(m, h) && ValuesInv(m, h)
  }

  ghost predicate ThreadInv(m: Memory, h: History, pc: PC)
    requires Shaped(m) && |h.items| == m.head
  {
    match pc
    case PushSequence(_, at) => at <= m.head
    case PushCas(_, at) => at <= m.head && Freed(m.cap, h, at)
    case PushStore(x, at) => at < m.head && at !in h.published && h.items[at] == x
    case PushPublish(x, at) =>
      at < m.head && at !in h.published && h.items[at] == x && SlotOf(m, at).value == x
    case PopSequence(at) => at <= m.tail
    case PopCas(at) => at <= m.tail && at in h.published
    case PopLoad(at) => at < m.tail && at !in h.returned
    case PopPublish(at, x) => at < m.tail && at < m.head && at !in h.returned && h.items[at] == x
    case CountTail(hd) => hd <= m.tail + m.cap
    case _ => true
  }

  predicate Pushing(pc: PC, p: nat) {
    (pc.PushStore? || pc.PushPublish?) && pc.at == p
  }

  predicate Popping(pc: PC, p: nat) {
    (pc.PopLoad? || pc.PopPublish?) && pc.at == p
  }

  /** No position has two owners on the same side. */
  ghost predicate SingleOwners(s: Ring) {
    && (forall t, u, p: nat :: Pushing(PcOf(s, t), p) && Pushing(PcOf(s, u), p) ==> t == u)
    && (forall t, u, p: nat :: Popping(PcOf(s, t), p) && Popping(PcOf(s, u), p) ==> t == u)
  }

  /** A claimed position that is not finished is in some thread's hands. */
  ghost predicate Owned(s: Ring, h: History) {
    && (forall p: nat :: p < s.mem.head && p !in h.published ==> exists t :: Pushing(PcOf(s, t), p))
    && (forall p: nat :: p < s.mem.tail && p !in h.returned ==> exists t :: Popping(PcOf(s, t), p))
  }

  ghost predicate Inv(s: Ring, h: History) {
    && MemoryInv(s.mem, h)
    && (forall t :: ThreadInv(s.mem, h, PcOf(s, t)))
    && SingleOwners(s)
    && Owned(s, h)
  }

  lemma IndexIsMod(cap: nat, p: nat)
    requires Capacity(cap)
    ensures Index(cap, p) == p % cap
  {
    Bits.PowerOfTwoTest(cap);
    var k: nat :| cap == Bits.Pow2(k);
    Bits.AndLowMask(p, k);
  }

  /** Positions less than a capacity apart have different slots; a capacity apart, the same. */
  lemma IndexFacts(cap: nat)
    requires Capacity(cap)
    ensures forall p: nat, q: nat {:trigger Index(cap, p), Index(cap, q)} ::
              p < q < p + cap ==> Index(cap, p) != Index(cap, q)
    ensures forall p: nat {:trigger Index(cap, p)} :: p >= cap ==> Index(cap, p) == Index(cap, p - cap)
  {
    forall p: nat, q: nat | p < q < p + cap
      ensures Index(cap, p) != Index(cap, q)
    {
      NearIndices(cap, p, q);
    }
    forall p: nat | p >= cap
      ensures Index(cap, p) == Index(cap, p - cap)
    {
      SameIndex(cap, p);
    }
  }

  lemma NearIndices(cap: nat, p: nat, q: nat)
    requires Capacity(cap) && p < q < p + cap
    ensures Index(cap, p) != Index(cap, q)
  {
    IndexIsMod(cap, p);
    IndexIsMod(cap, q);
    if p % cap == q % cap {
      SameRemainder(cap, p, q);
    }
  }

  lemma SameIndex(cap: nat, p: nat)
    requires Capacity(cap) && p >= cap
    ensures Index(cap, p) == Index(cap, p - cap)
  {
    IndexIsMod(cap, p);
    IndexIsMod(cap, p - cap);
    Bits.ModStep(p - cap, cap);
  }

  lemma SameRemainder(cap: nat, p: nat, q: nat)
    requires cap > 0 && p % cap == q % cap && p < q
    ensures q >= p + cap
  {
    assert cap * (q / cap - p / cap) == q - p by {
      assert p == cap * (p / cap) + p % cap && q == cap * (q / cap) + q % cap;
      assert cap * (q / cap - p / cap) == cap * (q / cap) - cap * (p / cap);
    }
    Bits.MulSmall(cap, q / cap - p / cap);
  }
}
