/** buffered_bytes of a connection in kernel/tcp/src/tcp.c, every section under the
connection's mutex a step: receivers look at it, and later add what they have received;
any threads consume in between. */
module Backpressure {
  const CHUNK: nat := 1024 // TCP_RECV_CHUNK_SIZE

  /** A receiver is away, or has looked and may still add up to `room` bytes. */
  datatype Receiver = Away | Reading(room: nat)

  datatype Ctx = Ctx(limit: nat, buffered: nat, receivers: seq<Receiver>)

  datatype Move =
    | Look(r: nat, wanted: nat) // read the limit and the count, and decide how much to ask for
    | Add(r: nat, got: nat)     // recv gave so much: add it
    | GiveUp(r: nat)            // recv failed, or the connection is closed
    | Consume(bytes: nat)       // ak_tcp_consume_bytes

  function Min(a: nat, b: nat): nat {
    if a < b then a else b
  }

  function Step(c: Ctx, m: Move): Ctx {
    match m
    case Look(r, wanted) =>
      if r >= |c.receivers| || c.receivers[r] != Away || (c.limit > 0 && c.buffered >= c.limit) then c
      else
        var ask := Min(wanted, CHUNK);
        c.(receivers := c.receivers[r := Reading(if c.limit > 0 then Min(ask, c.limit - c.buffered) else ask)])
    case Add(r, got) =>
      if r >= |c.receivers| || c.receivers[r] == Away then c
      else c.(buffered := c.buffered + Min(got, c.receivers[r].room), receivers := c.receivers[r := Away])
    case GiveUp(r) => if r >= |c.receivers| then c else c.(receivers := c.receivers[r := Away])
    case Consume(bytes) => c.(buffered := if bytes > c.buffered then 0 else c.buffered - bytes)
  }

  function Init(limit: nat, receivers: nat): Ctx {
    Ctx(limit, 0, seq(receivers, _ => Away))
  }

  function Run(c: Ctx, moves: seq<Move>): Ctx
    decreases |moves|
  {
    if moves == [] then c else Run(Step(c, moves[0]), moves[1..])
  }

  ghost predicate Within(c: Ctx) {
    c.limit > 0 ==> c.buffered <= c.limit
  }

  /** With one receiver what it may still add fits under the limit. */
  ghost predicate Inv(c: Ctx) {
    && |c.receivers| <= 1 && Within(c)
    && (c.limit > 0 && |c.receivers| == 1 && c.receivers[0].Reading? ==> c.buffered + c.receivers[0].room <= c.limit)
  }

  lemma {:induction false} RunInv(c: Ctx, moves: seq<Move>)
    requires Inv(c)
    ensures Inv(Run(c, moves))
    decreases |moves|
  {
    if moves != [] {
      RunInv(Step(c, moves[0]), moves[1..]);
    }
  }

  lemma {:induction false} RunAppend(c: Ctx, xs: seq<Move>, ys: seq<Move>)
    ensures Run(c, xs + ys) == Run(Run(c, xs), ys)
    decreases |xs|
  {
    if xs == [] {
      assert xs + ys == ys;
    } else {
      assert (xs + ys)[0] == xs[0] && (xs + ys)[1..] == xs[1..] + ys;
      RunAppend(Step(c, xs[0]), xs[1..], ys);
    }
  }

  /** The first receiver alone brings the count to any number up to the limit. */
  lemma {:induction false} Fill(limit: nat, receivers: nat, n: nat) returns (moves: seq<Move>)
    requires receivers > 0 && n <= limit
    ensures Run(Init(limit, receivers), moves) == Init(limit, receivers).(buffered := n)
  {
    var c := Init(limit, receivers);
    if n == 0 {
      moves := [];
    } else {
      var before := Fill(limit, receivers, n - 1);
      var round := [Look(0, 1), Add(0, 1)];
      moves := before + round;
      RunAppend(c, before, round);
      var c1 := c.(buffered := n - 1);
      var c2 := c1.(receivers := c1.receivers[0 := Reading(1)]);
      assert Step(c1, round[0]) == c2;
      assert round[1..][0] == round[1] && round[1..][1..] == [];
      assert c2.receivers[0 := Away] == c.receivers;
      assert Step(c2, round[1]) == c.(buffered := n);
    }
  }

  /** Two receivers that look one after the other both see the last free byte. */
  lemma TwoOverrun(limit: nat, receivers: nat) returns (moves: seq<Move>)
    requires limit > 0 && receivers >= 2
    ensures Run(Init(limit, receivers), moves).buffered == limit + 1
  {
    var before := Fill(limit, receivers, limit - 1);
    var last := [Look(0, 1), Look(1, 1), Add(0, 1), Add(1, 1)];
    moves := before + last;
    RunAppend(Init(limit, receivers), before, last);
    var c := Init(limit, receivers).(buffered := limit - 1);
    assert last[1..] == [Look(1, 1), Add(0, 1), Add(1, 1)];
    assert last[1..][1..] == [Add(0, 1), Add(1, 1)] && last[1..][1..][1..] == [Add(1, 1)];
    assert last[1..][1..][1..][1..] == [];
    var c2 := Step(Step(c, Look(0, 1)), Look(1, 1));
    assert c2.receivers[0] == Reading(1) && c2.receivers[1] == Reading(1) && c2.buffered == limit - 1;
    assert Step(Step(c2, Add(0, 1)), Add(1, 1)).buffered == limit + 1;
  }

  /** However threads consume, buffered_bytes stays within a non-zero limit in every state of
      every run exactly when the connection has at most one receiver. */
  lemma BoundIffOneReceiver(limit: nat, receivers: nat)
    requires limit > 0
    ensures (forall moves :: Within(Run(Init(limit, receivers), moves))) <==> receivers <= 1
  {
    if receivers <= 1 {
      forall moves
        ensures Within(Run(Init(limit, receivers), moves))
      {
        RunInv(Init(limit, receivers), moves);
        assert |Init(limit, receivers).receivers| == receivers;
      }
    } else {
      var moves := TwoOverrun(limit, receivers);
      RunLimit(Init(limit, receivers), moves);
      assert !Within(Run(Init(limit, receivers), moves));
    }
  }

  lemma {:induction false} RunLimit(c: Ctx, moves: seq<Move>)
    ensures Run(c, moves).limit == c.limit
    decreases |moves|
  {
    if moves != [] {
      RunLimit(Step(c, moves[0]), moves[1..]);
    }
  }

  // ---------------------------------------------------------------- every byte is counted

  /** What a move adds to the count, and what it consumes. */
  function AddedBy(c: Ctx, m: Move): nat {
    if m.Add? && m.r < |c.receivers| && c.receivers[m.r].Reading? then Min(m.got, c.receivers[m.r].room) else 0
  }

  function ConsumedBy(m: Move): nat {
    if m.Consume? then m.bytes else 0
  }

  function Added(c: Ctx, moves: seq<Move>): nat
    decreases |moves|
  {
    if moves == [] then 0 else AddedBy(c, moves[0]) + Added(Step(c, moves[0]), moves[1..])
  }

  function Consumed(moves: seq<Move>): nat
    decreases |moves|
  {
    if moves == [] then 0 else ConsumedBy(moves[0]) + Consumed(moves[1..])
  }

  /** Nobody consumes more than is counted. */
  predicate ConsumesWhatIsThere(c: Ctx, moves: seq<Move>)
    decreases |moves|
  {
    moves == [] || (ConsumedBy(moves[0]) <= c.buffered && ConsumesWhatIsThere(Step(c, moves[0]), moves[1..]))
  }

  /** With any number of receivers the count and what has been consumed are at least what was
      there and what has been added, and no more unless someone consumed more than there was. */
  lemma {:induction false} BytesAreCounted(c: Ctx, moves: seq<Move>)
    ensures Run(c, moves).buffered + Consumed(moves) >= c.buffered + Added(c, moves)
    ensures ConsumesWhatIsThere(c, moves) ==>
              Run(c, moves).buffered + Consumed(moves) == c.buffered + Added(c, moves)
    decreases |moves|
  {
    if moves != [] {
      BytesAreCounted(Step(c, moves[0]), moves[1..]);
    }
  }

  /** A receiver that looks is refused exactly while the count is at its limit, and is else
      given as much room as it wants, as a chunk has and as the limit leaves. */
  lemma LookGrants(c: Ctx, r: nat, wanted: nat)
    requires r < |c.receivers| && c.receivers[r] == Away
    ensures var c' := Step(c, Look(r, wanted));
      if 0 < c.limit <= c.buffered then c' == c
      else
        && c'.receivers[r].Reading? && c'.buffered == c.buffered
        && var room := c'.receivers[r].room;
        && room <= wanted && room <= CHUNK && (c.limit > 0 ==> c.buffered + room <= c.limit)
        && (room == wanted || room == CHUNK || c.buffered + room == c.limit)
  {
  }

  /** A receiver that adds or gives up is away again, and may look anew. */
  lemma ReceiverReturns(c: Ctx, r: nat, got: nat)
    requires r < |c.receivers| && c.receivers[r].Reading?
    ensures Step(c, Add(r, got)).receivers == c.receivers[r := Away]
    ensures Step(c, GiveUp(r)) == c.(receivers := c.receivers[r := Away])
  {
  }
}
