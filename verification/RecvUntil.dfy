/** `ak_tcp_recv_until` of kernel/tcp/src/tcp.c: reading a byte stream up to a delimiter.

`stream` is what the peer sends.  How it is cut into chunks, when the connection dies and
what other threads consume, between any two looks of the receiver at buffered_bytes, is up
to the environment, one `Turn` per round.
*/
module RecvUntil {
  type Byte = int

  const CHUNK: nat := 1024 // TCP_RECV_CHUNK_SIZE

  /** One round: is the connection alive; what others have consumed when the lock is taken,
      and whether the connection still lives there; what they consume until the bytes
      received are added; and what recv answers (negative: error, zero: closed, else at most
      that many bytes). */
  datatype Turn = Turn(alive: bool, before: nat, stillAlive: bool, between: nat, answer: int)

  /** Only `Match` and `Closed` return a buffer; `Nothing` is the NULL of a close before any byte. */
  datatype Outcome = Match | TooLong | BufferFull | RecvError | Closed | Nothing | Invalid

  /** What a call returns: the outcome, the bytes handed over, how many it has taken from
      the stream, and buffered_bytes. */
  datatype Received = Received(out: Outcome, result: seq<Byte>, taken: nat, buffered: nat)

  predicate OccursAt(s: seq<Byte>, delim: seq<Byte>, i: nat) {
    i + |delim| <= |s| && s[i..i + |delim|] == delim
  }

  /** The end of the first occurrence of the delimiter starting at `from` or later; -1: none. */
  function FirstEnd(s: seq<Byte>, delim: seq<Byte>, from: nat): (end: int)
    ensures end >= -1
    decreases |s| - from
  {
    if OccursAt(s, delim, from) then from + |delim|
    else if from < |s| then FirstEnd(s, delim, from + 1)
    else -1
  }

  /** `FirstEnd` is the least: it ends the first place the delimiter occurs. */
  lemma {:induction false} FirstEndIsFirst(s: seq<Byte>, delim: seq<Byte>, from: nat)
    requires delim != []
    ensures var e := FirstEnd(s, delim, from);
      && (e >= 0 <==> exists i: nat :: i >= from && OccursAt(s, delim, i))
      && (e >= 0 ==> e - |delim| >= from && OccursAt(s, delim, e - |delim|))
      && (forall i: nat :: i >= from && OccursAt(s, delim, i) ==> i + |delim| >= e)
    decreases |s| - from
  {
    if OccursAt(s, delim, from) {
    } else if from < |s| {
      FirstEndIsFirst(s, delim, from + 1);
    }
  }

  lemma PrefixOccurs(s: seq<Byte>, n: nat, delim: seq<Byte>, i: nat)
    requires n <= |s|
    ensures OccursAt(s[..n], delim, i) <==> OccursAt(s, delim, i) && i + |delim| <= n
  {
    if i + |delim| <= n {
      assert s[..n][i..i + |delim|] == s[i..i + |delim|];
    }
  }

  /** A prefix of the stream shows the same first occurrence, or none yet. */
  lemma PrefixEnd(s: seq<Byte>, n: nat, delim: seq<Byte>)
    requires delim != [] && n <= |s|
    ensures FirstEnd(s[..n], delim, 0) ==
            if 0 <= FirstEnd(s, delim, 0) <= n then FirstEnd(s, delim, 0) else -1
  {
    hide FirstEnd, OccursAt;
    FirstEndIsFirst(s, delim, 0);
    FirstEndIsFirst(s[..n], delim, 0);
    var e, f := FirstEnd(s, delim, 0), FirstEnd(s[..n], delim, 0);
    if 0 <= e <= n {
      PrefixOccurs(s, n, delim, e - |delim|);
    }
    if f >= 0 {
      PrefixOccurs(s, n, delim, f - |delim|);
    }
  }

  /** The memcmp loop over the accumulated bytes. */
  method Search(data: seq<Byte>, delim: seq<Byte>) returns (end: int)
    requires delim != []
    ensures end == FirstEnd(data, delim, 0)
  {
    FirstEndIsFirst(data, delim, 0);
    if |data| >= |delim| {
      var i := 0;
      while i <= |data| - |delim|
        invariant 0 <= i <= |data| - |delim| + 1
        invariant forall j: nat :: j < i ==> !OccursAt(data, delim, j)
      {
        if data[i..i + |delim|] == delim {
          assert OccursAt(data, delim, i);
          return i + |delim|;
        }
        i := i + 1;
      }
    }
    assert forall j: nat :: !OccursAt(data, delim, j);
    return -1;
  }

  /** `ak_tcp_consume_bytes` */
  function Consume(buffered: nat, bytes: nat): nat {
    if bytes > buffered then 0 else buffered - bytes
  }

  /** How much a round asks for: no more than a chunk, than `maxBytes` leaves, or than the
      limit leaves; but never nothing. */
  function ToRead(taken: nat, maxBytes: nat, limit: nat, seen: nat): (n: nat)
    requires (maxBytes > 0 ==> taken < maxBytes) && (limit > 0 ==> seen < limit)
    ensures 1 <= n <= CHUNK
    ensures (maxBytes > 0 ==> taken + n <= maxBytes) && (limit > 0 ==> seen + n <= limit)
  {
    var n := if maxBytes > 0 && taken + CHUNK > maxBytes then maxBytes - taken else CHUNK;
    if limit > 0 && n > limit - seen then limit - seen else n
  }

  function Min(a: nat, b: nat): nat {
    if a < b then a else b
  }

  /** What is returned once the loop has ended. */
  function AtClose(stream: seq<Byte>, taken: nat, buffered: nat): Received
    requires taken <= |stream|
  {
    Received(if taken == 0 then Nothing else Closed, stream[..taken], taken, buffered)
  }

  /** A round either returns or goes on. */
  datatype Progress = Done(r: Received) | More(buffered: nat, taken: nat)

  /** One round of the loop of `ak_tcp_recv_until`, `taken` bytes of the stream having come;
      `limit` is max_recv_buffer_bytes. */
  function Round(stream: seq<Byte>, turn: Turn, delim: seq<Byte>, maxBytes: nat, limit: nat,
                 buffered: nat, taken: nat): (p: Progress)
    requires delim != [] && taken <= |stream|
    ensures p.More? ==> taken < p.taken <= |stream|
  {
    var end := FirstEnd(stream[..taken], delim, 0);
    var seen := Consume(buffered, turn.before);
    if end >= 0 then FirstEndFits(stream[..taken], delim, 0); Done(Received(Match, stream[..end], taken, buffered))
    else if maxBytes > 0 && taken >= maxBytes then Done(Received(TooLong, [], taken, buffered))
    else if !turn.stillAlive then Done(AtClose(stream, taken, seen))
    else if limit > 0 && seen >= limit then Done(Received(BufferFull, [], taken, seen))
    else
      var now := Consume(seen, turn.between);
      if turn.answer < 0 then Done(Received(RecvError, [], taken, now))
      else
        var n := Min(Min(turn.answer, ToRead(taken, maxBytes, limit, seen)), |stream| - taken);
        if n == 0 then Done(AtClose(stream, taken, now)) else More(now + n, taken + n)
  }

  /** The whole loop. */
  function Recv(stream: seq<Byte>, env: seq<Turn>, delim: seq<Byte>, maxBytes: nat, limit: nat,
                buffered: nat, taken: nat): Received
    requires delim != [] && taken <= |stream|
    decreases |env|
  {
    if env == [] || !env[0].alive then AtClose(stream, taken, buffered)
    else
      match Round(stream, env[0], delim, maxBytes, limit, buffered, taken)
      case Done(r) => r
      case More(now, more) => Recv(stream, env[1..], delim, maxBytes, limit, now, more)
  }

  lemma {:induction false} FirstEndFits(s: seq<Byte>, delim: seq<Byte>, from: nat)
    ensures FirstEnd(s, delim, from) <= |s|
    decreases |s| - from
  {
    if !OccursAt(s, delim, from) && from < |s| {
      FirstEndFits(s, delim, from + 1);
    }
  }

  lemma RecvRound(stream: seq<Byte>, env: seq<Turn>, k: nat, delim: seq<Byte>, maxBytes: nat, limit: nat,
                  buffered: nat, taken: nat)
    requires delim != [] && taken <= |stream| && k < |env| && env[k].alive
    ensures Recv(stream, env[k..], delim, maxBytes, limit, buffered, taken) ==
            match Round(stream, env[k], delim, maxBytes, limit, buffered, taken)
            case Done(r) => r
            case More(now, more) => Recv(stream, env[k + 1..], delim, maxBytes, limit, now, more)
  {
    hide Round;
    assert env[k..][0] == env[k] && env[k..][1..] == env[k + 1..];
  }

  lemma RecvEnds(stream: seq<Byte>, env: seq<Turn>, k: nat, delim: seq<Byte>, maxBytes: nat, limit: nat,
                 buffered: nat, taken: nat)
    requires delim != [] && taken <= |stream| && k <= |env|
    ensures k == |env| || !env[k].alive ==>
            Recv(stream, env[k..], delim, maxBytes, limit, buffered, taken) == AtClose(stream, taken, buffered)
  {
  }

  method Receive(stream: seq<Byte>, env: seq<Turn>, delim: seq<Byte>, maxBytes: nat, limit: nat, before: nat)
    returns (r: Received)
    ensures r == if delim == [] then Received(Invalid, [], 0, before)
                 else Recv(stream, env, delim, maxBytes, limit, before, 0)
  {
    hide Recv, FirstEnd;
    var buffered: nat, taken: nat := before, 0;
    if delim == [] {
      return Received(Invalid, [], taken, buffered);
    }
    var result: seq<Byte> := [];
    var k := 0;
    assert env[0..] == env;
    RecvEnds(stream, env, 0, delim, maxBytes, limit, buffered, taken);
    while k < |env| && env[k].alive
      invariant k <= |env| && taken <= |stream| && result == stream[..taken]
      invariant Recv(stream, env[k..], delim, maxBytes, limit, buffered, taken) ==
                Recv(stream, env, delim, maxBytes, limit, before, 0)
      invariant k == |env| || !env[k].alive ==>
                Recv(stream, env, delim, maxBytes, limit, before, 0) == AtClose(stream, taken, buffered)
    {
      RecvRound(stream, env, k, delim, maxBytes, limit, buffered, taken);
      var end := Search(result, delim);
      if end >= 0 {
        FirstEndFits(result, delim, 0);
        assert result[..end] == stream[..end];
        return Received(Match, result[..end], taken, buffered);
      }
      if maxBytes > 0 && taken >= maxBytes {
        return Received(TooLong, [], taken, buffered);
      }
      buffered := Consume(buffered, env[k].before);
      if !env[k].stillAlive {
        break;
      }
      var seen := buffered;
      if limit > 0 && seen >= limit {
        return Received(BufferFull, [], taken, buffered);
      }
      var toRead := CHUNK;
      if maxBytes > 0 && taken + toRead > maxBytes {
        toRead := maxBytes - taken;
        if toRead == 0 {
          toRead := 1;
        }
      }
      if limit > 0 {
        var remaining := limit - seen;
        if toRead > remaining {
          toRead := remaining;
        }
      }
      buffered := Consume(buffered, env[k].between);
      if env[k].answer < 0 {
        return Received(RecvError, [], taken, buffered);
      }
      var received := Min(Min(env[k].answer, toRead), |stream| - taken);
      if received == 0 {
        break;
      }
      assert stream[..taken] + stream[taken..taken + received] == stream[..taken + received];
      result := result + stream[taken..taken + received];
      taken := taken + received;
      buffered := buffered + received;
      k := k + 1;
      RecvEnds(stream, env, k, delim, maxBytes, limit, buffered, taken);
    }
    return Received(if |result| == 0 then Nothing else Closed, result, taken, buffered);
  }

  // ---------------------------------------------------------------- what a call owes

  /** The first delimiter of the stream ends, and within `max` bytes where that is a limit. */
  predicate EndsWithin(stream: seq<Byte>, delim: seq<Byte>, max: nat) {
    var e := FirstEnd(stream, delim, 0);
    e >= 0 && (max > 0 ==> e <= max)
  }

  /** A match is the stream up to its first delimiter.  A refusal, for length, for a full
      buffer or for an error, is made only while no delimiter has come; for length, only
      when there is none within `maxBytes`.  A close hands over what has come, if anything. */
  ghost predicate Owed(stream: seq<Byte>, delim: seq<Byte>, maxBytes: nat, limit: nat, r: Received) {
    var e := FirstEnd(stream, delim, 0);
    && r.taken <= |stream| && (maxBytes > 0 ==> r.taken <= maxBytes)
    && match r.out
       case Match => 0 <= e <= r.taken && r.result == stream[..e]
       case TooLong => r.taken == maxBytes > 0 && !(0 <= e <= maxBytes) && r.result == []
       case BufferFull => limit > 0 && !(0 <= e <= r.taken) && r.result == []
       case RecvError => !(0 <= e <= r.taken) && r.result == []
       case Closed => r.taken > 0 && r.result == stream[..r.taken]
       case Nothing => r.taken == 0 && r.result == []
       case Invalid => false
  }

  lemma RoundOwes(stream: seq<Byte>, turn: Turn, delim: seq<Byte>, maxBytes: nat, limit: nat, buffered: nat, taken: nat)
    requires delim != [] && taken <= |stream| && (maxBytes > 0 ==> taken <= maxBytes)
    ensures match Round(stream, turn, delim, maxBytes, limit, buffered, taken)
            case Done(r) => Owed(stream, delim, maxBytes, limit, r)
            case More(_, more) => maxBytes > 0 ==> more <= maxBytes
  {
    hide FirstEnd;
    PrefixEnd(stream, taken, delim);
  }

  lemma {:induction false} RecvOwes(stream: seq<Byte>, env: seq<Turn>, delim: seq<Byte>, maxBytes: nat, limit: nat,
                                    buffered: nat, taken: nat)
    requires delim != [] && taken <= |stream| && (maxBytes > 0 ==> taken <= maxBytes)
    ensures Owed(stream, delim, maxBytes, limit, Recv(stream, env, delim, maxBytes, limit, buffered, taken))
    decreases |env|
  {
    hide FirstEnd, Round;
    if env != [] && env[0].alive {
      RoundOwes(stream, env[0], delim, maxBytes, limit, buffered, taken);
      var p := Round(stream, env[0], delim, maxBytes, limit, buffered, taken);
      if p.More? {
        RecvOwes(stream, env[1..], delim, maxBytes, limit, p.buffered, p.taken);
      }
    }
  }

  lemma RoundBounded(stream: seq<Byte>, turn: Turn, delim: seq<Byte>, maxBytes: nat, limit: nat,
                     buffered: nat, taken: nat)
    requires delim != [] && taken <= |stream| && buffered <= limit
    ensures match Round(stream, turn, delim, maxBytes, limit, buffered, taken)
            case Done(r) => r.buffered <= limit
            case More(now, _) => limit > 0 ==> now <= limit
  {
    hide FirstEnd;
  }

  /** A call that finds buffered_bytes within the limit leaves it so. */
  lemma {:induction false} RecvBounded(stream: seq<Byte>, env: seq<Turn>, delim: seq<Byte>, maxBytes: nat, limit: nat,
                                       buffered: nat, taken: nat)
    requires delim != [] && taken <= |stream| && (limit > 0 ==> buffered <= limit)
    ensures limit > 0 ==> Recv(stream, env, delim, maxBytes, limit, buffered, taken).buffered <= limit
    decreases |env|
  {
    hide FirstEnd, Round;
    if limit > 0 && env != [] && env[0].alive {
      RoundBounded(stream, env[0], delim, maxBytes, limit, buffered, taken);
      var p := Round(stream, env[0], delim, maxBytes, limit, buffered, taken);
      if p.More? {
        RecvBounded(stream, env[1..], delim, maxBytes, limit, p.buffered, p.taken);
      }
    }
  }

  /** What others consume in a round, up to where the round ends. */
  function RoundConsumed(turn: Turn, p: Progress): nat {
    if p.Done? && (p.r.out == Match || p.r.out == TooLong) then 0
    else if p.Done? && (p.r.out == BufferFull || !turn.stillAlive) then turn.before
    else turn.before + turn.between
  }

  /** And in all the rounds of a call. */
  function Consumed(stream: seq<Byte>, env: seq<Turn>, delim: seq<Byte>, maxBytes: nat, limit: nat,
                    buffered: nat, taken: nat): nat
    requires delim != [] && taken <= |stream|
    decreases |env|
  {
    if env == [] || !env[0].alive then 0
    else
      var p := Round(stream, env[0], delim, maxBytes, limit, buffered, taken);
      RoundConsumed(env[0], p) +
      if p.Done? then 0 else Consumed(stream, env[1..], delim, maxBytes, limit, p.buffered, p.taken)
  }

  /** Nobody consumes more than buffered_bytes counts. */
  predicate ConsumesWhatIsThere(stream: seq<Byte>, env: seq<Turn>, delim: seq<Byte>, maxBytes: nat, limit: nat,
                                buffered: nat, taken: nat)
    requires delim != [] && taken <= |stream|
    decreases |env|
  {
    env != [] && env[0].alive ==>
      var p := Round(stream, env[0], delim, maxBytes, limit, buffered, taken);
      && RoundConsumed(env[0], p) <= buffered
      && (p.More? ==> ConsumesWhatIsThere(stream, env[1..], delim, maxBytes, limit, p.buffered, p.taken))
  }

  lemma RoundCounts(stream: seq<Byte>, turn: Turn, delim: seq<Byte>, maxBytes: nat, limit: nat,
                    buffered: nat, taken: nat)
    requires delim != [] && taken <= |stream|
    ensures var p := Round(stream, turn, delim, maxBytes, limit, buffered, taken);
      var (now, more) := if p.Done? then (p.r.buffered, p.r.taken) else (p.buffered, p.taken);
      && now + RoundConsumed(turn, p) >= buffered + more - taken
      && (RoundConsumed(turn, p) <= buffered ==> now + RoundConsumed(turn, p) == buffered + more - taken)
  {
    hide FirstEnd;
  }

  /** Every byte is accounted for: buffered_bytes and what others have consumed are at least
      what was there and what has been taken, and no more unless someone has consumed more
      than was counted. */
  lemma {:induction false} BytesAreCounted(stream: seq<Byte>, env: seq<Turn>, delim: seq<Byte>, maxBytes: nat,
                                           limit: nat, buffered: nat, taken: nat)
    requires delim != [] && taken <= |stream|
    ensures var r := Recv(stream, env, delim, maxBytes, limit, buffered, taken);
      var consumed := Consumed(stream, env, delim, maxBytes, limit, buffered, taken);
      && r.buffered + consumed >= buffered + r.taken - taken
      && (ConsumesWhatIsThere(stream, env, delim, maxBytes, limit, buffered, taken) ==>
            r.buffered + consumed == buffered + r.taken - taken)
    decreases |env|
  {
    hide FirstEnd, Round, RoundConsumed;
    if env != [] && env[0].alive {
      RoundCounts(stream, env[0], delim, maxBytes, limit, buffered, taken);
      var p := Round(stream, env[0], delim, maxBytes, limit, buffered, taken);
      if p.More? {
        BytesAreCounted(stream, env[1..], delim, maxBytes, limit, p.buffered, p.taken);
      }
    }
  }

  /** How a round ends that does not find the call settled: a connection found dead or closed
      ends it with what has come, an error without; otherwise as much is read as is granted. */
  lemma RoundUnsettled(stream: seq<Byte>, turn: Turn, delim: seq<Byte>, maxBytes: nat, limit: nat,
                       buffered: nat, taken: nat)
    requires delim != [] && taken <= |stream| && taken < Needed(stream, delim, maxBytes)
    ensures var p := Round(stream, turn, delim, maxBytes, limit, buffered, taken);
      var left := Consume(buffered, turn.before);
      var end := if taken == 0 then Nothing else Closed;
      if !turn.stillAlive then p.Done? && p.r.out == end
      else if 0 < limit <= left then p.Done? && p.r.out == BufferFull
      else if turn.answer < 0 then p.Done? && p.r.out == RecvError
      else if turn.answer == 0 || taken == |stream| then p.Done? && p.r.out == end
      else
        var least := Min(turn.answer, |stream| - taken);
        p.More? && (p.taken == taken + least
                    || p.taken == taken + CHUNK < taken + least
                    || (p.taken == maxBytes > 0 && maxBytes < taken + least)
                    || (p.taken - taken == limit - left && limit - left < least))
  {
    hide FirstEnd, Needed;
    NeededIs(stream, delim, maxBytes, taken);
  }

  /** The connection lives and recv answers for more rounds than there are bytes to come. */
  predicate Lives(env: seq<Turn>, bytes: nat) {
    |env| > bytes && forall i :: 0 <= i < |env| ==> env[i].alive && env[i].stillAlive && env[i].answer > 0
  }

  lemma LivesOn(env: seq<Turn>, bytes: nat, n: nat)
    requires Lives(env, bytes) && n <= bytes
    ensures env != [] && env[0].alive && env[0].stillAlive && env[0].answer > 0
    ensures n > 0 ==> Lives(env[1..], bytes - n)
  {
    assert forall i :: 0 <= i < |env| - 1 ==> env[1..][i] == env[i + 1];
  }

  /** What a call returns when the connection lives, if the limit is not hit. */
  function Verdict(stream: seq<Byte>, delim: seq<Byte>, maxBytes: nat): Outcome {
    if EndsWithin(stream, delim, maxBytes) then Match
    else if 0 < maxBytes <= |stream| then TooLong
    else if stream == [] then Nothing
    else Closed
  }

  lemma RoundOnLife(stream: seq<Byte>, turn: Turn, delim: seq<Byte>, maxBytes: nat, limit: nat,
                    buffered: nat, taken: nat)
    requires delim != [] && taken <= |stream| && (maxBytes > 0 ==> taken <= maxBytes)
    requires turn.stillAlive && turn.answer > 0
    ensures match Round(stream, turn, delim, maxBytes, limit, buffered, taken)
            case Done(r) =>
              && (r.out == BufferFull || r.out == Verdict(stream, delim, maxBytes))
              && (r.out == Closed || r.out == Nothing ==> r.taken == |stream|)
            case More(_, more) => maxBytes > 0 ==> more <= maxBytes
  {
    hide FirstEnd;
    PrefixEnd(stream, taken, delim);
    assert stream[..|stream|] == stream;
  }

  /** On a connection that lives, a call that does not hit the limit matches exactly when
      the stream has a delimiter within `maxBytes`; otherwise it refuses for length as soon
      as `maxBytes` have come, or takes the whole stream. */
  lemma {:induction false} MatchIff(stream: seq<Byte>, env: seq<Turn>, delim: seq<Byte>, maxBytes: nat, limit: nat,
                                    buffered: nat, taken: nat)
    requires delim != [] && taken <= |stream| && (maxBytes > 0 ==> taken <= maxBytes) && Lives(env, |stream| - taken)
    ensures var r := Recv(stream, env, delim, maxBytes, limit, buffered, taken);
      && (r.out == BufferFull || r.out == Verdict(stream, delim, maxBytes))
      && (r.out == Closed || r.out == Nothing ==> r.taken == |stream|)
    decreases |env|
  {
    hide FirstEnd, Lives, Verdict, Round;
    LivesOn(env, |stream| - taken, 0);
    RoundOnLife(stream, env[0], delim, maxBytes, limit, buffered, taken);
    var p := Round(stream, env[0], delim, maxBytes, limit, buffered, taken);
    if p.More? {
      LivesOn(env, |stream| - taken, p.taken - taken);
      MatchIff(stream, env[1..], delim, maxBytes, limit, p.buffered, p.taken);
    }
  }

  /** The bytes that settle a call: up to the end of the first delimiter, or `maxBytes`; if
      neither comes, one more than there are. */
  function Needed(stream: seq<Byte>, delim: seq<Byte>, maxBytes: nat): nat {
    var e := FirstEnd(stream, delim, 0);
    var end := if e < 0 then |stream| + 1 else e;
    if maxBytes > 0 then Min(end, maxBytes) else end
  }

  lemma NeededIs(stream: seq<Byte>, delim: seq<Byte>, maxBytes: nat, taken: nat)
    requires delim != [] && taken <= |stream|
    ensures FirstEnd(stream[..taken], delim, 0) < 0 && !(maxBytes > 0 && taken >= maxBytes) <==>
            taken < Needed(stream, delim, maxBytes)
    ensures Needed(stream, delim, maxBytes) <= |stream| + 1
  {
    hide FirstEnd;
    PrefixEnd(stream, taken, delim);
    FirstEndFits(stream, delim, 0);
  }

  /** There is no limit, or room under it for all the bytes still needed, or the other
      threads consume all there is before every look. */
  ghost predicate NoPressure(env: seq<Turn>, limit: nat, buffered: nat, bytes: int) {
    || limit == 0 || buffered + bytes <= limit
    || forall i :: 0 <= i < |env| ==> env[i].before >= limit && env[i].before >= buffered
  }

  lemma PressureStaysOff(stream: seq<Byte>, env: seq<Turn>, delim: seq<Byte>, maxBytes: nat, limit: nat,
                         buffered: nat, taken: nat)
    requires delim != [] && taken <= |stream| && env != []
    requires NoPressure(env, limit, buffered, Needed(stream, delim, maxBytes) - taken)
    ensures match Round(stream, env[0], delim, maxBytes, limit, buffered, taken)
            case Done(r) => r.out != BufferFull
            case More(now, more) => NoPressure(env[1..], limit, now, Needed(stream, delim, maxBytes) - more)
  {
    hide FirstEnd, Needed;
    NeededIs(stream, delim, maxBytes, taken);
    assert forall i :: 0 <= i < |env| - 1 ==> env[1..][i] == env[i + 1];
  }

  lemma {:induction false} NeverFull(stream: seq<Byte>, env: seq<Turn>, delim: seq<Byte>, maxBytes: nat, limit: nat,
                                     buffered: nat, taken: nat)
    requires delim != [] && taken <= |stream|
    requires NoPressure(env, limit, buffered, Needed(stream, delim, maxBytes) - taken)
    ensures Recv(stream, env, delim, maxBytes, limit, buffered, taken).out != BufferFull
    decreases |env|
  {
    hide FirstEnd, NoPressure, Needed, Round;
    if env != [] && env[0].alive {
      PressureStaysOff(stream, env, delim, maxBytes, limit, buffered, taken);
      var p := Round(stream, env[0], delim, maxBytes, limit, buffered, taken);
      if p.More? {
        NeverFull(stream, env[1..], delim, maxBytes, limit, p.buffered, p.taken);
      }
    }
  }

  /** So many rounds of the same kind on a connection that lives. */
  function Rounds(n: nat, before: nat): (env: seq<Turn>)
    ensures |env| == n
    ensures forall i :: 0 <= i < n ==> env[i] == Turn(true, before, true, 0, 1)
  {
    seq(n, _ => Turn(true, before, true, 0, 1))
  }

  /** Without room for what is needed the limit is hit where the bytes come one by one and
      nobody consumes. */
  lemma {:induction false} OneByOneIsFull(stream: seq<Byte>, delim: seq<Byte>, maxBytes: nat, limit: nat,
                                          buffered: nat, taken: nat)
    requires delim != [] && taken <= |stream| && limit > 0
    requires taken < Needed(stream, delim, maxBytes) && buffered + Needed(stream, delim, maxBytes) - taken > limit
    ensures var env := Rounds(|stream| + 1 - taken, 0);
            Recv(stream, env, delim, maxBytes, limit, buffered, taken).out == BufferFull
    decreases |stream| - taken
  {
    hide FirstEnd, Needed;
    NeededIs(stream, delim, maxBytes, taken);
    var env := Rounds(|stream| + 1 - taken, 0);
    if buffered < limit {
      assert env[1..] == Rounds(|stream| - taken, 0);
      OneByOneIsFull(stream, delim, maxBytes, limit, buffered + 1, taken + 1);
    }
  }

  /** Every call on a connection that lives has the outcome the stream decides, however the
      stream is cut and whatever others consume, exactly if the limit leaves room for the
      bytes that settle the call. */
  lemma StreamDecidesIff(stream: seq<Byte>, delim: seq<Byte>, maxBytes: nat, limit: nat, buffered: nat)
    requires delim != []
    ensures (forall env | Lives(env, |stream|) ::
               Recv(stream, env, delim, maxBytes, limit, buffered, 0).out == Verdict(stream, delim, maxBytes))
            <==> limit == 0 || buffered + Needed(stream, delim, maxBytes) <= limit
  {
    hide Recv, FirstEnd, Needed;
    if limit == 0 || buffered + Needed(stream, delim, maxBytes) <= limit {
      forall env | Lives(env, |stream|)
        ensures Recv(stream, env, delim, maxBytes, limit, buffered, 0).out == Verdict(stream, delim, maxBytes)
      {
        MatchIff(stream, env, delim, maxBytes, limit, buffered, 0);
        NeverFull(stream, env, delim, maxBytes, limit, buffered, 0);
      }
    } else {
      NeededPositive(stream, delim, maxBytes);
      OneByOneIsFull(stream, delim, maxBytes, limit, buffered, 0);
      assert Lives(Rounds(|stream| + 1, 0), |stream|);
    }
  }

  lemma NeededPositive(stream: seq<Byte>, delim: seq<Byte>, maxBytes: nat)
    requires delim != []
    ensures Needed(stream, delim, maxBytes) > 0
  {
    FirstEndIsFirst(stream, delim, 0);
  }

  ghost predicate SameReturn(r1: Received, r2: Received) {
    r1.out == r2.out && r1.result == r2.result
  }

  /** Any two calls on connections that live have the same outcome and hand over the same
      bytes under that same condition, and only under it: otherwise one cut runs into the
      limit while others, that consume in time, keep another from it. */
  lemma CutsDoNotMatterIff(stream: seq<Byte>, delim: seq<Byte>, maxBytes: nat, limit: nat, buffered: nat)
    requires delim != []
    ensures (forall env1, env2 | Lives(env1, |stream|) && Lives(env2, |stream|) ::
               SameReturn(Recv(stream, env1, delim, maxBytes, limit, buffered, 0),
                          Recv(stream, env2, delim, maxBytes, limit, buffered, 0)))
            <==> limit == 0 || buffered + Needed(stream, delim, maxBytes) <= limit
  {
    hide Recv, FirstEnd, Needed;
    if limit == 0 || buffered + Needed(stream, delim, maxBytes) <= limit {
      forall env1, env2 | Lives(env1, |stream|) && Lives(env2, |stream|)
        ensures SameReturn(Recv(stream, env1, delim, maxBytes, limit, buffered, 0),
                           Recv(stream, env2, delim, maxBytes, limit, buffered, 0))
      {
        CutsDoNotMatter(stream, delim, maxBytes, env1, limit, buffered, env2, limit, buffered);
      }
    } else {
      NeededPositive(stream, delim, maxBytes);
      OneByOneIsFull(stream, delim, maxBytes, limit, buffered, 0);
      var env1, env2 := Rounds(|stream| + 1, 0), Rounds(|stream| + 1, limit + buffered);
      NeverFull(stream, env2, delim, maxBytes, limit, buffered, 0);
      assert Lives(env1, |stream|) && Lives(env2, |stream|);
      assert !SameReturn(Recv(stream, env1, delim, maxBytes, limit, buffered, 0),
                         Recv(stream, env2, delim, maxBytes, limit, buffered, 0));
    }
  }

  /** However the stream is cut, and whatever others consume: on connections that live and
      without pressure two calls have the same outcome and hand over the same bytes. */
  lemma CutsDoNotMatter(stream: seq<Byte>, delim: seq<Byte>, maxBytes: nat,
                        env1: seq<Turn>, limit1: nat, before1: nat, env2: seq<Turn>, limit2: nat, before2: nat)
    requires delim != [] && Lives(env1, |stream|) && Lives(env2, |stream|)
    requires NoPressure(env1, limit1, before1, Needed(stream, delim, maxBytes))
    requires NoPressure(env2, limit2, before2, Needed(stream, delim, maxBytes))
    ensures var r1 := Recv(stream, env1, delim, maxBytes, limit1, before1, 0);
      var r2 := Recv(stream, env2, delim, maxBytes, limit2, before2, 0);
      SameReturn(r1, r2) && r1.out == Verdict(stream, delim, maxBytes)
  {
    hide Recv, FirstEnd, Needed;
    MatchIff(stream, env1, delim, maxBytes, limit1, before1, 0);
    MatchIff(stream, env2, delim, maxBytes, limit2, before2, 0);
    NeverFull(stream, env1, delim, maxBytes, limit1, before1, 0);
    NeverFull(stream, env2, delim, maxBytes, limit2, before2, 0);
    RecvOwes(stream, env1, delim, maxBytes, limit1, before1, 0);
    RecvOwes(stream, env2, delim, maxBytes, limit2, before2, 0);
  }

  /** On any two connections, dying or not: calls that match return the same bytes, and
      where one matches the other is not refused for length. */
  lemma MatchesAgree(stream: seq<Byte>, delim: seq<Byte>, maxBytes: nat, limit1: nat, r1: Received,
                     limit2: nat, r2: Received)
    requires Owed(stream, delim, maxBytes, limit1, r1) && Owed(stream, delim, maxBytes, limit2, r2)
    requires delim != [] && r1.out == Match
    ensures r2.out == Match ==> r2.result == r1.result
    ensures r2.out != TooLong
    ensures r2.out == Closed ==> FirstEnd(r2.result, delim, 0) == if |r1.result| <= r2.taken then |r1.result| else -1
  {
    if r2.out == Closed {
      PrefixEnd(stream, r2.taken, delim);
    }
  }

  /** A match ends with the delimiter and contains it nowhere else. */
  lemma MatchEndsAtDelimiter(stream: seq<Byte>, delim: seq<Byte>, maxBytes: nat, limit: nat, r: Received)
    requires delim != [] && Owed(stream, delim, maxBytes, limit, r) && r.out == Match
    ensures r.result <= stream && |r.result| >= |delim| && r.result[|r.result| - |delim|..] == delim
    ensures forall i: nat :: OccursAt(r.result, delim, i) ==> i == |r.result| - |delim|
    ensures maxBytes > 0 ==> |r.result| <= maxBytes
  {
    var result := r.result;
    FirstEndIsFirst(stream, delim, 0);
    forall i: nat | OccursAt(result, delim, i)
      ensures i == |result| - |delim|
    {
      assert result[i..i + |delim|] == stream[i..i + |delim|];
      assert OccursAt(stream, delim, i);
    }
  }
}
