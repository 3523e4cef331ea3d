/** Admission control of the TCP server in kernel/tcp/src/tcp.c: one acceptor, any number
of connection workers, and the caller of `ak_tcp_server_stop`.

Each move is one critical section, under `mutex` or under `ip_tracker_mutex`.  Sockets,
callbacks, allocation and the task queue answer as the move says.
*/
module Admission {
  type Ip = string

  /** Zero means no limit. */
  datatype Config = Config(maxConnections: nat, maxPerIp: nat, rateLimit: nat, drains: bool)

  datatype Tracker = Tracker(active: int, last: int, connects: nat)

  /** What the acceptor is about to do for the connection in hand. */
  datatype Acceptor =
    | Polling               // read `running`
    | Accepting             // it was true: poll and accept
    | CheckLimit(ip: Ip)    // compare active_connections with max_connections
    | Track(ip: Ip)         // the per-IP and rate checks
    | AskUser(ip: Ip)       // on_connect
    | MakeContext(ip: Ip)   // ak_tcp_ctx_new and the TLS handshake
    | CountIn(ip: Ip)       // active_connections++
    | HandOver(ip: Ip)      // create and enqueue the worker task
    | CountOut(ip: Ip)      // active_connections--, the hand-over failed
    | Untrack(ip: Ip)       // ip_tracker_decrement
    | Stopped

  /** A connection in a worker's hands. */
  datatype Conn = Handling(ip: Ip) | Untracked(ip: Ip) | Gone

  /** The caller of `ak_tcp_server_stop`; `Drained` saw no connection left, `Ended` did
      not wait for that or timed out. */
  datatype Stopper = NotStopping | Joining | Testing | Blocked | Drained | Ended

  datatype Server = Server(cfg: Config, running: bool, draining: bool, active: int,
                           trackers: map<Ip, Tracker>, acceptor: Acceptor,
                           conns: seq<Conn>, stopper: Stopper)

  datatype Move =
    | Incoming(ip: Ip)           // poll and accept return a connection, maybe after a stop
    | Accept(now: int, ok: bool) // the acceptor's next step; `ok` is the environment's answer
    | Work(i: nat)               // the worker of connection i
    | Stop                       // the stopper's next step
    | Wake(timeout: bool)        // the timed wait ends, by timeout or for no reason

  datatype Event =
    | Quiet
    | RejectedLimit(ip: Ip)
    | RejectedIp(ip: Ip)
    | RejectedRate(ip: Ip)
    | RatePassed(ip: Ip, now: int)

  function Init(cfg: Config): Server {
    Server(cfg, true, false, 0, map[], Polling, [], NotStopping)
  }

  // ---------------------------------------------------------------- critical sections

  datatype Verdict = Pass | IpLimited | RateLimited

  /** `memset` to zero by ip_tracker_get_or_create. */
  function TrackerOf(ts: map<Ip, Tracker>, ip: Ip): Tracker {
    if ip in ts then ts[ip] else Tracker(0, 0, 0)
  }

  function TrackSection(cfg: Config, ts: map<Ip, Tracker>, ip: Ip, now: int): (map<Ip, Tracker>, Verdict) {
    if cfg.maxPerIp == 0 && cfg.rateLimit == 0 then (ts, Pass)
    else
      var t := TrackerOf(ts, ip);
      if cfg.maxPerIp > 0 && t.active >= cfg.maxPerIp then (ts[ip := t], IpLimited)
      else if cfg.rateLimit > 0 && t.last == now && t.connects >= cfg.rateLimit then (ts[ip := t], RateLimited)
      else
        var t' := if cfg.rateLimit == 0 then t
                  else if t.last == now then t.(connects := t.connects + 1)
                  else t.(last := now, connects := 1);
        (ts[ip := t'.(active := t'.active + 1)], Pass)
  }

  /** `ip_tracker_decrement`, with its guard. */
  function UntrackSection(ts: map<Ip, Tracker>, ip: Ip): map<Ip, Tracker> {
    if ip in ts && ts[ip].active > 0 then ts[ip := ts[ip].(active := ts[ip].active - 1)] else ts
  }

  /** The guarded decrement of active_connections. */
  function CountOutSection(active: int): int {
    if active > 0 then active - 1 else active
  }

  // ---------------------------------------------------------------- moves

  function AcceptorMove(s: Server, now: int, ok: bool): (Server, Event) {
    match s.acceptor
    case Polling => (s.(acceptor := if s.running then Accepting else Stopped), Quiet)
    case Accepting => (s.(acceptor := Polling), Quiet)
    case CheckLimit(ip) =>
      if s.cfg.maxConnections > 0 && s.active >= s.cfg.maxConnections
      then (s.(acceptor := Polling), RejectedLimit(ip))
      else (s.(acceptor := Track(ip)), Quiet)
    case Track(ip) =>
      var (ts, v) := TrackSection(s.cfg, s.trackers, ip, now);
      (match v
       case IpLimited => (s.(trackers := ts, acceptor := Polling), RejectedIp(ip))
       case RateLimited => (s.(trackers := ts, acceptor := Polling), RejectedRate(ip))
       case Pass => (s.(trackers := ts, acceptor := AskUser(ip)),
                     if s.cfg.rateLimit > 0 then RatePassed(ip, now) else Quiet))
    case AskUser(ip) => (s.(acceptor := if ok then MakeContext(ip) else Untrack(ip)), Quiet)
    case MakeContext(ip) => (s.(acceptor := if ok then CountIn(ip) else Untrack(ip)), Quiet)
    case CountIn(ip) => (s.(active := s.active + 1, acceptor := HandOver(ip)), Quiet)
    case HandOver(ip) =>
      if ok then (s.(conns := s.conns + [Handling(ip)], acceptor := Polling), Quiet)
      else (s.(acceptor := CountOut(ip)), Quiet)
    case CountOut(ip) => (s.(active := CountOutSection(s.active), acceptor := Untrack(ip)), Quiet)
    case Untrack(ip) => (s.(trackers := UntrackSection(s.trackers, ip), acceptor := Polling), Quiet)
    case Stopped => (s, Quiet)
  }

  /** Both branches of worker_task_fn, for a detached connection and for any other, untrack
      the address, count the connection out, and signal a drain that has come to its end. */
  function WorkerMove(s: Server, i: nat): Server
    requires i < |s.conns|
  {
    match s.conns[i]
    case Handling(ip) => s.(trackers := UntrackSection(s.trackers, ip), conns := s.conns[i := Untracked(ip)])
    case Untracked(ip) =>
      var active := CountOutSection(s.active);
      s.(active := active, conns := s.conns[i := Gone],
         stopper := if s.draining && active == 0 && s.stopper == Blocked then Testing else s.stopper)
    case Gone => s
  }

  function StopMove(s: Server): Server {
    match s.stopper
    case NotStopping => if s.running then s.(running := false, draining := true, stopper := Joining) else s
    case Joining =>
      if s.acceptor != Stopped then s
      else s.(stopper := if s.cfg.drains then Testing else Ended)
    case Testing =>
      if s.active > 0 then s.(stopper := Blocked) else s.(draining := false, stopper := Drained)
    case _ => s
  }

  function Step(s: Server, m: Move): (Server, Event) {
    match m
    case Incoming(ip) =>
      if s.acceptor == Accepting then (s.(acceptor := CheckLimit(ip)), Quiet) else (s, Quiet)
    case Accept(now, ok) => AcceptorMove(s, now, ok)
    case Work(i) => if i < |s.conns| then (WorkerMove(s, i), Quiet) else (s, Quiet)
    case Stop => (StopMove(s), Quiet)
    case Wake(timeout) =>
      if s.stopper != Blocked then (s, Quiet)
      else if timeout then (s.(draining := false, stopper := Ended), Quiet)
      else (s.(stopper := Testing), Quiet)
  }

  function Run(cfg: Config, moves: seq<Move>): (r: (Server, seq<Event>))
    ensures |r.1| == |moves| && r.0.cfg == cfg
  {
    if moves == [] then (Init(cfg), [])
    else
      var n := |moves| - 1;
      var (s, es) := Run(cfg, moves[..n]);
      var (s', e) := Step(s, moves[n]);
      (s', es + [e])
  }

  // ---------------------------------------------------------------- what is in flight

  /** Connections a worker has not yet counted out. */
  function Counted(cs: seq<Conn>): nat {
    if cs == [] then 0 else (if cs[0] == Gone then 0 else 1) + Counted(cs[1..])
  }

  /** Connections from `ip` a worker has not yet untracked. */
  function TrackedFrom(cs: seq<Conn>, ip: Ip): nat {
    if cs == [] then 0 else (if cs[0] == Handling(ip) then 1 else 0) + TrackedFrom(cs[1..], ip)
  }

  /** The acceptor's own connection is counted, or tracked. */
  predicate CountsOwn(a: Acceptor) {
    a.HandOver? || a.CountOut?
  }

  predicate TracksOwn(a: Acceptor, ip: Ip) {
    (a.AskUser? || a.MakeContext? || a.CountIn? || a.HandOver? || a.CountOut? || a.Untrack?) && a.ip == ip
  }

  predicate PastLimit(a: Acceptor) {
    a.Track? || a.AskUser? || a.MakeContext? || a.CountIn?
  }

  predicate Tracks(cfg: Config) {
    cfg.maxPerIp > 0 || cfg.rateLimit > 0
  }

  /** active_connections is the number of connections in flight, within its limit. */
  ghost predicate CountInv(s: Server) {
    && s.active == Counted(s.conns) + (if CountsOwn(s.acceptor) then 1 else 0)
    && (s.cfg.maxConnections > 0 ==> s.active <= s.cfg.maxConnections)
    && (s.cfg.maxConnections > 0 && PastLimit(s.acceptor) ==> s.active < s.cfg.maxConnections)
  }

  /** Each tracker counts the connections of its address, within its limit. */
  ghost predicate TrackedRight(s: Server, ip: Ip) {
    && TrackerOf(s.trackers, ip).active == TrackedFrom(s.conns, ip) + (if TracksOwn(s.acceptor, ip) then 1 else 0)
    && (s.cfg.maxPerIp > 0 ==> TrackerOf(s.trackers, ip).active <= s.cfg.maxPerIp)
  }

  ghost predicate TrackInv(s: Server) {
    if Tracks(s.cfg) then forall ip :: TrackedRight(s, ip) else s.trackers == map[]
  }

  ghost predicate StopInv(s: Server) {
    && (s.stopper == NotStopping ==> s.running && !s.draining)
    && (s.stopper == Joining || s.stopper == Testing || s.stopper == Blocked ==> s.draining)
    && (s.stopper != NotStopping && s.stopper != Joining ==> s.acceptor == Stopped)
    && (s.stopper == Blocked ==> s.active > 0)
    && (s.stopper == Drained ==> s.active <= 0)
    && (s.stopper != NotStopping ==> !s.running)
  }

  ghost predicate Inv(s: Server) {
    CountInv(s) && TrackInv(s) && StopInv(s)
  }

  lemma {:induction false} CountedUpdate(cs: seq<Conn>, i: nat, c: Conn)
    requires i < |cs|
    ensures Counted(cs[i := c]) == Counted(cs) - (if cs[i] == Gone then 0 else 1) + (if c == Gone then 0 else 1)
  {
    if i == 0 {
      assert cs[0 := c][1..] == cs[1..];
    } else {
      CountedUpdate(cs[1..], i - 1, c);
      assert cs[i := c][1..] == cs[1..][i - 1 := c];
    }
  }

  lemma {:induction false} TrackedUpdate(cs: seq<Conn>, i: nat, c: Conn, ip: Ip)
    requires i < |cs|
    ensures TrackedFrom(cs[i := c], ip) ==
            TrackedFrom(cs, ip) - (if cs[i] == Handling(ip) then 1 else 0) + (if c == Handling(ip) then 1 else 0)
  {
    if i == 0 {
      assert cs[0 := c][1..] == cs[1..];
    } else {
      TrackedUpdate(cs[1..], i - 1, c, ip);
      assert cs[i := c][1..] == cs[1..][i - 1 := c];
    }
  }

  lemma {:induction false} Appended(cs: seq<Conn>, c: Conn, ip: Ip)
    ensures Counted(cs + [c]) == Counted(cs) + if c == Gone then 0 else 1
    ensures TrackedFrom(cs + [c], ip) == TrackedFrom(cs, ip) + if c == Handling(ip) then 1 else 0
  {
    if cs != [] {
      Appended(cs[1..], c, ip);
      assert (cs + [c])[1..] == cs[1..] + [c];
    }
  }

  lemma AcceptorCounts(s: Server, now: int, ok: bool)
    requires CountInv(s) && StopInv(s)
    ensures CountInv(AcceptorMove(s, now, ok).0) && StopInv(AcceptorMove(s, now, ok).0)
  {
    hide TrackSection, UntrackSection, Counted;
    if s.acceptor.HandOver? {
      Appended(s.conns, Handling(s.acceptor.ip), s.acceptor.ip);
    }
  }

  /** A pass adds one to the address's counter and stays within its limit. */
  lemma TrackSectionCounts(cfg: Config, ts: map<Ip, Tracker>, ip: Ip, now: int, j: Ip)
    requires Tracks(cfg)
    ensures var (ts', v) := TrackSection(cfg, ts, ip, now);
      && TrackerOf(ts', j).active == TrackerOf(ts, j).active + (if j == ip && v == Pass then 1 else 0)
      && (v == Pass && cfg.maxPerIp > 0 ==> TrackerOf(ts, ip).active < cfg.maxPerIp)
  {
  }

  lemma TrackMove(s: Server, now: int, ok: bool, ip: Ip)
    requires Tracks(s.cfg) && TrackedRight(s, ip) && s.acceptor.Track?
    ensures TrackedRight(AcceptorMove(s, now, ok).0, ip)
  {
    TrackSectionCounts(s.cfg, s.trackers, s.acceptor.ip, now, ip);
  }

  lemma UntrackMove(s: Server, now: int, ok: bool, ip: Ip)
    requires Tracks(s.cfg) && TrackedRight(s, ip) && s.acceptor.Untrack?
    ensures TrackedRight(AcceptorMove(s, now, ok).0, ip)
  {
  }

  lemma HandOverMove(s: Server, now: int, ok: bool, ip: Ip)
    requires Tracks(s.cfg) && TrackedRight(s, ip) && s.acceptor.HandOver?
    ensures TrackedRight(AcceptorMove(s, now, ok).0, ip)
  {
    hide TrackedFrom, TrackSection, UntrackSection;
    Appended(s.conns, Handling(s.acceptor.ip), ip);
  }

  lemma AcceptorTracks(s: Server, now: int, ok: bool, ip: Ip)
    requires Tracks(s.cfg) && TrackedRight(s, ip)
    ensures TrackedRight(AcceptorMove(s, now, ok).0, ip)
  {
    hide TrackedFrom, TrackSection, UntrackSection, TrackerOf;
    match s.acceptor
    case HandOver(_) => HandOverMove(s, now, ok, ip);
    case Track(_) => TrackMove(s, now, ok, ip);
    case Untrack(_) => UntrackMove(s, now, ok, ip);
    case _ =>
  }

  lemma AcceptorInv(s: Server, now: int, ok: bool)
    requires Inv(s)
    ensures Inv(AcceptorMove(s, now, ok).0)
  {
    AcceptorCounts(s, now, ok);
    if Tracks(s.cfg) {
      forall ip
        ensures TrackedRight(AcceptorMove(s, now, ok).0, ip)
      {
        AcceptorTracks(s, now, ok, ip);
      }
    }
  }

  lemma WorkerTracks(s: Server, i: nat, ip: Ip)
    requires i < |s.conns| && Tracks(s.cfg) && TrackedRight(s, ip)
    ensures TrackedRight(WorkerMove(s, i), ip)
  {
    TrackedUpdate(s.conns, i, WorkerMove(s, i).conns[i], ip);
  }

  lemma WorkerInv(s: Server, i: nat)
    requires Inv(s) && i < |s.conns|
    ensures Inv(WorkerMove(s, i))
  {
    CountedUpdate(s.conns, i, WorkerMove(s, i).conns[i]);
    if Tracks(s.cfg) {
      forall ip
        ensures TrackedRight(WorkerMove(s, i), ip)
      {
        WorkerTracks(s, i, ip);
      }
    }
  }

  lemma StepInv(s: Server, m: Move)
    requires Inv(s)
    ensures Inv(Step(s, m).0)
  {
    hide AcceptorMove, WorkerMove, TrackSection, UntrackSection;
    match m
    case Accept(now, ok) => AcceptorInv(s, now, ok);
    case Work(i) => if i < |s.conns| { WorkerInv(s, i); }
    case _ =>
      forall ip | TrackedRight(s, ip)
        ensures TrackedRight(Step(s, m).0, ip)
      {
      }
  }

  // ---------------------------------------------------------------- over whole runs

  lemma {:induction false} RunInv(cfg: Config, moves: seq<Move>)
    ensures Inv(Run(cfg, moves).0)
  {
    if moves != [] {
      RunInv(cfg, moves[..|moves| - 1]);
      StepInv(Run(cfg, moves[..|moves| - 1]).0, moves[|moves| - 1]);
    }
  }

  /** The limits hold in every reachable state, although the acceptor tests the limit in
      one critical section and counts in a later one. */
  lemma LimitsHold(cfg: Config, moves: seq<Move>, ip: Ip)
    ensures var s := Run(cfg, moves).0;
      && (cfg.maxConnections > 0 ==> s.active <= cfg.maxConnections)
      && (cfg.maxPerIp > 0 ==> TrackerOf(s.trackers, ip).active <= cfg.maxPerIp)
      && s.active == Counted(s.conns) + (if CountsOwn(s.acceptor) then 1 else 0)
      && (Tracks(cfg) ==> TrackerOf(s.trackers, ip).active ==
                            TrackedFrom(s.conns, ip) + (if TracksOwn(s.acceptor, ip) then 1 else 0))
  {
    RunInv(cfg, moves);
    assert Tracks(cfg) ==> TrackedRight(Run(cfg, moves).0, ip);
  }

  lemma {:induction false} OneIsCounted(cs: seq<Conn>, i: nat)
    requires i < |cs| && cs[i] != Gone
    ensures Counted(cs) > 0
    ensures cs[i].Handling? ==> TrackedFrom(cs, cs[i].ip) > 0
  {
    if i > 0 {
      OneIsCounted(cs[1..], i - 1);
    }
  }

  /** No guard ever hides a missing increment: whenever a counter is about to be
      decremented, it is positive. */
  lemma NoMaskedDecrement(cfg: Config, moves: seq<Move>)
    ensures var s := Run(cfg, moves).0;
      && (s.acceptor.CountOut? ==> s.active > 0)
      && (s.acceptor.Untrack? && Tracks(cfg) ==> TrackerOf(s.trackers, s.acceptor.ip).active > 0)
      && (forall i :: 0 <= i < |s.conns| ==>
            && (s.conns[i].Untracked? ==> s.active > 0)
            && (s.conns[i].Handling? && Tracks(cfg) ==> TrackerOf(s.trackers, s.conns[i].ip).active > 0))
  {
    RunInv(cfg, moves);
    var s := Run(cfg, moves).0;
    if s.acceptor.Untrack? && Tracks(cfg) {
      assert TrackedRight(s, s.acceptor.ip);
    }
    forall i | 0 <= i < |s.conns| && s.conns[i] != Gone
      ensures s.active > 0
      ensures s.conns[i].Handling? && Tracks(cfg) ==> TrackerOf(s.trackers, s.conns[i].ip).active > 0
    {
      OneIsCounted(s.conns, i);
      assert s.conns[i].Handling? && Tracks(cfg) ==> TrackedRight(s, s.conns[i].ip);
    }
  }

  lemma {:induction false} NoneCounted(cs: seq<Conn>, ip: Ip)
    requires Counted(cs) == 0
    ensures forall i :: 0 <= i < |cs| ==> cs[i] == Gone
    ensures TrackedFrom(cs, ip) == 0
  {
    if cs != [] {
      NoneCounted(cs[1..], ip);
      forall i | 0 <= i < |cs|
        ensures cs[i] == Gone
      {
        assert i > 0 ==> cs[i] == cs[1..][i - 1];
      }
    }
  }

  /** A drain that ends without timing out leaves no connection in any worker's hands and
      every tracker at zero; and a stopper left blocked has a connection to wait for. */
  lemma DrainIsComplete(cfg: Config, moves: seq<Move>)
    ensures var s := Run(cfg, moves).0;
      && (s.stopper == Blocked ==> s.draining && exists i :: 0 <= i < |s.conns| && s.conns[i] != Gone)
      && (s.stopper == Drained ==>
            && (forall i :: 0 <= i < |s.conns| ==> s.conns[i] == Gone)
            && (Tracks(cfg) ==> forall ip :: TrackerOf(s.trackers, ip).active == 0))
  {
    RunInv(cfg, moves);
    var s := Run(cfg, moves).0;
    if s.stopper == Drained {
      forall ip
        ensures Tracks(cfg) ==> TrackerOf(s.trackers, ip).active == 0
      {
        assert Tracks(cfg) ==> TrackedRight(s, ip);
        NoneCounted(s.conns, ip);
      }
      NoneCounted(s.conns, "");
    }
    if s.stopper == Blocked && forall i :: 0 <= i < |s.conns| ==> s.conns[i] == Gone {
      AllGone(s.conns);
    }
  }

  lemma {:induction false} AllGone(cs: seq<Conn>)
    requires forall i :: 0 <= i < |cs| ==> cs[i] == Gone
    ensures Counted(cs) == 0
  {
    if cs != [] {
      AllGone(cs[1..]);
    }
  }

  // ---------------------------------------------------------------- the rate limit

  /** The connections of an address that have passed the rate stage at a reading of the clock. */
  function Passes(es: seq<Event>, ip: Ip, reading: int): nat {
    if es == [] then 0
    else Passes(es[..|es| - 1], ip, reading) + if es[|es| - 1] == RatePassed(ip, reading) then 1 else 0
  }

  /** What `time` returns at each instant. */
  type Clock = nat -> int

  /** Move `i` is made at instant `at[i]`, and reads the clock then if it reads it. */
  ghost predicate Reads(moves: seq<Move>, at: seq<nat>, clock: Clock) {
    && |at| == |moves|
    && (forall i, j :: 0 <= i < j < |at| ==> at[i] <= at[j])
    && (forall i :: 0 <= i < |moves| && moves[i].Accept? ==> moves[i].now == clock(at[i]))
  }

  /** No reading comes back after another one. */
  ghost predicate NoReturn(clock: Clock) {
    forall i: nat, j: nat, k: nat :: i <= j <= k && clock(i) == clock(k) ==> clock(j) == clock(i)
  }

  /** By instant `m` the clock has read `x` and after that `y`. */
  ghost predicate ReadThen(clock: Clock, m: nat, x: int, y: int) {
    exists i: nat, j: nat :: i <= j <= m && clock(i) == x && clock(j) == y
  }

  /** The tracker counts the passes at its last reading; passes at another are older. */
  ghost predicate RateRight(s: Server, es: seq<Event>, clock: Clock, m: nat, ip: Ip, x: int) {
    var k := TrackerOf(s.trackers, ip);
    && Passes(es, ip, x) <= s.cfg.rateLimit
    && (x == k.last ==> Passes(es, ip, x) == k.connects)
    && (x != k.last && Passes(es, ip, x) > 0 ==> ReadThen(clock, m, x, k.last))
    && (k.connects > 0 ==> ReadThen(clock, m, k.last, k.last))
  }

  ghost predicate RateInv(s: Server, es: seq<Event>, clock: Clock, m: nat) {
    forall ip, x :: RateRight(s, es, clock, m, ip, x)
  }

  lemma Later(clock: Clock, m: nat, m': nat, x: int, y: int)
    requires ReadThen(clock, m, x, y) && m <= m'
    ensures ReadThen(clock, m', x, y) && ReadThen(clock, m', x, clock(m'))
  {
    var i: nat, j: nat :| i <= j <= m && clock(i) == x && clock(j) == y;
    assert i <= j <= m' && clock(i) == x && clock(j) == y;
    assert i <= m' <= m' && clock(m') == clock(m');
  }

  lemma NotBefore(clock: Clock, m: nat, m': nat, y: int)
    requires NoReturn(clock) && m <= m' && y != clock(m')
    ensures !ReadThen(clock, m, clock(m'), y)
  {
    forall i: nat, j: nat | i <= j <= m && clock(i) == clock(m')
      ensures clock(j) != y
    {
      assert i <= j <= m';
    }
  }

  lemma RateStep(s: Server, es: seq<Event>, clock: Clock, m: nat, mv: Move, m': nat, ip: Ip, x: int)
    requires s.cfg.rateLimit > 0 && NoReturn(clock) && m <= m' && (mv.Accept? ==> mv.now == clock(m'))
    requires RateInv(s, es, clock, m)
    ensures RateRight(Step(s, mv).0, es + [Step(s, mv).1], clock, m', ip, x)
  {
    hide ReadThen, NoReturn, TrackSection;
    var (s', e) := Step(s, mv);
    var k := TrackerOf(s.trackers, ip);
    assert (es + [e])[..|es|] == es;
    assert RateRight(s, es, clock, m, ip, x) && RateRight(s, es, clock, m, ip, k.last);
    if ReadThen(clock, m, x, k.last) {
      Later(clock, m, m', x, k.last);
    }
    if ReadThen(clock, m, k.last, k.last) {
      Later(clock, m, m', k.last, k.last);
    }
    if mv.Accept? && s.acceptor.Track? && s.acceptor.ip == ip {
      TrackKeepsRate(s.cfg, s.trackers, ip, mv.now);
      assert ReadThen(clock, m', clock(m'), clock(m')) by { ReadNow(clock, m'); }
      if k.last != mv.now {
        NotBefore(clock, m, m', k.last);
        assert RateRight(s, es, clock, m, ip, mv.now);
      }
    } else {
      UntrackKeepsRate(s, mv, ip);
    }
  }

  lemma ReadNow(clock: Clock, m: nat)
    ensures ReadThen(clock, m, clock(m), clock(m))
  {
    assert m <= m <= m && clock(m) == clock(m);
  }

  /** What the section does to what the rate depends on. */
  lemma TrackKeepsRate(cfg: Config, ts: map<Ip, Tracker>, ip: Ip, now: int)
    requires cfg.rateLimit > 0
    ensures var (ts', v) := TrackSection(cfg, ts, ip, now);
      var k, k' := TrackerOf(ts, ip), TrackerOf(ts', ip);
      if v != Pass then k'.last == k.last && k'.connects == k.connects
      else if k.last == now then k.connects < cfg.rateLimit && k'.last == now && k'.connects == k.connects + 1
      else k'.last == now && k'.connects == 1
  {
  }

  lemma UntrackKeepsRate(s: Server, m: Move, ip: Ip)
    requires !(m.Accept? && s.acceptor.Track? && s.acceptor.ip == ip)
    ensures var k, k' := TrackerOf(s.trackers, ip), TrackerOf(Step(s, m).0.trackers, ip);
            k'.last == k.last && k'.connects == k.connects
    ensures Step(s, m).1.RatePassed? ==> Step(s, m).1.ip != ip
  {
    hide TrackedFrom, Counted;
    match m
    case Accept(_, _) =>
      if s.acceptor.Untrack? {
        hide TrackSection;
      } else {
        hide UntrackSection;
      }
    case Work(_) => hide TrackSection;
    case _ => hide TrackSection, UntrackSection;
  }

  lemma {:induction false} RunRate(cfg: Config, moves: seq<Move>, at: seq<nat>, clock: Clock)
    requires cfg.rateLimit > 0 && NoReturn(clock) && Reads(moves, at, clock)
    ensures RateInv(Run(cfg, moves).0, Run(cfg, moves).1, clock, if at == [] then 0 else at[|at| - 1])
  {
    if moves != [] {
      hide NoReturn, RateRight;
      var n := |moves| - 1;
      assert forall i :: 0 <= i < n && moves[..n][i].Accept? ==> moves[i].now == clock(at[i]);
      RunRate(cfg, moves[..n], at[..n], clock);
      var (s, es) := Run(cfg, moves[..n]);
      var m := if n == 0 then 0 else at[n - 1];
      forall ip, x
        ensures RateRight(Run(cfg, moves).0, Run(cfg, moves).1, clock, at[n], ip, x)
      {
        RateStep(s, es, clock, m, moves[n], at[n], ip, x);
      }
    }
  }

  /** At most `rateLimit` connections of an address pass at any one reading, while no
      reading of the clock comes back after another one. */
  lemma RateHolds(cfg: Config, moves: seq<Move>, at: seq<nat>, clock: Clock, ip: Ip, x: int)
    requires cfg.rateLimit > 0 && NoReturn(clock) && Reads(moves, at, clock)
    ensures Passes(Run(cfg, moves).1, ip, x) <= cfg.rateLimit
  {
    RunRate(cfg, moves, at, clock);
    var m := if at == [] then 0 else at[|at| - 1];
    assert RateRight(Run(cfg, moves).0, Run(cfg, moves).1, clock, m, ip, x);
  }

  // ---------------------------------------------------------------- a clock that comes back

  /** A connection comes in, passes the limits and the rate stage, and is turned away by
      on_connect, so that it is counted nowhere when the acceptor polls again. */
  function Visit(ip: Ip, now: int): seq<Move> {
    [Accept(now, true), Incoming(ip), Accept(now, true), Accept(now, true), Accept(now, false), Accept(now, true)]
  }

  /** One visit at each reading. */
  function Visits(ip: Ip, readings: seq<int>): seq<Move> {
    if readings == [] then [] else Visits(ip, readings[..|readings| - 1]) + Visit(ip, readings[|readings| - 1])
  }

  ghost predicate Quiescent(s: Server, ip: Ip) {
    s.acceptor == Polling && s.running && s.active == 0 && TrackerOf(s.trackers, ip).active == 0
  }

  lemma RunThen(cfg: Config, moves: seq<Move>, m: Move)
    ensures var (s, es) := Run(cfg, moves);
            Run(cfg, moves + [m]) == (Step(s, m).0, es + [Step(s, m).1])
  {
    hide Step;
    assert (moves + [m])[..|moves|] == moves;
  }

  lemma PassesThen(es: seq<Event>, e: Event, ip: Ip, x: int)
    ensures Passes(es + [e], ip, x) == Passes(es, ip, x) + if e == RatePassed(ip, x) then 1 else 0
  {
    assert (es + [e])[..|es|] == es;
  }

  /** The server after the six moves of a visit that passes. */
  function Visited(s: Server, ip: Ip, now: int): Server {
    var k := TrackerOf(s.trackers, ip);
    var k' := Tracker(k.active, now, if k.last == now then k.connects + 1 else 1);
    s.(trackers := s.trackers[ip := k'])
  }

  lemma VisitSteps(s: Server, ip: Ip, now: int)
    requires s.cfg.rateLimit > 0 && Quiescent(s, ip)
    requires TrackerOf(s.trackers, ip).last != now || TrackerOf(s.trackers, ip).connects < s.cfg.rateLimit
    ensures var s1 := s.(acceptor := Accepting);
      var s2, s3 := s.(acceptor := CheckLimit(ip)), s.(acceptor := Track(ip));
      var s4 := Step(s3, Accept(now, true)).0;
      && Step(s, Accept(now, true)) == (s1, Quiet) && Step(s1, Incoming(ip)) == (s2, Quiet)
      && Step(s2, Accept(now, true)) == (s3, Quiet) && Step(s3, Accept(now, true)).1 == RatePassed(ip, now)
      && Step(s4, Accept(now, false)) == (s4.(acceptor := Untrack(ip)), Quiet)
      && Step(s4.(acceptor := Untrack(ip)), Accept(now, true)) == (Visited(s, ip, now), Quiet)
  {
    var s4 := Step(s.(acceptor := Track(ip)), Accept(now, true)).0;
    var k := TrackerOf(s.trackers, ip);
    var last, connects := now, if k.last == now then k.connects + 1 else 1;
    assert s4.trackers == s.trackers[ip := Tracker(1, last, connects)];
    assert UntrackSection(s4.trackers, ip) == s.trackers[ip := Tracker(0, last, connects)];
  }

  lemma RunVisit(cfg: Config, moves: seq<Move>, ip: Ip, now: int, x: int)
    requires cfg.rateLimit > 0 && Quiescent(Run(cfg, moves).0, ip)
    requires var k := TrackerOf(Run(cfg, moves).0.trackers, ip); k.last != now || k.connects < cfg.rateLimit
    ensures var (s, es) := Run(cfg, moves);
      var (s', es') := Run(cfg, moves + Visit(ip, now));
      s' == Visited(s, ip, now) && Passes(es', ip, x) == Passes(es, ip, x) + if x == now then 1 else 0
  {
    hide Run, Step, Passes;
    var (s, es) := Run(cfg, moves);
    VisitSteps(s, ip, now);
    var v := Visit(ip, now);
    var s3 := s.(acceptor := Track(ip));
    var s4 := Step(s3, v[3]).0;
    var m1, m2, m3 := moves + [v[0]], moves + [v[0]] + [v[1]], moves + [v[0]] + [v[1]] + [v[2]];
    var m4 := m3 + [v[3]];
    var m5 := m4 + [v[4]];
    RunThen(cfg, moves, v[0]);
    RunThen(cfg, m1, v[1]);
    RunThen(cfg, m2, v[2]);
    RunThen(cfg, m3, v[3]);
    RunThen(cfg, m4, v[4]);
    RunThen(cfg, m5, v[5]);
    assert moves + v == m5 + [v[5]];
    var e1, e2, e3 := es + [Quiet], es + [Quiet] + [Quiet], es + [Quiet] + [Quiet] + [Quiet];
    PassesThen(es, Quiet, ip, x);
    PassesThen(e1, Quiet, ip, x);
    PassesThen(e2, Quiet, ip, x);
    PassesThen(e3, RatePassed(ip, now), ip, x);
    PassesThen(e3 + [RatePassed(ip, now)], Quiet, ip, x);
    PassesThen(e3 + [RatePassed(ip, now)] + [Quiet], Quiet, ip, x);
  }

  function Repeat(x: int, n: nat): (r: seq<int>)
    ensures |r| == n && forall i :: 0 <= i < n ==> r[i] == x
  {
    seq(n, _ => x)
  }

  /** As many visits at one reading as the limit allows all pass. */
  lemma {:induction false} RunRepeated(cfg: Config, ip: Ip, x: int, n: nat)
    requires cfg.rateLimit > 0 && n <= cfg.rateLimit
    ensures var (s, es) := Run(cfg, Visits(ip, Repeat(x, n)));
      var k := TrackerOf(s.trackers, ip);
      && Quiescent(s, ip) && s.cfg == cfg && Passes(es, ip, x) == n
      && (n > 0 ==> k.last == x && k.connects == n) && (n == 0 ==> k.connects == 0)
  {
    if n > 0 {
      hide Run, Passes;
      RunRepeated(cfg, ip, x, n - 1);
      assert Repeat(x, n)[..n - 1] == Repeat(x, n - 1);
      RunVisit(cfg, Visits(ip, Repeat(x, n - 1)), ip, x, x);
    }
  }

  /** The readings of a clock that reads `x` as often as the limit allows, then `y`, then
      `x` again. */
  function ThereAndBack(x: int, y: int, n: nat): seq<int> {
    Repeat(x, n) + [y] + [x]
  }

  /** On such a clock one connection too many passes at `x`, whatever the limit. */
  lemma ReturnPassesTooMany(cfg: Config, ip: Ip, x: int, y: int)
    requires cfg.rateLimit > 0 && x != y
    ensures Passes(Run(cfg, Visits(ip, ThereAndBack(x, y, cfg.rateLimit))).1, ip, x) == cfg.rateLimit + 1
  {
    hide Run, Passes;
    var xs := Repeat(x, cfg.rateLimit);
    RunRepeated(cfg, ip, x, cfg.rateLimit);
    RunVisit(cfg, Visits(ip, xs), ip, y, x);
    assert (xs + [y])[..|xs|] == xs;
    RunVisit(cfg, Visits(ip, xs + [y]), ip, x, x);
    assert (xs + [y] + [x])[..|xs| + 1] == xs + [y];
  }

  /** Six moves at each instant. */
  function Instants(at: seq<nat>): (r: seq<nat>)
    ensures |r| == 6 * |at|
  {
    if at == [] then [] else Instants(at[..|at| - 1]) + seq(6, _ => at[|at| - 1])
  }

  lemma {:induction false} VisitsRead(ip: Ip, readings: seq<int>, at: seq<nat>, clock: Clock)
    requires |readings| == |at| && forall i :: 0 <= i < |at| ==> readings[i] == clock(at[i])
    requires forall i, j :: 0 <= i < j < |at| ==> at[i] <= at[j]
    ensures Reads(Visits(ip, readings), Instants(at), clock)
    ensures forall i :: 0 <= i < |Instants(at)| ==> Instants(at)[i] <= at[|at| - 1]
  {
    if at != [] {
      var n := |at| - 1;
      VisitsRead(ip, readings[..n], at[..n], clock);
    }
  }

  /** A clock on which `x` comes back after `y` lets one connection too many pass in some run. */
  lemma ReturnBreaksBound(cfg: Config, clock: Clock, i: nat, j: nat, k: nat, ip: Ip)
      returns (moves: seq<Move>, at: seq<nat>)
    requires cfg.rateLimit > 0 && i <= j <= k && clock(i) == clock(k) && clock(j) != clock(i)
    ensures Reads(moves, at, clock)
    ensures Passes(Run(cfg, moves).1, ip, clock(i)) == cfg.rateLimit + 1
  {
    hide Run, Passes, Reads, Visits, Instants;
    var readings := ThereAndBack(clock(i), clock(j), cfg.rateLimit);
    var instants: seq<nat> := seq(cfg.rateLimit, _ => i) + [j] + [k];
    VisitsRead(ip, readings, instants, clock);
    ReturnPassesTooMany(cfg, ip, clock(i), clock(j));
    moves, at := Visits(ip, readings), Instants(instants);
  }

  /** The rate limit holds on a clock, for every address and in every run, exactly if no
      reading of the clock comes back after another one. */
  lemma RateHoldsIff(cfg: Config, clock: Clock)
    requires cfg.rateLimit > 0
    ensures (forall moves, at, ip, x | Reads(moves, at, clock) :: Passes(Run(cfg, moves).1, ip, x) <= cfg.rateLimit)
            <==> NoReturn(clock)
  {
    hide Run, Passes, Reads;
    if NoReturn(clock) {
      forall moves, at, ip, x | Reads(moves, at, clock)
        ensures Passes(Run(cfg, moves).1, ip, x) <= cfg.rateLimit
      {
        RateHolds(cfg, moves, at, clock, ip, x);
      }
    } else {
      var i: nat, j: nat, k: nat :| i <= j <= k && clock(i) == clock(k) && clock(j) != clock(i);
      var moves, at := ReturnBreaksBound(cfg, clock, i, j, k, "");
    }
  }
}
