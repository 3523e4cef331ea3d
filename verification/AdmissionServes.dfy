/** Whom the accept loop of kernel/tcp/src/tcp.c lets in, whom it turns away, and that what
has been let in is let go again. */
module AdmissionServes {
  import opened Admission

  /** The server after some more moves. */
  function After(s: Server, moves: seq<Move>): Server
    decreases |moves|
  {
    if moves == [] then s else After(Step(s, moves[0]).0, moves[1..])
  }

  lemma AfterThree(s: Server, a: Move, b: Move, c: Move)
    ensures After(s, [a]) == Step(s, a).0
    ensures After(s, [a, b]) == Step(Step(s, a).0, b).0
    ensures After(s, [a, b, c]) == Step(Step(Step(s, a).0, b).0, c).0
  {
    hide Step;
    assert [a][1..] == [] && [a, b][1..] == [b] && [b][1..] == [] && [a, b, c][1..] == [b, c] && [b, c][1..] == [c];
    assert [c][1..] == [];
    assert After(Step(s, a).0, [b]) == Step(Step(s, a).0, b).0;
    assert After(Step(Step(s, a).0, b).0, [c]) == Step(Step(Step(s, a).0, b).0, c).0;
  }

  lemma {:induction false} RunAfter(cfg: Config, moves: seq<Move>, more: seq<Move>)
    ensures Run(cfg, moves + more).0 == After(Run(cfg, moves).0, more)
    decreases |more|
  {
    hide Run, Step;
    if more == [] {
      assert moves + more == moves;
    } else {
      RunThen(cfg, moves, more[0]);
      RunAfter(cfg, moves + [more[0]], more[1..]);
      assert moves + more == moves + [more[0]] + more[1..];
    }
  }

  /** While the server runs the acceptor looks for a connection and takes up the one that
      comes in; after a stop it looks for none. */
  lemma AcceptorTakesUp(s: Server, now: int, ok: bool, ip: Ip)
    requires s.acceptor == Polling
    ensures s.running ==> After(s, [Accept(now, ok), Incoming(ip)]) == s.(acceptor := CheckLimit(ip))
    ensures !s.running ==> Step(s, Accept(now, ok)).0 == s.(acceptor := Stopped)
  {
    AfterThree(s, Accept(now, ok), Incoming(ip), Stop);
  }

  // ---------------------------------------------------------------- the limit

  /** A connection is turned away for the limit exactly while as many are in flight. */
  lemma LimitRejectsIff(cfg: Config, moves: seq<Move>, now: int, ok: bool)
    requires Run(cfg, moves).0.acceptor.CheckLimit?
    ensures var s := Run(cfg, moves).0;
      var (s', e) := Step(s, Accept(now, ok));
      if cfg.maxConnections > 0 && Counted(s.conns) >= cfg.maxConnections
      then e == RejectedLimit(s.acceptor.ip) && s' == s.(acceptor := Polling)
      else e == Quiet && s' == s.(acceptor := Track(s.acceptor.ip))
  {
    hide Run, TrackInv, StopInv;
    RunInv(cfg, moves);
  }

  // ---------------------------------------------------------------- the limits of an address

  /** How many connections of an address have passed the rate stage at this reading since
      one passed at another. */
  function Streak(es: seq<Event>, ip: Ip, now: int): nat {
    if es == [] then 0
    else
      var before, e := es[..|es| - 1], es[|es| - 1];
      if e == RatePassed(ip, now) then Streak(before, ip, now) + 1
      else if e.RatePassed? && e.ip == ip then 0
      else Streak(before, ip, now)
  }

  /** That is what the tracker counts, on any clock. */
  ghost predicate StreakRight(s: Server, es: seq<Event>, ip: Ip, now: int) {
    var k := TrackerOf(s.trackers, ip);
    Streak(es, ip, now) == if k.last == now then k.connects else 0
  }

  lemma StreakStep(s: Server, es: seq<Event>, m: Move, ip: Ip, now: int)
    requires s.cfg.rateLimit > 0 && StreakRight(s, es, ip, now)
    ensures StreakRight(Step(s, m).0, es + [Step(s, m).1], ip, now)
  {
    hide TrackSection;
    assert (es + [Step(s, m).1])[..|es|] == es;
    if m.Accept? && s.acceptor.Track? && s.acceptor.ip == ip {
      TrackKeepsRate(s.cfg, s.trackers, ip, m.now);
    } else {
      UntrackKeepsRate(s, m, ip);
    }
  }

  lemma {:induction false} RunStreak(cfg: Config, moves: seq<Move>, ip: Ip, now: int)
    requires cfg.rateLimit > 0
    ensures StreakRight(Run(cfg, moves).0, Run(cfg, moves).1, ip, now)
  {
    if moves != [] {
      hide StreakRight, Step;
      var n := |moves| - 1;
      RunStreak(cfg, moves[..n], ip, now);
      StreakStep(Run(cfg, moves[..n]).0, Run(cfg, moves[..n]).1, moves[n], ip, now);
    } else {
      assert StreakRight(Init(cfg), [], ip, now);
    }
  }

  /** As many connections of the address are in flight as its limit allows. */
  predicate IpFull(s: Server, ip: Ip) {
    s.cfg.maxPerIp > 0 && TrackedFrom(s.conns, ip) >= s.cfg.maxPerIp
  }

  /** As many have passed at this reading as the rate limit allows. */
  predicate RateFull(s: Server, es: seq<Event>, ip: Ip, now: int) {
    s.cfg.rateLimit > 0 && Streak(es, ip, now) >= s.cfg.rateLimit
  }

  lemma TrackSectionIs(cfg: Config, ts: map<Ip, Tracker>, ip: Ip, now: int)
    requires Tracks(cfg)
    ensures var (v, k) := (TrackSection(cfg, ts, ip, now).1, TrackerOf(ts, ip));
      v == if cfg.maxPerIp > 0 && k.active >= cfg.maxPerIp then IpLimited
           else if cfg.rateLimit > 0 && k.last == now && k.connects >= cfg.rateLimit then RateLimited
           else Pass
    ensures TrackSection(cfg, ts, ip, now).1 != Pass ==>
              forall j :: TrackerOf(TrackSection(cfg, ts, ip, now).0, j) == TrackerOf(ts, j)
  {
  }

  /** A connection is turned away for its address exactly while as many from there are in
      flight, and for the rate exactly if as many have passed at this reading of the clock. */
  lemma TrackRejectsIff(cfg: Config, moves: seq<Move>, now: int, ok: bool)
    requires Run(cfg, moves).0.acceptor.Track?
    ensures var (s, es) := Run(cfg, moves);
      var (ip, (s', e)) := (s.acceptor.ip, Step(s, Accept(now, ok)));
      && s'.conns == s.conns && s'.active == s.active
      && if IpFull(s, ip) then e == RejectedIp(ip) && s'.acceptor == Polling
         else if RateFull(s, es, ip, now) then e == RejectedRate(ip) && s'.acceptor == Polling
         else e == (if cfg.rateLimit > 0 then RatePassed(ip, now) else Quiet) && s'.acceptor == AskUser(ip)
  {
    var (s, es) := Run(cfg, moves);
    var ip := s.acceptor.ip;
    RunInv(cfg, moves);
    if Tracks(cfg) {
      assert TrackedRight(s, ip);
      TrackSectionIs(cfg, s.trackers, ip, now);
    }
    if cfg.rateLimit > 0 {
      RunStreak(cfg, moves, ip, now);
    }
    hide Run, CountInv, TrackInv, StopInv, TrackedRight;
  }

  // ---------------------------------------------------------------- being served

  /** As many connections are in flight as the limit allows. */
  predicate Full(s: Server) {
    s.cfg.maxConnections > 0 && Counted(s.conns) >= s.cfg.maxConnections
  }

  lemma PastTheLimits(cfg: Config, moves: seq<Move>, now: int)
    requires var (s, es) := Run(cfg, moves);
      && s.acceptor.CheckLimit? && !Full(s)
      && !IpFull(s, s.acceptor.ip) && !RateFull(s, es, s.acceptor.ip, now)
    ensures var s' := Run(cfg, moves + [Accept(now, true)] + [Accept(now, true)]).0;
      && s'.acceptor == AskUser(Run(cfg, moves).0.acceptor.ip)
      && s'.conns == Run(cfg, moves).0.conns
  {
    hide Step, Counted, TrackedFrom;
    var m := Accept(now, true);
    var (s, es) := Run(cfg, moves);
    LimitRejectsIff(cfg, moves, now, true);
    RunThen(cfg, moves, m);
    assert (es + [Quiet])[..|es|] == es;
    TrackRejectsIff(cfg, moves + [m], now, true);
    RunThen(cfg, moves + [m], m);
    hide Run;
  }

  /** Six moves of the acceptor when everything it asks for is granted. */
  function Granted(now: int): seq<Move> {
    [Accept(now, true)] + [Accept(now, true)] + FromUser(now)
  }

  function FromUser(now: int): seq<Move> {
    [Accept(now, true), Accept(now, true), Accept(now, true), Accept(now, true)]
  }

  lemma FromUserOn(s: Server, now: int)
    requires s.acceptor.AskUser?
    ensures After(s, FromUser(now)) ==
            s.(active := s.active + 1, conns := s.conns + [Handling(s.acceptor.ip)], acceptor := Polling)
  {
    hide TrackSection, UntrackSection;
    var m := FromUser(now);
    var s1, s2 := s.(acceptor := MakeContext(s.acceptor.ip)), s.(acceptor := CountIn(s.acceptor.ip));
    var s3 := s.(acceptor := HandOver(s.acceptor.ip), active := s.active + 1);
    assert Step(s, m[0]).0 == s1 && Step(s1, m[0]).0 == s2 && Step(s2, m[0]).0 == s3;
    var s4 := Step(s3, m[0]).0;
    hide Step;
    assert m[1..] == [m[0], m[0], m[0]] && m[1..][1..] == [m[0], m[0]] && m[1..][1..][1..] == [m[0]];
    assert After(s3, [m[0]]) == After(s4, [m[0]][1..]) == s4;
    assert After(s2, [m[0], m[0]]) == After(s3, [m[0], m[0]][1..]);
    assert After(s1, m[1..]) == After(s2, m[1..][1..]);
  }

  /** A connection that nothing stands against comes to be handled, and the acceptor goes
      on to the next: fewer connections are in flight than the limit, fewer from its address
      than that limit, and a pass is left at this reading of the clock. */
  lemma GrantedIsHandled(cfg: Config, moves: seq<Move>, now: int)
    requires var (s, es) := Run(cfg, moves);
      && s.acceptor.CheckLimit? && !Full(s)
      && !IpFull(s, s.acceptor.ip) && !RateFull(s, es, s.acceptor.ip, now)
    ensures var (s, s') := (Run(cfg, moves).0, Run(cfg, moves + Granted(now)).0);
      s'.conns == s.conns + [Handling(s.acceptor.ip)] && s'.acceptor == Polling
  {
    hide Run, Step, After, Full, IpFull, RateFull;
    PastTheLimits(cfg, moves, now);
    var past := moves + [Accept(now, true)] + [Accept(now, true)];
    FromUserOn(Run(cfg, past).0, now);
    RunAfter(cfg, past, FromUser(now));
    assert moves + Granted(now) == past + FromUser(now);
  }

  /** What the acceptor still does for a connection that is refused where it stands. */
  function Refused(a: Acceptor, now: int): seq<Move> {
    if a.HandOver? then [Accept(now, false), Accept(now, true), Accept(now, true)]
    else [Accept(now, false), Accept(now, true)]
  }

  /** A connection that on_connect refuses, or that gets no context or no worker, leaves
      nothing behind: no worker has it and no counter counts it. */
  lemma RefusedLeavesNothing(cfg: Config, moves: seq<Move>, now: int, ip: Ip)
    requires var a := Run(cfg, moves).0.acceptor; a.AskUser? || a.MakeContext? || a.HandOver?
    ensures var s := Run(cfg, moves).0;
      var s' := Run(cfg, moves + Refused(s.acceptor, now)).0;
      && s'.conns == s.conns && s'.acceptor == Polling
      && s'.active == Counted(s.conns)
      && (Tracks(cfg) ==> TrackerOf(s'.trackers, ip).active == TrackedFrom(s.conns, ip))
  {
    hide Run, Counted, TrackedFrom;
    var s := Run(cfg, moves).0;
    var more := Refused(s.acceptor, now);
    RunAfter(cfg, moves, more);
    RefusedOn(s, now);
    RunInv(cfg, moves + more);
    RestCounts(Run(cfg, moves + more).0, ip);
  }

  lemma RefusedOn(s: Server, now: int)
    requires s.acceptor.AskUser? || s.acceptor.MakeContext? || s.acceptor.HandOver?
    ensures var s' := After(s, Refused(s.acceptor, now)); s'.conns == s.conns && s'.acceptor == Polling
  {
    AfterThree(s, Accept(now, false), Accept(now, true), Accept(now, true));
  }

  lemma RestCounts(s: Server, ip: Ip)
    requires Inv(s) && s.acceptor == Polling
    ensures s.active == Counted(s.conns)
    ensures Tracks(s.cfg) ==> TrackerOf(s.trackers, ip).active == TrackedFrom(s.conns, ip)
  {
    assert Tracks(s.cfg) ==> TrackedRight(s, ip);
  }

  // ---------------------------------------------------------------- being let go

  /** A worker lets its connection go in two steps, whatever the others do it for. */
  lemma WorkerLetsGo(s: Server, i: nat)
    requires i < |s.conns| && s.conns[i].Handling?
    ensures var s' := After(s, [Work(i), Work(i)]);
      s'.conns == s.conns[i := Gone] && s'.acceptor == s.acceptor && s'.running == s.running
  {
    hide UntrackSection;
    AfterThree(s, Work(i), Work(i), Work(i));
  }

  /** A stop keeps the acceptor from looking for another connection. */
  lemma StopStops(s: Server, now: int, ok: bool)
    requires s.stopper == NotStopping && s.running
    ensures var s' := Step(s, Stop).0;
      && !s'.running && s'.conns == s.conns && s'.stopper == Joining
      && (s.acceptor == Polling ==> Step(s', Accept(now, ok)).0.acceptor == Stopped)
  {
  }

  /** Once the acceptor has stopped, a stop that drains sees at its next look whether a
      connection is in flight: it is through exactly if none is, and goes to sleep otherwise. */
  lemma DrainLooks(cfg: Config, moves: seq<Move>)
    requires cfg.drains && Run(cfg, moves).0.stopper in {Joining, Testing}
    requires Run(cfg, moves).0.acceptor == Stopped
    ensures var s := Run(cfg, moves).0;
      var looks := if s.stopper == Joining then [Stop, Stop] else [Stop];
      After(s, looks).stopper == if Counted(s.conns) == 0 then Drained else Blocked
  {
    hide Run, TrackInv;
    RunInv(cfg, moves);
    AfterThree(Run(cfg, moves).0, Stop, Stop, Stop);
  }

  /** Letting go the last connection wakes the stop that waits for it. */
  lemma LastOneWakes(cfg: Config, moves: seq<Move>, i: nat)
    requires var s := Run(cfg, moves).0;
      && s.stopper == Blocked && i < |s.conns| && s.conns[i].Untracked?
      && forall j :: 0 <= j < |s.conns| && j != i ==> s.conns[j] == Gone
    ensures Run(cfg, moves + [Work(i)]).0.stopper == Testing
  {
    hide Run, TrackInv;
    RunInv(cfg, moves);
    RunThen(cfg, moves, Work(i));
    var s := Run(cfg, moves).0;
    CountedUpdate(s.conns, i, Gone);
    AllGone(s.conns[i := Gone]);
  }

  /** A stop that does not drain ends once the acceptor has stopped, and so does one whose wait
      times out; a wait that ends for no reason looks again. */
  lemma StopGivesUp(s: Server)
    ensures s.stopper == Joining && s.acceptor == Stopped && !s.cfg.drains ==> Step(s, Stop).0 == s.(stopper := Ended)
    ensures s.stopper == Joining && s.acceptor != Stopped ==> Step(s, Stop).0 == s
    ensures s.stopper == Blocked ==> Step(s, Wake(true)).0 == s.(stopper := Ended, draining := false)
    ensures s.stopper == Blocked ==> Step(s, Wake(false)).0 == s.(stopper := Testing)
  {
  }
}
