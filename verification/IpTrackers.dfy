/** The linked list of per-address trackers of kernel/tcp/src/tcp.c, changed in place;
its critical sections are proved against those of the same name in Admission. */
module IpTrackers {
  import opened Admission

  class Node {
    const ip: Ip
    var activeCount: int
    var lastConnectTime: int
    var connectsThisSecond: nat
    const next: Node?

    constructor (ip: Ip, next: Node?)
      ensures this.ip == ip && this.next == next
      ensures activeCount == 0 && lastConnectTime == 0 && connectsThisSecond == 0
    {
      this.ip, this.next := ip, next;
      activeCount, lastConnectTime, connectsThisSecond := 0, 0, 0;
    }

    function Value(): Tracker
      reads this
    {
      Tracker(activeCount, lastConnectTime, connectsThisSecond)
    }
  }

  /** The list from `head`, with one tracker for an address. */
  ghost predicate Listed(head: Node?, chain: seq<Node>) {
    && Distinct(Ips(chain))
    && (if chain == [] then head == null else head == chain[0] && chain[|chain| - 1].next == null)
    && (forall i :: 0 <= i < |chain| - 1 ==> chain[i].next == chain[i + 1])
  }

  ghost function Ips(chain: seq<Node>): (r: seq<Ip>)
    ensures |r| == |chain| && forall i :: 0 <= i < |chain| ==> r[i] == chain[i].ip
  {
    seq(|chain|, i requires 0 <= i < |chain| => chain[i].ip)
  }

  ghost function Values(chain: seq<Node>): (r: seq<Tracker>)
    reads chain
    ensures |r| == |chain| && forall i :: 0 <= i < |chain| ==> r[i] == chain[i].Value()
  {
    seq(|chain|, i requires 0 <= i < |chain| reads chain => chain[i].Value())
  }

  /** The first tracker of an address counts. */
  function MapOf(ips: seq<Ip>, vs: seq<Tracker>): map<Ip, Tracker>
    requires |ips| == |vs|
  {
    if ips == [] then map[] else MapOf(ips[1..], vs[1..])[ips[0] := vs[0]]
  }

  ghost predicate Distinct(ips: seq<Ip>) {
    forall i, j :: 0 <= i < j < |ips| ==> ips[i] != ips[j]
  }

  lemma {:induction false} MapOfFacts(ips: seq<Ip>, vs: seq<Tracker>)
    requires |ips| == |vs| && Distinct(ips)
    ensures forall ip :: ip in MapOf(ips, vs) <==> ip in ips
    ensures forall i :: 0 <= i < |ips| ==> MapOf(ips, vs)[ips[i]] == vs[i]
  {
    if ips != [] {
      MapOfFacts(ips[1..], vs[1..]);
      assert ips == [ips[0]] + ips[1..];
      forall i | 0 <= i < |ips|
        ensures MapOf(ips, vs)[ips[i]] == vs[i]
      {
        assert i > 0 ==> ips[i] == ips[1..][i - 1] && vs[i] == vs[1..][i - 1];
      }
    }
  }

  lemma DistinctPush(ip: Ip, ips: seq<Ip>)
    requires Distinct(ips) && ip !in ips
    ensures Distinct([ip] + ips)
  {
  }

  lemma MapOfPush(ip: Ip, ips: seq<Ip>, v: Tracker, vs: seq<Tracker>)
    requires |ips| == |vs|
    ensures MapOf([ip] + ips, [v] + vs) == MapOf(ips, vs)[ip := v]
  {
    assert ([ip] + ips)[1..] == ips && ([v] + vs)[1..] == vs;
  }

  lemma {:induction false} MapOfUpdate(ips: seq<Ip>, vs: seq<Tracker>, i: nat, v: Tracker)
    requires |ips| == |vs| && Distinct(ips) && i < |ips|
    ensures MapOf(ips, vs[i := v]) == MapOf(ips, vs)[ips[i] := v]
  {
    if i == 0 {
      assert vs[0 := v][1..] == vs[1..];
    } else {
      assert vs[i := v][1..] == vs[1..][i - 1 := v];
      assert ips[1..][i - 1] == ips[i];
      MapOfUpdate(ips[1..], vs[1..], i - 1, v);
    }
  }

  lemma UpdatedTwice(m: map<Ip, Tracker>, ip: Ip, a: Tracker, b: Tracker)
    ensures m[ip := a][ip := b] == m[ip := b]
  {
  }

  /** The branches of the section, by the tracker of the address. */
  lemma TrackCases(cfg: Config, ts: map<Ip, Tracker>, ip: Ip, now: int)
    requires cfg.maxPerIp > 0 || cfg.rateLimit > 0
    ensures var t := TrackerOf(ts, ip);
      TrackSection(cfg, ts, ip, now) ==
      if cfg.maxPerIp > 0 && t.active >= cfg.maxPerIp then (ts[ip := t], IpLimited)
      else if cfg.rateLimit > 0 && t.last == now && t.connects >= cfg.rateLimit then (ts[ip := t], RateLimited)
      else if cfg.rateLimit == 0 then (ts[ip := Tracker(t.active + 1, t.last, t.connects)], Pass)
      else (ts[ip := Tracker(t.active + 1, now, if t.last == now then t.connects + 1 else 1)], Pass)
  {
  }

  class IpTrackerList {
    var head: Node?
    ghost var chain: seq<Node>

    ghost predicate Valid()
      reads this
    {
      Listed(head, chain)
    }

    ghost function View(): map<Ip, Tracker>
      reads this, chain
    {
      MapOf(Ips(chain), Values(chain))
    }

    constructor ()
      ensures Valid() && chain == [] && View() == map[]
    {
      head, chain := null, [];
    }

    /** `ip_tracker_find` */
    method Find(ip: Ip) returns (t: Node?, ghost i: nat)
      requires Valid()
      ensures t == null <==> ip !in Ips(chain)
      ensures t != null ==> i < |chain| && t == chain[i] && t.ip == ip
    {
      t, i := head, 0;
      while t != null
        invariant i <= |chain| && (i < |chain| <==> t != null)
        invariant t != null ==> t == chain[i]
        invariant forall j :: 0 <= j < i ==> Ips(chain)[j] != ip
        decreases |chain| - i
      {
        if t.ip == ip {
          assert Ips(chain)[i] == ip;
          return;
        }
        assert i < |chain| - 1 ==> chain[i].next == chain[i + 1];
        t, i := t.next, i + 1;
      }
    }

    /** `ip_tracker_get_or_create` */
    method GetOrCreate(ip: Ip) returns (t: Node, ghost i: nat)
      requires Valid()
      modifies this
      ensures Valid() && i < |chain| && t == chain[i] && t.ip == ip
      ensures View() == old(View())[ip := TrackerOf(old(View()), ip)]
      ensures t.Value() == TrackerOf(old(View()), ip)
      ensures forall n :: n in chain ==> n in old(chain) || fresh(n)
    {
      hide MapOf;
      MapOfFacts(Ips(chain), Values(chain));
      var found, at := Find(ip);
      if found != null {
        return found, at;
      }
      t := Create(ip);
      i := 0;
    }

    method Create(ip: Ip) returns (t: Node)
      requires Valid() && ip !in Ips(chain)
      modifies this
      ensures Valid() && chain == [t] + old(chain) && fresh(t) && t.ip == ip
      ensures View() == old(View())[ip := Tracker(0, 0, 0)] && t.Value() == Tracker(0, 0, 0)
    {
      hide MapOf, Distinct;
      t := new Node(ip, head);
      DistinctPush(ip, Ips(chain));
      chain := [t] + chain;
      head := t;
      assert Ips(chain) == [ip] + Ips(old(chain));
      assert Values(chain) == [t.Value()] + old(Values(chain));
      MapOfPush(ip, Ips(old(chain)), t.Value(), old(Values(chain)));
    }

    /** The critical section of the accept loop: the tracker is looked up, tested and counted up. */
    method Track(cfg: Config, ip: Ip, now: int) returns (v: Verdict)
      requires Valid() && (cfg.maxPerIp > 0 || cfg.rateLimit > 0)
      modifies this, chain
      ensures Valid() && (View(), v) == TrackSection(cfg, old(View()), ip, now)
    {
      hide MapOf, TrackSection;
      TrackCases(cfg, View(), ip, now);
      var t, i := GetOrCreate(ip);
      assert t in chain;
      if cfg.maxPerIp > 0 && t.activeCount >= cfg.maxPerIp {
        return IpLimited;
      }
      if cfg.rateLimit > 0 && t.lastConnectTime == now && t.connectsThisSecond >= cfg.rateLimit {
        return RateLimited;
      }
      Admit(cfg.rateLimit > 0, t, i, now);
      UpdatedTwice(old(View()), ip, TrackerOf(old(View()), ip), t.Value());
      return Pass;
    }

    /** What the section writes when the connection passes both checks. */
    method Admit(rated: bool, t: Node, ghost i: nat, now: int)
      requires Valid() && i < |chain| && t == chain[i]
      modifies t
      ensures Valid() && View() == old(View())[t.ip := t.Value()]
      ensures t.activeCount == old(t.activeCount) + 1
      ensures !rated ==> t.lastConnectTime == old(t.lastConnectTime)
      ensures !rated ==> t.connectsThisSecond == old(t.connectsThisSecond)
      ensures rated ==> t.lastConnectTime == now
      ensures rated ==> t.connectsThisSecond ==
                        if old(t.lastConnectTime) == now then old(t.connectsThisSecond) + 1 else 1
    {
      hide MapOf;
      if rated {
        if t.lastConnectTime == now {
          t.connectsThisSecond := t.connectsThisSecond + 1;
        } else {
          t.lastConnectTime := now;
          t.connectsThisSecond := 1;
        }
      }
      t.activeCount := t.activeCount + 1;
      MapOfUpdate(Ips(chain), old(Values(chain)), i, t.Value());
      SameElsewhere(chain, i);
      assert Values(chain) == old(Values(chain))[i := t.Value()];
    }

    /** `ip_tracker_decrement` */
    method Decrement(ip: Ip)
      requires Valid()
      modifies chain
      ensures Valid() && View() == UntrackSection(old(View()), ip)
    {
      hide MapOf;
      var t, i := Find(ip);
      MapOfFacts(Ips(chain), Values(chain));
      if t != null && t.activeCount > 0 {
        t.activeCount := t.activeCount - 1;
        MapOfUpdate(Ips(chain), old(Values(chain)), i, t.Value());
        SameElsewhere(chain, i);
        assert Values(chain) == old(Values(chain))[i := t.Value()];
      }
    }
  }

  lemma SameElsewhere(chain: seq<Node>, i: nat)
    requires Distinct(Ips(chain)) && i < |chain|
    ensures forall j :: 0 <= j < |chain| && j != i ==> chain[j] != chain[i]
  {
    forall j | 0 <= j < |chain| && j != i
      ensures chain[j] != chain[i]
    {
      assert Ips(chain)[j] != Ips(chain)[i];
    }
  }
}
