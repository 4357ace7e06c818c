/**
  What the NAT is for, said without its data structures: a finite map from
  internal keys to an external port and a time of last use.  Each arriving
  packet first expires what has been idle too long, then is matched, touched or
  admitted.
 */
module NatSpec {
  import opened Words
  import opened Flow
  import FiniteSets

  datatype Config = Config(wan: u8, extIp: u32, startPort: u16, expiry: u32, maxFlows: int)

  datatype Headers = Headers(srcAddr: u32, dstAddr: u32, srcPort: u16, dstPort: u16, proto: u8)

  /** A received buffer, as far as the two header lookups can parse it. */
  datatype Frame = NotIpv4 | NotTcpUdp | TcpUdp(h: Headers)

  datatype Arrival = Arrival(device: u8, frame: Frame, now: u32)

  /** The device a packet is returned for and its contents by then; its own device means drop. */
  datatype Verdict = Verdict(device: u8, frame: Frame)

  datatype Session = Session(port: u16, lastUse: u32)

  type State = map<IntKey, Session>

  predicate Sane(cfg: Config)
  {
    0 < cfg.maxFlows <= 0x1_0000
  }

  /** External port of flow number `i`: sixteen bits of start + i. */
  function Port(cfg: Config, i: int): u16
  {
    (cfg.startPort + i) % 0x1_0000
  }

  lemma PortsDistinctIff(cfg: Config)
    requires 0 < cfg.maxFlows
    ensures (forall i, j | 0 <= i < j < cfg.maxFlows :: Port(cfg, i) != Port(cfg, j)) <==> cfg.maxFlows <= 0x1_0000
  {
    if cfg.maxFlows > 0x1_0000 {
      assert Port(cfg, 0) == Port(cfg, 0x1_0000);
    }
  }

  predicate InPool(cfg: Config, port: u16)
  {
    exists i :: 0 <= i < cfg.maxFlows && Port(cfg, i) == port
  }

  predicate Fresh(session: Session, expiry: u32, now: u32)
  {
    session.lastUse + expiry >= now
  }

  /** What is left after dropping every session idle for longer than `expiry`. */
  function Expire(cfg: Config, s: State, now: u32): State
  {
    map k | k in s && Fresh(s[k], cfg.expiry, now) :: s[k]
  }

  function KeyOf(device: u8, h: Headers): IntKey
  {
    IntKey(h.srcPort, h.dstPort, h.srcAddr, h.dstAddr, device, h.proto)
  }

  /** A packet from outside is addressed to the session of `k` on `port`, by the peer of that session. */
  predicate Answers(cfg: Config, h: Headers, k: IntKey, port: u16)
  {
    && h.dstAddr == cfg.extIp && h.dstPort == port
    && h.srcAddr == k.dstIp && h.srcPort == k.dstPort
    && h.proto == k.protocol
  }

  function Outward(cfg: Config, h: Headers, port: u16): Verdict
  {
    Verdict(cfg.wan, TcpUdp(h.(srcAddr := cfg.extIp, srcPort := port)))
  }

  function Inward(h: Headers, k: IntKey): Verdict
  {
    Verdict(k.intDeviceId, TcpUdp(h.(dstAddr := k.intSrcIp, dstPort := k.intSrcPort)))
  }

  function Dropped(a: Arrival): Verdict
  {
    Verdict(a.device, a.frame)
  }

  predicate PortFree(cfg: Config, s: State, port: u16)
  {
    InPool(cfg, port) && forall k | k in s :: s[k].port != port
  }

  /** A packet from inside: use the session, or open one on any free port, or drop when full. */
  predicate InsideStep(cfg: Config, live: State, a: Arrival, v: Verdict, s': State)
    requires a.frame.TcpUdp?
  {
    var k := KeyOf(a.device, a.frame.h);
    if k in live then
      && v == Outward(cfg, a.frame.h, live[k].port)
      && s' == live[k := Session(live[k].port, a.now)]
    else if |live| < cfg.maxFlows then
      && k in s' && PortFree(cfg, live, s'[k].port)
      && v == Outward(cfg, a.frame.h, s'[k].port)
      && s' == live[k := Session(s'[k].port, a.now)]
    else
      v == Dropped(a) && s' == live
  }

  /** A packet from outside: hand it to the session it answers, or drop it. */
  ghost predicate OutsideStep(cfg: Config, live: State, a: Arrival, v: Verdict, s': State)
    requires a.frame.TcpUdp?
  {
    if exists k :: k in live && Answers(cfg, a.frame.h, k, live[k].port) then
      exists k :: k in live && Answers(cfg, a.frame.h, k, live[k].port)
        && v == Inward(a.frame.h, k)
        && s' == live[k := Session(live[k].port, a.now)]
    else
      v == Dropped(a) && s' == live
  }

  ghost predicate Step(cfg: Config, s: State, a: Arrival, v: Verdict, s': State)
  {
    var live := Expire(cfg, s, a.now);
    if !a.frame.TcpUdp? then
      v == Dropped(a) && s' == live
    else if a.device == cfg.wan then
      OutsideStep(cfg, live, a, v, s')
    else
      InsideStep(cfg, live, a, v, s')
  }

  /** A whole run from start-up: states between arrivals, and a clock that never goes back. */
  ghost predicate Run(cfg: Config, a: seq<Arrival>, v: seq<Verdict>, s: seq<State>)
  {
    && Sane(cfg)
    && |v| == |a| && |s| == |a| + 1
    && s[0] == map[]
    && (forall i | 0 <= i < |a| :: Step(cfg, s[i], a[i], v[i], s[i + 1]))
    && (forall i, j | 0 <= i < j < |a| :: a[i].now <= a[j].now)
  }

  // ---------------------------------------------------------------------------
  // Invariants of every reachable state
  // ---------------------------------------------------------------------------

  /** No two sessions share a port, ports come from the pool, and sessions belong to inside devices. */
  ghost predicate Coherent(cfg: Config, s: State)
  {
    && (forall k | k in s :: k.intDeviceId != cfg.wan && InPool(cfg, s[k].port))
    && (forall k, k' | k in s && k' in s && k != k' :: s[k].port != s[k'].port)
    && |s| <= cfg.maxFlows
  }

  lemma SubmapSize(m: State, n: State)
    requires m.Keys <= n.Keys
    ensures |m| <= |n|
  {
    FiniteSets.SubsetCardinality(m.Keys, n.Keys);
  }

  lemma ExpireCoherent(cfg: Config, s: State, now: u32)
    requires Coherent(cfg, s)
    ensures Coherent(cfg, Expire(cfg, s, now))
  {
    SubmapSize(Expire(cfg, s, now), s);
  }

  lemma UpdateSize(s: State, k: IntKey, x: Session)
    ensures |s[k := x]| == if k in s then |s| else |s| + 1
  {
    assert s[k := x].Keys == s.Keys + {k};
  }

  // ---------------------------------------------------------------------------
  // Sessions as an observer of the wires sees them
  // ---------------------------------------------------------------------------

  /** The packet was forwarded, and the session that served it, read off the packet before and after. */
  predicate Uses(cfg: Config, a: Arrival, v: Verdict, k: IntKey)
  {
    && v.device != a.device
    && a.frame.TcpUdp? && v.frame.TcpUdp?
    && k == if a.device == cfg.wan
            then KeyOf(v.device, Headers(v.frame.h.dstAddr, a.frame.h.srcAddr, v.frame.h.dstPort, a.frame.h.srcPort, a.frame.h.proto))
            else KeyOf(a.device, a.frame.h)
  }

  /** A forwarded packet touches or opens exactly the session it uses; any other changes nothing. */
  lemma StepUses(cfg: Config, s: State, a: Arrival, v: Verdict, s': State) returns (k: IntKey)
    requires Coherent(cfg, s) && Step(cfg, s, a, v, s')
    ensures var live := Expire(cfg, s, a.now);
      if v.device == a.device then
        v == Dropped(a) && s' == live
      else
        && Uses(cfg, a, v, k) && k in s' && s' == live[k := Session(s'[k].port, a.now)]
        && (k in live ==> s'[k].port == live[k].port)
        && (k !in live ==> a.device != cfg.wan && |live| < cfg.maxFlows && PortFree(cfg, live, s'[k].port))
        && k.intDeviceId != cfg.wan
        && (a.device != cfg.wan ==> v == Outward(cfg, a.frame.h, s'[k].port))
        && (a.device == cfg.wan ==> v == Inward(a.frame.h, k) && Answers(cfg, a.frame.h, k, s'[k].port))
  {
    k := IntKey(0, 0, 0, 0, 0, 0);
    var live := Expire(cfg, s, a.now);
    if a.frame.TcpUdp? {
      if a.device != cfg.wan {
        k := KeyOf(a.device, a.frame.h);
      } else if exists x :: x in live && Answers(cfg, a.frame.h, x, live[x].port) {
        k :| k in live && Answers(cfg, a.frame.h, k, live[k].port)
             && v == Inward(a.frame.h, k) && s' == live[k := Session(live[k].port, a.now)];
      }
    }
  }

  lemma StepCoherent(cfg: Config, s: State, a: Arrival, v: Verdict, s': State)
    requires Coherent(cfg, s) && Step(cfg, s, a, v, s')
    ensures Coherent(cfg, s')
  {
    hide Step;
    var live := Expire(cfg, s, a.now);
    ExpireCoherent(cfg, s, a.now);
    var k := StepUses(cfg, s, a, v, s');
    if v.device != a.device {
      UpdateSize(live, k, s'[k]);
    }
  }

  lemma {:induction false} RunCoherent(cfg: Config, a: seq<Arrival>, v: seq<Verdict>, s: seq<State>, n: int)
    requires Run(cfg, a, v, s) && 0 <= n <= |a|
    ensures Coherent(cfg, s[n])
  {
    hide Step, Coherent;
    if n > 0 {
      RunCoherent(cfg, a, v, s, n - 1);
      StepCoherent(cfg, s[n - 1], a[n - 1], v[n - 1], s[n]);
    } else {
      EmptyCoherent(cfg);
    }
  }

  lemma EmptyCoherent(cfg: Config)
    requires Sane(cfg)
    ensures Coherent(cfg, map[])
  {
  }

  /**
    What packets look like on the wire.  One from inside leaves on the outside device, from the
    external address and one of the ports from the start port on, and is otherwise unchanged; or it
    is dropped as it came.  One from outside keeps its source, or is dropped.  Nothing else passes.
   */
  lemma OnTheWire(cfg: Config, a: seq<Arrival>, v: seq<Verdict>, s: seq<State>, i: int) returns (j: int)
    requires Run(cfg, a, v, s) && 0 <= i < |a|
    ensures v[i].device == a[i].device ==> v[i].frame == a[i].frame
    ensures v[i].device != a[i].device ==> a[i].frame.TcpUdp? && v[i].frame.TcpUdp?
    ensures v[i].device != a[i].device && a[i].device != cfg.wan ==>
              var h := a[i].frame.h;
              && 0 <= j < cfg.maxFlows && v[i].device == cfg.wan
              && v[i].frame.h == Headers(cfg.extIp, h.dstAddr, (cfg.startPort + j) % 0x1_0000, h.dstPort, h.proto)
    ensures v[i].device != a[i].device && a[i].device == cfg.wan ==>
              && v[i].frame.h.srcAddr == a[i].frame.h.srcAddr && v[i].frame.h.srcPort == a[i].frame.h.srcPort
              && v[i].frame.h.proto == a[i].frame.h.proto
  {
    hide Step, Coherent, PortFree, Expire, Run;
    RunAt(cfg, a, v, s, i);
    RunCoherent(cfg, a, v, s, i);
    RunCoherent(cfg, a, v, s, i + 1);
    var k := StepUses(cfg, s[i], a[i], v[i], s[i + 1]);
    j := 0;
    if v[i].device != a[i].device {
      j := SlotOf(cfg, s[i + 1], k);
    }
  }

  lemma RunAt(cfg: Config, a: seq<Arrival>, v: seq<Verdict>, s: seq<State>, i: int)
    requires Run(cfg, a, v, s) && 0 <= i < |a|
    ensures |v| == |a| && |s| == |a| + 1 && Step(cfg, s[i], a[i], v[i], s[i + 1])
  {
  }

  lemma SlotOf(cfg: Config, s: State, k: IntKey) returns (j: int)
    requires Coherent(cfg, s) && k in s
    ensures 0 <= j < cfg.maxFlows && s[k].port == (cfg.startPort + j) % 0x1_0000
  {
    assert InPool(cfg, s[k].port);
    j :| 0 <= j < cfg.maxFlows && Port(cfg, j) == s[k].port;
  }

  lemma RunNone(cfg: Config)
    requires Sane(cfg)
    ensures Run(cfg, [], [], [map[]])
  {
  }

  lemma RunMore(cfg: Config, a: seq<Arrival>, v: seq<Verdict>, s: seq<State>, a1: Arrival, v1: Verdict, s1: State)
    requires Run(cfg, a, v, s) && Step(cfg, s[|a|], a1, v1, s1) && (a != [] ==> a[|a| - 1].now <= a1.now)
    ensures Run(cfg, a + [a1], v + [v1], s + [s1])
  {
    hide Step;
    var a', v', s' := a + [a1], v + [v1], s + [s1];
    forall i | 0 <= i < |a'| ensures Step(cfg, s'[i], a'[i], v'[i], s'[i + 1]) {
      if i < |a| { assert Step(cfg, s[i], a[i], v[i], s[i + 1]); }
    }
  }

  // ---------------------------------------------------------------------------
  // How long a session lives
  // ---------------------------------------------------------------------------

  /** Packet `i` used the session of `k`, recently enough to count at time `now`. */
  predicate UsedBy(cfg: Config, a: seq<Arrival>, v: seq<Verdict>, k: IntKey, i: int, now: u32)
    requires |a| == |v| && 0 <= i < |a|
  {
    Uses(cfg, a[i], v[i], k) && a[i].now + cfg.expiry >= now
  }

  /** Some packet from number `from` on and before number `n` used `k` and still counts at time `now`. */
  predicate RecentlyUsed(cfg: Config, a: seq<Arrival>, v: seq<Verdict>, k: IntKey, from: int, n: int, now: u32)
    requires |a| == |v| && 0 <= from && n <= |a|
  {
    exists i :: from <= i < n && UsedBy(cfg, a, v, k, i, now)
  }

  /** A session's recorded time is the time of the latest packet that used it. */
  lemma {:induction false} LastUseRecorded(cfg: Config, a: seq<Arrival>, v: seq<Verdict>, s: seq<State>, n: int, k: IntKey, now: u32)
    requires Run(cfg, a, v, s) && 0 <= n <= |a| && (n > 0 ==> a[n - 1].now <= now)
    ensures k in s[n] ==> exists i :: 0 <= i < n && Uses(cfg, a[i], v[i], k) && s[n][k].lastUse == a[i].now
    ensures forall i | 0 <= i < n && UsedBy(cfg, a, v, k, i, now) :: k in s[n] && a[i].now <= s[n][k].lastUse
  {
    hide Step, Coherent;
    if n > 0 {
      LastUseRecorded(cfg, a, v, s, n - 1, k, now);
      RunCoherent(cfg, a, v, s, n - 1);
      var x := StepUses(cfg, s[n - 1], a[n - 1], v[n - 1], s[n]);
      if k in s[n] && (v[n - 1].device == a[n - 1].device || x != k) {
        assert k in s[n - 1];
      }
      forall i | 0 <= i < n && UsedBy(cfg, a, v, k, i, now)
        ensures k in s[n] && a[i].now <= s[n][k].lastUse
      {
        assert a[i].now <= a[n - 1].now;
      }
    }
  }

  /**
    Exact lifetime: just before packet `n` is matched, the live sessions are those
    some earlier packet used within the expiry time -- no more and no fewer.
   */
  lemma LiveIffRecentlyUsed(cfg: Config, a: seq<Arrival>, v: seq<Verdict>, s: seq<State>, n: int, k: IntKey)
    requires Run(cfg, a, v, s) && 0 <= n < |a|
    ensures k in Expire(cfg, s[n], a[n].now) <==> RecentlyUsed(cfg, a, v, k, 0, n, a[n].now)
  {
    LastUseRecorded(cfg, a, v, s, n, k, a[n].now);
    hide Step;
    if k in Expire(cfg, s[n], a[n].now) {
      var i :| 0 <= i < n && Uses(cfg, a[i], v[i], k) && s[n][k].lastUse == a[i].now;
      assert UsedBy(cfg, a, v, k, i, a[n].now);
    }
  }

  /** The same after packet `n` has been processed, when its own use counts too. */
  lemma HeldIffRecentlyUsed(cfg: Config, a: seq<Arrival>, v: seq<Verdict>, s: seq<State>, n: int, k: IntKey)
    requires Run(cfg, a, v, s) && 0 <= n < |a|
    ensures k in s[n + 1] <==> RecentlyUsed(cfg, a, v, k, 0, n + 1, a[n].now)
  {
    hide Step, Coherent;
    LiveIffRecentlyUsed(cfg, a, v, s, n, k);
    RunCoherent(cfg, a, v, s, n);
    var x := StepUses(cfg, s[n], a[n], v[n], s[n + 1]);
    if Uses(cfg, a[n], v[n], k) {
      assert UsedBy(cfg, a, v, k, n, a[n].now);
    }
    if RecentlyUsed(cfg, a, v, k, 0, n, a[n].now) {
      var i :| 0 <= i < n && UsedBy(cfg, a, v, k, i, a[n].now);
      assert 0 <= i < n + 1;
    }
  }

  /** Exact admission: an inside packet is refused just when its flow is new and the table is full of recently used flows. */
  lemma RefusedIffFull(cfg: Config, a: seq<Arrival>, v: seq<Verdict>, s: seq<State>, n: int, recent: set<IntKey>)
    requires Run(cfg, a, v, s) && 0 <= n < |a|
    requires a[n].frame.TcpUdp? && a[n].device != cfg.wan
    requires forall k :: k in recent <==> RecentlyUsed(cfg, a, v, k, 0, n, a[n].now)
    ensures |recent| <= cfg.maxFlows
    ensures v[n].device == a[n].device <==> KeyOf(a[n].device, a[n].frame.h) !in recent && |recent| == cfg.maxFlows
  {
    var live := Expire(cfg, s[n], a[n].now);
    forall k ensures k in recent <==> k in live {
      LiveIffRecentlyUsed(cfg, a, v, s, n, k);
    }
    assert recent == live.Keys;
    RunCoherent(cfg, a, v, s, n);
    ExpireCoherent(cfg, s[n], a[n].now);
    assert Step(cfg, s[n], a[n], v[n], s[n + 1]);
  }

  // ---------------------------------------------------------------------------
  // Round trip
  // ---------------------------------------------------------------------------

  /** Packet `i` came from inside and went out on the session of `k`. */
  predicate SentBy(cfg: Config, a: seq<Arrival>, v: seq<Verdict>, k: IntKey, i: int)
    requires |a| == |v| && 0 <= i < |a|
  {
    a[i].device != cfg.wan && Uses(cfg, a[i], v[i], k)
  }

  /** `h` is what the peer of a packet seen as `out` on the wire sends back. */
  predicate Replies(h: Headers, out: Headers)
  {
    h == Headers(out.dstAddr, out.srcAddr, out.dstPort, out.srcPort, out.proto)
  }

  /** From packet `i` to packet `j`, no arrival found the session of `k` idle for longer than the expiry time. */
  predicate Unexpired(cfg: Config, a: seq<Arrival>, v: seq<Verdict>, k: IntKey, i: int, j: int)
    requires |a| == |v| && 0 <= i && j < |a|
  {
    forall l | i < l <= j :: RecentlyUsed(cfg, a, v, k, i, l, a[l].now)
  }

  /** While a session stays unexpired it stays live and keeps its port. */
  lemma {:induction false} KeepsPort(cfg: Config, a: seq<Arrival>, v: seq<Verdict>, s: seq<State>, k: IntKey, i: int, l: int)
    requires Run(cfg, a, v, s) && 0 <= i < l < |a|
    requires SentBy(cfg, a, v, k, i) && Unexpired(cfg, a, v, k, i, l)
    ensures k in Expire(cfg, s[l], a[l].now)
    ensures v[i] == Outward(cfg, a[i].frame.h, s[l][k].port)
    decreases l
  {
    hide Step, Coherent;
    LiveIffRecentlyUsed(cfg, a, v, s, l, k);
    assert RecentlyUsed(cfg, a, v, k, i, l, a[l].now);
    if i < l - 1 { KeepsPort(cfg, a, v, s, k, i, l - 1); }
    RunCoherent(cfg, a, v, s, l - 1);
    var x := StepUses(cfg, s[l - 1], a[l - 1], v[l - 1], s[l]);
  }

  /** Packet `i` opened the session of `k` on `port`; it has not lapsed before packet `n` and packet `m` used it last. */
  predicate Origin(cfg: Config, a: seq<Arrival>, v: seq<Verdict>, k: IntKey, i: int, m: int, n: int, x: Session)
    requires |a| == |v| && n <= |a|
  {
    && 0 <= i <= m < n
    && SentBy(cfg, a, v, k, i) && v[i] == Outward(cfg, a[i].frame.h, x.port)
    && Unexpired(cfg, a, v, k, i, n - 1)
    && Uses(cfg, a[m], v[m], k) && x.lastUse == a[m].now
  }

  lemma {:induction false} HasOrigin(cfg: Config, a: seq<Arrival>, v: seq<Verdict>, s: seq<State>, k: IntKey, n: int)
    returns (i: int, m: int)
    requires Run(cfg, a, v, s) && 0 <= n <= |a| && k in s[n]
    ensures Origin(cfg, a, v, k, i, m, n, s[n][k])
  {
    hide Step, Coherent;
    RunCoherent(cfg, a, v, s, n - 1);
    var x := StepUses(cfg, s[n - 1], a[n - 1], v[n - 1], s[n]);
    var live := Expire(cfg, s[n - 1], a[n - 1].now);
    if k in live {
      i, m := HasOrigin(cfg, a, v, s, k, n - 1);
      assert UsedBy(cfg, a, v, k, m, a[n - 1].now);
      if v[n - 1].device != a[n - 1].device && x == k { m := n - 1; }
    } else {
      i, m := n - 1, n - 1;
    }
  }

  /**
    Round trip over runs: a packet from outside reaches the inside flow `k` exactly
    when it replies to a packet `k` sent out earlier and the session has not lapsed
    in between, whatever other packets came by; and it is then rewritten to the
    address, port and device that packet came from.
   */
  lemma ReplyReachesSender(cfg: Config, a: seq<Arrival>, v: seq<Verdict>, s: seq<State>, k: IntKey, j: int)
    requires Run(cfg, a, v, s) && 0 <= j < |a| && a[j].device == cfg.wan && a[j].frame.TcpUdp?
    ensures Uses(cfg, a[j], v[j], k) <==>
            exists i :: 0 <= i < j && SentBy(cfg, a, v, k, i) && Replies(a[j].frame.h, v[i].frame.h)
                        && Unexpired(cfg, a, v, k, i, j)
    ensures forall i | 0 <= i < j && SentBy(cfg, a, v, k, i) && Uses(cfg, a[j], v[j], k) ::
              v[j] == Verdict(a[i].device, TcpUdp(a[j].frame.h.(dstAddr := a[i].frame.h.srcAddr, dstPort := a[i].frame.h.srcPort)))
    ensures v[j] == Dropped(a[j]) || exists k :: Uses(cfg, a[j], v[j], k)
  {
    hide Step;
    RunCoherent(cfg, a, v, s, j);
    var x := StepUses(cfg, s[j], a[j], v[j], s[j + 1]);
    if Uses(cfg, a[j], v[j], k) {
      var i, m := HasOrigin(cfg, a, v, s, k, j);
      assert UsedBy(cfg, a, v, k, m, a[j].now);
      assert Unexpired(cfg, a, v, k, i, j);
      assert Replies(a[j].frame.h, v[i].frame.h);
    }
    forall i | 0 <= i < j && SentBy(cfg, a, v, k, i) && Replies(a[j].frame.h, v[i].frame.h) && Unexpired(cfg, a, v, k, i, j)
      ensures Uses(cfg, a[j], v[j], k)
    {
      KeepsPort(cfg, a, v, s, k, i, j);
      AnsweredIsUsed(cfg, s[j], a[j], v[j], s[j + 1], k);
    }
  }

  /** Ports being distinct, a packet from outside that answers a live session is served by that one. */
  lemma AnsweredIsUsed(cfg: Config, s: State, a: Arrival, v: Verdict, s': State, k: IntKey)
    requires Coherent(cfg, s) && Step(cfg, s, a, v, s')
    requires a.device == cfg.wan && a.frame.TcpUdp?
    requires var live := Expire(cfg, s, a.now); k in live && Answers(cfg, a.frame.h, k, live[k].port)
    ensures Uses(cfg, a, v, k)
  {
  }
}
