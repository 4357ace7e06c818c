/**
  Which port a flow gets.  Slots are handed out from a stack of free ones, flows are kept in the
  order of their last use, and the slots of lapsed flows go back on the stack oldest first.
 */
module NatBook {
  import opened Words
  import opened Flow
  import opened NatSpec
  import FiniteSets

  datatype Entry = Entry(key: IntKey, index: int, lastUse: u32)

  /** The flows, least recently used first, and the free slots, next one first. */
  datatype Book = Book(flows: seq<Entry>, free: seq<int>)

  predicate Stale(cfg: Config, e: Entry, now: u32)
  {
    e.lastUse + cfg.expiry < now
  }

  function Expired(cfg: Config, b: Book, now: u32): Book
    decreases |b.flows|
  {
    if b.flows == [] || !Stale(cfg, b.flows[0], now) then b
    else Expired(cfg, Book(b.flows[1..], [b.flows[0].index] + b.free), now)
  }

  function Touched(b: Book, p: int, now: u32): Book
    requires 0 <= p < |b.flows|
  {
    Book(b.flows[..p] + b.flows[p + 1..] + [b.flows[p].(lastUse := now)], b.free)
  }

  function Opened(b: Book, k: IntKey, now: u32): Book
    requires b.free != []
  {
    Book(b.flows + [Entry(k, b.free[0], now)], b.free[1..])
  }

  /** A flow of `k` was opened on the next free slot, whose port is `port`. */
  predicate OpenedNext(cfg: Config, b: Book, k: IntKey, port: u16, now: u32, b': Book)
  {
    b.free != [] && port == Port(cfg, b.free[0]) && b' == Opened(b, k, now)
  }

  /** Entry `p`, of `k` on `port`, was touched. */
  predicate TouchedAt(cfg: Config, b: Book, k: IntKey, port: u16, p: int, now: u32, b': Book)
  {
    KnownAt(b, k, p) && port == Port(cfg, b.flows[p].index) && b' == Touched(b, p, now)
  }

  predicate KnownAt(b: Book, k: IntKey, p: int)
  {
    0 <= p < |b.flows| && b.flows[p].key == k
  }

  predicate AnsweredAt(cfg: Config, b: Book, h: Headers, p: int)
  {
    0 <= p < |b.flows| && Answers(cfg, h, b.flows[p].key, Port(cfg, b.flows[p].index))
  }

  ghost predicate InsideBook(cfg: Config, e: Book, a: Arrival, v: Verdict, b': Book)
    requires a.frame.TcpUdp?
  {
    var h := a.frame.h;
    var k := KeyOf(a.device, h);
    if exists p :: KnownAt(e, k, p) then
      exists p :: KnownAt(e, k, p) && v == Outward(cfg, h, Port(cfg, e.flows[p].index)) && b' == Touched(e, p, a.now)
    else if e.free != [] then
      v == Outward(cfg, h, Port(cfg, e.free[0])) && b' == Opened(e, k, a.now)
    else
      v == Dropped(a) && b' == e
  }

  ghost predicate OutsideBook(cfg: Config, e: Book, a: Arrival, v: Verdict, b': Book)
    requires a.frame.TcpUdp?
  {
    if exists p :: AnsweredAt(cfg, e, a.frame.h, p) then
      exists p :: AnsweredAt(cfg, e, a.frame.h, p) && v == Inward(a.frame.h, e.flows[p].key) && b' == Touched(e, p, a.now)
    else
      v == Dropped(a) && b' == e
  }

  ghost predicate BookStep(cfg: Config, b: Book, a: Arrival, v: Verdict, b': Book)
  {
    var e := Expired(cfg, b, a.now);
    if !a.frame.TcpUdp? then v == Dropped(a) && b' == e
    else if a.device == cfg.wan then OutsideBook(cfg, e, a, v, b')
    else InsideBook(cfg, e, a, v, b')
  }

  /** The book lists exactly the sessions of `s`. */
  ghost predicate Agrees(cfg: Config, s: State, b: Book)
  {
    && |b.flows| == |s|
    && (forall p | 0 <= p < |b.flows| :: b.flows[p].key in s
          && s[b.flows[p].key] == Session(Port(cfg, b.flows[p].index), b.flows[p].lastUse))
    && (forall k | k in s :: exists p :: KnownAt(b, k, p))
  }

  lemma NotAnswered(cfg: Config, s: State, b: Book, h: Headers)
    requires Agrees(cfg, s, b) && !exists k :: k in s && Answers(cfg, h, k, s[k].port)
    ensures !exists p :: AnsweredAt(cfg, b, h, p)
  {
  }

  lemma NotKnown(cfg: Config, s: State, b: Book, k: IntKey)
    requires Agrees(cfg, s, b) && k !in s
    ensures !exists p :: KnownAt(b, k, p)
  {
  }

  /** The books of a run: all slots free at first, in order. */
  ghost predicate BookRun(cfg: Config, a: seq<Arrival>, v: seq<Verdict>, s: seq<State>, b: seq<Book>)
  {
    && |v| == |a| && |s| == |b| == |a| + 1
    && b[0].flows == [] && |b[0].free| == cfg.maxFlows && (forall k | 0 <= k < cfg.maxFlows :: b[0].free[k] == k)
    && (forall i | 0 <= i < |a| :: BookStep(cfg, b[i], a[i], v[i], b[i + 1]))
    && (forall i | 0 <= i <= |a| :: Agrees(cfg, s[i], b[i]))
  }

  lemma BookRunNone(cfg: Config, b: Book)
    requires b.flows == [] && |b.free| == cfg.maxFlows && (forall k | 0 <= k < cfg.maxFlows :: b.free[k] == k)
    ensures BookRun(cfg, [], [], [map[]], [b])
  {
  }

  lemma BookRunMore(cfg: Config, a: seq<Arrival>, v: seq<Verdict>, s: seq<State>, b: seq<Book>,
                    a1: Arrival, v1: Verdict, s1: State, b1: Book)
    requires BookRun(cfg, a, v, s, b) && BookStep(cfg, b[|a|], a1, v1, b1) && Agrees(cfg, s1, b1)
    ensures BookRun(cfg, a + [a1], v + [v1], s + [s1], b + [b1])
  {
    hide BookStep, Agrees;
    var a', v', b' := a + [a1], v + [v1], b + [b1];
    forall i | 0 <= i < |a'| ensures BookStep(cfg, b'[i], a'[i], v'[i], b'[i + 1]) {
      if i < |a| { assert BookStep(cfg, b[i], a[i], v[i], b[i + 1]); }
    }
  }

  lemma BookRunShape(cfg: Config, a: seq<Arrival>, v: seq<Verdict>, s: seq<State>, b: seq<Book>)
    requires BookRun(cfg, a, v, s, b)
    ensures |v| == |a| && |s| == |b| == |a| + 1
  {
  }

  // ---------------------------------------------------------------------------
  // While nothing lapses
  // ---------------------------------------------------------------------------

  lemma NoneStale(cfg: Config, s: State, b: Book, now: u32)
    requires Agrees(cfg, s, b) && Expire(cfg, s, now) == s
    ensures Expired(cfg, b, now) == b
  {
    if b.flows != [] {
      assert b.flows[0].key in Expire(cfg, s, now);
    }
  }

  predicate FreeInOrder(cfg: Config, b: Book)
  {
    |b.flows| + |b.free| == cfg.maxFlows && forall k | 0 <= k < |b.free| :: b.free[k] == |b.flows| + k
  }

  lemma StepInOrder(cfg: Config, b: Book, a: Arrival, v: Verdict, b': Book)
    requires BookStep(cfg, b, a, v, b') && Expired(cfg, b, a.now) == b && FreeInOrder(cfg, b)
    ensures FreeInOrder(cfg, b')
  {
  }

  /** Until something lapses the slots are given out in order. */
  lemma {:induction false} SlotsInOrder(cfg: Config, a: seq<Arrival>, v: seq<Verdict>, s: seq<State>, b: seq<Book>, n: int)
    requires BookRun(cfg, a, v, s, b) && 0 <= n <= |a|
    requires forall l | 0 <= l < n :: Expire(cfg, s[l], a[l].now) == s[l]
    ensures FreeInOrder(cfg, b[n])
  {
    hide Expire, BookStep, Agrees, FreeInOrder;
    if n == 0 {
      FirstInOrder(cfg, b[0]);
    } else {
      SlotsInOrder(cfg, a, v, s, b, n - 1);
      NoneStale(cfg, s[n - 1], b[n - 1], a[n - 1].now);
      StepInOrder(cfg, b[n - 1], a[n - 1], v[n - 1], b[n]);
    }
  }

  lemma FirstInOrder(cfg: Config, b: Book)
    requires b.flows == [] && |b.free| == cfg.maxFlows && (forall k | 0 <= k < cfg.maxFlows :: b.free[k] == k)
    ensures FreeInOrder(cfg, b)
  {
  }

  /** Up to packet `n`, no flow that was used has been idle for longer than the expiry time. */
  predicate NoLapse(cfg: Config, a: seq<Arrival>, v: seq<Verdict>, n: int)
    requires |v| == |a| && n < |a|
  {
    forall l, i | 0 <= i < l <= n && v[i].device != a[i].device && a[i].frame.TcpUdp? && v[i].frame.TcpUdp? ::
      RecentlyUsed(cfg, a, v, KeyUsed(cfg, a[i], v[i]), 0, l, a[l].now)
  }

  /** The flow a forwarded packet belongs to. */
  function KeyUsed(cfg: Config, a: Arrival, v: Verdict): IntKey
    requires a.frame.TcpUdp? && v.frame.TcpUdp?
  {
    if a.device == cfg.wan
    then IntKey(v.frame.h.dstPort, a.frame.h.srcPort, v.frame.h.dstAddr, a.frame.h.srcAddr, v.device, a.frame.h.proto)
    else IntKey(a.frame.h.srcPort, a.frame.h.dstPort, a.frame.h.srcAddr, a.frame.h.dstAddr, a.device, a.frame.h.proto)
  }

  /** Nothing lapses within the expiry time of the first packet. */
  lemma EarlyNoLapse(cfg: Config, a: seq<Arrival>, v: seq<Verdict>, s: seq<State>, n: int)
    requires Run(cfg, a, v, s) && 0 <= n < |a| && a[n].now <= a[0].now + cfg.expiry
    ensures NoLapse(cfg, a, v, n)
  {
    hide Step;
    forall l, i | 0 <= i < l <= n && v[i].device != a[i].device && a[i].frame.TcpUdp? && v[i].frame.TcpUdp?
      ensures RecentlyUsed(cfg, a, v, KeyUsed(cfg, a[i], v[i]), 0, l, a[l].now)
    {
      assert a[0].now <= a[i].now && a[l].now <= a[n].now;
      assert UsedBy(cfg, a, v, KeyUsed(cfg, a[i], v[i]), i, a[l].now);
    }
  }

  lemma NoLapseKeeps(cfg: Config, a: seq<Arrival>, v: seq<Verdict>, s: seq<State>, n: int, l: int, k: IntKey)
    requires Run(cfg, a, v, s) && 0 <= l <= n < |a| && NoLapse(cfg, a, v, n)
    ensures k in s[l] <==> exists i :: 0 <= i < l && Uses(cfg, a[i], v[i], k)
    ensures k in s[l] <==> k in Expire(cfg, s[l], a[l].now)
  {
    hide Step, RecentlyUsed, Expire;
    LastUseRecorded(cfg, a, v, s, l, k, a[l].now);
    LiveIffRecentlyUsed(cfg, a, v, s, l, k);
    ExpireWithin(cfg, s[l], a[l].now);
    if i :| 0 <= i < l && Uses(cfg, a[i], v[i], k) {
      assert k == KeyUsed(cfg, a[i], v[i]);
    }
  }

  lemma ExpireWithin(cfg: Config, s: State, now: u32)
    ensures forall k | k in Expire(cfg, s, now) :: k in s && Expire(cfg, s, now)[k] == s[k]
  {
  }

  /**
    While nothing has lapsed, the first packet of a flow that `seen` others came before leaves from
    port start + |seen|, in sixteen bits.
   */
  lemma NthFlowPort(cfg: Config, a: seq<Arrival>, v: seq<Verdict>, s: seq<State>, b: seq<Book>, n: int, seen: set<IntKey>)
    requires Run(cfg, a, v, s) && BookRun(cfg, a, v, s, b) && 0 <= n < |a| && NoLapse(cfg, a, v, n)
    requires forall k :: k in seen <==> exists i :: 0 <= i < n && Uses(cfg, a[i], v[i], k)
    requires a[n].device != cfg.wan && a[n].frame.TcpUdp? && v[n].device != a[n].device
    requires KeyOf(a[n].device, a[n].frame.h) !in seen
    ensures v[n].frame.TcpUdp? && v[n].frame.h.srcPort == (cfg.startPort + |seen|) % 0x1_0000
  {
    hide Step, Uses, NoLapse, Expire, BookRun;
    BookAt(cfg, a, v, s, b, n);
    forall l | 0 <= l <= n ensures Expire(cfg, s[l], a[l].now) == s[l] {
      ExpireWithin(cfg, s[l], a[l].now);
      forall k ensures k in s[l] <==> k in Expire(cfg, s[l], a[l].now) {
        NoLapseKeeps(cfg, a, v, s, n, l, k);
      }
    }
    forall k ensures k in s[n] <==> k in seen {
      NoLapseKeeps(cfg, a, v, s, n, n, k);
    }
    assert s[n].Keys == seen;
    SlotsInOrder(cfg, a, v, s, b, n);
    NoneStale(cfg, s[n], b[n], a[n].now);
    OpensNext(cfg, s[n], b[n], a[n], v[n], b[n + 1]);
  }

  lemma OpensNext(cfg: Config, s: State, b: Book, a: Arrival, v: Verdict, b': Book)
    requires Agrees(cfg, s, b) && FreeInOrder(cfg, b) && Expired(cfg, b, a.now) == b && BookStep(cfg, b, a, v, b')
    requires a.device != cfg.wan && a.frame.TcpUdp? && v.device != a.device && KeyOf(a.device, a.frame.h) !in s
    ensures v.frame.TcpUdp? && v.frame.h.srcPort == (cfg.startPort + |s|) % 0x1_0000
  {
  }

  /** The first packet to be sent out leaves from the start port. */
  lemma FirstFlowPort(cfg: Config, a: seq<Arrival>, v: seq<Verdict>, s: seq<State>, b: seq<Book>, n: int)
    requires Run(cfg, a, v, s) && BookRun(cfg, a, v, s, b) && 0 <= n < |a|
    requires forall i | 0 <= i < n :: v[i].device == a[i].device
    requires a[n].device != cfg.wan && a[n].frame.TcpUdp? && v[n].device != a[n].device
    ensures v[n].frame.TcpUdp? && v[n].frame.h.srcPort == cfg.startPort
  {
    hide Step, BookRun;
    assert NoLapse(cfg, a, v, n);
    NthFlowPort(cfg, a, v, s, b, n, {});
  }

  // ---------------------------------------------------------------------------
  // After something has lapsed
  // ---------------------------------------------------------------------------

  predicate Sorted(b: Book)
  {
    forall p, q | 0 <= p < q < |b.flows| :: b.flows[p].lastUse <= b.flows[q].lastUse
  }

  predicate NoneLater(b: Book, now: u32)
  {
    forall p | 0 <= p < |b.flows| :: b.flows[p].lastUse <= now
  }

  /** Expiry takes the stale flows off the front; the slot of the last of them is the next to be given out. */
  lemma {:induction false} ExpiredSplit(cfg: Config, b: Book, now: u32) returns (c: int)
    ensures 0 <= c <= |b.flows| && Expired(cfg, b, now).flows == b.flows[c..]
    ensures forall p | 0 <= p < c :: Stale(cfg, b.flows[p], now)
    ensures c < |b.flows| ==> !Stale(cfg, b.flows[c], now)
    ensures c > 0 ==> Expired(cfg, b, now).free != [] && Expired(cfg, b, now).free[0] == b.flows[c - 1].index
    ensures c == 0 ==> Expired(cfg, b, now) == b
    decreases |b.flows|
  {
    c := 0;
    if b.flows != [] && Stale(cfg, b.flows[0], now) {
      var rest := Book(b.flows[1..], [b.flows[0].index] + b.free);
      c := ExpiredSplit(cfg, rest, now);
      assert forall p | 0 < p <= c :: rest.flows[p - 1] == b.flows[p];
      c := c + 1;
    }
  }

  lemma ExpiredSorted(cfg: Config, b: Book, now: u32)
    requires Sorted(b) && NoneLater(b, now)
    ensures Sorted(Expired(cfg, b, now)) && NoneLater(Expired(cfg, b, now), now)
  {
    hide Expired;
    var c := ExpiredSplit(cfg, b, now);
  }

  lemma TouchedSorted(b: Book, p: int, now: u32)
    requires Sorted(b) && NoneLater(b, now) && 0 <= p < |b.flows|
    ensures Sorted(Touched(b, p, now)) && NoneLater(Touched(b, p, now), now)
  {
    var t := Touched(b, p, now).flows;
    assert forall q | 0 <= q < |t| - 1 :: t[q] == b.flows[if q < p then q else q + 1];
  }

  lemma StepSorted(cfg: Config, b: Book, a: Arrival, v: Verdict, b': Book)
    requires BookStep(cfg, b, a, v, b') && Sorted(b) && NoneLater(b, a.now)
    ensures Sorted(b') && NoneLater(b', a.now)
  {
    hide Expired, Touched, Sorted, NoneLater;
    var e := Expired(cfg, b, a.now);
    ExpiredSorted(cfg, b, a.now);
    forall p | 0 <= p < |e.flows| ensures Sorted(Touched(e, p, a.now)) && NoneLater(Touched(e, p, a.now), a.now) {
      TouchedSorted(e, p, a.now);
    }
    if e.free != [] && a.frame.TcpUdp? { OpenedSorted(e, KeyOf(a.device, a.frame.h), a.now); }
  }

  lemma OpenedSorted(b: Book, k: IntKey, now: u32)
    requires Sorted(b) && NoneLater(b, now) && b.free != []
    ensures Sorted(Opened(b, k, now)) && NoneLater(Opened(b, k, now), now)
  {
  }

  lemma {:induction false} RunSorted(cfg: Config, a: seq<Arrival>, v: seq<Verdict>, s: seq<State>, b: seq<Book>, n: int)
    requires Run(cfg, a, v, s) && BookRun(cfg, a, v, s, b) && 0 <= n < |a|
    ensures Sorted(b[n]) && NoneLater(b[n], a[n].now)
  {
    hide Step, BookStep, Agrees;
    if n > 0 {
      RunSorted(cfg, a, v, s, b, n - 1);
      StepSorted(cfg, b[n - 1], a[n - 1], v[n - 1], b[n]);
      assert a[n - 1].now <= a[n].now;
    }
  }

  /** The session of `k` has lapsed by the time `now`. */
  predicate Lapsed(cfg: Config, s: State, now: u32, k: IntKey)
  {
    k in s && s[k].lastUse + cfg.expiry < now
  }

  /**
    If sessions lapse when a packet arrives that opens a flow, the flow gets the port of the one
    among them that was used last.
   */
  lemma LastFreedFirst(cfg: Config, a: seq<Arrival>, v: seq<Verdict>, s: seq<State>, b: seq<Book>, n: int)
    requires Run(cfg, a, v, s) && BookRun(cfg, a, v, s, b) && 0 <= n < |a|
    requires a[n].device != cfg.wan && a[n].frame.TcpUdp?
    requires var k := KeyOf(a[n].device, a[n].frame.h); k !in s[n] || Lapsed(cfg, s[n], a[n].now, k)
    requires exists k :: Lapsed(cfg, s[n], a[n].now, k)
    ensures v[n].device == cfg.wan && v[n].frame.TcpUdp?
    ensures exists k :: Lapsed(cfg, s[n], a[n].now, k) && v[n].frame.h.srcPort == s[n][k].port
              && forall x | Lapsed(cfg, s[n], a[n].now, x) :: s[n][x].lastUse <= s[n][k].lastUse
  {
    hide Step, BookRun, Expired;
    RunSorted(cfg, a, v, s, b, n);
    BookAt(cfg, a, v, s, b, n);
    var x :| Lapsed(cfg, s[n], a[n].now, x);
    OpensOnLapsed(cfg, s[n], b[n], a[n], v[n], b[n + 1], x);
  }

  lemma BookAt(cfg: Config, a: seq<Arrival>, v: seq<Verdict>, s: seq<State>, b: seq<Book>, n: int)
    requires BookRun(cfg, a, v, s, b) && 0 <= n < |a|
    ensures |b| == |a| + 1 && Agrees(cfg, s[n], b[n]) && BookStep(cfg, b[n], a[n], v[n], b[n + 1])
  {
  }

  /** The lapsed sessions are those at the front of the book. */
  lemma LapsedFront(cfg: Config, s: State, b: Book, now: u32, c: int, p: int)
    requires Agrees(cfg, s, b) && Sorted(b) && 0 <= c <= |b.flows| && 0 <= p < |b.flows|
    requires (forall p | 0 <= p < c :: Stale(cfg, b.flows[p], now)) && (c < |b.flows| ==> !Stale(cfg, b.flows[c], now))
    ensures Lapsed(cfg, s, now, b.flows[p].key) <==> p < c
    ensures p < c ==> b.flows[p].lastUse <= b.flows[c - 1].lastUse
    ensures s[b.flows[p].key].lastUse == b.flows[p].lastUse
  {
    assert c <= p ==> b.flows[c].lastUse <= b.flows[p].lastUse;
  }

  lemma KnownSomewhere(cfg: Config, s: State, b: Book, k: IntKey) returns (p: int)
    requires Agrees(cfg, s, b) && k in s
    ensures KnownAt(b, k, p)
  {
    p :| KnownAt(b, k, p);
  }

  lemma AgreesAt(cfg: Config, s: State, b: Book, p: int)
    requires Agrees(cfg, s, b) && 0 <= p < |b.flows|
    ensures b.flows[p].key in s && s[b.flows[p].key] == Session(Port(cfg, b.flows[p].index), b.flows[p].lastUse)
  {
  }

  lemma OpensOnLapsed(cfg: Config, s: State, b: Book, a: Arrival, v: Verdict, b': Book, x: IntKey)
    requires Agrees(cfg, s, b) && Sorted(b) && BookStep(cfg, b, a, v, b')
    requires a.device != cfg.wan && a.frame.TcpUdp? && Lapsed(cfg, s, a.now, x)
    requires var k := KeyOf(a.device, a.frame.h); k !in s || Lapsed(cfg, s, a.now, k)
    ensures v.device == cfg.wan && v.frame.TcpUdp?
    ensures exists k :: Lapsed(cfg, s, a.now, k) && v.frame.h.srcPort == s[k].port
              && forall y | Lapsed(cfg, s, a.now, y) :: s[y].lastUse <= s[k].lastUse
  {
    hide Expired, Agrees, Sorted, Stale;
    var c := ExpiredSplit(cfg, b, a.now);
    var e, k := Expired(cfg, b, a.now), KeyOf(a.device, a.frame.h);
    forall y | Lapsed(cfg, s, a.now, y) ensures 0 < c && s[y].lastUse <= b.flows[c - 1].lastUse {
      var p := KnownSomewhere(cfg, s, b, y);
      LapsedFront(cfg, s, b, a.now, c, p);
    }
    assert Lapsed(cfg, s, a.now, x);
    forall p ensures !KnownAt(e, k, p) {
      if KnownAt(e, k, p) {
        LapsedFront(cfg, s, b, a.now, c, p + c);
        AgreesAt(cfg, s, b, p + c);
      }
    }
    AgreesAt(cfg, s, b, c - 1);
    LapsedFront(cfg, s, b, a.now, c, c - 1);
    var q := b.flows[c - 1].key;
    assert Lapsed(cfg, s, a.now, q) && v.frame.h.srcPort == s[q].port;
  }
}
