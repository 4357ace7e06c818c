/**
  flowmanager.c and flowtable.c: the allocator and the flow table kept in step.
  Flow number i owns external port start + i, so ports need no bookkeeping.
 */
module FlowManager {
  import opened Words
  import opened Flow
  import opened NatSpec
  import opened NatBook
  import IndexChain
  import opened DChain
  import opened DMap
  import Expirator
  import FiniteSets

  // ---------------------------------------------------------------------------
  // Flow table contents as sessions
  // ---------------------------------------------------------------------------

  function FillIntKey(f: Flow): IntKey
  {
    IntKey(f.intSrcPort, f.dstPort, f.intSrcIp, f.dstIp, f.intDeviceId, f.protocol)
  }

  function FillExtKey(f: Flow): ExtKey
  {
    ExtKey(f.extSrcPort, f.dstPort, f.extSrcIp, f.dstIp, f.extDeviceId, f.protocol)
  }

  function Filled(f: Flow): Flow
  {
    f.(ik := FillIntKey(f), ek := FillExtKey(f))
  }

  const NO_FLOW := Flow(IntKey(0, 0, 0, 0, 0, 0), ExtKey(0, 0, 0, 0, 0, 0), 0, 0, 0, 0, 0, 0, 0, 0, 0)

  /** The flow `allocate_flow` sets up, its two keys still blank. */
  function NewFlow(cfg: Config, k: IntKey, port: u16): Flow
  {
    Flow(NO_FLOW.ik, NO_FLOW.ek,
         k.intSrcPort, port, k.dstPort,
         k.intSrcIp, cfg.extIp, k.dstIp,
         k.intDeviceId, cfg.wan, k.protocol)
  }

  lemma NewFlowAt(cfg: Config, k: IntKey, i: int)
    requires 0 <= i < cfg.maxFlows && k.intDeviceId != cfg.wan
    ensures var f := Filled(NewFlow(cfg, k, Port(cfg, i)));
      FlowAt(cfg, f, i) && f.ik == k && f.extSrcPort == Port(cfg, i)
  {
  }

  /** The stored keys repeat the fields of the flow, and slot `i` means port start + i. */
  predicate FlowAt(cfg: Config, f: Flow, i: int)
  {
    && 0 <= i < cfg.maxFlows
    && f.ik == FillIntKey(f) && f.ek == FillExtKey(f)
    && f.extSrcPort == Port(cfg, i) && f.extSrcIp == cfg.extIp && f.extDeviceId == cfg.wan
    && f.intDeviceId != cfg.wan
  }

  ghost predicate Slotted(cfg: Config, entries: map<int, Flow>)
  {
    && (forall i | i in entries :: FlowAt(cfg, entries[i], i))
    && (forall i, j | i in entries && j in entries && i != j :: entries[i].ik != entries[j].ik)
  }

  ghost predicate Owns(entries: map<int, Flow>, k: IntKey, i: int)
  {
    i in entries && entries[i].ik == k
  }

  ghost function Owner(entries: map<int, Flow>, k: IntKey): (i: int)
    requires exists i :: Owns(entries, k, i)
    ensures Owns(entries, k, i)
  {
    var i :| Owns(entries, k, i);
    i
  }

  ghost function IntKeys(entries: map<int, Flow>): (ks: set<IntKey>)
    ensures forall k :: k in ks <==> exists i :: Owns(entries, k, i)
  {
    var ks := set i | i in entries :: entries[i].ik;
    assert forall k :: k in ks <==> exists i :: Owns(entries, k, i) by {
      forall k | k in ks ensures exists i :: Owns(entries, k, i) {
        var i :| i in entries && entries[i].ik == k;
        assert Owns(entries, k, i);
      }
    }
    ks
  }

  /** The abstract state: each stored flow with its port and the time its index was last used. */
  ghost function Sessions(entries: map<int, Flow>, uses: map<int, u32>): State
    requires uses.Keys == entries.Keys
  {
    map k | k in IntKeys(entries) :: var i := Owner(entries, k); Session(entries[i].extSrcPort, uses[i])
  }

  lemma SessionsAt(cfg: Config, entries: map<int, Flow>, uses: map<int, u32>)
    requires Slotted(cfg, entries) && uses.Keys == entries.Keys
    ensures forall i | i in entries :: entries[i].ik in Sessions(entries, uses)
              && Sessions(entries, uses)[entries[i].ik] == Session(entries[i].extSrcPort, uses[i])
    ensures forall k | k in Sessions(entries, uses) :: exists i :: Owns(entries, k, i)
  {
    forall i | i in entries ensures entries[i].ik in Sessions(entries, uses)
              && Sessions(entries, uses)[entries[i].ik] == Session(entries[i].extSrcPort, uses[i])
    {
      assert Owns(entries, entries[i].ik, i);
    }
  }

  lemma SessionsAre(cfg: Config, entries: map<int, Flow>, uses: map<int, u32>, s: State)
    requires Slotted(cfg, entries) && uses.Keys == entries.Keys
    requires forall k | k in s :: exists i :: Owns(entries, k, i)
    requires forall i | i in entries :: entries[i].ik in s && s[entries[i].ik] == Session(entries[i].extSrcPort, uses[i])
    ensures Sessions(entries, uses) == s
  {
    hide Sessions, FlowAt, Port;
    SessionsAt(cfg, entries, uses);
    var t := Sessions(entries, uses);
    forall k ensures k in s <==> k in t {}
    forall k | k in s ensures t[k] == s[k] {
      var i :| Owns(entries, k, i);
    }
  }

  lemma SessionsSize(cfg: Config, entries: map<int, Flow>, uses: map<int, u32>)
    requires Slotted(cfg, entries) && uses.Keys == entries.Keys
    ensures |Sessions(entries, uses)| == |entries|
  {
    hide Sessions, FlowAt, Port;
    SessionsAt(cfg, entries, uses);
    var f := map i | i in entries :: entries[i].ik;
    forall k | k in Sessions(entries, uses).Keys ensures exists i :: i in entries.Keys && f[i] == k {
      var i :| Owns(entries, k, i);
      assert f[i] == k;
    }
    assert forall i | i in entries.Keys :: f[i] == entries[i].ik && f[i] in Sessions(entries, uses).Keys;
    forall i, j | i in entries.Keys && j in entries.Keys && i != j ensures f[i] != f[j] {
      assert entries[i].ik != entries[j].ik;
    }
    FiniteSets.ImageSize(entries.Keys, f, Sessions(entries, uses).Keys);
  }

  lemma MapSize<X, Y>(m: map<int, X>, n: map<int, Y>)
    requires m.Keys == n.Keys
    ensures |m| == |n|
  {
    assert |m| == |m.Keys| == |n.Keys|;
  }

  lemma SessionsTouch(cfg: Config, entries: map<int, Flow>, uses: map<int, u32>, i: int, now: u32)
    requires Slotted(cfg, entries) && uses.Keys == entries.Keys && i in entries
    ensures Sessions(entries, uses[i := now]) ==
            Sessions(entries, uses)[entries[i].ik := Session(entries[i].extSrcPort, now)]
  {
    hide Sessions, FlowAt, Port;
    SessionsAt(cfg, entries, uses);
    assert Owns(entries, entries[i].ik, i);
    SessionsAre(cfg, entries, uses[i := now],
                Sessions(entries, uses)[entries[i].ik := Session(entries[i].extSrcPort, now)]);
  }

  lemma SessionsOpen(cfg: Config, entries: map<int, Flow>, uses: map<int, u32>, i: int, f: Flow, now: u32)
    requires Slotted(cfg, entries) && uses.Keys == entries.Keys && i !in entries
    requires FlowAt(cfg, f, i) && f.ik !in Sessions(entries, uses)
    ensures Slotted(cfg, entries[i := f])
    ensures Sessions(entries[i := f], uses[i := now]) == Sessions(entries, uses)[f.ik := Session(f.extSrcPort, now)]
  {
    hide Sessions, FlowAt, Port;
    SessionsAt(cfg, entries, uses);
    var entries' := entries[i := f];
    assert forall j | j in entries :: entries[j].ik != f.ik;
    var s := Sessions(entries, uses)[f.ik := Session(f.extSrcPort, now)];
    forall k | k in s ensures exists j :: Owns(entries', k, j) {
      if k == f.ik {
        assert Owns(entries', k, i);
      } else {
        var j :| Owns(entries, k, j);
        assert Owns(entries', k, j);
      }
    }
    SessionsAre(cfg, entries', uses[i := now], s);
  }

  lemma SessionsExpire(cfg: Config, entries: map<int, Flow>, uses: map<int, u32>, now: u32)
    requires Slotted(cfg, entries) && uses.Keys == entries.Keys
    ensures var uses' := if now < cfg.expiry then uses else Expirator.NotBefore(uses, now - cfg.expiry);
      var entries' := Expirator.Restrict(entries, uses'.Keys);
      && uses'.Keys == entries'.Keys && Slotted(cfg, entries')
      && Sessions(entries', uses') == Expire(cfg, Sessions(entries, uses), now)
  {
    hide Sessions, FlowAt, Port;
    var uses' := if now < cfg.expiry then uses else Expirator.NotBefore(uses, now - cfg.expiry);
    var entries' := Expirator.Restrict(entries, uses'.Keys);
    SessionsAt(cfg, entries, uses);
    var s := Expire(cfg, Sessions(entries, uses), now);
    assert uses'.Keys == entries'.Keys;
    forall k | k in s ensures exists i :: Owns(entries', k, i) {
      var i :| Owns(entries, k, i);
      assert Owns(entries', k, i);
    }
    SessionsAre(cfg, entries', uses', s);
  }

  /** A port whose slot is empty is free; this is where 65536 flows at most matters. */
  lemma EmptySlotPortFree(cfg: Config, entries: map<int, Flow>, uses: map<int, u32>, i: int)
    requires Sane(cfg) && Slotted(cfg, entries) && uses.Keys == entries.Keys
    requires 0 <= i < cfg.maxFlows && i !in entries
    ensures PortFree(cfg, Sessions(entries, uses), Port(cfg, i))
  {
    SessionsAt(cfg, entries, uses);
    PortsDistinctIff(cfg);
    forall k | k in Sessions(entries, uses) ensures Sessions(entries, uses)[k].port != Port(cfg, i) {
      var j :| Owns(entries, k, j);
      assert Port(cfg, j) == entries[j].extSrcPort;
    }
  }

  /** Looking a flow up by external key is asking which session a packet from outside answers. */
  lemma ExtKeyAnswers(cfg: Config, f: Flow, i: int, h: Headers)
    requires FlowAt(cfg, f, i)
    ensures f.ek == ExtKey(h.dstPort, h.srcPort, h.dstAddr, h.srcAddr, cfg.wan, h.proto) <==>
            Answers(cfg, h, f.ik, f.extSrcPort)
  {
  }

  /** A new internal key in an empty slot clashes with no stored flow on either side. */
  lemma NewFlowClashesWithNone(cfg: Config, entries: map<int, Flow>, uses: map<int, u32>, i: int, f: Flow)
    requires Sane(cfg) && Slotted(cfg, entries) && uses.Keys == entries.Keys
    requires i !in entries && FlowAt(cfg, f, i) && f.ik !in Sessions(entries, uses)
    ensures forall j | j in entries :: IntKeyOf(entries[j]) != IntKeyOf(f) && ExtKeyOf(entries[j]) != ExtKeyOf(f)
  {
    SessionsAt(cfg, entries, uses);
    hide Sessions;
    PortsDistinctIff(cfg);
    forall j | j in entries ensures entries[j].ik != f.ik && entries[j].ek.extSrcPort != f.ek.extSrcPort {
      assert FlowAt(cfg, entries[j], j);
    }
  }

  // ---------------------------------------------------------------------------
  // The slots as a book
  // ---------------------------------------------------------------------------

  ghost predicate Covered(al: seq<int>, entries: map<int, Flow>, uses: map<int, u32>)
  {
    forall p | 0 <= p < |al| :: al[p] in entries && al[p] in uses
  }

  /** The flows in the order of their last use, and the free slots in the order they will be given out. */
  ghost function BookOf(al: seq<int>, fl: seq<int>, entries: map<int, Flow>, uses: map<int, u32>): Book
    requires Covered(al, entries, uses)
  {
    Book(seq(|al|, p requires 0 <= p < |al| => Entry(entries[al[p]].ik, al[p], uses[al[p]])), fl)
  }

  lemma BookSame(al: seq<int>, fl: seq<int>, entries: map<int, Flow>, uses: map<int, u32>, entries': map<int, Flow>, uses': map<int, u32>)
    requires Covered(al, entries, uses) && Covered(al, entries', uses')
    requires forall p | 0 <= p < |al| :: entries'[al[p]] == entries[al[p]] && uses'[al[p]] == uses[al[p]]
    ensures BookOf(al, fl, entries', uses') == BookOf(al, fl, entries, uses)
  {
  }

  /** Rejuvenating a slot touches its entry. */
  lemma BookTouch(al: seq<int>, fl: seq<int>, entries: map<int, Flow>, uses: map<int, u32>, i: int, now: u32) returns (p: int)
    requires Covered(al, entries, uses) && FiniteSets.Distinct(al) && i in al
    ensures 0 <= p < |al| && al[p] == i
    ensures Covered(IndexChain.Without(al, i) + [i], entries, uses[i := now])
    ensures BookOf(IndexChain.Without(al, i) + [i], fl, entries, uses[i := now]) == Touched(BookOf(al, fl, entries, uses), p, now)
  {
    p := MovedLast(al, i);
    hide IndexChain.Without, FiniteSets.Distinct;
    var al' := IndexChain.Without(al, i) + [i];
    assert Covered(al', entries, uses[i := now]);
    var b', t := BookOf(al', fl, entries, uses[i := now]), Touched(BookOf(al, fl, entries, uses), p, now);
    forall q | 0 <= q < |al| ensures b'.flows[q] == t.flows[q] {
      assert q < |al| - 1 ==> al'[q] != i;
    }
    assert b'.flows == t.flows;
  }

  lemma MovedLast(al: seq<int>, i: int) returns (p: int)
    requires FiniteSets.Distinct(al) && i in al
    ensures 0 <= p < |al| && al[p] == i && |IndexChain.Without(al, i)| == |al| - 1
    ensures forall q | 0 <= q < |al| - 1 :: IndexChain.Without(al, i)[q] == al[if q < p then q else q + 1] != i
  {
    p := IndexChain.PositionOf(al, i);
  }

  lemma BookFree(al: seq<int>, fl: seq<int>, entries: map<int, Flow>, uses: map<int, u32>)
    requires Covered(al, entries, uses)
    ensures BookOf(al, fl, entries, uses).free == fl
  {
  }

  /** Filling the next free slot opens an entry. */
  lemma BookOpen(al: seq<int>, fl: seq<int>, entries: map<int, Flow>, uses: map<int, u32>, i: int, f: Flow, now: u32)
    requires Covered(al, entries, uses) && i !in al
    ensures Covered(al + [i], entries[i := f], uses[i := now]) && Covered(al, entries, uses)
    ensures BookOf(al + [i], fl, entries[i := f], uses[i := now]) == Opened(BookOf(al, [i] + fl, entries, uses), f.ik, now)
  {
  }

  /** Freeing the stale slots at the front of the use order expires the book. */
  lemma {:induction false} BookExpire(cfg: Config, al: seq<int>, fl: seq<int>, entries: map<int, Flow>, uses: map<int, u32>, now: u32, count: int)
    requires Covered(al, entries, uses) && 0 <= count <= |al|
    requires forall p | 0 <= p < |al| :: uses[al[p]] + cfg.expiry < now <==> p < count
    ensures Covered(al[count..], entries, uses)
    ensures BookOf(al[count..], Expirator.Pushed(al[..count], fl), entries, uses) == Expired(cfg, BookOf(al, fl, entries, uses), now)
    decreases count
  {
    var b := BookOf(al, fl, entries, uses);
    if count == 0 {
      assert al[0..] == al && al[..0] == [];
    } else {
      var rest, fl' := al[1..], [al[0]] + fl;
      assert BookOf(rest, fl', entries, uses) == Book(b.flows[1..], [b.flows[0].index] + b.free);
      BookExpire(cfg, rest, fl', entries, uses, now, count - 1);
      assert rest[count - 1..] == al[count..] && rest[..count - 1] == al[..count][1..];
    }
  }

  lemma EarlyNothing(cfg: Config, al: seq<int>, fl: seq<int>, entries: map<int, Flow>, uses: map<int, u32>, now: u32)
    requires Covered(al, entries, uses) && now < cfg.expiry
    ensures Expired(cfg, BookOf(al, fl, entries, uses), now) == BookOf(al, fl, entries, uses)
  {
  }

  lemma FrontApart(al: seq<int>, count: int, p: int)
    requires FiniteSets.Distinct(al) && 0 <= count <= |al| && 0 <= p < |al|
    ensures al[p] in al[count..] <==> p >= count
  {
    if p >= count {
      assert al[count..][p - count] == al[p];
    } else {
      assert forall q | 0 <= q < |al| - count :: al[count..][q] == al[count + q] != al[p];
    }
  }

  lemma StaleFront(cfg: Config, al: seq<int>, fl: seq<int>, entries: map<int, Flow>, uses: map<int, u32>, now: u32, count: int,
                   entries': map<int, Flow>, uses': map<int, u32>)
    requires FiniteSets.Distinct(al) && Covered(al, entries, uses) && uses.Keys == entries.Keys
    requires 0 <= count <= |al| && cfg.expiry <= now && uses' == Expirator.NotBefore(uses, now - cfg.expiry)
    requires entries' == Expirator.Restrict(entries, uses'.Keys) && forall j :: j in al[count..] <==> j in entries'
    ensures Covered(al[count..], entries', uses')
    ensures BookOf(al[count..], Expirator.Pushed(al[..count], fl), entries', uses') == Expired(cfg, BookOf(al, fl, entries, uses), now)
  {
    hide BookOf, Expired, Expirator.Pushed;
    forall p | 0 <= p < |al| ensures uses[al[p]] + cfg.expiry < now <==> p < count {
      FrontApart(al, count, p);
      var i := al[p];
      assert i in entries && i in uses && (i in al[count..] <==> i in entries');
      assert i in entries' <==> i in uses';
    }
    assert Covered(al[count..], entries', uses');
    BookExpire(cfg, al, fl, entries, uses, now, count);
    BookSame(al[count..], Expirator.Pushed(al[..count], fl), entries, uses, entries', uses');
  }

  lemma SlottedAt(cfg: Config, entries: map<int, Flow>, i: int)
    requires Slotted(cfg, entries) && i in entries
    ensures FlowAt(cfg, entries[i], i)
  {
  }

  /** The book lists the sessions. */
  lemma BookAgrees(cfg: Config, al: seq<int>, fl: seq<int>, entries: map<int, Flow>, uses: map<int, u32>)
    requires Slotted(cfg, entries) && uses.Keys == entries.Keys && FiniteSets.Distinct(al)
    requires Covered(al, entries, uses) && |al| == |entries| && forall j :: j in al <==> j in entries
    ensures Agrees(cfg, Sessions(entries, uses), BookOf(al, fl, entries, uses))
  {
    var s, b := Sessions(entries, uses), BookOf(al, fl, entries, uses);
    SessionsAt(cfg, entries, uses);
    SessionsSize(cfg, entries, uses);
    hide Sessions;
    forall p | 0 <= p < |b.flows|
      ensures b.flows[p].key in s && s[b.flows[p].key] == Session(Port(cfg, b.flows[p].index), b.flows[p].lastUse)
    {
      assert al[p] in entries && FlowAt(cfg, entries[al[p]], al[p]);
    }
    forall k | k in s ensures exists p :: KnownAt(b, k, p) {
      var i :| Owns(entries, k, i);
      var p := IndexChain.PositionOf(al, i);
      assert KnownAt(b, k, p);
    }
  }

  /** What putting a new flow in the next free slot does to the sessions and the book. */
  lemma Opens(cfg: Config, al: seq<int>, fl: seq<int>, entries: map<int, Flow>, uses: map<int, u32>, i: int, k: IntKey, now: u32)
    requires Sane(cfg) && Slotted(cfg, entries) && uses.Keys == entries.Keys && Covered(al, entries, uses)
    requires 0 <= i < cfg.maxFlows && i !in entries && i !in al && k !in Sessions(entries, uses) && k.intDeviceId != cfg.wan
    ensures var blank := NewFlow(cfg, k, Port(cfg, i));
      var f := Filled(blank);
      && f.ik == k && f.extSrcPort == Port(cfg, i) && f.extSrcIp == cfg.extIp && f.extDeviceId == cfg.wan
      && (forall j | j in entries :: IntKeyOf(entries[j]) != FillIntKey(blank) && ExtKeyOf(entries[j]) != FillExtKey(blank))
      && Slotted(cfg, entries[i := f]) && PortFree(cfg, Sessions(entries, uses), Port(cfg, i))
      && Sessions(entries[i := f], uses[i := now]) == Sessions(entries, uses)[k := Session(Port(cfg, i), now)]
      && Covered(al + [i], entries[i := f], uses[i := now])
      && BookOf(al + [i], fl, entries[i := f], uses[i := now]) == Opened(BookOf(al, [i] + fl, entries, uses), k, now)
  {
    hide Sessions, Slotted, PortFree, BookOf, Opened, Covered, Port;
    NewFlowAt(cfg, k, i);
    var f := Filled(NewFlow(cfg, k, Port(cfg, i)));
    BookOpen(al, fl, entries, uses, i, f, now);
    NewFlowClashesWithNone(cfg, entries, uses, i, f);
    SessionsOpen(cfg, entries, uses, i, f, now);
    EmptySlotPortFree(cfg, entries, uses, i);
  }

  ghost predicate NoClash(entries: map<int, Flow>, f: Flow)
  {
    forall j | j in entries :: ExtKeyOf(entries[j]) != ExtKeyOf(f)
  }

  /**
    `dmap_put` takes only external keys it does not hold.  For flows with a new internal key in an
    unused slot that is always so exactly when there are at most 65536 slots.
   */
  lemma PutMeetsContractIff(cfg: Config)
    requires 0 < cfg.maxFlows
    ensures (forall entries, i, f | Slotted(cfg, entries) && i !in entries && FlowAt(cfg, f, i)
                                    && (forall j | j in entries :: IntKeyOf(entries[j]) != IntKeyOf(f)) :: NoClash(entries, f))
            <==> cfg.maxFlows <= 0x1_0000
  {
    PortsDistinctIff(cfg);
    if cfg.maxFlows <= 0x1_0000 {
      forall entries, i, f | Slotted(cfg, entries) && i !in entries && FlowAt(cfg, f, i) ensures NoClash(entries, f) {
        forall j | j in entries ensures ExtKeyOf(entries[j]) != ExtKeyOf(f) {
          assert FlowAt(cfg, entries[j], j);
        }
      }
    } else {
      var d: u8 := if cfg.wan == 0 then 1 else 0;
      var j := 0x1_0000;
      var f0 := Filled(NewFlow(cfg, IntKey(1, 0, 0, 0, d, 0), Port(cfg, 0)));
      var f := Filled(NewFlow(cfg, IntKey(2, 0, 0, 0, d, 0), Port(cfg, j)));
      var entries := map[0 := f0];
      assert Slotted(cfg, entries) && j !in entries && FlowAt(cfg, f, j);
      assert ExtKeyOf(entries[0]) == ExtKeyOf(f);
    }
  }

  // ---------------------------------------------------------------------------
  // The flow manager
  // ---------------------------------------------------------------------------

  class FlowManager {
    const cfg: Config
    const chain: DoubleChain
    const flowMap: DoubleMap<IntKey, ExtKey, Flow>

    ghost const Repr: set<object> := chain.Repr + flowMap.Repr

    ghost predicate Valid()
      reads Repr
    {
      && Sane(cfg)
      && chain.Valid() && flowMap.Valid() && chain.Repr !! flowMap.Repr
      && flowMap.keyA == IntKeyOf && flowMap.keyB == ExtKeyOf
      && chain.IndexRange() == flowMap.capacity == cfg.maxFlows
      && chain.LastUse().Keys == flowMap.entries.Keys
      && Slotted(cfg, flowMap.entries)
    }

    ghost function Live(): State
      reads Repr
      requires Valid()
    {
      Sessions(flowMap.entries, chain.LastUse())
    }

    /** The slots: flows by last use, and free ones in the order they will be given out. */
    ghost function Slots(): Book
      reads Repr
      requires Valid()
    {
      BookOf(chain.chain.al, chain.chain.fl, flowMap.entries, chain.LastUse())
    }

    lemma InUse()
      requires Valid()
      ensures FiniteSets.Distinct(chain.chain.al) && forall j :: j in chain.chain.al <==> j in flowMap.entries
      ensures Covered(chain.chain.al, flowMap.entries, chain.LastUse()) && |chain.chain.al| == |flowMap.entries|
    {
      UsesMembers(chain.chain.al, chain.timestamps[..]);
      MapSize(flowMap.entries, chain.LastUse());
    }

    /** The book and the sessions are two views of one state. */
    lemma SlotsAgree()
      requires Valid()
      ensures Agrees(cfg, Live(), Slots())
    {
      hide Sessions, Slotted, Agrees, DoubleMap.Valid;
      InUse();
      BookAgrees(cfg, chain.chain.al, chain.chain.fl, flowMap.entries, chain.LastUse());
    }

    /** No recorded use lies in the future. */
    ghost predicate NoneLater(now: u32)
      reads Repr
      requires Valid()
    {
      NoneAfter(chain.LastUse(), now)
    }

    lemma NoneLaterStill(now: u32, later: u32)
      requires Valid() && NoneLater(now) && now <= later
      ensures NoneLater(later)
    {
    }

    /** `allocate_flowmanager` */
    constructor (cfg: Config)
      requires Sane(cfg)
      ensures Valid() && fresh(Repr) && this.cfg == cfg
      ensures Live() == map[] && NoneLater(0)
      ensures Slots().flows == [] && |Slots().free| == cfg.maxFlows && forall k | 0 <= k < cfg.maxFlows :: Slots().free[k] == k
    {
      hide DoubleChain.Valid, DoubleChain.LastUse, DoubleMap.Valid, Sessions;
      this.cfg := cfg;
      flowMap := new DoubleMap<IntKey, ExtKey, Flow>(IntKeyOf, ExtKeyOf, IntKeyHash, ExtKeyHash, cfg.maxFlows, cfg.maxFlows);
      chain := new DoubleChain(cfg.maxFlows);
      new;
      SessionsAre(cfg, map[], map[], map[]);
    }

    /** `expire_flows` */
    method ExpireFlows(time: u32) returns (count: int)
      requires Valid() && NoneLater(time)
      modifies Repr
      ensures Valid() && NoneLater(time)
      ensures Live() == Expire(cfg, old(Live()), time)
      ensures count == |old(Live())| - |Live()|
      ensures Slots() == Expired(cfg, old(Slots()), time)
    {
      hide DoubleChain.Valid, DoubleChain.LastUse, DoubleMap.Valid, Slotted, Sessions, Expire, BookOf, Expired, Expirator.Pushed;
      ghost var entries, uses, al, fl := flowMap.entries, chain.LastUse(), chain.chain.al, chain.chain.fl;
      InUse();
      SessionsExpire(cfg, entries, uses, time);
      SessionsSize(cfg, entries, uses);
      MapSize(entries, uses);
      if time < cfg.expiry {
        assert Expirator.Restrict(entries, uses.Keys) == entries;
        EarlyNothing(cfg, al, fl, entries, uses, time);
        return 0;
      }
      var lastTime := time - cfg.expiry;
      count := Expirator.ExpireItems(chain, flowMap, lastTime);
      InUse();
      StaleFront(cfg, al, fl, entries, uses, time, count, flowMap.entries, chain.LastUse());
      SessionsSize(cfg, flowMap.entries, chain.LastUse());
      MapSize(flowMap.entries, chain.LastUse());
    }

    /** `add_flow`: the keys are filled in from the other fields. */
    method AddFlow(f: Flow, index: int)
      requires flowMap.Valid() && flowMap.keyA == IntKeyOf && flowMap.keyB == ExtKeyOf
      requires 0 <= index < flowMap.capacity && index !in flowMap.entries
      requires forall i | i in flowMap.entries ::
                 IntKeyOf(flowMap.entries[i]) != FillIntKey(f) && ExtKeyOf(flowMap.entries[i]) != FillExtKey(f)
      modifies flowMap.Repr
      ensures flowMap.Valid()
      ensures flowMap.entries == old(flowMap.entries)[index := Filled(f)]
    {
      hide DoubleMap.Valid;
      var filled := f.(ik := FillIntKey(f));
      filled := filled.(ek := FillExtKey(f));
      flowMap.Put(filled, index);
    }

    /** `get_flow` */
    method GetFlow(index: int) returns (f: Flow)
      requires flowMap.Valid() && index in flowMap.entries
      ensures f == flowMap.entries[index]
    {
      f := flowMap.GetValue(index);
    }

    /** The body of `allocate_flow`, as far as the slots are concerned. */
    method FillSlot(k: IntKey, time: u32) returns (ok: bool, f: Flow, ghost index: int)
      requires Valid() && NoneLater(time)
      requires k !in Live() && k.intDeviceId != cfg.wan
      modifies Repr
      ensures Valid() && NoneLater(time)
      ensures ok <==> |old(chain.LastUse())| < cfg.maxFlows
      ensures ok ==> 0 <= index < cfg.maxFlows && index !in old(flowMap.entries) && old(chain.chain.fl) == [index] + chain.chain.fl
      ensures ok ==> f == Filled(NewFlow(cfg, k, Port(cfg, index))) && flowMap.entries == old(flowMap.entries)[index := f]
      ensures ok ==> chain.LastUse() == old(chain.LastUse())[index := time] && chain.chain.al == old(chain.chain.al) + [index]
      ensures !ok ==> flowMap.entries == old(flowMap.entries) && chain.LastUse() == old(chain.LastUse())
      ensures !ok ==> chain.chain.al == old(chain.chain.al) && chain.chain.fl == old(chain.chain.fl) == []
    {
      hide DoubleChain.Valid, DoubleChain.LastUse, DoubleMap.Valid, Slotted, Sessions, NewFlow, Filled, FillIntKey, FillExtKey, Port;
      ghost var entries, uses := flowMap.entries, chain.LastUse();
      f := NO_FLOW;
      var slot;
      ok, slot := chain.AllocateNewIndex(time);
      index := slot;
      if !ok {
        return;
      }
      var port := Port(cfg, slot);
      f := NewFlow(cfg, k, port);
      Opens(cfg, [], [], entries, uses, slot, k, time);
      AddFlow(f, slot);
      f := GetFlow(slot);
    }

    /** `allocate_flow`: opens a session for a key without one, on the port of the next free slot, unless there is none. */
    method AllocateFlow(k: IntKey, time: u32) returns (ok: bool, f: Flow)
      requires Valid() && NoneLater(time)
      requires k !in Live() && k.intDeviceId != cfg.wan
      modifies Repr
      ensures Valid() && NoneLater(time)
      ensures ok <==> |old(Live())| < cfg.maxFlows
      ensures ok ==> PortFree(cfg, old(Live()), f.extSrcPort)
      ensures ok ==> Live() == old(Live())[k := Session(f.extSrcPort, time)]
      ensures ok ==> f.ik == k && f.extSrcIp == cfg.extIp && f.extDeviceId == cfg.wan
      ensures !ok ==> Live() == old(Live())
      ensures ok ==> OpenedNext(cfg, old(Slots()), k, f.extSrcPort, time, Slots())
      ensures !ok ==> old(Slots()).free == [] && Slots() == old(Slots())
    {
      hide DoubleChain.Valid, DoubleChain.LastUse, DoubleMap.Valid, Slotted, Sessions, PortFree, NewFlow, Filled, Opened, BookOf, Port,
           Covered, NoneAfter;
      ghost var entries, uses, al, fl := flowMap.entries, chain.LastUse(), chain.chain.al, chain.chain.fl;
      InUse();
      BookFree(al, fl, entries, uses);
      SessionsSize(cfg, entries, uses);
      MapSize(entries, uses);
      ghost var index;
      ok, f, index := FillSlot(k, time);
      if ok {
        Opens(cfg, al, chain.chain.fl, entries, uses, index, k, time);
      }
    }

    /** `get_and_rejuvenate` */
    method GetAndRejuvenate(index: int, time: u32) returns (f: Flow)
      requires Valid() && NoneLater(time) && index in flowMap.entries
      modifies Repr
      ensures Valid() && NoneLater(time)
      ensures f == old(flowMap.entries)[index]
      ensures Live() == old(Live())[f.ik := Session(f.extSrcPort, time)]
      ensures exists p :: TouchedAt(cfg, old(Slots()), f.ik, f.extSrcPort, p, time, Slots())
    {
      hide DoubleChain.Valid, DoubleChain.LastUse, DoubleMap.Valid, Sessions, Slotted, IndexChain.Without, Touched;
      ghost var entries, uses, al, fl := flowMap.entries, chain.LastUse(), chain.chain.al, chain.chain.fl;
      InUse();
      ghost var p := BookTouch(al, fl, entries, uses, index, time);
      f := GetFlow(index);
      SessionsTouch(cfg, entries, uses, index, time);
      SlottedAt(cfg, entries, index);
      var ok := chain.RejuvenateIndex(index, time);
      assert TouchedAt(cfg, old(Slots()), f.ik, f.extSrcPort, p, time, Slots());
    }

    /** `get_flow_by_int_key` */
    method GetFlowByIntKey(key: IntKey, time: u32) returns (found: bool, f: Flow)
      requires Valid() && NoneLater(time)
      modifies Repr
      ensures Valid() && NoneLater(time)
      ensures found <==> key in old(Live())
      ensures found ==> f.ik == key && f.extSrcPort == old(Live())[key].port && f.extSrcIp == cfg.extIp && f.extDeviceId == cfg.wan
      ensures found ==> Live() == old(Live())[key := Session(f.extSrcPort, time)]
      ensures !found ==> Live() == old(Live()) && Slots() == old(Slots())
      ensures found ==> exists p :: TouchedAt(cfg, old(Slots()), key, f.extSrcPort, p, time, Slots())
    {
      hide DoubleChain.Valid, DoubleChain.LastUse, DoubleMap.Valid, Sessions, BookOf, Touched;
      SessionsAt(cfg, flowMap.entries, chain.LastUse());
      f := NO_FLOW;
      var index;
      found, index := flowMap.GetA(key);
      if !found {
        return;
      }
      assert FlowAt(cfg, flowMap.entries[index], index);
      f := GetAndRejuvenate(index, time);
    }

    /** `get_flow_by_ext_key`, for the key `nf_core_process` builds from the headers of an outside packet. */
    method GetFlowByExtKey(key: ExtKey, time: u32, ghost h: Headers) returns (found: bool, f: Flow)
      requires Valid() && NoneLater(time)
      requires key == ExtKey(h.dstPort, h.srcPort, h.dstAddr, h.srcAddr, cfg.wan, h.proto)
      modifies Repr
      ensures Valid() && NoneLater(time)
      ensures found <==> exists k :: k in old(Live()) && Answers(cfg, h, k, old(Live())[k].port)
      ensures found ==> f.ik == FillIntKey(f) && f.ik in old(Live()) && Answers(cfg, h, f.ik, old(Live())[f.ik].port)
      ensures found ==> Live() == old(Live())[f.ik := Session(old(Live())[f.ik].port, time)]
      ensures !found ==> Live() == old(Live()) && Slots() == old(Slots())
      ensures found ==> exists p :: TouchedAt(cfg, old(Slots()), f.ik, f.extSrcPort, p, time, Slots()) && AnsweredAt(cfg, old(Slots()), h, p)
    {
      hide DoubleChain.Valid, DoubleChain.LastUse, DoubleMap.Valid, Sessions, BookOf, Touched;
      SessionsAt(cfg, flowMap.entries, chain.LastUse());
      forall i | i in flowMap.entries
        ensures flowMap.entries[i].ek == key <==> Answers(cfg, h, flowMap.entries[i].ik, flowMap.entries[i].extSrcPort)
      {
        ExtKeyAnswers(cfg, flowMap.entries[i], i, h);
      }
      f := NO_FLOW;
      var index;
      found, index := flowMap.GetB(key);
      if !found {
        forall k | k in Live() ensures !Answers(cfg, h, k, Live()[k].port) {
          var i :| Owns(flowMap.entries, k, i);
        }
        return;
      }
      assert FlowAt(cfg, flowMap.entries[index], index);
      f := GetAndRejuvenate(index, time);
    }
  }
}
