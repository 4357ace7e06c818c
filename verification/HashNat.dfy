/**
  The NAT of dpdk-nat-basichash.c.  One table maps the key of every known packet,
  in both directions, to the key it is translated to; entries are only ever added.
 */
module HashNat {
  import opened Words
  import opened ChainedTable
  import FiniteSets

  /** `hash_key_t`: the endpoints of a packet and its protocol. */
  datatype Key = Key(srcIp: u32, dstIp: u32, proto: u8, srcPort: u16, dstPort: u16)

  type State = map<Key, Key>

  const PORTS: int := 0x1_0000
  const TABLE_SIZE: int := 0x1_0000

  // ---------------------------------------------------------------------------
  // One packet
  // ---------------------------------------------------------------------------

  /** The packet that answers `k`. */
  function Reply(k: Key): Key
  {
    Key(k.dstIp, k.srcIp, k.proto, k.dstPort, k.srcPort)
  }

  /** `k` as it leaves through the NAT on `port`. */
  function Masked(natIp: u32, k: Key, port: u16): Key
  {
    k.(srcIp := natIp, srcPort := port)
  }

  function PortAfter(k: Key, n: nat): u16
  {
    (k.srcPort + n) % PORTS
  }

  lemma PortStep(k: Key, n: nat)
    ensures PortAfter(k, 0) == k.srcPort
    ensures (PortAfter(k, n) + 1) % PORTS == PortAfter(k, n + 1)
  {
  }

  /** Answers to `k` on `port` are already being translated for someone. */
  predicate Taken(natIp: u32, s: State, k: Key, port: u16)
  {
    Reply(Masked(natIp, k, port)) in s
  }

  /** `n` steps up from its own source port, cyclically, is the first port free for `k`. */
  predicate FirstFree(natIp: u32, s: State, k: Key, n: nat)
  {
    !Taken(natIp, s, k, PortAfter(k, n)) && forall i | 0 <= i < n :: Taken(natIp, s, k, PortAfter(k, i))
  }

  /** A new connection enters the table twice: as it goes out, and as it is answered. */
  function Connect(natIp: u32, s: State, k: Key, port: u16): State
  {
    s[k := Masked(natIp, k, port)][Reply(Masked(natIp, k, port)) := Reply(k)]
  }

  /** What becomes of a packet: dropped, or sent on under another key. */
  datatype Verdict = Dropped | Sent(key: Key)

  ghost predicate Step(natIp: u32, s: State, k: Key, v: Verdict, s': State)
  {
    if k in s then v == Sent(s[k]) && s' == s
    else if k.dstIp == natIp then v == Dropped && s' == s
    else exists n: nat :: FirstFree(natIp, s, k, n) && v == Sent(Masked(natIp, k, PortAfter(k, n)))
                          && s' == Connect(natIp, s, k, PortAfter(k, n))
  }

  // ---------------------------------------------------------------------------
  // The table holds connections in pairs
  // ---------------------------------------------------------------------------

  /** The forward half of the connection `k` belongs to. */
  function Outgoing(natIp: u32, s: State, k: Key): Key
    requires k in s
  {
    if k.dstIp == natIp then Reply(s[k]) else k
  }

  /** `k` is the forward half of a connection: going out it is masked, and its answers are unmasked again. */
  predicate Connected(natIp: u32, s: State, k: Key)
  {
    && k in s && k.dstIp != natIp
    && s[k] == Masked(natIp, k, s[k].srcPort)
    && Reply(s[k]) in s && s[Reply(s[k])] == Reply(k)
  }

  /** Every entry is one half of a connection whose other half is in the table too. */
  ghost predicate Paired(natIp: u32, s: State)
  {
    forall k | k in s ::
      && Connected(natIp, s, Outgoing(natIp, s, k))
      && (k.dstIp == natIp ==> Reply(s[Outgoing(natIp, s, k)]) == k)
  }

  lemma ConnectPaired(natIp: u32, s: State, k: Key, port: u16)
    requires Paired(natIp, s) && k !in s && k.dstIp != natIp && !Taken(natIp, s, k, port)
    ensures Paired(natIp, Connect(natIp, s, k, port))
  {
    var s', answer := Connect(natIp, s, k, port), Reply(Masked(natIp, k, port));
    forall x | x in s'
      ensures Connected(natIp, s', Outgoing(natIp, s', x)) && (x.dstIp == natIp ==> Reply(s'[Outgoing(natIp, s', x)]) == x)
    {
      if x != k && x != answer {
        assert Connected(natIp, s, Outgoing(natIp, s, x));
      }
    }
  }

  lemma StepPaired(natIp: u32, s: State, k: Key, v: Verdict, s': State)
    requires Paired(natIp, s) && Step(natIp, s, k, v, s')
    ensures Paired(natIp, s')
    ensures forall x | x in s :: x in s' && s'[x] == s[x]
  {
    hide Paired;
    if k !in s && k.dstIp != natIp {
      var n: nat :| FirstFree(natIp, s, k, n) && s' == Connect(natIp, s, k, PortAfter(k, n));
      ConnectPaired(natIp, s, k, PortAfter(k, n));
    }
  }

  /**
    Forward and reverse entries correspond one to one: going to the answer of a forward
    entry's translation and back is the identity both ways, so no two forward keys share
    a translation and no two reverse keys a forward key.
   */
  lemma OneToOne(natIp: u32, s: State, k: Key, k': Key)
    requires Paired(natIp, s) && k in s && k' in s && k != k'
    ensures k.dstIp != natIp && k'.dstIp != natIp ==> s[k] != s[k']
    ensures k.dstIp == natIp && k'.dstIp == natIp ==> Outgoing(natIp, s, k) != Outgoing(natIp, s, k')
    ensures k.dstIp != natIp ==> Reply(s[k]) in s && Reply(s[k]).dstIp == natIp && Outgoing(natIp, s, Reply(s[k])) == k
    ensures k.dstIp == natIp ==> Outgoing(natIp, s, k) in s && Reply(s[Outgoing(natIp, s, k)]) == k
  {
    assert Connected(natIp, s, Outgoing(natIp, s, k)) && Connected(natIp, s, Outgoing(natIp, s, k'));
  }

  // ---------------------------------------------------------------------------
  // Whole runs
  // ---------------------------------------------------------------------------

  /** Packets with keys `k` and what became of them, from an empty table on. */
  ghost predicate Run(natIp: u32, k: seq<Key>, v: seq<Verdict>, s: seq<State>)
  {
    && |v| == |k| && |s| == |k| + 1 && s[0] == map[]
    && forall i | 0 <= i < |k| :: Step(natIp, s[i], k[i], v[i], s[i + 1])
  }

  lemma {:induction false} RunPaired(natIp: u32, k: seq<Key>, v: seq<Verdict>, s: seq<State>, n: int)
    requires Run(natIp, k, v, s) && 0 <= n <= |k|
    ensures Paired(natIp, s[n])
  {
    hide Step;
    if n > 0 {
      RunPaired(natIp, k, v, s, n - 1);
      StepPaired(natIp, s[n - 1], k[n - 1], v[n - 1], s[n]);
    }
  }

  /** No entry is ever overwritten. */
  lemma {:induction false} NeverOverwritten(natIp: u32, k: seq<Key>, v: seq<Verdict>, s: seq<State>, i: int, j: int, x: Key)
    requires Run(natIp, k, v, s) && 0 <= i <= j <= |k| && x in s[i]
    ensures x in s[j] && s[j][x] == s[i][x]
    decreases j
  {
    hide Step, Paired;
    if i < j {
      NeverOverwritten(natIp, k, v, s, i, j - 1, x);
      RunPaired(natIp, k, v, s, j - 1);
      StepPaired(natIp, s[j - 1], k[j - 1], v[j - 1], s[j]);
    }
  }

  /** A packet that was sent on is in the table from then on, under the key it was sent as. */
  lemma SentIsStored(natIp: u32, k: seq<Key>, v: seq<Verdict>, s: seq<State>, i: int)
    requires Run(natIp, k, v, s) && 0 <= i < |k|
    ensures v[i].Sent? ==> k[i] in s[i + 1] && s[i + 1][k[i]] == v[i].key
    ensures v[i].Dropped? ==> k[i].dstIp == natIp
  {
    assert Step(natIp, s[i], k[i], v[i], s[i + 1]);
  }

  /** Every entry goes back to an outgoing packet. */
  lemma {:induction false} StoredWasSent(natIp: u32, k: seq<Key>, v: seq<Verdict>, s: seq<State>, n: int, x: Key) returns (i: int)
    requires Run(natIp, k, v, s) && 0 <= n <= |k| && x in s[n] && x.dstIp != natIp
    ensures 0 <= i < n && k[i] == x && v[i] == Sent(s[n][x])
  {
    hide Paired, FirstFree, PortAfter;
    RunPaired(natIp, k, v, s, n - 1);
    StepPaired(natIp, s[n - 1], k[n - 1], v[n - 1], s[n]);
    if x in s[n - 1] {
      i := StoredWasSent(natIp, k, v, s, n - 1, x);
    } else {
      i := n - 1;
      assert Step(natIp, s[n - 1], k[n - 1], v[n - 1], s[n]);
    }
  }

  /**
    Round trip over runs: a packet addressed to the NAT is sent on exactly when it answers
    some packet that went out earlier, and then it goes to where that packet came from.
   */
  lemma AnswerReturns(natIp: u32, k: seq<Key>, v: seq<Verdict>, s: seq<State>, j: int)
    requires Run(natIp, k, v, s) && 0 <= j < |k| && k[j].dstIp == natIp
    ensures v[j].Sent? <==> exists i :: 0 <= i < j && k[i].dstIp != natIp && v[i].Sent? && k[j] == Reply(v[i].key)
    ensures forall i | 0 <= i < j && k[i].dstIp != natIp && v[i].Sent? && k[j] == Reply(v[i].key) :: v[j] == Sent(Reply(k[i]))
  {
    RunPaired(natIp, k, v, s, j);
    assert Step(natIp, s[j], k[j], v[j], s[j + 1]);
    if v[j].Sent? {
      var x := Outgoing(natIp, s[j], k[j]);
      var i := StoredWasSent(natIp, k, v, s, j, x);
    }
    forall i | 0 <= i < j && k[i].dstIp != natIp && v[i].Sent? && k[j] == Reply(v[i].key)
      ensures v[j] == Sent(Reply(k[i]))
    {
      SentIsStored(natIp, k, v, s, i);
      NeverOverwritten(natIp, k, v, s, i + 1, j, k[i]);
      assert Connected(natIp, s[j], Outgoing(natIp, s[j], k[i]));
    }
  }

  /** An outgoing flow keeps its translation, and two flows never share one. */
  lemma TranslationFixed(natIp: u32, k: seq<Key>, v: seq<Verdict>, s: seq<State>, i: int, j: int)
    requires Run(natIp, k, v, s) && 0 <= i <= j < |k| && k[i].dstIp != natIp && k[j].dstIp != natIp
    ensures v[i].Sent? && v[j].Sent?
    ensures k[i] == k[j] <==> v[i] == v[j]
  {
    SentIsStored(natIp, k, v, s, i);
    SentIsStored(natIp, k, v, s, j);
    NeverOverwritten(natIp, k, v, s, i + 1, j + 1, k[i]);
    RunPaired(natIp, k, v, s, j + 1);
    if k[i] != k[j] { OneToOne(natIp, s[j + 1], k[i], k[j]); }
  }

  /**
    A packet that is sent out keeps its destination and protocol and comes from the NAT's address.
    One that is sent in keeps its source and protocol.  The rest are dropped.
   */
  lemma FieldsKept(natIp: u32, k: seq<Key>, v: seq<Verdict>, s: seq<State>, i: int)
    requires Run(natIp, k, v, s) && 0 <= i < |k|
    ensures k[i].dstIp != natIp ==>
              && v[i].Sent? && v[i].key.srcIp == natIp
              && v[i].key.dstIp == k[i].dstIp && v[i].key.dstPort == k[i].dstPort && v[i].key.proto == k[i].proto
    ensures k[i].dstIp == natIp && v[i].Sent? ==>
              v[i].key.srcIp == k[i].srcIp && v[i].key.srcPort == k[i].srcPort && v[i].key.proto == k[i].proto
  {
    hide Step, Paired;
    SentIsStored(natIp, k, v, s, i);
    RunPaired(natIp, k, v, s, i + 1);
    if v[i].Sent? {
      PairedAt(natIp, s[i + 1], k[i]);
    }
  }

  lemma PairedAt(natIp: u32, s: State, x: Key)
    requires Paired(natIp, s) && x in s
    ensures Connected(natIp, s, Outgoing(natIp, s, x))
    ensures x.dstIp == natIp ==> Reply(s[Outgoing(natIp, s, x)]) == x
  {
  }

  /** Some packet before number `n` went out to the peer of `x` from the port `m` steps up from that of `x`, cyclically. */
  predicate TakenAhead(natIp: u32, k: seq<Key>, v: seq<Verdict>, n: int, x: Key, m: nat)
    requires |v| == |k| && n <= |k|
  {
    exists j :: 0 <= j < n && k[j].dstIp != natIp && v[j].Sent? && v[j].key.srcPort == (x.srcPort + m) % 0x1_0000
                && k[j].dstIp == x.dstIp && k[j].dstPort == x.dstPort && k[j].proto == x.proto
  }

  /** A port is taken for a peer exactly when an earlier packet went out to that peer from it. */
  lemma TakenIff(natIp: u32, k: seq<Key>, v: seq<Verdict>, s: seq<State>, n: int, x: Key, m: nat)
    requires Run(natIp, k, v, s) && 0 <= n <= |k| && x.dstIp != natIp
    ensures Taken(natIp, s[n], x, PortAfter(x, m)) <==> TakenAhead(natIp, k, v, n, x, m)
  {
    hide Step, Paired;
    RunPaired(natIp, k, v, s, n);
    var port := PortAfter(x, m);
    if Taken(natIp, s[n], x, port) {
      var y := Reply(Masked(natIp, x, port));
      PairedAt(natIp, s[n], y);
      var j := StoredWasSent(natIp, k, v, s, n, Outgoing(natIp, s[n], y));
      assert k[j].dstIp == x.dstIp;
    }
    forall j | 0 <= j < n && k[j].dstIp != natIp && v[j].Sent? && v[j].key.srcPort == port
               && k[j].dstIp == x.dstIp && k[j].dstPort == x.dstPort && k[j].proto == x.proto
      ensures Taken(natIp, s[n], x, port)
    {
      SentIsStored(natIp, k, v, s, j);
      NeverOverwritten(natIp, k, v, s, j + 1, n, k[j]);
      PairedAt(natIp, s[n], k[j]);
    }
  }

  /**
    The first packet of a flow leaves from the cyclically first port, at or after its own, from
    which no earlier packet went out to the same peer.
   */
  lemma NewFlowPort(natIp: u32, k: seq<Key>, v: seq<Verdict>, s: seq<State>, i: int) returns (n: nat)
    requires Run(natIp, k, v, s) && 0 <= i < |k| && k[i].dstIp != natIp && k[i] !in k[..i]
    ensures v[i].Sent? && v[i].key.srcPort == (k[i].srcPort + n) % 0x1_0000
    ensures !TakenAhead(natIp, k, v, i, k[i], n) && forall m | 0 <= m < n :: TakenAhead(natIp, k, v, i, k[i], m)
  {
    hide Step, TakenAhead, Taken;
    OutgoingStored(natIp, k, v, s, i, k[i]);
    n := StepNew(natIp, s[i], k[i], v[i], s[i + 1]);
    TakenIff(natIp, k, v, s, i, k[i], n);
    forall m: nat | m < n ensures TakenAhead(natIp, k, v, i, k[i], m) {
      TakenIff(natIp, k, v, s, i, k[i], m);
    }
  }

  lemma StepNew(natIp: u32, s: State, x: Key, v: Verdict, s': State) returns (n: nat)
    requires Step(natIp, s, x, v, s') && x !in s && x.dstIp != natIp
    ensures FirstFree(natIp, s, x, n) && v == Sent(Masked(natIp, x, PortAfter(x, n)))
  {
    n :| FirstFree(natIp, s, x, n) && v == Sent(Masked(natIp, x, PortAfter(x, n)));
  }

  // ---------------------------------------------------------------------------
  // The port search
  // ---------------------------------------------------------------------------

  /** The search for a port for `k` comes to an end. */
  ghost predicate Ends(natIp: u32, s: State, k: Key)
  {
    exists n: nat :: !Taken(natIp, s, k, PortAfter(k, n))
  }

  /** Reverse entries for the peer of `k`: its address, port and protocol. */
  ghost function Answering(natIp: u32, s: State, k: Key): set<Key>
  {
    set x | x in s && x == Reply(Masked(natIp, k, x.dstPort))
  }

  ghost function TakenPorts(natIp: u32, s: State, k: Key): set<int>
  {
    set p: int | 0 <= p < PORTS && Taken(natIp, s, k, p)
  }

  lemma PortReached(k: Key, p: u16) returns (n: nat)
    ensures PortAfter(k, n) == p
  {
    n := (p + PORTS - k.srcPort) % PORTS;
  }

  lemma TakenSize(natIp: u32, s: State, k: Key)
    ensures |TakenPorts(natIp, s, k)| == |Answering(natIp, s, k)|
  {
    var taken, xs := TakenPorts(natIp, s, k), Answering(natIp, s, k);
    var f := map x: Key | x in xs :: x.dstPort as int;
    forall p | p in taken ensures exists x :: x in xs && f[x] == p {
      assert f[Reply(Masked(natIp, k, p))] == p;
    }
    FiniteSets.ImageSize(xs, f, taken);
  }

  /** The search ends exactly when fewer than 65536 reverse entries share the peer of `k`. */
  lemma EndsIff(natIp: u32, s: State, k: Key)
    ensures Ends(natIp, s, k) <==> |Answering(natIp, s, k)| < PORTS
  {
    var taken := TakenPorts(natIp, s, k);
    TakenSize(natIp, s, k);
    FiniteSets.SubsetSize(taken, PORTS);
    if Ends(natIp, s, k) {
      var n: nat :| !Taken(natIp, s, k, PortAfter(k, n));
      assert PortAfter(k, n) !in taken && PortAfter(k, n) in FiniteSets.Range(PORTS);
    } else {
      forall p: int | 0 <= p < PORTS ensures p in taken {
        var n := PortReached(k, p);
      }
      assert taken == FiniteSets.Range(PORTS);
    }
  }

  // ---------------------------------------------------------------------------
  // The port search over runs
  // ---------------------------------------------------------------------------

  /** Two packets go to the same peer: the same address, port and protocol. */
  predicate SamePeer(x: Key, y: Key)
  {
    x.dstIp == y.dstIp && x.dstPort == y.dstPort && x.proto == y.proto
  }

  /** The distinct outgoing keys among the packets `k` that go to the peer of `x`. */
  ghost function ToPeer(natIp: u32, k: seq<Key>, x: Key): set<Key>
  {
    set y | y in k && y.dstIp != natIp && SamePeer(y, x)
  }

  lemma OutgoingStored(natIp: u32, k: seq<Key>, v: seq<Verdict>, s: seq<State>, n: int, x: Key)
    requires Run(natIp, k, v, s) && 0 <= n <= |k| && x.dstIp != natIp
    ensures x in s[n] <==> x in k[..n]
  {
    if x in s[n] {
      var i := StoredWasSent(natIp, k, v, s, n, x);
      assert k[..n][i] == x;
    }
    if x in k[..n] {
      var i :| 0 <= i < n && k[i] == x;
      SentIsStored(natIp, k, v, s, i);
      NeverOverwritten(natIp, k, v, s, i + 1, n, x);
    }
  }

  /** A reverse entry for the peer of `x` belongs to a forward key for that peer, and the other way round. */
  lemma AnswerOf(natIp: u32, s: State, x: Key, y: Key)
    requires Paired(natIp, s) && x.dstIp != natIp && y in s
    ensures y in Answering(natIp, s, x) <==> y.dstIp == natIp && SamePeer(Outgoing(natIp, s, y), x)
    ensures y.dstIp == natIp ==> Outgoing(natIp, s, y) in s && Outgoing(natIp, s, y).dstIp != natIp
    ensures y.dstIp != natIp ==> Reply(s[y]) in s && Reply(s[y]).dstIp == natIp && Outgoing(natIp, s, Reply(s[y])) == y
  {
    assert Connected(natIp, s, Outgoing(natIp, s, y));
  }

  lemma PeerSize(natIp: u32, k: seq<Key>, v: seq<Verdict>, s: seq<State>, n: int, x: Key)
    requires Run(natIp, k, v, s) && 0 <= n <= |k| && x.dstIp != natIp
    ensures |Answering(natIp, s[n], x)| == |ToPeer(natIp, k[..n], x)|
  {
    hide Run, Paired, Outgoing, Answering;
    RunPaired(natIp, k, v, s, n);
    RunShape(natIp, k, v, s);
    var t, xs, ys := s[n], Answering(natIp, s[n], x), ToPeer(natIp, k[..n], x);
    AnsweringIn(natIp, t, x);
    var f := map y: Key | y in xs :: Outgoing(natIp, t, y);
    forall y | y in xs ensures f[y] in ys {
      AnswerOf(natIp, t, x, y);
      OutgoingStored(natIp, k, v, s, n, f[y]);
    }
    forall y, z | y in xs && z in xs && y != z ensures f[y] != f[z] {
      AnswerOf(natIp, t, x, y);
      AnswerOf(natIp, t, x, z);
      OneToOne(natIp, t, y, z);
    }
    forall o | o in ys ensures exists y :: y in xs && f[y] == o {
      OutgoingStored(natIp, k, v, s, n, o);
      AnswerOf(natIp, t, x, o);
      AnswerOf(natIp, t, x, Reply(t[o]));
      assert Reply(t[o]) in xs;
    }
    FiniteSets.ImageSize(xs, f, ys);
  }

  lemma RunShape(natIp: u32, k: seq<Key>, v: seq<Verdict>, s: seq<State>)
    requires Run(natIp, k, v, s)
    ensures |v| == |k| && |s| == |k| + 1 && s[0] == map[]
  {
  }

  lemma AnsweringIn(natIp: u32, s: State, x: Key)
    ensures forall y | y in Answering(natIp, s, x) :: y in s
  {
  }

  /**
    In every run the search for a port for an outgoing key ends exactly when fewer than 65536
    distinct outgoing keys for the same peer came before.
   */
  lemma SearchEndsIff(natIp: u32, k: seq<Key>, v: seq<Verdict>, s: seq<State>, n: int, x: Key)
    requires Run(natIp, k, v, s) && 0 <= n <= |k| && x.dstIp != natIp
    ensures Ends(natIp, s[n], x) <==> |ToPeer(natIp, k[..n], x)| < PORTS
  {
    hide Run, Ends, Answering, ToPeer;
    RunShape(natIp, k, v, s);
    PeerSize(natIp, k, v, s, n, x);
    EndsIff(natIp, s[n], x);
  }

  /** Every packet that opens a connection finds a port. */
  ghost predicate PeersFit(natIp: u32, k: seq<Key>)
  {
    forall j | 0 <= j < |k| && k[j].dstIp != natIp && k[j] !in k[..j] :: |ToPeer(natIp, k[..j], k[j])| < PORTS
  }

  /** In such a sequence each packet is known, addressed to the NAT, or finds a port. */
  lemma PacketServed(natIp: u32, k: seq<Key>, v: seq<Verdict>, s: seq<State>, n: int)
    requires PeersFit(natIp, k) && 0 <= n < |k| && Run(natIp, k[..n], v, s)
    ensures |s| == n + 1
    ensures k[n] in s[n] || k[n].dstIp == natIp || Ends(natIp, s[n], k[n])
  {
    hide Run, Ends, ToPeer;
    RunShape(natIp, k[..n], v, s);
    assert k[..n][..n] == k[..n];
    if k[n].dstIp != natIp {
      OutgoingStored(natIp, k[..n], v, s, n, k[n]);
      SearchEndsIff(natIp, k[..n], v, s, n, k[n]);
    }
  }

  lemma RunMore(natIp: u32, k: seq<Key>, v: seq<Verdict>, s: seq<State>, n: int, v1: Verdict, s1: State)
    requires 0 <= n < |k| && Run(natIp, k[..n], v, s) && |s| == n + 1 && Step(natIp, s[n], k[n], v1, s1)
    ensures Run(natIp, k[..n + 1], v + [v1], s + [s1])
  {
    hide Step;
    forall i | 0 <= i < n + 1 ensures Step(natIp, (s + [s1])[i], k[..n + 1][i], (v + [v1])[i], (s + [s1])[i + 1]) {
      if i < n { assert k[..n][i] == k[..n + 1][i]; }
    }
  }

  lemma {:induction false} LeastFree(natIp: u32, s: State, x: Key, from: nat, bound: nat) returns (n: nat)
    requires from <= bound && !Taken(natIp, s, x, PortAfter(x, bound))
    requires forall i | 0 <= i < from :: Taken(natIp, s, x, PortAfter(x, i))
    ensures FirstFree(natIp, s, x, n)
    decreases bound - from
  {
    hide PortAfter, Taken;
    if Taken(natIp, s, x, PortAfter(x, from)) {
      n := LeastFree(natIp, s, x, from + 1, bound);
    } else {
      n := from;
    }
  }

  lemma StepExists(natIp: u32, s: State, x: Key) returns (v: Verdict, s': State)
    requires x in s || x.dstIp == natIp || Ends(natIp, s, x)
    ensures Step(natIp, s, x, v, s')
  {
    if x in s {
      v, s' := Sent(s[x]), s;
    } else if x.dstIp == natIp {
      v, s' := Dropped, s;
    } else {
      var bound: nat :| !Taken(natIp, s, x, PortAfter(x, bound));
      var n := LeastFree(natIp, s, x, 0, bound);
      v, s' := Sent(Masked(natIp, x, PortAfter(x, n))), Connect(natIp, s, x, PortAfter(x, n));
    }
  }

  lemma {:induction false} RunExists(natIp: u32, k: seq<Key>, n: int) returns (v: seq<Verdict>, s: seq<State>)
    requires PeersFit(natIp, k) && 0 <= n <= |k|
    ensures Run(natIp, k[..n], v, s)
    decreases n
  {
    hide Step, PeersFit, Ends;
    if n == 0 {
      v, s := [], [map[]];
    } else {
      v, s := RunExists(natIp, k, n - 1);
      PacketServed(natIp, k, v, s, n - 1);
      var v1, s1 := StepExists(natIp, s[n - 1], k[n - 1]);
      RunMore(natIp, k, v, s, n - 1, v1, s1);
      v, s := v + [v1], s + [s1];
    }
  }

  /** One key to a peer per source port. */
  function Flood(x: Key, n: nat): (k: seq<Key>)
    requires n <= PORTS
    ensures |k| == n && forall i | 0 <= i < n :: k[i] == x.(srcPort := i)
  {
    seq(n, i requires 0 <= i < n => x.(srcPort := i))
  }

  lemma FloodSize(natIp: u32, x: Key, n: nat)
    requires n <= PORTS && x.dstIp != natIp
    ensures |ToPeer(natIp, Flood(x, n), x)| == n
  {
    var k, ys := Flood(x, n), ToPeer(natIp, Flood(x, n), x);
    var f := map i: int | i in FiniteSets.Range(n) :: k[i];
    forall y | y in ys ensures exists i :: i in FiniteSets.Range(n) && f[i] == y {
      var i :| 0 <= i < n && k[i] == y;
      assert f[i] == y;
    }
    FiniteSets.ImageSize(FiniteSets.Range(n), f, ys);
  }

  /** For every peer there is a run after which no further source address gets through to it: the search does not end. */
  lemma PeerFills(natIp: u32, x: Key, y: Key) returns (v: seq<Verdict>, s: seq<State>)
    requires x.dstIp != natIp && SamePeer(x, y) && y.srcIp != x.srcIp
    ensures Run(natIp, Flood(x, PORTS), v, s) && |s| == PORTS + 1
    ensures y !in s[PORTS] && !Ends(natIp, s[PORTS], y)
  {
    hide Run, Ends, ToPeer;
    var k := Flood(x, PORTS);
    forall j | 0 <= j < |k| && k[j].dstIp != natIp && k[j] !in k[..j] ensures |ToPeer(natIp, k[..j], k[j])| < PORTS {
      assert k[..j] == Flood(x, j);
      FloodSize(natIp, x, j);
      ToPeerOf(natIp, k[..j], x, k[j]);
    }
    assert k[..|k|] == k;
    v, s := RunExists(natIp, k, |k|);
    RunShape(natIp, k, v, s);
    FloodSize(natIp, x, PORTS);
    ToPeerOf(natIp, k, x, y);
    SearchEndsIff(natIp, k, v, s, PORTS, y);
    OutgoingStored(natIp, k, v, s, PORTS, y);
  }

  lemma ToPeerOf(natIp: u32, k: seq<Key>, x: Key, y: Key)
    requires SamePeer(x, y)
    ensures ToPeer(natIp, k, x) == ToPeer(natIp, k, y)
  {
  }

  // ---------------------------------------------------------------------------
  // The NAT
  // ---------------------------------------------------------------------------

  class Packet {
    var key: Key

    constructor (key: Key)
      ensures this.key == key
    {
      this.key := key;
    }
  }

  class Nat {
    const natIp: u32
    const table: Table<Key, Key>

    ghost predicate Valid()
      reads table, table.buckets
    {
      table.Valid()
    }

    constructor (natIp: u32, hash: Key -> int)
      requires forall k :: 0 <= hash(k) < TABLE_SIZE
      ensures this.natIp == natIp && Valid() && table.entries == map[] && table.Contents() == map[]
      ensures fresh(table) && fresh(table.buckets)
    {
      this.natIp := natIp;
      table := new Table<Key, Key>(TABLE_SIZE, hash);
    }

    /** The port search: counts up from the source port, wrapping at 65536, to the first free port. */
    method FindPort(k: Key) returns (port: u16)
      requires Valid() && Ends(natIp, table.Contents(), k)
      ensures exists n: nat :: FirstFree(natIp, table.Contents(), k, n) && port == PortAfter(k, n)
    {
      hide PortAfter, Table.Valid;
      ghost var s := table.Contents();
      PortStep(k, 0);
      ghost var bound: nat :| !Taken(natIp, s, k, PortAfter(k, bound));
      var outKey := Reply(Masked(natIp, k, k.srcPort));
      ghost var n: nat := 0;
      while true
        invariant n <= bound && outKey == Reply(Masked(natIp, k, PortAfter(k, n)))
        invariant forall i | 0 <= i < n :: Taken(natIp, s, k, PortAfter(k, i))
        decreases bound - n
      {
        var entry := table.Get(outKey);
        if entry == null {
          break;
        }
        PortStep(k, n);
        outKey := outKey.(dstPort := (outKey.dstPort + 1) % PORTS);
        n := n + 1;
      }
      port := outKey.dstPort;
    }

    /** `dispatch_packet` from the lookup on, for a packet whose transport header parsed. */
    method DispatchPacket(device: u32, pkt: Packet) returns (dstDevice: u32, ghost v: Verdict)
      requires Valid() && device <= 1
      requires pkt.key in table.Contents() || pkt.key.dstIp == natIp || Ends(natIp, table.Contents(), pkt.key)
      modifies pkt, table, table.buckets, table.entries.Values
      ensures Valid()
      ensures forall k | k in table.entries ::
                (k in old(table.entries) && table.entries[k] == old(table.entries)[k]) || fresh(table.entries[k])
      ensures Step(natIp, old(table.Contents()), old(pkt.key), v, table.Contents())
      ensures v == if dstDevice == device then Dropped else Sent(pkt.key)
      ensures dstDevice == device ==> pkt.key == old(pkt.key)
      ensures dstDevice == device || dstDevice == 1 - device
    {
      hide PortAfter, Table.Valid;
      var key := pkt.key;
      var entry := table.Get(key);
      var translation;
      if entry == null {
        if key.dstIp == natIp {
          return device, Dropped;
        }
        ghost var s := table.Contents();
        var port := FindPort(key);
        ghost var n: nat :| FirstFree(natIp, s, key, n) && port == PortAfter(key, n);
        translation := key.(srcIp := natIp);
        translation := translation.(srcPort := port);
        table.Set(key, translation);
        var outKey := Reply(Masked(natIp, key, port));
        var outTranslation := outKey.(dstIp := key.srcIp);
        outTranslation := outTranslation.(dstPort := key.srcPort);
        table.Set(outKey, outTranslation);
        assert table.Contents() == Connect(natIp, s, key, port);
      } else {
        translation := entry.value;
      }
      pkt.key := translation;
      return 1 - device, Sent(translation);
    }
  }

  /** A packet received on `device`. */
  datatype Arrival = Arrival(device: u32, key: Key)

  function KeysOf(a: seq<Arrival>): (k: seq<Key>)
    ensures |k| == |a| && forall i | 0 <= i < |a| :: k[i] == a[i].key
  {
    seq(|a|, i requires 0 <= i < |a| => a[i].key)
  }

  /** The NAT on any sequence of packets for which every port search ends: what becomes of them is a run. */
  method Serve(natIp: u32, hash: Key -> int, arrivals: seq<Arrival>) returns (verdicts: seq<Verdict>)
    requires forall k :: 0 <= hash(k) < TABLE_SIZE
    requires forall a | a in arrivals :: a.device <= 1
    requires PeersFit(natIp, KeysOf(arrivals))
    ensures exists states :: Run(natIp, KeysOf(arrivals), verdicts, states)
  {
    hide Step, Run, PeersFit, Ends, Table.Valid, Table.Contents;
    ghost var k := KeysOf(arrivals);
    var t := new Nat(natIp, hash);
    verdicts := [];
    ghost var states: seq<State> := [map[]];
    RunNone(natIp);
    assert k[..0] == [];
    var i := 0;
    while i < |arrivals|
      invariant 0 <= i <= |arrivals| && |states| == i + 1
      invariant t.natIp == natIp && t.Valid() && fresh(t) && fresh(t.table) && fresh(t.table.buckets)
      invariant forall x | x in t.table.entries :: fresh(t.table.entries[x])
      invariant states[i] == t.table.Contents() && Run(natIp, k[..i], verdicts, states)
    {
      PacketServed(natIp, k, verdicts, states, i);
      var device := arrivals[i].device;
      assert arrivals[i] in arrivals;
      var pkt := new Packet(arrivals[i].key);
      var dst, v := t.DispatchPacket(device, pkt);
      RunMore(natIp, k, verdicts, states, i, v, t.table.Contents());
      verdicts := verdicts + [if dst == device then Dropped else Sent(pkt.key)];
      states := states + [t.table.Contents()];
      i := i + 1;
    }
    assert k[..|k|] == k;
  }

  lemma RunNone(natIp: u32)
    ensures Run(natIp, [], [], [map[]])
  {
  }
}
