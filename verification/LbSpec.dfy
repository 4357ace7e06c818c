/**
  What the load balancers of dpdk-lb-hashring.c and dpdk-lb-tree.c are for: a flow
  keeps its server, and new flows go to the servers in turn.
 */
module LbSpec {
  import opened Words
  import FiniteSets
  import Arith

  /** `hash_key_t` */
  datatype Key = Key(srcIp: u32, proto: u8, srcPort: u16)

  /** The remembered flows with the server of each, and which server is next. */
  datatype Lb = Lb(flows: map<Key, u32>, next: int)

  const UNBOUNDED := -1

  /** `++next_dip`, back to 0 after the last server or before a zero address. */
  function After(dips: seq<u32>, next: int): int
    requires 0 <= next < |dips|
  {
    if next + 1 >= |dips| || dips[next + 1] == 0 then 0 else next + 1
  }

  /** A table of `capacity` cells remembers a new flow only while it has an empty one. */
  predicate Room(capacity: int, s: Lb)
  {
    capacity == UNBOUNDED || |s.flows| < capacity
  }

  predicate Ready(dips: seq<u32>, s: Lb)
  {
    0 <= s.next < |dips|
  }

  function Server(dips: seq<u32>, s: Lb, k: Key): u32
    requires Ready(dips, s)
  {
    if k in s.flows then s.flows[k] else dips[s.next]
  }

  /** One incoming packet. */
  function Step(dips: seq<u32>, capacity: int, s: Lb, k: Key): (s': Lb)
    requires Ready(dips, s)
    ensures Ready(dips, s')
  {
    if k in s.flows then s
    else Lb(if Room(capacity, s) then s.flows[k := dips[s.next]] else s.flows, After(dips, s.next))
  }

  function Final(dips: seq<u32>, capacity: int, s: Lb, keys: seq<Key>): (s': Lb)
    requires Ready(dips, s)
    ensures Ready(dips, s')
    decreases |keys|
  {
    if keys == [] then s else Final(dips, capacity, Step(dips, capacity, s, keys[0]), keys[1..])
  }

  /** The servers chosen for a whole trace of packets. */
  function Servers(dips: seq<u32>, capacity: int, s: Lb, keys: seq<Key>): (r: seq<u32>)
    requires Ready(dips, s)
    ensures |r| == |keys|
    decreases |keys|
  {
    if keys == [] then []
    else [Server(dips, s, keys[0])] + Servers(dips, capacity, Step(dips, capacity, s, keys[0]), keys[1..])
  }

  lemma ServersEmpty(dips: seq<u32>, capacity: int, s: Lb)
    requires Ready(dips, s)
    ensures Servers(dips, capacity, s, []) == [] && Final(dips, capacity, s, []) == s
  {
  }

  lemma {:induction false} ServersMore(dips: seq<u32>, capacity: int, s: Lb, keys: seq<Key>, k: Key)
    requires Ready(dips, s)
    ensures var end := Final(dips, capacity, s, keys);
      && Servers(dips, capacity, s, keys + [k]) == Servers(dips, capacity, s, keys) + [Server(dips, end, k)]
      && Final(dips, capacity, s, keys + [k]) == Step(dips, capacity, end, k)
    decreases |keys|
  {
    if keys == [] {
      assert [] + [k] == [k] && [k][1..] == [];
    } else {
      ServersMore(dips, capacity, Step(dips, capacity, s, keys[0]), keys[1..], k);
      assert (keys + [k])[1..] == keys[1..] + [k];
    }
  }

  function KeySet(keys: seq<Key>): set<Key>
  {
    set k | k in keys
  }

  /** A bounded table with room for every distinct flow chooses like an unbounded one. */
  lemma {:induction false} BoundedLikeUnbounded(dips: seq<u32>, capacity: int, s: Lb, keys: seq<Key>)
    requires Ready(dips, s) && |s.flows.Keys + KeySet(keys)| <= capacity
    ensures Servers(dips, capacity, s, keys) == Servers(dips, UNBOUNDED, s, keys)
    ensures Final(dips, capacity, s, keys) == Final(dips, UNBOUNDED, s, keys)
    decreases |keys|
  {
    if keys != [] {
      var k := keys[0];
      var all := s.flows.Keys + KeySet(keys);
      if k !in s.flows {
        assert k in all;
        FiniteSets.SubsetCardinality(s.flows.Keys + {k}, all);
      }
      var s' := Step(dips, capacity, s, k);
      assert s' == Step(dips, UNBOUNDED, s, k);
      FiniteSets.SubsetCardinality(s'.flows.Keys + KeySet(keys[1..]), all);
      BoundedLikeUnbounded(dips, capacity, s', keys[1..]);
    }
  }

  /** The ring and the tree choose the same servers for every trace with no more flows than cells. */
  lemma RingLikeTree(dips: seq<u32>, size: int, keys: seq<Key>)
    requires 0 < |dips| && |KeySet(keys)| <= size
    ensures Servers(dips, size, Lb(map[], 0), keys) == Servers(dips, UNBOUNDED, Lb(map[], 0), keys)
  {
    assert Lb(map[], 0).flows.Keys + KeySet(keys) == KeySet(keys);
    BoundedLikeUnbounded(dips, size, Lb(map[], 0), keys);
  }

  // ---------------------------------------------------------------------------
  // Fair shares
  // ---------------------------------------------------------------------------

  /** The servers in use: up to the first zero address after the first one. */
  predicate Active(dips: seq<u32>, n: int)
  {
    0 < n <= |dips| && (forall i | 0 < i < n :: dips[i] != 0) && (n == |dips| || dips[n] == 0)
  }

  /** Whose turn the flow after `m` others is. */
  function Turn(m: nat, n: int): (i: int)
    requires 0 < n
    ensures 0 <= i < n
  {
    m % n
  }

  /** How many of the first `m` new flows fall to server `i` of `n`. */
  function Share(m: nat, n: int, i: int): nat
    requires 0 <= i < n
  {
    if m == 0 then 0 else Share(m - 1, n, i) + if Turn(m - 1, n) == i then 1 else 0
  }

  lemma CountUp(m: int, n: int)
    requires 0 < m && 0 < n
    ensures var q, r := (m - 1) / n, (m - 1) % n;
      if r + 1 < n then m / n == q && m % n == r + 1 else m / n == q + 1 && m % n == 0
  {
    var q, r := (m - 1) / n, (m - 1) % n;
    assert m == q * n + (r + 1);
    if r + 1 < n {
      Arith.DivModUnique(m, n, q, r + 1);
    } else {
      assert m == (q + 1) * n + 0;
      Arith.DivModUnique(m, n, q + 1, 0);
    }
  }

  /** Shares are floor(m/n) or ceil(m/n). */
  lemma {:induction false} FairShare(m: nat, n: int, i: int)
    requires 0 <= i < n
    ensures Share(m, n, i) == m / n + if i < m % n then 1 else 0
  {
    if m > 0 {
      FairShare(m - 1, n, i);
      CountUp(m, n);
    } else {
      Arith.DivModUnique(0, n, 0, 0);
    }
  }

  /** Server `i` has its share of the remembered flows, and the next one is the next in turn. */
  ghost predicate Balanced(dips: seq<u32>, n: int, s: Lb)
    requires Active(dips, n)
  {
    && s.next == Turn(|s.flows|, n)
    && OnActive(dips, n, s)
    && forall i | 0 <= i < n :: |On(s, dips[i])| == Share(|s.flows|, n, i)
  }

  predicate OnActive(dips: seq<u32>, n: int, s: Lb)
  {
    forall k | k in s.flows :: exists i :: 0 <= i < n <= |dips| && s.flows[k] == dips[i]
  }

  ghost function On(s: Lb, server: u32): set<Key>
  {
    set k | k in s.flows && s.flows[k] == server
  }

  lemma TurnStep(dips: seq<u32>, n: int, m: nat)
    requires Active(dips, n)
    ensures After(dips, Turn(m, n)) == Turn(m + 1, n)
    ensures forall i | 0 <= i < n :: Share(m + 1, n, i) == Share(m, n, i) + if Turn(m, n) == i then 1 else 0
  {
    CountUp(m + 1, n);
  }

  lemma OnStep(dips: seq<u32>, n: int, s: Lb, k: Key, i: int)
    requires 0 <= i < n <= |dips| && 0 <= s.next < n && k !in s.flows
    requires FiniteSets.Distinct(dips[..n])
    ensures |On(Step(dips, UNBOUNDED, s, k), dips[i])| == |On(s, dips[i])| + if s.next == i then 1 else 0
  {
    assert dips[..n][i] == dips[i] && dips[..n][s.next] == dips[s.next];
    assert On(Step(dips, UNBOUNDED, s, k), dips[i]) == On(s, dips[i]) + if s.next == i then {k} else {};
  }

  lemma OnActiveStep(dips: seq<u32>, n: int, s: Lb, k: Key)
    requires 0 <= s.next < n <= |dips| && OnActive(dips, n, s)
    ensures OnActive(dips, n, Step(dips, UNBOUNDED, s, k))
  {
  }

  lemma StepBalanced(dips: seq<u32>, n: int, s: Lb, k: Key)
    requires Active(dips, n) && Ready(dips, s) && Balanced(dips, n, s) && FiniteSets.Distinct(dips[..n])
    ensures Balanced(dips, n, Step(dips, UNBOUNDED, s, k))
  {
    hide Turn, Share, On, OnActive, FiniteSets.Distinct;
    if k !in s.flows {
      var s' := Step(dips, UNBOUNDED, s, k);
      TurnStep(dips, n, |s.flows|);
      OnActiveStep(dips, n, s, k);
      assert s'.flows.Keys == s.flows.Keys + {k};
      assert |s'.flows| == |s.flows| + 1;
      forall i | 0 <= i < n ensures |On(s', dips[i])| == Share(|s'.flows|, n, i) {
        OnStep(dips, n, s, k, i);
      }
    }
  }

  /** `given` is the fair share of server `i` of `n` in `m` flows. */
  predicate Fair(given: int, m: nat, n: int, i: int)
    requires 0 <= i < n
  {
    && given == m / n + (if i < m % n then 1 else 0)
    && m / n <= given <= (m + n - 1) / n
  }

  lemma BalancedIsFair(dips: seq<u32>, n: int, s: Lb, i: int)
    requires Active(dips, n) && Balanced(dips, n, s) && 0 <= i < n
    ensures Fair(|On(s, dips[i])|, |s.flows|, n, i)
  {
    FairShare(|s.flows|, n, i);
    CeilDiv(|s.flows|, n);
  }

  lemma {:induction false} StaysBalanced(dips: seq<u32>, n: int, s: Lb, keys: seq<Key>)
    requires Active(dips, n) && Ready(dips, s) && Balanced(dips, n, s) && FiniteSets.Distinct(dips[..n])
    ensures Balanced(dips, n, Final(dips, UNBOUNDED, s, keys))
    decreases |keys|
  {
    hide Balanced, FiniteSets.Distinct;
    if keys != [] {
      StepBalanced(dips, n, s, keys[0]);
      StaysBalanced(dips, n, Step(dips, UNBOUNDED, s, keys[0]), keys[1..]);
    }
  }

  /** The flows of a trace are exactly what an unbounded table remembers, each with the server it was given. */
  lemma {:induction false} FlowsRemembered(dips: seq<u32>, s: Lb, keys: seq<Key>)
    requires Ready(dips, s)
    ensures Final(dips, UNBOUNDED, s, keys).flows.Keys == s.flows.Keys + KeySet(keys)
    ensures forall k | k in s.flows :: Final(dips, UNBOUNDED, s, keys).flows[k] == s.flows[k]
    ensures forall j | 0 <= j < |keys| :: keys[j] in KeySet(keys)
              && Final(dips, UNBOUNDED, s, keys).flows[keys[j]] == Servers(dips, UNBOUNDED, s, keys)[j]
    decreases |keys|
  {
    hide KeySet;
    KeySetSplit(keys);
    if keys != [] {
      var s' := Step(dips, UNBOUNDED, s, keys[0]);
      FlowsRemembered(dips, s', keys[1..]);
      assert s'.flows.Keys == s.flows.Keys + {keys[0]};
      forall j | 0 <= j < |keys|
        ensures keys[j] in KeySet(keys) && Final(dips, UNBOUNDED, s, keys).flows[keys[j]] == Servers(dips, UNBOUNDED, s, keys)[j]
      {
        KeySetHas(keys, keys[j]);
        if j > 0 { assert keys[1..][j - 1] == keys[j]; }
      }
    }
  }

  lemma KeySetSplit(keys: seq<Key>)
    ensures KeySet(keys) == if keys == [] then {} else {keys[0]} + KeySet(keys[1..])
  {
    assert keys != [] ==> keys == [keys[0]] + keys[1..];
  }

  lemma {:induction false} NextInTurn(dips: seq<u32>, n: int, s: Lb, keys: seq<Key>)
    requires Active(dips, n) && s.next == Turn(|s.flows|, n)
    ensures var end := Final(dips, UNBOUNDED, s, keys); end.next == Turn(|end.flows|, n)
    decreases |keys|
  {
    hide Turn, Share;
    if keys != [] {
      var s' := Step(dips, UNBOUNDED, s, keys[0]);
      if keys[0] !in s.flows {
        TurnStep(dips, n, |s.flows|);
        assert s'.flows.Keys == s.flows.Keys + {keys[0]};
        assert |s'.flows| == |s.flows| + 1;
      }
      NextInTurn(dips, n, s', keys[1..]);
    }
  }

  /** The first packet of a flow that `m` others came before goes to server m mod n, the `n` servers ending before a zero address. */
  lemma NewFlowServer(dips: seq<u32>, n: int, keys: seq<Key>, j: int)
    requires 0 < n <= |dips| && (forall i | 0 < i < n :: dips[i] != 0) && (n == |dips| || dips[n] == 0)
    requires 0 <= j < |keys| && keys[j] !in keys[..j]
    ensures 0 <= |KeySet(keys[..j])| % n < n
    ensures Servers(dips, UNBOUNDED, Lb(map[], 0), keys)[j] == dips[|KeySet(keys[..j])| % n]
  {
    hide Servers, Final;
    var start, before := Lb(map[], 0), keys[..j];
    var end := Final(dips, UNBOUNDED, start, before);
    Arith.DivModUnique(0, n, 0, 0);
    NextInTurn(dips, n, start, before);
    FlowsRemembered(dips, start, before);
    assert end.flows.Keys == KeySet(before) && |end.flows| == |KeySet(before)|;
    assert keys == (before + [keys[j]]) + keys[j + 1..];
    ServersMore(dips, UNBOUNDED, start, before, keys[j]);
    ServersThen(dips, UNBOUNDED, start, before + [keys[j]], keys[j + 1..]);
  }

  /** The flows of a trace some packet of which went to `server`. */
  ghost function GivenTo(keys: seq<Key>, servers: seq<u32>, server: u32): set<Key>
    requires |servers| == |keys|
  {
    set j | 0 <= j < |keys| && servers[j] == server :: keys[j]
  }

  /**
    After any trace of `m` distinct flows, with `n` servers in use at distinct addresses, each has
    been given floor(m/n) or ceil(m/n) of them: the first m mod n one more than the others.  The
    same goes for a bounded table while the flows fit.
   */
  lemma AlwaysFair(dips: seq<u32>, n: int, capacity: int, keys: seq<Key>, i: int)
    requires Active(dips, n) && 0 <= i < n && FiniteSets.Distinct(dips[..n])
    requires capacity == UNBOUNDED || |KeySet(keys)| <= capacity
    ensures Fair(|GivenTo(keys, Servers(dips, capacity, Lb(map[], 0), keys), dips[i])|, |KeySet(keys)|, n, i)
  {
    hide Balanced, Servers, Final, Fair, KeySet, GivenTo, On;
    var start := Lb(map[], 0);
    InitiallyBalanced(dips, n);
    StaysBalanced(dips, n, start, keys);
    var end, servers := Final(dips, UNBOUNDED, start, keys), Servers(dips, UNBOUNDED, start, keys);
    BalancedIsFair(dips, n, end, i);
    FlowsRemembered(dips, start, keys);
    assert end.flows.Keys == KeySet(keys) && |end.flows| == |KeySet(keys)|;
    if capacity != UNBOUNDED { RingLikeTree(dips, capacity, keys); }
    GivenIsOn(keys, servers, end, dips[i]);
  }

  lemma GivenIsOn(keys: seq<Key>, servers: seq<u32>, end: Lb, server: u32)
    requires |servers| == |keys| && end.flows.Keys == KeySet(keys)
    requires forall j | 0 <= j < |keys| :: keys[j] in KeySet(keys) && end.flows[keys[j]] == servers[j]
    ensures GivenTo(keys, servers, server) == On(end, server)
  {
    forall k | k in On(end, server) ensures k in GivenTo(keys, servers, server) {
      assert k in KeySet(keys);
      var j :| 0 <= j < |keys| && keys[j] == k;
      assert servers[j] == server;
    }
  }

  lemma CeilDiv(m: nat, n: int)
    requires 0 < n
    ensures (m + n - 1) / n == m / n + if m % n > 0 then 1 else 0
  {
    var q, r := m / n, m % n;
    assert m == q * n + r;
    if r > 0 {
      assert m + n - 1 == (q + 1) * n + (r - 1);
      Arith.DivModUnique(m + n - 1, n, q + 1, r - 1);
    } else {
      Arith.DivModUnique(m + n - 1, n, q, n - 1);
    }
  }

  lemma InitiallyBalanced(dips: seq<u32>, n: int)
    requires Active(dips, n)
    ensures Ready(dips, Lb(map[], 0)) && Balanced(dips, n, Lb(map[], 0))
  {
    Arith.DivModUnique(0, n, 0, 0);
    assert forall x :: On(Lb(map[], 0), x) == {};
  }

  /** Past its capacity the bounded table forgets: a new flow is then dealt the next server for every packet. */
  lemma ForgottenWhenFull(dips: seq<u32>, capacity: int, s: Lb, k: Key)
    requires Ready(dips, s) && k !in s.flows && !Room(capacity, s)
    ensures Servers(dips, capacity, s, [k, k]) == [dips[s.next], dips[After(dips, s.next)]]
    ensures Servers(dips, UNBOUNDED, s, [k, k]) == [dips[s.next], dips[s.next]]
  {
    assert [k, k][1..] == [k] && [k][1..] == [];
  }

  // ---------------------------------------------------------------------------
  // Who keeps a server
  // ---------------------------------------------------------------------------

  /** A remembered flow keeps its server, in a full table too. */
  lemma {:induction false} Sticky(dips: seq<u32>, capacity: int, s: Lb, keys: seq<Key>, j: int)
    requires Ready(dips, s) && 0 <= j < |keys|
    ensures keys[j] in s.flows ==> Servers(dips, capacity, s, keys)[j] == s.flows[keys[j]]
    decreases |keys|
  {
    if j > 0 {
      Sticky(dips, capacity, Step(dips, capacity, s, keys[0]), keys[1..], j - 1);
      assert keys[1..][j - 1] == keys[j];
    }
  }

  /** In an unbounded table all packets of a flow go to one server. */
  lemma {:induction false} OneServer(dips: seq<u32>, s: Lb, keys: seq<Key>, i: int, j: int)
    requires Ready(dips, s) && 0 <= i <= j < |keys| && keys[i] == keys[j]
    ensures Servers(dips, UNBOUNDED, s, keys)[i] == Servers(dips, UNBOUNDED, s, keys)[j]
    decreases |keys|
  {
    var s' := Step(dips, UNBOUNDED, s, keys[0]);
    if i > 0 {
      assert keys[1..][i - 1] == keys[i] && keys[1..][j - 1] == keys[j];
      OneServer(dips, s', keys[1..], i - 1, j - 1);
    } else if j > 0 {
      assert keys[1..][j - 1] == keys[j];
      Sticky(dips, UNBOUNDED, s', keys[1..], j - 1);
    }
  }

  function Ahead(dips: seq<u32>, next: int, m: nat): (i: int)
    requires 0 <= next < |dips|
    ensures 0 <= i < |dips|
    decreases m
  {
    if m == 0 then next else Ahead(dips, After(dips, next), m - 1)
  }

  /** Every server in use comes round. */
  lemma {:induction false} ComesRound(dips: seq<u32>, n: int, next: int, i: int) returns (m: nat)
    requires Active(dips, n) && 0 <= next < n && 0 <= i < n
    ensures Ahead(dips, next, m) == i
    decreases if next <= i then i - next else n - next + i
  {
    if next == i {
      m := 0;
    } else {
      m := ComesRound(dips, n, After(dips, next), i);
      m := m + 1;
    }
  }

  /** A flow a full table does not know is dealt server after server. */
  lemma {:induction false} Dealt(dips: seq<u32>, capacity: int, s: Lb, k: Key, m: nat)
    requires Ready(dips, s) && k !in s.flows && !Room(capacity, s)
    ensures Servers(dips, capacity, s, Again(k, m + 1))[m] == dips[Ahead(dips, s.next, m)]
    decreases m
  {
    var keys := Again(k, m + 1);
    var s' := Step(dips, capacity, s, keys[0]);
    assert keys[1..] == Again(k, m);
    if m > 0 {
      Dealt(dips, capacity, s', k, m - 1);
    }
  }

  function Again(k: Key, m: nat): (keys: seq<Key>)
    ensures |keys| == m && forall i | 0 <= i < m :: keys[i] == k
  {
    seq(m, _ => k)
  }

  /** Whatever packets follow, those of `k` go where one of `k` goes now. */
  ghost predicate Keeps(dips: seq<u32>, capacity: int, s: Lb, k: Key)
    requires Ready(dips, s)
  {
    forall more: seq<Key>, j | 0 <= j < |more| && more[j] == k ::
      Servers(dips, capacity, s, [k] + more)[j + 1] == Server(dips, s, k)
  }

  /**
    A flow keeps its server, over every continuation, exactly when the table knows it or has room
    for it, or there is but one server address to give.
   */
  lemma KeepsIff(dips: seq<u32>, n: int, capacity: int, s: Lb, k: Key)
    requires Active(dips, n) && 0 <= s.next < n
    ensures Keeps(dips, capacity, s, k) <==>
            k in s.flows || Room(capacity, s) || forall i | 0 <= i < n :: dips[i] == dips[s.next]
  {
    if k in s.flows || Room(capacity, s) {
      KnownKeeps(dips, capacity, s, k);
    } else if i :| 0 <= i < n && dips[i] != dips[s.next] {
      var m := ComesRound(dips, n, s.next, i);
      Dealt(dips, capacity, s, k, m);
      assert Again(k, m + 1) == [k] + Again(k, m);
      assert Again(k, m)[m - 1] == k;
    } else {
      forall more: seq<Key>, j | 0 <= j < |more| && more[j] == k
        ensures Servers(dips, capacity, s, [k] + more)[j + 1] == Server(dips, s, k)
      {
        OnlyServer(dips, n, capacity, s, [k] + more, k, j + 1);
      }
    }
  }

  lemma KnownKeeps(dips: seq<u32>, capacity: int, s: Lb, k: Key)
    requires Ready(dips, s) && (k in s.flows || Room(capacity, s))
    ensures Keeps(dips, capacity, s, k)
  {
    forall more: seq<Key>, j | 0 <= j < |more| && more[j] == k
      ensures Servers(dips, capacity, s, [k] + more)[j + 1] == Server(dips, s, k)
    {
      assert ([k] + more)[1..] == more;
      Sticky(dips, capacity, Step(dips, capacity, s, k), more, j);
    }
  }

  lemma {:induction false} OnlyServer(dips: seq<u32>, n: int, capacity: int, s: Lb, keys: seq<Key>, k: Key, j: int)
    requires Active(dips, n) && 0 <= s.next < n && k !in s.flows && !Room(capacity, s)
    requires forall i | 0 <= i < n :: dips[i] == dips[0]
    requires 0 <= j < |keys| && keys[j] == k
    ensures Servers(dips, capacity, s, keys)[j] == dips[0]
    decreases j
  {
    if j > 0 {
      assert keys[1..][j - 1] == k;
      OnlyServer(dips, n, capacity, Step(dips, capacity, s, keys[0]), keys[1..], k, j - 1);
    }
  }

  // ---------------------------------------------------------------------------
  // When a bounded table is enough
  // ---------------------------------------------------------------------------

  lemma {:induction false} Listed(ks: set<Key>) returns (keys: seq<Key>)
    ensures KeySet(keys) == ks
  {
    if ks == {} {
      keys := [];
      assert KeySet([]) == {};
    } else {
      var k :| k in ks;
      var rest := Listed(ks - {k});
      keys := rest + [k];
      assert KeySet(keys) == KeySet(rest) + {k};
    }
  }

  /** A bounded table never holds more than its capacity, and only a full one forgets a flow. */
  lemma {:induction false} BoundedFlows(dips: seq<u32>, n: int, capacity: int, s: Lb, keys: seq<Key>)
    requires Active(dips, n) && 0 <= s.next < n && |s.flows| <= capacity
    ensures var end := Final(dips, capacity, s, keys);
      && 0 <= end.next < n && |end.flows| <= capacity && s.flows.Keys <= end.flows.Keys
      && (forall k | k in keys && k !in end.flows :: !Room(capacity, end))
    decreases |keys|
  {
    if keys != [] {
      var s' := Step(dips, capacity, s, keys[0]);
      BoundedFlows(dips, n, capacity, s', keys[1..]);
      var end := Final(dips, capacity, s', keys[1..]);
      assert forall k | k in keys :: k == keys[0] || k in keys[1..];
      FiniteSets.SubsetCardinality(s'.flows.Keys, end.flows.Keys);
    }
  }

  lemma {:induction false} ServersThen(dips: seq<u32>, capacity: int, s: Lb, keys: seq<Key>, more: seq<Key>)
    requires Ready(dips, s)
    ensures Servers(dips, capacity, s, keys + more) ==
            Servers(dips, capacity, s, keys) + Servers(dips, capacity, Final(dips, capacity, s, keys), more)
    decreases |keys|
  {
    if keys == [] {
      assert [] + more == more;
    } else {
      assert (keys + more)[1..] == keys[1..] + more;
      ServersThen(dips, capacity, Step(dips, capacity, s, keys[0]), keys[1..], more);
    }
  }

  /** A trace of packets of the flows `ks` is served alike by a ring of `size` cells and by the tree. */
  ghost predicate ServedAlike(dips: seq<u32>, size: int, ks: set<Key>)
    requires 0 < |dips|
  {
    forall keys | KeySet(keys) <= ks ::
      Servers(dips, size, Lb(map[], 0), keys) == Servers(dips, UNBOUNDED, Lb(map[], 0), keys)
  }

  /** With more than one server address, ring and tree agree on all traces of a set of flows exactly when the set fits the ring. */
  lemma RingLikeTreeIff(dips: seq<u32>, n: int, size: nat, ks: set<Key>)
    requires Active(dips, n) && exists i :: 0 <= i < n && dips[i] != dips[0]
    ensures ServedAlike(dips, size, ks) <==> |ks| <= size
  {
    if |ks| <= size {
      forall keys | KeySet(keys) <= ks
        ensures Servers(dips, size, Lb(map[], 0), keys) == Servers(dips, UNBOUNDED, Lb(map[], 0), keys)
      {
        FiniteSets.SubsetCardinality(KeySet(keys), ks);
        RingLikeTree(dips, size, keys);
      }
    } else {
      var keys := ServedUnlike(dips, n, size, ks);
    }
  }

  lemma ServedUnlike(dips: seq<u32>, n: int, size: nat, ks: set<Key>) returns (keys: seq<Key>)
    requires Active(dips, n) && (exists i :: 0 <= i < n && dips[i] != dips[0]) && |ks| > size
    ensures KeySet(keys) <= ks
    ensures Servers(dips, size, Lb(map[], 0), keys) != Servers(dips, UNBOUNDED, Lb(map[], 0), keys)
  {
    hide Servers, Final, KeySet, Active, After, Ahead, Again;
    var start := Lb(map[], 0);
    ActiveSome(dips, n);
    var all := Listed(ks);
    var ring, tree := Final(dips, size, start, all), Final(dips, UNBOUNDED, start, all);
    BoundedFlows(dips, n, size, start, all);
    FlowsRemembered(dips, start, all);
    var k := LeftOut(ks, ring.flows);
    KeySetHas(all, k);
    var m, more := Apart(dips, n, size, ring, tree, k);
    ServersThen(dips, size, start, all, more);
    ServersThen(dips, UNBOUNDED, start, all, more);
    keys := all + more;
    KeySetThen(all, more, k);
    assert Servers(dips, size, start, keys)[|all| + m] != Servers(dips, UNBOUNDED, start, keys)[|all| + m];
  }

  lemma ActiveSome(dips: seq<u32>, n: int)
    requires Active(dips, n)
    ensures 0 < n <= |dips|
  {
  }

  lemma LeftOut(ks: set<Key>, flows: map<Key, u32>) returns (k: Key)
    requires |flows| < |ks|
    ensures k in ks && k !in flows
  {
    if ks <= flows.Keys { FiniteSets.SubsetCardinality(ks, flows.Keys); }
    k :| k in ks && k !in flows;
  }

  lemma KeySetHas(keys: seq<Key>, k: Key)
    ensures k in KeySet(keys) <==> k in keys
  {
  }

  lemma KeySetThen(keys: seq<Key>, more: seq<Key>, k: Key)
    requires k in KeySet(keys) && forall j | 0 <= j < |more| :: more[j] == k
    ensures KeySet(keys + more) == KeySet(keys)
  {
  }

  /** Enough packets of a flow that a full ring does not know and the tree does set the two apart. */
  lemma Apart(dips: seq<u32>, n: int, size: nat, ring: Lb, tree: Lb, k: Key) returns (m: nat, more: seq<Key>)
    requires Active(dips, n) && exists i :: 0 <= i < n && dips[i] != dips[0]
    requires 0 <= ring.next < n && Ready(dips, tree) && k !in ring.flows && !Room(size, ring) && k in tree.flows
    ensures m < |more| && (forall j | 0 <= j < |more| :: more[j] == k) && Ready(dips, ring)
    ensures Servers(dips, size, ring, more)[m] != Servers(dips, UNBOUNDED, tree, more)[m]
  {
    hide Servers;
    var i :| 0 <= i < n && dips[i] != dips[0];
    if tree.flows[k] != dips[0] { i := 0; }
    m := ComesRound(dips, n, ring.next, i);
    more := Again(k, m + 1);
    Dealt(dips, size, ring, k, m);
    Sticky(dips, UNBOUNDED, tree, more, m);
  }
}
