/** dpdk-lpm-btrie.c: longest prefix match in a binary trie. */
module LpmTrie {
  import opened Words
  import opened Lpm

  class Node {
    var zero: Node?
    var one: Node?
    var port: int
    ghost const key: Prefix  // the bits that lead here

    constructor (ghost key: Prefix)
      ensures zero == null && one == null && port == NULL_PORT && this.key == key
    {
      zero, one, port := null, null, NULL_PORT;
      this.key := key;
    }
  }

  /** Where a node pointer is stored: what the source walks as a pointer to a pointer. */
  datatype Place = Root | Child(of: Node, bit: bool)

  function Parent(p: Prefix): Prefix
  {
    Prefix(p.len - 1, p.bits / 2)
  }

  function LastBit(p: Prefix): bool
  {
    p.bits % 2 == 1
  }

  function Longer(p: Prefix, bit: bool): (q: Prefix)
    ensures Parent(q) == p && LastBit(q) == bit && q.len == p.len + 1
  {
    Prefix(p.len + 1, 2 * p.bits + if bit then 1 else 0)
  }

  lemma PrefixStep(ip: u32, len: int)
    requires 0 < len <= 32
    ensures PrefixOf(ip, len) == Longer(PrefixOf(ip, len - 1), Bit(ip, len - 1))
    ensures PrefixOf(ip, len).len == len
  {
    TopStep(ip, len - 1);
  }

  lemma PrefixZero(ip: u32)
    ensures PrefixOf(ip, 0) == EMPTY
  {
    TopZero(ip);
  }

  const EMPTY := Prefix(0, 0)

  function PortIn(table: map<Prefix, int>, p: Prefix): int
  {
    if p in table then table[p] else NULL_PORT
  }

  class Trie {
    var root: Node?
    ghost var nodes: map<Prefix, Node>  // every node under the bits that lead to it
    ghost var table: map<Prefix, int>   // the routing table the trie stands for

    ghost function At(p: Prefix): Node?
      reads this
    {
      if p in nodes then nodes[p] else null
    }

    /** The node of `p` points at the nodes of its two extensions, and its own prefix leads to its parent. */
    ghost predicate Placed(p: Prefix)
      requires p in nodes
      reads this, nodes[p]
    {
      && nodes[p].key == p
      && nodes[p].zero == At(Longer(p, false)) && nodes[p].one == At(Longer(p, true))
      && nodes[p].port == PortIn(table, p)
      && 0 <= p.len <= 32 && (if p.len == 0 then p == EMPTY else Parent(p) in nodes)
    }

    ghost predicate Valid()
      reads this, nodes.Values
    {
      && root == At(EMPTY)
      && (forall p {:trigger Placed(p)} | p in nodes :: Placed(p))
      && table.Keys <= nodes.Keys && NULL_PORT !in table.Values
    }

    /** `lpm_create` */
    constructor ()
      ensures Valid() && table == map[] && nodes == map[]
    {
      root := null;
      nodes, table := map[], map[];
    }

    function Load(place: Place): Node?
      reads this, if place.Child? then {place.of} else {}
    {
      match place
      case Root => root
      case Child(n, bit) => if bit then n.one else n.zero
    }

    /** `place` is where the node for the first `len` bits of `ip` belongs. */
    ghost predicate Leads(place: Place, ip: u32, len: int)
      reads this
      requires 0 <= len <= 32
    {
      if len == 0 then place == Root
      else PrefixOf(ip, len - 1) in nodes && place == Child(nodes[PrefixOf(ip, len - 1)], Bit(ip, len - 1))
    }

    lemma LoadIsAt(place: Place, ip: u32, len: int)
      requires Valid() && 0 <= len <= 32 && Leads(place, ip, len)
      ensures Load(place) == At(PrefixOf(ip, len))
    {
      if len == 0 {
        PrefixZero(ip);
      } else {
        PrefixStep(ip, len);
        assert Placed(PrefixOf(ip, len - 1));
      }
    }

    lemma KeysApart()
      requires Valid()
      ensures forall q | q in nodes :: nodes[q].key == q
    {
      forall q | q in nodes ensures nodes[q].key == q {
        assert Placed(q);
      }
    }

    lemma ParentsIn()
      requires Valid()
      ensures forall q {:trigger Parent(q)} | q in nodes && q.len > 0 :: Parent(q) in nodes
    {
      forall q | q in nodes && q.len > 0 ensures Parent(q) in nodes {
        assert Placed(q);
      }
    }

    /** Creates the node missing at `place`. */
    method Grow(place: Place, ip: u32, len: int) returns (n: Node)
      requires Valid() && 0 <= len <= 32 && Leads(place, ip, len) && Load(place) == null
      modifies this, if place.Child? then {place.of} else {}
      ensures fresh(n) && nodes == old(nodes)[PrefixOf(ip, len) := n] && table == old(table)
      ensures Valid() && PrefixOf(ip, len) !in old(nodes)
    {
      hide PrefixOf, Longer, Parent, LastBit, Bit, Top;
      KeysApart();
      LoadIsAt(place, ip, len);
      ghost var p := PrefixOf(ip, len);
      if len == 0 { PrefixZero(ip); } else { PrefixStep(ip, len); assert Placed(PrefixOf(ip, len - 1)); }
      ParentsIn();
      assert forall b :: Parent(Longer(p, b)) == p;
      n := new Node(p);
      match place {
        case Root => root := n;
        case Child(parent, bit) =>
          if bit { parent.one := n; } else { parent.zero := n; }
      }
      nodes := nodes[p := n];
      forall q | q in nodes ensures Placed(q) {
        if q != p {
          assert old(Placed(q));
          assert forall b :: Longer(q, b) == p ==> place == Child(nodes[q], b);
        }
      }
    }

    /** `lpm_set_prefix_port`: refuses a prefix that already has a port. */
    method SetPrefixPort(ip: u32, prefixLen: int, port: int) returns (r: int)
      requires Valid() && 0 <= prefixLen <= 32
      modifies this, nodes.Values
      ensures Valid()
      ensures forall p | p in nodes :: (p in old(nodes) && nodes[p] == old(nodes)[p]) || fresh(nodes[p])
      ensures r == if PrefixOf(ip, prefixLen) in old(table) then -1 else 0
      ensures table == if r == -1 || port == NULL_PORT then old(table) else old(table)[PrefixOf(ip, prefixLen) := port]
    {
      hide PrefixOf, Longer, Parent, LastBit, Bit, Top;
      var place := Root;
      var pos := 0;
      while pos <= prefixLen
        invariant 0 <= pos <= prefixLen + 1
        invariant Valid() && table == old(table)
        invariant forall p | p in nodes :: (p in old(nodes) && nodes[p] == old(nodes)[p]) || fresh(nodes[p])
        invariant Leads(place, ip, if pos <= prefixLen then pos else prefixLen)
        invariant pos > prefixLen ==> PrefixOf(ip, prefixLen) in nodes
      {
        LoadIsAt(place, ip, pos);
        var node := Load(place);
        if node == null {
          node := Grow(place, ip, pos);
        }
        if pos < prefixLen {
          place := Child(node, Bit(ip, pos));
        }
        pos := pos + 1;
      }
      LoadIsAt(place, ip, prefixLen);
      var node := Load(place);
      ghost var p := PrefixOf(ip, prefixLen);
      assert Placed(p);
      if node.port != NULL_PORT {
        return -1;
      }
      SetPort(node, port);
      return 0;
    }

    method SetPort(node: Node, port: int)
      requires Valid() && node.key in nodes && nodes[node.key] == node && node.key !in table
      modifies this`table, node
      ensures Valid() && table == if port == NULL_PORT then old(table) else old(table)[node.key := port]
    {
      hide Longer, Parent, LastBit;
      KeysApart();
      node.port := port;
      if port != NULL_PORT {
        table := table[node.key := port];
      }
      forall q | q in nodes ensures Placed(q) {
        assert old(Placed(q));
      }
    }

    /** `lpm_get_ip_port`: the walk looks at 32 nodes, which hold the prefixes of 0 to 31 bits. */
    method GetIpPort(ip: u32) returns (r: int, outPort: int)
      requires Valid()
      ensures r == 0 ==> Route(table, ip, 31) == Some(outPort)
      ensures r != 0 ==> r == -1 && Route(table, ip, 31) == None
    {
      hide PrefixOf, Longer, Parent, LastBit, Bit, Top, Route;
      RouteNone(table, ip);
      PrefixZero(ip);
      var node := root;
      var port := NULL_PORT;
      var pos := 31;
      while pos >= 0 && node != null
        invariant -1 <= pos <= 31
        invariant node == At(PrefixOf(ip, 31 - pos))
        invariant Route(table, ip, 30 - pos) == if port == NULL_PORT then None else Some(port)
      {
        PrefixStep(ip, 32 - pos);
        RouteStep(table, ip, 31 - pos);
        assert Placed(PrefixOf(ip, 31 - pos));
        if node.port != NULL_PORT {
          port := node.port;
        }
        if Bit(ip, 31 - pos) {
          node := node.one;
        } else {
          node := node.zero;
        }
        pos := pos - 1;
      }
      if node == null {
        NoneBelow(ip, 31 - pos, 31);
      }
      if port == NULL_PORT {
        return -1, 0;
      } else {
        return 0, port;
      }
    }

    /** Without a node for the first `len` bits there is none for more bits either. */
    lemma {:induction false} Absent(ip: u32, len: int, n: int)
      requires Valid() && 0 <= len <= n <= 32 && PrefixOf(ip, len) !in nodes
      ensures PrefixOf(ip, n) !in nodes
      decreases n
    {
      if n > len {
        Absent(ip, len, n - 1);
        PrefixStep(ip, n);
        assert PrefixOf(ip, n) in nodes ==> Placed(PrefixOf(ip, n));
      }
    }

    lemma {:induction false} NoneBelow(ip: u32, len: int, n: int)
      requires Valid() && 0 <= len <= 32 && len - 1 <= n <= 31 && PrefixOf(ip, len) !in nodes
      ensures Route(table, ip, n) == Route(table, ip, len - 1)
      decreases n
    {
      if n >= len {
        NoneBelow(ip, len, n - 1);
        Absent(ip, len, n);
      }
    }
  }

  // ---------------------------------------------------------------------------
  // The whole program
  // ---------------------------------------------------------------------------

  /**
    `init_lpm` without its file: enters the rules in order and exits, which is null here, at the
    first one refused.  It comes up exactly when no prefix repeats.
   */
  method Build(rules: seq<Rule>, nbDevices: u32) returns (trie: Trie?)
    requires Lengths(Kept(rules, nbDevices), 0, 32)
    ensures trie != null <==> NoRepeats(Kept(rules, nbDevices))
    ensures trie != null ==> fresh(trie) && trie.Valid() && trie.table == Routes(Kept(rules, nbDevices))
  {
    hide PrefixOf, Routes, Kept, Trie.Placed;
    ghost var kept := Kept(rules, nbDevices);
    var t := new Trie();
    KeptNone(nbDevices);
    assert rules[..0] == [];
    var i := 0;
    while i < |rules|
      invariant 0 <= i <= |rules|
      invariant t.Valid() && fresh(t) && (forall p | p in t.nodes :: fresh(t.nodes[p]))
      invariant Kept(rules[..i], nbDevices) <= kept
      invariant NoRepeats(Kept(rules[..i], nbDevices)) && t.table == Routes(Kept(rules[..i], nbDevices))
    {
      ghost var sofar := Kept(rules[..i], nbDevices);
      KeptMore(rules, nbDevices, i);
      KeptPrefix(rules, nbDevices, i + 1);
      if rules[i].port < 0 || nbDevices < rules[i].port {
      } else {
        assert kept[|sofar|] == rules[i];
        NoRepeatsMore(sofar, rules[i]);
        var result := t.SetPrefixPort(rules[i].ip, rules[i].len, rules[i].port);
        if result < 0 {
          assert !NoRepeats(sofar + [rules[i]]);
          RepeatStays(sofar + [rules[i]], kept);
          return null;
        }
      }
      i := i + 1;
    }
    assert rules[..|rules|] == rules;
    return t;
  }

  lemma RepeatStays(some: seq<Rule>, all: seq<Rule>)
    requires Lengths(all, 0, 32) && some <= all && !NoRepeats(some)
    ensures !NoRepeats(all)
  {
    var i, j :| 0 <= i < j < |some| && PrefixOf(some[i].ip, some[i].len) == PrefixOf(some[j].ip, some[j].len);
    assert all[i] == some[i] && all[j] == some[j];
  }

  /** What a lookup should give: the port of the winning rule, or failure when no rule covers the address. */
  ghost predicate Correct(rules: seq<Rule>, ip: u32, r: int, port: int)
  {
    if exists i :: 0 <= i < |rules| && Covers(rules[i], ip) then
      r == 0 && exists i :: Wins(rules, ip, 32, i) && port == rules[i].port
    else r == -1
  }

  /** A rule for `ip` alone, if there is one, names the port of the longest shorter rule that covers `ip`. */
  ghost predicate Shadowed(rules: seq<Rule>, ip: u32)
  {
    forall h | 0 <= h < |rules| && rules[h].len == 32 && rules[h].ip == ip ::
      exists i :: Wins(rules, ip, 31, i) && rules[i].port == rules[h].port
  }

  /**
    Starts the program on a list of rules and looks one address up.  The walk never reads a 32-bit
    rule, so the answer is right exactly when the rule for the address alone is shadowed.
   */
  method LookUp(rules: seq<Rule>, nbDevices: u32, ip: u32) returns (up: bool, r: int, port: int)
    requires Lengths(Kept(rules, nbDevices), 0, 32)
    ensures up <==> NoRepeats(Kept(rules, nbDevices))
    ensures up ==> (r == 0 || r == -1) && (r == 0 <==> exists i :: Wins(Kept(rules, nbDevices), ip, 31, i))
    ensures up && r == 0 ==> exists i :: Wins(Kept(rules, nbDevices), ip, 31, i) && port == Kept(rules, nbDevices)[i].port
    ensures up ==> (Correct(Kept(rules, nbDevices), ip, r, port) <==> Shadowed(Kept(rules, nbDevices), ip))
  {
    hide Kept, Routes, Route, Wins, Correct, Shadowed, Trie.Valid;
    var trie := Build(rules, nbDevices);
    if trie == null {
      return false, 0, 0;
    }
    up := true;
    r, port := trie.GetIpPort(ip);
    RouteOfWinner(Kept(rules, nbDevices), ip, 31);
    ExactIffShadowed(Kept(rules, nbDevices), ip, r, port);
  }

  lemma ExactIffShadowed(rules: seq<Rule>, ip: u32, r: int, port: int)
    requires Lengths(rules, 0, 32) && NoRepeats(rules)
    requires if r == 0 then Route(Routes(rules), ip, 31) == Some(port) else r == -1 && Route(Routes(rules), ip, 31) == None
    ensures Correct(rules, ip, r, port) <==> Shadowed(rules, ip)
  {
    hide Routes, Route, Wins, NoRepeats, Covers;
    RouteOfWinner(rules, ip, 31);
    if h :| 0 <= h < |rules| && rules[h].len == 32 && rules[h].ip == ip {
      HostWins(rules, ip, h);
      WinsOnce(rules, ip, 31);
    } else {
      HostAbsent(rules, ip);
      RouteOfWinner(rules, ip, 32);
    }
  }

  /** The rule for an address alone wins over all others, and no prefix repeats. */
  lemma HostWins(rules: seq<Rule>, ip: u32, h: int)
    requires Lengths(rules, 0, 32) && NoRepeats(rules) && 0 <= h < |rules| && rules[h].len == 32 && rules[h].ip == ip
    ensures Covers(rules[h], ip) && forall i :: Wins(rules, ip, 32, i) <==> i == h
    ensures forall g | 0 <= g < |rules| && rules[g].len == 32 && rules[g].ip == ip :: g == h
  {
    hide Top, NoRepeats;
    forall g | 0 <= g < |rules| && rules[g].len == 32 && Covers(rules[g], ip) ensures g == h {
      OneRule(rules, g, h);
    }
  }

  lemma OneRule(rules: seq<Rule>, g: int, h: int)
    requires Lengths(rules, 0, 32) && NoRepeats(rules) && 0 <= g < |rules| && 0 <= h < |rules|
    requires rules[g].len == rules[h].len && Top(rules[g].ip, rules[g].len) == Top(rules[h].ip, rules[h].len)
    ensures g == h
  {
    assert PrefixOf(rules[g].ip, rules[g].len) == PrefixOf(rules[h].ip, rules[h].len);
  }

  lemma WinsOnce(rules: seq<Rule>, ip: u32, n: int)
    ensures forall i, j | Wins(rules, ip, n, i) && Wins(rules, ip, n, j) :: i == j
  {
  }

  lemma HostAbsent(rules: seq<Rule>, ip: u32)
    requires Lengths(rules, 0, 32) && forall h | 0 <= h < |rules| :: !(rules[h].len == 32 && rules[h].ip == ip)
    ensures forall i :: Wins(rules, ip, 32, i) <==> Wins(rules, ip, 31, i)
  {
    hide Top;
    forall j | 0 <= j < |rules| && Covers(rules[j], ip) ensures rules[j].len <= 31 {
      HostPrefix(rules[j].ip);
      HostPrefix(ip);
    }
  }

  lemma HostPrefix(ip: u32)
    ensures Top(ip, 32) == ip
  {
    assert Pow2(0) == 1;
  }

  /** A rule for one address with no shorter rule around it is entered and never found. */
  lemma HostRouteMissed(ip: u32, port: int, nbDevices: u32)
    requires 0 <= port <= nbDevices
    ensures var kept := Kept([Rule(ip, 32, port)], nbDevices);
      && kept == [Rule(ip, 32, port)] && NoRepeats(kept) && Wins(kept, ip, 32, 0)
      && (forall i :: !Wins(kept, ip, 31, i)) && !Shadowed(kept, ip)
  {
    var rules := [Rule(ip, 32, port)];
    assert rules[..0] == [];
    var kept := Kept(rules, nbDevices);
    assert kept == rules && kept[0].len == 32;
    assert exists h :: 0 <= h < |kept| && kept[h].len == 32 && kept[h].ip == ip;
  }
}
