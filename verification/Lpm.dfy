/** Longest prefix match over IPv4 addresses, as plain maps from prefixes to ports. */
module Lpm {
  import opened Words
  import Arith

  datatype Option<T> = None | Some(value: T)

  /** A route: the leading `len` bits of `ip` lead to `port`. */
  datatype Rule = Rule(ip: u32, len: int, port: int)

  /** The leading `len` bits of an address, as a number. */
  datatype Prefix = Prefix(len: int, bits: int)

  const NULL_PORT := -1

  function Pow2(n: nat): (p: int)
    ensures p > 0
  {
    if n == 0 then 1 else 2 * Pow2(n - 1)
  }

  /** `ip >> (32 - len)` */
  function Top(ip: u32, len: int): int
    requires 0 <= len <= 32
  {
    ip / Pow2(32 - len)
  }

  /** Bit number `pos` counted from the most significant one: `ip & 1 << (31 - pos)` is not 0. */
  function Bit(ip: u32, pos: int): bool
    requires 0 <= pos < 32
  {
    Top(ip, pos + 1) % 2 == 1
  }

  function PrefixOf(ip: u32, len: int): Prefix
    requires 0 <= len <= 32
  {
    Prefix(len, Top(ip, len))
  }

  predicate Matches(p: Prefix, ip: u32)
  {
    0 <= p.len <= 32 && p.bits == Top(ip, p.len)
  }

  lemma HalfDiv(x: int, a: int)
    requires 0 <= x && 0 < a
    ensures x / (2 * a) == x / a / 2
  {
    var q, r := x / a, x % a;
    assert x == a * q + r;
    var h, b := q / 2, q % 2;
    assert q == 2 * h + b;
    assert x == h * (2 * a) + (a * b + r) by { assert a * (2 * h + b) == 2 * a * h + a * b; }
    assert 0 <= a * b + r < 2 * a by { if b == 0 { assert a * b == 0; } else { assert a * b == a; } }
    Arith.DivModUnique(x, 2 * a, h, a * b + r);
  }

  /** The parent of a prefix of `ip` is the next shorter prefix of `ip`. */
  lemma TopStep(ip: u32, pos: int)
    requires 0 <= pos < 32
    ensures Top(ip, pos) == Top(ip, pos + 1) / 2
    ensures Top(ip, pos + 1) == 2 * Top(ip, pos) + if Bit(ip, pos) then 1 else 0
  {
    HalfDiv(ip, Pow2(31 - pos));
  }

  lemma Pow2Of32()
    ensures Pow2(32) == 0x1_0000_0000
  {
    assert Pow2(8) == 0x100;
    Pow2Add(8, 8);
    Pow2Add(16, 16);
  }

  lemma TopZero(ip: u32)
    ensures Top(ip, 0) == 0
  {
    Pow2Of32();
  }

  lemma {:induction false} Pow2Add(m: nat, n: nat)
    ensures Pow2(m + n) == Pow2(m) * Pow2(n)
  {
    if n > 0 {
      Pow2Add(m, n - 1);
    }
  }

  /** The longest of `prefixes`, among those no longer than `n`, that `ip` matches. */
  function Longest(prefixes: set<Prefix>, ip: u32, n: int): (r: Option<Prefix>)
    requires n <= 32
    ensures r.Some? ==> r.value in prefixes && Matches(r.value, ip) && r.value.len <= n
    ensures r.Some? ==> forall q | q in prefixes && Matches(q, ip) && q.len <= n :: q.len <= r.value.len
    ensures r.None? ==> forall q | q in prefixes :: !(Matches(q, ip) && q.len <= n)
    decreases n + 1
  {
    if n < 0 then None
    else if PrefixOf(ip, n) in prefixes then Some(PrefixOf(ip, n))
    else Longest(prefixes, ip, n - 1)
  }

  /** The port a routing table gives an address. */
  function Route(table: map<Prefix, int>, ip: u32, n: int): Option<int>
    requires n <= 32
  {
    var p := Longest(table.Keys, ip, n);
    if p.Some? then Some(table[p.value]) else None
  }

  lemma RouteNone(table: map<Prefix, int>, ip: u32)
    ensures Route(table, ip, -1) == None
  {
  }

  lemma RouteStep(table: map<Prefix, int>, ip: u32, n: int)
    requires 0 <= n <= 32
    ensures Route(table, ip, n) ==
            if PrefixOf(ip, n) in table then Some(table[PrefixOf(ip, n)]) else Route(table, ip, n - 1)
  {
  }

  /** The longest match is unique: any prefix with its defining property is it. */
  lemma LongestIs(prefixes: set<Prefix>, x: u32, n: int, q: Prefix)
    requires n <= 32 && q in prefixes && Matches(q, x) && q.len <= n
    requires forall p | p in prefixes && Matches(p, x) && p.len <= n :: p.len <= q.len
    ensures Longest(prefixes, x, n) == Some(q)
  {
    var r := Longest(prefixes, x, n);
    assert r.Some? && r.value.len == q.len;
  }

  lemma LongestNone(prefixes: set<Prefix>, x: u32, n: int)
    requires n <= 32
    requires forall p | p in prefixes :: !(Matches(p, x) && p.len <= n)
    ensures Longest(prefixes, x, n) == None
  {
    var r := Longest(prefixes, x, n);
  }

  // ---------------------------------------------------------------------------
  // Lists of rules
  // ---------------------------------------------------------------------------

  /** The rules of a file that `init_lpm` enters: those whose port is 0 to the number of devices. */
  function Kept(rules: seq<Rule>, nbDevices: u32): seq<Rule>
  {
    if rules == [] then []
    else
      var rest, r := Kept(rules[..|rules| - 1], nbDevices), rules[|rules| - 1];
      if r.port < 0 || nbDevices < r.port then rest else rest + [r]
  }

  lemma KeptMore(rules: seq<Rule>, nbDevices: u32, i: int)
    requires 0 <= i < |rules|
    ensures Kept(rules[..i + 1], nbDevices) ==
            var rest := Kept(rules[..i], nbDevices);
            if rules[i].port < 0 || nbDevices < rules[i].port then rest else rest + [rules[i]]
  {
    assert rules[..i + 1][..i] == rules[..i];
  }

  lemma {:induction false} KeptPrefix(rules: seq<Rule>, nbDevices: u32, i: int)
    requires 0 <= i <= |rules|
    ensures Kept(rules[..i], nbDevices) <= Kept(rules, nbDevices)
    decreases |rules| - i
  {
    if i == |rules| {
      assert rules[..i] == rules;
    } else {
      KeptMore(rules, nbDevices, i);
      KeptPrefix(rules, nbDevices, i + 1);
    }
  }

  /** The rules kept are those with a port from 0 to the number of devices, in their order. */
  lemma {:induction false} KeptAre(rules: seq<Rule>, nbDevices: u32) returns (at: seq<int>)
    ensures |at| == |Kept(rules, nbDevices)|
    ensures forall i | 0 <= i < |at| :: 0 <= at[i] < |rules| && Kept(rules, nbDevices)[i] == rules[at[i]]
    ensures forall i, j | 0 <= i < j < |at| :: at[i] < at[j]
    ensures forall k | 0 <= k < |rules| :: k in at <==> 0 <= rules[k].port <= nbDevices
  {
    if rules == [] {
      at := [];
    } else {
      var n := |rules| - 1;
      var before := KeptAre(rules[..n], nbDevices);
      hide Kept;
      KeptMore(rules, nbDevices, n);
      assert rules[..n + 1] == rules;
      at := if 0 <= rules[n].port <= nbDevices then before + [n] else before;
      forall k | 0 <= k < |rules| ensures k in at <==> 0 <= rules[k].port <= nbDevices {
        assert k in at <==> k in before || (k == n && 0 <= rules[n].port <= nbDevices);
        assert k < n ==> rules[..n][k] == rules[k];
      }
    }
  }

  predicate Lengths(rules: seq<Rule>, least: int, most: int)
  {
    forall i | 0 <= i < |rules| :: least <= rules[i].len <= most
  }

  predicate NoRepeats(rules: seq<Rule>)
    requires Lengths(rules, 0, 32)
  {
    forall i, j | 0 <= i < j < |rules| :: PrefixOf(rules[i].ip, rules[i].len) != PrefixOf(rules[j].ip, rules[j].len)
  }

  /** The rules of a list as a table; of several rules for one prefix the last counts. */
  function Routes(rules: seq<Rule>): map<Prefix, int>
    requires Lengths(rules, 0, 32)
  {
    if rules == [] then map[]
    else
      var r := rules[|rules| - 1];
      Routes(rules[..|rules| - 1])[PrefixOf(r.ip, r.len) := r.port]
  }

  /** Rule `i` is the last one for `p`. */
  predicate LastFor(rules: seq<Rule>, p: Prefix, i: int)
    requires Lengths(rules, 0, 32)
  {
    && 0 <= i < |rules| && PrefixOf(rules[i].ip, rules[i].len) == p
    && forall j | i < j < |rules| :: PrefixOf(rules[j].ip, rules[j].len) != p
  }

  lemma LastForMore(rules: seq<Rule>, p: Prefix, i: int)
    requires Lengths(rules, 0, 32) && rules != []
    ensures var n := |rules| - 1;
      LastFor(rules, p, i) <==> if PrefixOf(rules[n].ip, rules[n].len) == p then i == n else LastFor(rules[..n], p, i)
  {
    hide PrefixOf;
    var n := |rules| - 1;
    assert forall j | 0 <= j < n :: rules[..n][j] == rules[j];
    if LastFor(rules, p, i) && i < n {
      assert PrefixOf(rules[n].ip, rules[n].len) != p;
    }
  }

  lemma {:induction false} SomeLast(rules: seq<Rule>, i: int) returns (k: int)
    requires Lengths(rules, 0, 32) && 0 <= i < |rules|
    ensures LastFor(rules, PrefixOf(rules[i].ip, rules[i].len), k)
    decreases |rules| - i
  {
    hide PrefixOf;
    if j :| i < j < |rules| && PrefixOf(rules[j].ip, rules[j].len) == PrefixOf(rules[i].ip, rules[i].len) {
      k := SomeLast(rules, j);
    } else {
      k := i;
    }
  }

  /** A prefix has a route exactly when some rule has it, and its port is that of the last such rule. */
  lemma {:induction false} RoutesAre(rules: seq<Rule>, p: Prefix)
    requires Lengths(rules, 0, 32)
    ensures p in Routes(rules) <==> exists i :: LastFor(rules, p, i)
    ensures forall i | LastFor(rules, p, i) :: 0 <= i < |rules| && Routes(rules)[p] == rules[i].port
    ensures p in Routes(rules) <==> exists i :: 0 <= i < |rules| && PrefixOf(rules[i].ip, rules[i].len) == p
  {
    hide PrefixOf, LastFor;
    RoutesLast(rules, p);
    forall i | 0 <= i < |rules| && PrefixOf(rules[i].ip, rules[i].len) == p ensures exists k :: LastFor(rules, p, k) {
      var k := SomeLast(rules, i);
    }
    if i :| LastFor(rules, p, i) {
      LastHas(rules, p, i);
    }
  }

  lemma LastHas(rules: seq<Rule>, p: Prefix, i: int)
    requires Lengths(rules, 0, 32) && LastFor(rules, p, i)
    ensures 0 <= i < |rules| && PrefixOf(rules[i].ip, rules[i].len) == p
  {
  }

  lemma {:induction false} RoutesLast(rules: seq<Rule>, p: Prefix)
    requires Lengths(rules, 0, 32)
    ensures p in Routes(rules) <==> exists i :: LastFor(rules, p, i)
    ensures forall i | LastFor(rules, p, i) :: 0 <= i < |rules| && Routes(rules)[p] == rules[i].port
  {
    hide PrefixOf, LastFor;
    if rules != [] {
      var n := |rules| - 1;
      RoutesLast(rules[..n], p);
      forall i
        ensures LastFor(rules, p, i) <==> if PrefixOf(rules[n].ip, rules[n].len) == p then i == n else LastFor(rules[..n], p, i)
      {
        LastForMore(rules, p, i);
      }
      if PrefixOf(rules[n].ip, rules[n].len) == p {
        assert LastFor(rules, p, n);
      } else if i :| LastFor(rules[..n], p, i) {
        assert LastFor(rules, p, i);
      }
    } else {
      forall i ensures !LastFor(rules, p, i) {
        if LastFor(rules, p, i) { LastHas(rules, p, i); }
      }
    }
  }

  lemma KeptNone(nbDevices: u32)
    ensures Kept([], nbDevices) == [] && Routes([]) == map[]
  {
  }

  lemma NoRepeatsMore(rules: seq<Rule>, r: Rule)
    requires Lengths(rules, 0, 32) && 0 <= r.len <= 32
    ensures Routes(rules + [r]) == Routes(rules)[PrefixOf(r.ip, r.len) := r.port]
    ensures NoRepeats(rules + [r]) <==> NoRepeats(rules) && PrefixOf(r.ip, r.len) !in Routes(rules)
  {
    var more := rules + [r];
    assert more[..|rules|] == rules;
    RoutesAre(rules, PrefixOf(r.ip, r.len));
    if NoRepeats(more) {
      forall i, j | 0 <= i < j < |rules|
        ensures PrefixOf(rules[i].ip, rules[i].len) != PrefixOf(rules[j].ip, rules[j].len)
      {
        assert more[i] == rules[i] && more[j] == rules[j];
      }
      assert forall i | 0 <= i < |rules| :: more[i] == rules[i] && more[|rules|] == r;
    }
  }

  // ---------------------------------------------------------------------------
  // The winning rule
  // ---------------------------------------------------------------------------

  predicate Covers(r: Rule, ip: u32)
  {
    0 <= r.len <= 32 && Top(r.ip, r.len) == Top(ip, r.len)
  }

  /** Among the rules of at most `n` bits that cover `ip`, rule `i` is the longest, and the last of those for its prefix. */
  predicate Wins(rules: seq<Rule>, ip: u32, n: int, i: int)
  {
    && 0 <= i < |rules| && Covers(rules[i], ip) && rules[i].len <= n
    && forall j | 0 <= j < |rules| && Covers(rules[j], ip) && rules[j].len <= n ::
         rules[j].len < rules[i].len || (rules[j].len == rules[i].len && j <= i)
  }

  /** The route of an address is the port of the winning rule, and there is one as soon as a rule covers the address. */
  lemma RouteOfWinner(rules: seq<Rule>, ip: u32, n: int)
    requires Lengths(rules, 0, 32) && n <= 32
    ensures Route(Routes(rules), ip, n).Some? <==> exists i :: Wins(rules, ip, n, i)
    ensures forall i | Wins(rules, ip, n, i) :: Route(Routes(rules), ip, n) == Some(rules[i].port)
    ensures (exists i :: Wins(rules, ip, n, i)) <==> exists i :: 0 <= i < |rules| && Covers(rules[i], ip) && rules[i].len <= n
  {
    hide Routes, Top;
    var q := Longest(Routes(rules).Keys, ip, n);
    forall j | 0 <= j < |rules| && Covers(rules[j], ip) && rules[j].len <= n
      ensures q.Some? && PrefixOf(rules[j].ip, rules[j].len) in Routes(rules) && rules[j].len <= q.value.len
    {
      RoutesAre(rules, PrefixOf(rules[j].ip, rules[j].len));
      assert Matches(PrefixOf(rules[j].ip, rules[j].len), ip);
    }
    if q.Some? {
      RoutesAre(rules, q.value);
      var i :| LastFor(rules, q.value, i);
      assert Wins(rules, ip, n, i) by {
        forall j | 0 <= j < |rules| && Covers(rules[j], ip) && rules[j].len == rules[i].len ensures j <= i {
          assert PrefixOf(rules[j].ip, rules[j].len) == q.value;
        }
      }
    }
  }
}
