/** dpdk-lpm-da.c: longest prefix match in a direct table of 2^27 cells, one per 27-bit prefix. */
module LpmTable {
  import opened Words
  import opened Lpm
  import Arith

  const LONGEST_PREFIX := 27

  /** A table cell; `memset` starts it at port 0 and length 0. */
  datatype Cell = Cell(port: int, len: int)

  /** `(ip & ~((1 << k) - 1)) >> 5` with k = 32 - len: the first cell a prefix covers. */
  function FirstCell(ip: u32, len: int): int
    requires 2 <= len <= LONGEST_PREFIX
  {
    (ip - ip % Pow2(32 - len)) / 32
  }

  /** `(ip | ((1 << k) - 1)) >> 5`: the last cell a prefix covers. */
  function LastCell(ip: u32, len: int): int
    requires 2 <= len <= LONGEST_PREFIX
  {
    (ip - ip % Pow2(32 - len) + (Pow2(32 - len) - 1)) / 32
  }

  /** `ip >> 5` */
  function CellOf(ip: u32): int
  {
    ip / 32
  }

  lemma Div32(x: int, w: int)
    requires 0 <= x && 0 < w
    ensures x / (32 * w) == x / 32 / w
  {
    var q := x / 32;
    var h, s := q / w, q % w;
    var wh := w * h;
    assert q == wh + s;
    assert h * (32 * w) == 32 * wh;
    Arith.DivModUnique(x, 32 * w, h, 32 * s + x % 32);
  }

  lemma DivRange(c: int, w: int, t: int)
    requires 0 < w
    ensures w * t <= c <= w * t + w - 1 <==> c / w == t
  {
    if w * t <= c <= w * t + w - 1 {
      assert c == t * w + (c - w * t);
      Arith.DivModUnique(c, w, t, c - w * t);
    }
  }

  /** A rule covers the block of 2^(32 - len) addresses that its own address lies in. */
  lemma CoversBlock(r: Rule, ip: u32)
    requires 0 <= r.len <= 32
    ensures var size := Pow2(32 - r.len);
      Covers(r, ip) <==> r.ip - r.ip % size <= ip < r.ip - r.ip % size + size
  {
    hide Pow2;
    var size := Pow2(32 - r.len);
    var t := r.ip / size;
    assert r.ip == size * t + r.ip % size;
    DivRange(ip, size, t);
  }

  /** A prefix of `len` bits covers 2^(27 - len) cells from the one its leading bits point at. */
  lemma CellRange(ip: u32, len: int) returns (w: int)
    requires 2 <= len <= LONGEST_PREFIX
    ensures w > 0 && Pow2(32 - len) == 32 * w
    ensures FirstCell(ip, len) == w * Top(ip, len)
    ensures LastCell(ip, len) == w * Top(ip, len) + w - 1
  {
    hide Pow2;
    w := Pow2(27 - len);
    CellSize(len);
    RoundDown(ip, w);
  }

  lemma CellSize(len: int)
    requires 2 <= len <= LONGEST_PREFIX
    ensures Pow2(32 - len) == 32 * Pow2(27 - len)
  {
    Pow2Add(27 - len, 5);
    assert Pow2(5) == 32;
  }

  lemma RoundDown(x: int, w: int)
    requires 0 <= x && 0 < w
    ensures x - x % (32 * w) == 32 * (w * (x / (32 * w)))
  {
    var d := 32 * w;
    var t := x / d;
    assert x == d * t + x % d;
    assert (32 * w) * t == 32 * (w * t);
  }

  /** The range of cells written for a prefix is where the addresses under it are looked up. */
  lemma CellsOfPrefix(ip: u32, len: int, x: u32)
    requires 2 <= len <= LONGEST_PREFIX
    ensures FirstCell(ip, len) <= CellOf(x) <= LastCell(ip, len) <==> Top(x, len) == Top(ip, len)
  {
    var w := CellRange(ip, len);
    Div32(x, w);
    DivRange(CellOf(x), w, Top(ip, len));
  }

  lemma MulMono(d: int, a: int, b: int)
    requires 0 < d && a <= b
    ensures d * a <= d * b
  {
    assert d * (b - a) >= 0;
  }

  /** Rounding up within blocks of `d` does not leave a range that `d` divides. */
  lemma RoundUpStays(x: int, d: int, m: int)
    requires 0 <= x < d * m && 0 < d
    ensures 0 <= x - x % d && x - x % d + d - 1 < d * m
  {
    var t := x / d;
    assert x == d * t + x % d;
    MulMono(d, 0, t);
    if m <= t {
      MulMono(d, m, t);
    } else {
      MulMono(d, t + 1, m);
      assert d * (t + 1) == d * t + d;
    }
  }

  lemma CellInTable(ip: u32, len: int)
    requires 2 <= len <= LONGEST_PREFIX
    ensures 0 <= FirstCell(ip, len) && LastCell(ip, len) < CELLS
  {
    hide Pow2;
    Pow2Add(32 - len, len);
    Pow2Of32();
    RoundUpStays(ip, Pow2(32 - len), Pow2(len));
  }

  // ---------------------------------------------------------------------------
  // The table
  // ---------------------------------------------------------------------------

  const CELLS: int := 0x800_0000

  /** `1 << LONGEST_PREFIX` cells, one for each prefix of 27 bits. */
  lemma CellPerLongPrefix()
    ensures LONGEST_PREFIX == 27 && CELLS == Pow2(LONGEST_PREFIX)
  {
    assert Pow2(9) == 512;
    Pow2Add(9, 9);
    Pow2Add(18, 9);
  }

  function Overwrite(c: Cell, len: int, port: int): Cell
  {
    if c.len <= len then Cell(port, len) else c
  }

  /** The cell of an address under a routing table: the longest match with its length. */
  function CellFor(routes: map<Prefix, int>, x: u32): Cell
  {
    var q := Longest(routes.Keys, x, 32);
    if q.Some? then Cell(routes[q.value], q.value.len) else Cell(0, 0)
  }

  /** Overwriting the cells a prefix covers, unless they hold a longer match, is adding its route. */
  lemma CellForMore(routes: map<Prefix, int>, p: Prefix, port: int, x: u32)
    requires 0 <= p.len <= 32
    ensures CellFor(routes[p := port], x) ==
            if Matches(p, x) then Overwrite(CellFor(routes, x), p.len, port) else CellFor(routes, x)
  {
    hide Longest;
    var q := Longest(routes.Keys, x, 32);
    assert routes[p := port].Keys == routes.Keys + {p};
    if Matches(p, x) && (q.None? || q.value.len <= p.len) {
      LongestIs(routes.Keys + {p}, x, 32, p);
    } else if q.Some? {
      LongestIs(routes.Keys + {p}, x, 32, q.value);
    } else {
      LongestNone(routes.Keys + {p}, x, 32);
    }
  }

  class Table {
    const cells: array<Cell>
    ghost var routes: map<Prefix, int>  // the routing table the cells stand for

    ghost predicate Valid()
      reads this, cells
    {
      cells.Length == CELLS && forall x: u32 :: cells[CellOf(x)] == CellFor(routes, x)
    }

    /** `lpm_create` */
    constructor ()
      ensures Valid() && fresh(cells) && routes == map[]
    {
      cells := new Cell[CELLS](_ => Cell(0, 0));
      routes := map[];
      new;
      forall x: u32 ensures CellFor(map[], x) == Cell(0, 0) {
        LongestNone({}, x, 32);
      }
    }

    /** `lpm_set_prefix_port`; shifts by 31 or 32 bits, which C leaves undefined, rule out lengths below 2. */
    method SetPrefixPort(ip: u32, prefixLen: int, port: int) returns (r: int)
      requires Valid() && 2 <= prefixLen
      modifies this, cells
      ensures Valid()
      ensures r == if prefixLen > 27 then -1 else 0
      ensures r == -1 ==> routes == old(routes)
      ensures r == 0 ==> routes == old(routes)[PrefixOf(ip, prefixLen) := port]
    {
      hide CellFor, Top, FirstCell, LastCell;
      if prefixLen > LONGEST_PREFIX {
        return -1;
      }
      CellInTable(ip, prefixLen);
      ghost var was, first := cells[..], FirstCell(ip, prefixLen);
      var last := LastCell(ip, prefixLen);
      var i := FirstCell(ip, prefixLen);
      while i <= last
        invariant first <= i
        invariant i <= last + 1 || i == first
        invariant forall j | 0 <= j < CELLS ::
                    cells[j] == if first <= j < i then Overwrite(was[j], prefixLen, port) else was[j]
        modifies cells
      {
        if cells[i].len <= prefixLen {
          cells[i] := cells[i].(port := port);
          cells[i] := cells[i].(len := prefixLen);
        }
        i := i + 1;
      }
      ghost var p := PrefixOf(ip, prefixLen);
      forall x: u32 ensures cells[CellOf(x)] == CellFor(routes[p := port], x) {
        assert was[CellOf(x)] == CellFor(routes, x);
        CellsOfPrefix(ip, prefixLen, x);
        CellForMore(routes, p, port, x);
      }
      routes := routes[p := port];
      return 0;
    }

    /** `lpm_get_ip_port`: the port of the longest match, 0 if there is none. */
    method GetIpPort(ip: u32) returns (r: int, outPort: int)
      requires Valid()
      ensures r == 0
      ensures outPort == var route := Route(routes, ip, 32); if route.Some? then route.value else 0
    {
      return 0, cells[CellOf(ip)].port;
    }
  }

  // ---------------------------------------------------------------------------
  // The whole program
  // ---------------------------------------------------------------------------

  /**
    `init_lpm` without its file: enters the rules in order and exits, which is null here, at the
    first one refused.  It comes up exactly when no prefix is longer than 27 bits.
   */
  method Build(rules: seq<Rule>, nbDevices: u32) returns (table: Table?)
    requires Lengths(Kept(rules, nbDevices), 2, 32)
    ensures table != null <==> forall i | 0 <= i < |Kept(rules, nbDevices)| :: Kept(rules, nbDevices)[i].len <= 27
    ensures table != null ==> fresh(table) && table.Valid() && table.routes == Routes(Kept(rules, nbDevices))
  {
    hide PrefixOf, Routes, Kept, Table.Valid;
    ghost var kept := Kept(rules, nbDevices);
    var t := new Table();
    KeptNone(nbDevices);
    assert rules[..0] == [];
    var i := 0;
    while i < |rules|
      invariant 0 <= i <= |rules|
      invariant t.Valid() && fresh(t) && fresh(t.cells)
      invariant Kept(rules[..i], nbDevices) <= kept
      invariant Lengths(Kept(rules[..i], nbDevices), 2, LONGEST_PREFIX) && t.routes == Routes(Kept(rules[..i], nbDevices))
    {
      ghost var sofar := Kept(rules[..i], nbDevices);
      KeptMore(rules, nbDevices, i);
      KeptPrefix(rules, nbDevices, i + 1);
      if rules[i].port < 0 || nbDevices < rules[i].port {
      } else {
        assert kept[|sofar|] == rules[i];
        NoRepeatsMore(sofar, rules[i]);
        var result := t.SetPrefixPort(rules[i].ip, rules[i].len, rules[i].port);
        if result < 0 {
          return null;
        }
      }
      i := i + 1;
    }
    assert rules[..|rules|] == rules;
    return t;
  }

  /** Starts the program on a list of rules and looks one address up. */
  method LookUp(rules: seq<Rule>, nbDevices: u32, ip: u32) returns (up: bool, port: int)
    requires Lengths(Kept(rules, nbDevices), 2, 32)
    ensures up <==> forall i | 0 <= i < |Kept(rules, nbDevices)| :: Kept(rules, nbDevices)[i].len <= 27
    ensures up ==> if exists i :: 0 <= i < |Kept(rules, nbDevices)| && Covers(Kept(rules, nbDevices)[i], ip)
                   then exists i :: Wins(Kept(rules, nbDevices), ip, 32, i) && port == Kept(rules, nbDevices)[i].port
                   else port == 0
  {
    hide Kept, Routes, Route, Wins, Table.Valid;
    var table := Build(rules, nbDevices);
    if table == null {
      return false, 0;
    }
    up := true;
    var r;
    r, port := table.GetIpPort(ip);
    RouteOfWinner(Kept(rules, nbDevices), ip, 32);
  }
}
