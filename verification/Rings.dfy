/**
  probe-slices.c: circular lists of cells threaded through one array of successor
  links, and the relinking operations on them.
 */
module Rings {
  import opened FiniteSets
  import Arith

  function NextIn(r: seq<int>, k: int): int
    requires 0 <= k < |r|
  {
    if k == |r| - 1 then r[0] else r[k + 1]
  }

  predicate Within(l: seq<int>, r: seq<int>)
  {
    forall k | 0 <= k < |r| :: 0 <= r[k] < |l|
  }

  predicate Link(l: seq<int>, r: seq<int>, k: int)
    requires Within(l, r) && 0 <= k < |r|
  {
    l[r[k]] == NextIn(r, k)
  }

  /** Following the links from r[0] visits exactly the cells of `r`, in order, and comes back. */
  predicate Ring(l: seq<int>, r: seq<int>)
  {
    |r| > 0 && Distinct(r) && Within(l, r) && forall k | 0 <= k < |r| :: Link(l, r, k)
  }

  /** A ring none of whose links changed is still that ring. */
  lemma RingFrame(l: seq<int>, l': seq<int>, r: seq<int>)
    requires Ring(l, r) && |l'| == |l| && forall k | 0 <= k < |r| :: l'[r[k]] == l[r[k]]
    ensures Ring(l', r)
  {
    forall k | 0 <= k < |r| ensures Link(l', r, k) {
      assert Link(l, r, k);
    }
  }

  /** The same ring entered one cell later. */
  function Turned(r: seq<int>): seq<int>
    requires |r| > 0
  {
    r[1..] + [r[0]]
  }

  lemma TurnedRing(l: seq<int>, r: seq<int>)
    requires Ring(l, r)
    ensures Ring(l, Turned(r)) && Turned(r)[0] == l[r[0]]
    ensures multiset(Turned(r)) == multiset(r)
  {
    assert Link(l, r, 0);
    var t := Turned(r);
    assert r == [r[0]] + r[1..];
    forall k | 0 <= k < |t| ensures Link(l, t, k) {
      assert Link(l, r, if k + 1 < |r| then k + 1 else 0);
    }
  }

  // ---------------------------------------------------------------------------
  // Exchanging the successors of two cells
  // ---------------------------------------------------------------------------

  function Exchanged(r: seq<int>, i: int, j: int): (t: seq<int>)
    requires 0 <= i < |r| && 0 <= j < |r|
    ensures |t| == |r|
  {
    r[i := r[j]][j := r[i]]
  }

  lemma ExchangedMembers(r: seq<int>, i: int, j: int)
    requires 0 <= i < |r| && 0 <= j < |r|
    ensures multiset(Exchanged(r, i, j)) == multiset(r)
    ensures Distinct(r) ==> Distinct(Exchanged(r, i, j))
  {
  }

  /** What the eight conditional writes of `swap` leave, in their order. */
  function SwapLinks(l: seq<int>, p1: int, p2: int): (l': seq<int>)
    requires 0 <= p1 < |l| && 0 <= p2 < |l|
    requires 0 <= l[p1] < |l| && 0 <= l[p2] < |l|
    ensures |l'| == |l|
  {
    var s1, s2 := l[p1], l[p2];
    var ss1, ss2 := l[s1], l[s2];
    var m := if p1 == s2 then l[p1 := ss1][s1 := s2] else l[p1 := s2][s1 := ss2];
    if p2 == s1 then m[p2 := ss2][s2 := s1] else m[p2 := s1][s2 := ss1]
  }

  /** Position of the successor of the cell at position `b`. */
  function After(r: seq<int>, b: int): int
    requires 0 <= b < |r|
  {
    if b == |r| - 1 then 0 else b + 1
  }

  lemma SwapLinkAt(l: seq<int>, r: seq<int>, b: int, k: int)
    requires Ring(l, r) && |r| >= 3 && 0 <= b < |r| && 0 <= k < |r|
    requires 0 <= l[r[0]] < |l| && 0 <= l[r[b]] < |l|
    requires Within(l, Exchanged(r, 1, After(r, b)))
    ensures Link(SwapLinks(l, r[0], r[b]), Exchanged(r, 1, After(r, b)), k)
  {
    var j := After(r, b);
    assert Link(l, r, 0) && Link(l, r, 1) && Link(l, r, b) && Link(l, r, j) && Link(l, r, k);
  }

  lemma SwapRing(l: seq<int>, r: seq<int>, b: int)
    requires Ring(l, r) && |r| >= 3 && 0 <= b < |r|
    ensures 0 <= l[r[0]] < |l| && 0 <= l[r[b]] < |l|
    ensures Ring(SwapLinks(l, r[0], r[b]), Exchanged(r, 1, After(r, b)))
    ensures forall x | 0 <= x < |l| && x !in r :: SwapLinks(l, r[0], r[b])[x] == l[x]
  {
    var j := After(r, b);
    var t := Exchanged(r, 1, j);
    ExchangedMembers(r, 1, j);
    assert Link(l, r, 0) && Link(l, r, b);
    var l' := SwapLinks(l, r[0], r[b]);
    forall k | 0 <= k < |t| ensures Link(l', t, k) {
      SwapLinkAt(l, r, b, k);
    }
  }

  /** Swapping successors keeps a ring together unless it is a pair and its two cells are swapped. */
  lemma SwapKeepsRingIff(l: seq<int>, r: seq<int>, b: int)
    requires Ring(l, r) && 0 <= b < |r|
    ensures 0 <= l[r[0]] < |l| && 0 <= l[r[b]] < |l|
    ensures (exists t :: Ring(SwapLinks(l, r[0], r[b]), t) && multiset(t) == multiset(r)) <==> |r| >= 3 || b == 0
  {
    assert Link(l, r, 0) && Link(l, r, b);
    var l' := SwapLinks(l, r[0], r[b]);
    if |r| >= 3 {
      SwapRing(l, r, b);
      ExchangedMembers(r, 1, After(r, b));
      assert Ring(l', Exchanged(r, 1, After(r, b)));
    } else if b == 0 {
      if |r| == 2 { assert Link(l, r, 1); }
      RingFrame(l, l', r);
      assert Ring(l', r);
    } else {
      forall t | Ring(l', t) ensures multiset(t) != multiset(r) {
        if r[1] in t { LoneRing(l', t, r[1]); }
        assert |multiset(t)| == |t| && |multiset(r)| == 2 && r[1] in multiset(r);
        assert r[1] in t <==> r[1] in multiset(t);
      }
    }
  }

  /** A cell linked to itself is a ring alone. */
  lemma LoneRing(l: seq<int>, r: seq<int>, x: int)
    requires Ring(l, r) && x in r && l[x] == x
    ensures r == [x]
  {
    var k :| 0 <= k < |r| && r[k] == x;
    assert Link(l, r, k);
  }

  /** Links changed only on ring `r`: every ring of other cells is untouched. */
  lemma OthersStay(l: seq<int>, l': seq<int>, r: seq<int>)
    requires Ring(l, r) && |l'| == |l| && forall x | 0 <= x < |l| && x !in r :: l'[x] == l[x]
    ensures forall t | Ring(l, t) && multiset(t) != multiset(r) :: Ring(l', t)
  {
    forall t | Ring(l, t) && multiset(t) != multiset(r) ensures Ring(l', t) {
      forall k | 0 <= k < |t| ensures t[k] !in r {
        if t[k] in r { RingsDisjointOrSame(l, r, t, t[k]); }
      }
      RingFrame(l, l', t);
    }
  }

  // ---------------------------------------------------------------------------
  // Operations
  // ---------------------------------------------------------------------------

  /** `get_size`: the number of cells on the ring of `entry`; a negative entry is an empty list. */
  method GetSize(links: array<int>, entry: int, ghost r: seq<int>) returns (size: int)
    requires entry >= 0 ==> Ring(links[..], r) && r[0] == entry
    ensures size == if entry < 0 then 0 else |r|
  {
    if entry < 0 {
      return 0;
    }
    ghost var l := links[..];
    assert Link(l, r, 0);
    assert forall k | 0 < k < |r| :: r[k] != r[0];
    if links[entry] == entry {
      return 1;
    }
    var pos := links[entry];
    size := 1;
    while pos != entry
      invariant 1 <= size <= |r|
      invariant pos == if size == |r| then r[0] else r[size]
      decreases |r| - size
    {
      assert Link(l, r, size);
      pos := links[pos];
      size := size + 1;
    }
  }

  /** `insert`: links a lone cell in after `pos`; into an empty list it goes alone. */
  method Insert(links: array<int>, pos: int, item: int, ghost r: seq<int>) returns (pos': int, ghost r': seq<int>)
    requires 0 <= item < links.Length && links[item] == item
    requires pos >= 0 ==> Ring(links[..], r) && r[0] == pos
    modifies links
    ensures pos' == if pos < 0 then item else pos
    ensures Ring(links[..], r') && r'[0] == pos'
    ensures r' == if pos < 0 || pos == item then [item] else [pos, item] + r[1..]
    ensures forall x | 0 <= x < links.Length && x != item && x != pos :: links[x] == old(links[x])
    ensures forall t | Ring(old(links[..]), t) && (pos >= 0 ==> multiset(t) != multiset(r)) && t != [item] :: Ring(links[..], t)
  {
    ghost var l := links[..];
    pos' := pos;
    if pos' < 0 {
      pos' := item;
    }
    if pos' != item {
      assert Link(l, r, 0);
      links[item] := links[pos'];
      links[pos'] := item;
      r' := [pos, item] + r[1..];
      if item in r { LoneRing(l, r, item); }
      InsertRing(l, r, item);
      assert links[..] == l[item := l[pos]][pos := item];
      OthersStayInserted(l, links[..], r, item);
    } else {
      r' := [item];
      assert Link(links[..], r', 0);
    }
  }

  lemma OthersStayInserted(l: seq<int>, l': seq<int>, r: seq<int>, item: int)
    requires Ring(l, r) && 0 <= item < |l| && l[item] == item
    requires |l'| == |l| && forall x | 0 <= x < |l| && x != item && x != r[0] :: l'[x] == l[x]
    ensures forall t | Ring(l, t) && multiset(t) != multiset(r) && t != [item] :: Ring(l', t)
  {
    forall t | Ring(l, t) && multiset(t) != multiset(r) && t != [item] ensures Ring(l', t) {
      if item in t { LoneRing(l, t, item); }
      if r[0] in t { RingsDisjointOrSame(l, r, t, r[0]); }
      RingFrame(l, l', t);
    }
  }

  lemma InsertRing(l: seq<int>, r: seq<int>, item: int)
    requires Ring(l, r) && 0 <= item < |l| && item !in r
    ensures Ring(l[item := l[r[0]]][r[0] := item], [r[0], item] + r[1..])
  {
    var l' := l[item := l[r[0]]][r[0] := item];
    var t := [r[0], item] + r[1..];
    assert forall k | 0 <= k < |t| :: t[k] == if k == 0 then r[0] else if k == 1 then item else r[k - 1];
    assert Link(l, r, 0);
    forall k | 0 <= k < |t| ensures Link(l', t, k) {
      if k >= 2 { assert Link(l, r, k - 1); }
    }
  }

  /** `drop_next`: unlinks the cell after `pos` and moves the entry off it if need be. */
  method DropNext(links: array<int>, entry: int, pos: int, ghost r: seq<int>) returns (entry': int, drop: int)
    requires Ring(links[..], r) && r[0] == pos && entry in r
    modifies links
    ensures drop == if |r| == 1 then r[0] else r[1]
    ensures Ring(links[..], [drop])
    ensures |r| > 1 ==> Ring(links[..], [r[0]] + r[2..])
    ensures entry' == if |r| == 1 then -1 else if entry == drop then pos else entry
    ensures forall x | 0 <= x < links.Length && x != pos && x != drop :: links[x] == old(links[x])
    ensures forall t | Ring(old(links[..]), t) && multiset(t) != multiset(r) :: Ring(links[..], t)
  {
    ghost var l := links[..];
    assert Link(l, r, 0);
    entry' := entry;
    drop := links[pos];
    if drop == entry {
      if pos == entry {
        entry' := -1;
      } else {
        entry' := pos;
      }
    }
    links[pos] := links[drop];
    links[drop] := drop;
    DropRing(l, r);
    assert links[..] == l[pos := l[drop]][drop := drop];
    OthersStay(l, links[..], r);
  }

  lemma DropRing(l: seq<int>, r: seq<int>)
    requires Ring(l, r)
    ensures 0 <= l[r[0]] < |l|
    ensures var l' := l[r[0] := l[l[r[0]]]][l[r[0]] := l[r[0]]];
      Ring(l', [l[r[0]]]) && (|r| > 1 ==> Ring(l', [r[0]] + r[2..]))
  {
    assert Link(l, r, 0);
    var l' := l[r[0] := l[l[r[0]]]][l[r[0]] := l[r[0]]];
    assert Link(l', [l[r[0]]], 0);
    if |r| > 1 {
      assert Link(l, r, 1);
      var t := [r[0]] + r[2..];
      assert forall k | 0 <= k < |t| :: t[k] == if k == 0 then r[0] else r[k + 1];
      forall k | 0 <= k < |t| ensures Link(l', t, k) {
        if k > 0 { assert Link(l, r, k + 1); }
      }
    }
  }

  /**
    `swap`: exchanges the successors of two cells of one ring, in all ways they can be neighbours.
    On a pair it instead leaves the second cell pointing at itself, and the first at the second.
   */
  method Swap(links: array<int>, pos1: int, pos2: int, ghost r: seq<int>, ghost b: int) returns (ghost r': seq<int>)
    requires Ring(links[..], r) && r[0] == pos1 && 0 <= b < |r| && r[b] == pos2
    modifies links
    ensures |r| >= 3 ==> r' == Exchanged(r, 1, After(r, b)) && Ring(links[..], r')
    ensures b == 0 ==> r' == r && links[..] == old(links[..])
    ensures |r| == 2 && b == 1 ==> links[..] == old(links[..])[pos2 := pos2]
    ensures multiset(r') == multiset(r)
    ensures forall x | 0 <= x < links.Length && x !in r :: links[x] == old(links[x])
    ensures forall t | Ring(old(links[..]), t) && multiset(t) != multiset(r) :: Ring(links[..], t)
  {
    ghost var l := links[..];
    r' := SwapLeaves(l, r, b);
    var pos1s := links[pos1];
    var pos1ss := links[pos1s];
    var pos2s := links[pos2];
    var pos2ss := links[pos2s];
    if pos1 == pos2s {
      links[pos1] := pos1ss;
      links[pos1s] := pos2s;
    } else {
      links[pos1] := pos2s;
      links[pos1s] := pos2ss;
    }
    if pos2 == pos1s {
      links[pos2] := pos2ss;
      links[pos2s] := pos1s;
    } else {
      links[pos2] := pos1s;
      links[pos2s] := pos1ss;
    }
    assert links[..] == SwapLinks(l, pos1, pos2);
    OthersStay(l, links[..], r);
  }

  lemma SwapLeaves(l: seq<int>, r: seq<int>, b: int) returns (r': seq<int>)
    requires Ring(l, r) && 0 <= b < |r|
    ensures 0 <= l[r[0]] < |l| && 0 <= l[r[b]] < |l| && 0 <= l[l[r[0]]] < |l| && 0 <= l[l[r[b]]] < |l|
    ensures |r| >= 3 ==> r' == Exchanged(r, 1, After(r, b)) && Ring(SwapLinks(l, r[0], r[b]), r')
    ensures b == 0 ==> r' == r && SwapLinks(l, r[0], r[b]) == l
    ensures |r| == 2 && b == 1 ==> SwapLinks(l, r[0], r[b]) == l[r[1] := r[1]]
    ensures multiset(r') == multiset(r)
    ensures forall x | 0 <= x < |l| && x !in r :: SwapLinks(l, r[0], r[b])[x] == l[x]
  {
    assert Link(l, r, 0) && Link(l, r, After(r, 0)) && Link(l, r, b) && Link(l, r, After(r, b));
    if |r| >= 3 {
      SwapRing(l, r, b);
      ExchangedMembers(r, 1, After(r, b));
      r' := Exchanged(r, 1, After(r, b));
    } else {
      r' := r;
    }
  }

  /** A ring can be entered at any of its cells. */
  lemma {:induction false} EnterAt(l: seq<int>, r: seq<int>, k: int) returns (t: seq<int>)
    requires Ring(l, r) && 0 <= k < |r|
    ensures Ring(l, t) && t[0] == r[k] && multiset(t) == multiset(r)
    decreases k
  {
    if k == 0 {
      t := r;
    } else {
      TurnedRing(l, r);
      t := EnterAt(l, Turned(r), k - 1);
    }
  }

  /** Two walks round rings from the same cell agree as far as both go. */
  lemma {:induction false} SameRing(l: seq<int>, r: seq<int>, t: seq<int>, n: int)
    requires Ring(l, r) && Ring(l, t) && r[0] == t[0] && 0 < n <= |r| && n <= |t|
    ensures r[..n] == t[..n]
  {
    if n > 1 {
      SameRing(l, r, t, n - 1);
      assert Link(l, r, n - 2) && Link(l, t, n - 2);
      assert r[n - 2] == r[..n - 1][n - 2] == t[..n - 1][n - 2] == t[n - 2];
      assert r[..n] == r[..n - 1] + [r[n - 1]] && t[..n] == t[..n - 1] + [t[n - 1]];
    }
  }

  lemma NoLonger(l: seq<int>, r: seq<int>, t: seq<int>)
    requires Ring(l, r) && Ring(l, t) && r[0] == t[0]
    ensures |t| <= |r|
  {
    var n := if |r| < |t| then |r| else |t|;
    SameRing(l, r, t, n);
    assert r[n - 1] == r[..n][n - 1] == t[..n][n - 1] == t[n - 1];
    assert Link(l, r, n - 1) && Link(l, t, n - 1);
  }

  /** Rings that share a cell are one ring; so rings of different cells have no cell in common. */
  lemma RingsDisjointOrSame(l: seq<int>, r: seq<int>, t: seq<int>, x: int)
    requires Ring(l, r) && Ring(l, t) && x in r && x in t
    ensures multiset(r) == multiset(t)
  {
    var i :| 0 <= i < |r| && r[i] == x;
    var j :| 0 <= j < |t| && t[j] == x;
    var r' := EnterAt(l, r, i);
    var t' := EnterAt(l, t, j);
    NoLonger(l, r', t');
    NoLonger(l, t', r');
    SameRing(l, r', t', |r'|);
    assert r' == r'[..|r'|] == t'[..|r'|] == t';
  }

  lemma SameMembers(r: seq<int>, t: seq<int>)
    requires multiset(r) == multiset(t)
    ensures |r| == |t| && forall x :: x in r <==> x in t
  {
    assert |multiset(r)| == |r| && |multiset(t)| == |t|;
    assert forall x :: x in r <==> x in multiset(r);
    assert forall x :: x in t <==> x in multiset(t);
  }

  lemma NextOnRing(l: seq<int>, r: seq<int>, b: int)
    requires Ring(l, r) && 0 <= b < |r|
    ensures 0 <= r[b] < |l| && l[r[b]] == r[After(r, b)]
  {
    assert Link(l, r, b);
  }

  // ---------------------------------------------------------------------------
  // Shuffling
  // ---------------------------------------------------------------------------

  const RAND_MAX: int := 0x7fff_ffff

  /** How many steps past its successor a cell of a round of `size` looks for the cell to swap with. */
  function Draw(x: nat, size: int): (c: nat)
    requires size > 0
  {
    x / (RAND_MAX / size + 1)
  }

  function Draws(rand: nat -> nat, n: nat): (c: seq<nat>)
    ensures |c| == n && forall t | 0 <= t < n :: c[t] == Draw(rand(t), n - t)
  {
    seq<nat>(n, t requires 0 <= t < n => Draw(rand(t), n - t))
  }

  /**
    The successor of the first cell of a ring changes places with the cell at position `j`.  If that
    is the first cell itself, the successor ends up just before it.
   */
  function SuccessorTo(r: seq<int>, j: int): (t: seq<int>)
    requires |r| >= 3 && 0 <= j < |r|
    ensures |t| == |r| && t[0] == r[0]
  {
    if j == 0 then [r[0]] + r[2..] + [r[1]] else Exchanged(r, 1, j)
  }

  /** One round on a ring read from the current cell: draw 0 moves nothing, any other moves the successor c + 2 steps on. */
  function Moved(r: seq<int>, c: nat): (t: seq<int>)
    requires |r| >= 3
    ensures |t| == |r| && t[0] == r[0]
  {
    if c == 0 then r else SuccessorTo(r, (c + 2) % |r|)
  }

  lemma TwoAhead(c: nat, n: int)
    requires n >= 3
    ensures c % n == n - 1 ==> (c + 2) % n == 1
    ensures c % n == n - 2 ==> (c + 2) % n == 0
    ensures c < n - 2 ==> (c + 2) % n == c + 2
  {
    var q, d := c / n, c % n;
    assert c == q * n + d;
    if d >= n - 2 {
      assert c + 2 == (q + 1) * n + (d + 2 - n);
      Arith.DivModUnique(c + 2, n, q + 1, d + 2 - n);
    }
    if c < n - 2 { Arith.DivModUnique(c + 2, n, 0, c + 2); }
  }

  /** What a round does cell by cell. */
  lemma MovedAt(r: seq<int>, c: nat, k: int)
    requires |r| >= 3 && 0 <= k < |r|
    ensures Moved(r, 0)[k] == r[k]
    ensures c % |r| == |r| - 1 ==> Moved(r, c)[k] == r[k]
    ensures c > 0 && c % |r| == |r| - 2 ==> Moved(r, c)[k] == if k == 0 then r[0] else if k == |r| - 1 then r[1] else r[k + 1]
    ensures 0 < c < |r| - 2 ==> Moved(r, c)[k] == if k == 1 then r[c + 2] else if k == c + 2 then r[1] else r[k]
  {
    TwoAhead(c, |r|);
    SuccessorAt(r, (c + 2) % |r|, k);
  }

  lemma SuccessorAt(r: seq<int>, j: int, k: int)
    requires |r| >= 3 && 0 <= j < |r| && 0 <= k < |r|
    ensures SuccessorTo(r, j)[k] ==
            if j == 0 then (if k == 0 then r[0] else if k == |r| - 1 then r[1] else r[k + 1])
            else if k == 1 then r[j] else if k == j then r[1] else r[k]
  {
  }

  /** The rounds with draws `c`, each from the cell after the last. */
  function Rounds(r: seq<int>, c: seq<nat>): (t: seq<int>)
    requires |r| >= 3
    ensures |t| == |r|
    decreases |c|
  {
    if c == [] then r else Rounds(Turned(Moved(r, c[0])), c[1..])
  }

  lemma {:induction false} RoundsMore(r: seq<int>, c: seq<nat>, x: nat)
    requires |r| >= 3
    ensures Rounds(r, c + [x]) == Turned(Moved(Rounds(r, c), x))
    decreases |c|
  {
    if c == [] {
      assert [] + [x] == [x] && [x][1..] == [];
    } else {
      assert (c + [x])[1..] == c[1..] + [x];
      RoundsMore(Turned(Moved(r, c[0])), c[1..], x);
    }
  }

  /** A ring read from its `k`th cell. */
  function From(r: seq<int>, k: int): (t: seq<int>)
    requires 0 <= k < |r|
    ensures |t| == |r|
  {
    r[k..] + r[..k]
  }

  /** The order a shuffle with draws `c` leaves the ring `r` in, read from the same cell. */
  ghost predicate ShuffledTo(r: seq<int>, c: seq<nat>, t: seq<int>)
  {
    if |r| < 3 then t == r
    else t != [] && t[0] == r[0] && exists k :: 0 <= k < |r| && t == From(Rounds(r, c), k)
  }

  /** A swap in a round leaves the ring `Moved` says, read from the same cell. */
  lemma MovedIsSwap(l: seq<int>, r: seq<int>, c: nat)
    requires |r| >= 3 && c > 0 && Ring(l, Exchanged(r, 1, After(r, (c + 1) % |r|)))
    ensures Ring(l, Moved(r, c))
  {
    StepsOn(c, |r|, (c + 1) % |r|);
    SuccessorIsSwap(l, r, (c + 2) % |r|);
  }

  lemma SuccessorIsSwap(l: seq<int>, r: seq<int>, j: int)
    requires |r| >= 3 && 0 <= j < |r| && Ring(l, Exchanged(r, 1, j))
    ensures Ring(l, SuccessorTo(r, j))
  {
    hide Ring;
    if j == 0 {
      TurnedRing(l, Exchanged(r, 1, 0));
      assert Turned(Exchanged(r, 1, 0)) == SuccessorTo(r, 0);
    }
  }

  lemma MovedMembers(r: seq<int>, c: nat)
    requires |r| >= 3
    ensures multiset(Moved(r, c)) == multiset(r) && multiset(Turned(Moved(r, c))) == multiset(r)
  {
    hide SuccessorTo;
    if c > 0 { SuccessorMembers(r, (c + 2) % |r|); }
    var t := Moved(r, c);
    assert t == [t[0]] + t[1..];
  }

  lemma SuccessorMembers(r: seq<int>, j: int)
    requires |r| >= 3 && 0 <= j < |r|
    ensures multiset(SuccessorTo(r, j)) == multiset(r)
  {
    if j == 0 {
      assert r == [r[0]] + [r[1]] + r[2..];
    } else {
      ExchangedMembers(r, 1, j);
    }
  }

  lemma StepsOn(i: nat, n: int, b: int)
    requires 0 < n && b == (i + 1) % n
    ensures (if b == n - 1 then 0 else b + 1) == (i + 1 + 1) % n
  {
    var q := (i + 1) / n;
    assert i + 1 == q * n + b;
    if b == n - 1 {
      assert i + 2 == (q + 1) * n + 0;
      Arith.DivModUnique(i + 2, n, q + 1, 0);
    } else {
      Arith.DivModUnique(i + 2, n, q, b + 1);
    }
  }

  /** Two readings of one ring from the same cell are the same. */
  lemma OneReading(l: seq<int>, r: seq<int>, t: seq<int>)
    requires Ring(l, r) && Ring(l, t) && r[0] == t[0]
    ensures r == t
  {
    NoLonger(l, r, t);
    NoLonger(l, t, r);
    SameRing(l, r, t, |r|);
    assert r == r[..|r|] && t == t[..|r|];
  }

  lemma {:induction false} FromIsRing(l: seq<int>, r: seq<int>, k: int)
    requires Ring(l, r) && 0 <= k < |r|
    ensures Ring(l, From(r, k)) && From(r, k)[0] == r[k]
    decreases k
  {
    if k == 0 {
      assert From(r, 0) == r;
    } else {
      FromIsRing(l, r, k - 1);
      TurnedRing(l, From(r, k - 1));
      assert Turned(From(r, k - 1)) == From(r, k);
    }
  }

  /** The inner walk of `shuffle`: the cell `c` steps past the successor of the first. */
  method WalkOn(links: array<int>, pos: int, c: nat, ghost cur: seq<int>) returns (swapPos: int)
    requires Ring(links[..], cur) && |cur| >= 3 && cur[0] == pos
    ensures swapPos == cur[(c + 1) % |cur|]
  {
    hide Ring;
    ghost var l := links[..];
    NextOnRing(l, cur, 0);
    Arith.DivModUnique(1, |cur|, 0, 1);
    swapPos := links[pos];
    var swapCount := c;
    ghost var i: nat := 0;
    while swapCount > 0
      invariant 0 <= i && i + swapCount == c
      invariant 0 <= (i + 1) % |cur| < |cur| && swapPos == cur[(i + 1) % |cur|]
      decreases swapCount
    {
      NextOnRing(l, cur, (i + 1) % |cur|);
      StepsOn(i, |cur|, (i + 1) % |cur|);
      swapPos := links[swapPos];
      swapCount := swapCount - 1;
      i := i + 1;
    }
  }

  /** One round of `shuffle` on the ring of `pos`. */
  method Round(links: array<int>, pos: int, swapCount: nat, ghost cur: seq<int>)
    requires Ring(links[..], cur) && |cur| >= 3 && cur[0] == pos
    modifies links
    ensures Ring(links[..], Moved(cur, swapCount))
    ensures forall x | 0 <= x < links.Length && x !in cur :: links[x] == old(links[x])
  {
    hide Ring, Exchanged, SuccessorTo;
    if swapCount > 0 {
      var swapPos := WalkOn(links, pos, swapCount, cur);
      ghost var swapped := Swap(links, pos, swapPos, cur, (swapCount + 1) % |cur|);
      MovedIsSwap(links[..], cur, swapCount);
    }
  }

  /**
    `shuffle`, with the numbers `rand` yields as a parameter: the cells of the ring are left in
    exactly the order their draws say, and no other link has changed.
   */
  method Shuffle(links: array<int>, entry: int, rand: nat -> nat, ghost r: seq<int>) returns (ghost r': seq<int>)
    requires Ring(links[..], r) && r[0] == entry
    modifies links
    ensures Ring(links[..], r') && r'[0] == entry && multiset(r') == multiset(r)
    ensures ShuffledTo(r, Draws(rand, |r|), r')
    ensures forall x | 0 <= x < links.Length && x !in r :: links[x] == old(links[x])
    ensures forall t | Ring(old(links[..]), t) && multiset(t) != multiset(r) :: Ring(links[..], t)
  {
    hide Ring, Rounds, Moved, Turned, From, ShuffledTo;
    StartsIn(links[..], r);
    var preSize := GetSize(links, entry, r);
    var size, pos := preSize, entry;
    ghost var cur, c := r, Draws(rand, |r|);
    if size > 2 {
      RoundsNone(r);
      assert c[..0] == [];
      var i := 0;
      while size > 0
        invariant 0 <= size <= |r| && |r| >= 3 && i == |r| - size
        invariant |cur| == |r| && multiset(cur) == multiset(r) && cur[0] == pos
        invariant Ring(links[..], cur) && cur == Rounds(r, c[..i])
        invariant forall x | 0 <= x < links.Length && x !in r :: links[x] == old(links[x])
        decreases size
      {
        SameMembers(cur, r);
        var swapCount := Draw(rand(i), size);
        Round(links, pos, swapCount, cur);
        RoundDone(links[..], r, c, i, cur);
        size := size - 1;
        pos := links[pos];
        cur := Turned(Moved(cur, c[i]));
        i := i + 1;
      }
      assert c[..i] == c;
    }
    r' := ReadFrom(links[..], r, c, cur);
    var postSize := GetSize(links, entry, r');
    assert |multiset(r')| == |r'| && |multiset(r)| == |r|;
    assert postSize == preSize;
    OthersStay(old(links[..]), links[..], r);
  }

  /** After a round the ring is read from the next cell. */
  lemma RoundDone(l: seq<int>, r: seq<int>, c: seq<nat>, i: int, cur: seq<int>)
    requires |cur| == |r| >= 3 && 0 <= i < |c| && cur == Rounds(r, c[..i]) && Ring(l, Moved(cur, c[i]))
    ensures 0 <= cur[0] < |l| && Turned(Moved(cur, c[i])) == Rounds(r, c[..i + 1])
    ensures Ring(l, Turned(Moved(cur, c[i]))) && Turned(Moved(cur, c[i]))[0] == l[cur[0]]
    ensures multiset(Turned(Moved(cur, c[i]))) == multiset(cur) && |Turned(Moved(cur, c[i]))| == |r|
  {
    hide Ring, Rounds;
    MovedMembers(cur, c[i]);
    NextOnRing(l, Moved(cur, c[i]), 0);
    TurnedRing(l, Moved(cur, c[i]));
    RoundsMore(r, c[..i], c[i]);
    assert c[..i + 1] == c[..i] + [c[i]];
  }

  /** The shuffled ring read from the cell it was entered at. */
  lemma ReadFrom(l: seq<int>, r: seq<int>, c: seq<nat>, cur: seq<int>) returns (r': seq<int>)
    requires r != [] && Ring(l, cur) && multiset(cur) == multiset(r) && (if |r| < 3 then cur == r else cur == Rounds(r, c))
    ensures r' != [] && Ring(l, r') && r'[0] == r[0] && multiset(r') == multiset(r) && ShuffledTo(r, c, r')
  {
    hide Ring, Rounds, From;
    SameMembers(cur, r);
    assert r[0] in r;
    var k :| 0 <= k < |cur| && cur[k] == r[0];
    r' := From(cur, k);
    FromIsRing(l, cur, k);
    FromMembers(cur, k);
    if |r| < 3 { OneReading(l, r, r'); }
  }

  lemma RoundsNone(r: seq<int>)
    requires |r| >= 3
    ensures Rounds(r, []) == r
  {
  }

  lemma FromMembers(r: seq<int>, k: int)
    requires 0 <= k < |r|
    ensures multiset(From(r, k)) == multiset(r)
  {
    assert r == r[..k] + r[k..];
  }

  /**
    A number up to `RAND_MAX` draws below the size of the round.  A draw has a number exactly when
    that many strides fit in `RAND_MAX`, so every draw has one in rings of up to 46340 cells.
   */
  lemma DrawsAre(size: int, c: nat)
    requires 0 < size <= RAND_MAX
    ensures (exists x: nat :: x <= RAND_MAX && Draw(x, size) == c) <==> c * (RAND_MAX / size + 1) <= RAND_MAX
    ensures c * (RAND_MAX / size + 1) <= RAND_MAX ==> c < size
    ensures c < size <= 46340 ==> c * (RAND_MAX / size + 1) <= RAND_MAX
  {
    var d := RAND_MAX / size + 1;
    forall x: nat | x <= RAND_MAX && Draw(x, size) == c ensures c * d <= RAND_MAX {
      assert x == d * (x / d) + x % d;
    }
    if c * d <= RAND_MAX {
      var x: nat := c * d;
      Arith.DivModUnique(x, d, c, 0);
      assert Draw(x, size) == c;
      DrawBound(x, d, size);
    }
    if c < size <= 46340 { DrawFits(c, size); }
  }

  ghost predicate InRange(rand: nat -> nat)
  {
    forall i: nat :: rand(i) <= RAND_MAX
  }

  predicate Possible(c: seq<nat>)
  {
    forall t | 0 <= t < |c| :: c[t] < |c| - t
  }

  /** The orders `shuffle` can leave a ring in are those of the |r|! sequences of draws in which round t draws below |r| - t. */
  lemma OrdersReached(r: seq<int>, t: seq<int>)
    requires 0 < |r| <= 46340
    ensures (exists rand: nat -> nat :: InRange(rand) && ShuffledTo(r, Draws(rand, |r|), t)) <==>
            (exists c: seq<nat> :: |c| == |r| && Possible(c) && ShuffledTo(r, c, t))
  {
    hide ShuffledTo;
    var n := |r|;
    if rand: nat -> nat :| InRange(rand) && ShuffledTo(r, Draws(rand, n), t) {
      var c := Draws(rand, n);
      forall i | 0 <= i < n ensures c[i] < n - i {
        DrawsAre(n - i, c[i]);
      }
      assert Possible(c);
    }
    if c: seq<nat> :| |c| == n && Possible(c) && ShuffledTo(r, c, t) {
      var rand := NumbersFor(c);
      assert InRange(rand);
    }
  }

  /** Numbers that draw `c`. */
  lemma NumbersFor(c: seq<nat>) returns (rand: nat -> nat)
    requires 0 < |c| <= 46340 && Possible(c)
    ensures InRange(rand) && Draws(rand, |c|) == c
  {
    var n := |c|;
    rand := (i: nat) => Number(c, i);
    forall i: nat ensures rand(i) <= RAND_MAX {
      if i < n { DrawFits(c[i], n - i); }
    }
    forall i | 0 <= i < n ensures Draws(rand, n)[i] == c[i] {
      Arith.DivModUnique(Number(c, i), RAND_MAX / (n - i) + 1, c[i], 0);
    }
  }

  function Number(c: seq<nat>, i: nat): nat
  {
    if i < |c| then c[i] * (RAND_MAX / (|c| - i) + 1) else 0
  }

  /** Three cells, draws 1, 0, 0: the other order. */
  lemma ThreeTurned(r: seq<int>)
    requires |r| == 3
    ensures ShuffledTo(r, [1, 0, 0], [r[0], r[2], r[1]])
  {
    assert r == [r[0], r[1], r[2]];
    var t := [r[0], r[2], r[1]];
    var c: seq<nat> := [1, 0, 0];
    assert Moved(r, c[0]) == t;
    assert c[1..] == [0, 0] && c[1..][1..] == [0] && c[1..][1..][1..] == [];
    var t1, t2 := [r[2], r[1], r[0]], [r[1], r[0], r[2]];
    assert Turned(t) == t1 && Turned(t1) == t2 && Turned(t2) == t;
    assert Rounds(r, c) == Rounds(t1, [0, 0]) == Rounds(t2, [0]) == Rounds(t, []) == t;
    assert From(t, 0) == t;
  }

  lemma DrawBound(x: nat, d: int, size: int)
    requires 0 < size && d > 0 && d == RAND_MAX / size + 1 && x <= RAND_MAX
    ensures 0 <= x / d < size
  {
    var q := RAND_MAX / size;
    assert RAND_MAX < size * q + size;
    assert size * d == size * q + size;
    var t := x / d;
    assert x == d * t + x % d;
    if t >= size {
      assert d * t >= d * size by { Mul(d, size, t); }
    }
  }

  lemma Mul(d: int, a: int, b: int)
    requires d >= 0 && a <= b
    ensures d * a <= d * b
  {
    assert d * (b - a) >= 0;
  }

  lemma DrawFits(c: nat, size: int)
    requires c < size <= 46340
    ensures c * (RAND_MAX / size + 1) <= RAND_MAX
  {
    var q := RAND_MAX / size;
    assert RAND_MAX == size * q + RAND_MAX % size;
    assert q >= size - 1 by {
      if q < size - 1 {
        Mul(size, q, size - 2);
        Mul(size, size, 46340);
      }
    }
    Mul(q + 1, c, size - 1);
    assert (q + 1) * (size - 1) == size * q - q + size - 1;
    assert c * (q + 1) == (q + 1) * c;
  }

  lemma StartsIn(l: seq<int>, r: seq<int>)
    requires Ring(l, r)
    ensures |r| > 0 && r[0] in r && 0 <= r[0]
  {
  }
}
