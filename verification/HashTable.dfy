/**
  The open-addressing hash table of map.c: linear probing that deletes without
  tombstones.  Every cell carries a counter of the stored keys whose probe path
  passes over it, and a search may stop at a foreign cell whose counter is 0.

  Keys live outside the table, in the slots of `mem`; a cell stores the slot
  number, which plays the part of the key pointer.
 */
module HashTable {
  import opened Arith
  import opened FiniteSets

  const INT_MAX: int := 0x7fff_ffff

  // ---------------------------------------------------------------------------
  // Ring arithmetic
  // ---------------------------------------------------------------------------

  /** The remainder operator of C, which truncates toward zero. */
  function TruncRem(a: int, b: int): int
    requires b > 0
  {
    if a >= 0 then a % b else -((-a) % b)
  }

  /** `loop`: the representative of `k` in [0, capacity), for negative hashes too. */
  function Loop(k: int, capacity: int): (r: int)
    requires capacity > 0
    ensures 0 <= r < capacity
    ensures r == k % capacity
  {
    var g := TruncRem(k, capacity);
    var res := TruncRem(g + capacity, capacity);
    assert res == k % capacity by {
      var q := if k >= 0 then k / capacity else -((-k) / capacity);
      assert k == q * capacity + g;
      if g >= 0 {
        DivModUnique(g + capacity, capacity, 1, g);
        DivModUnique(k, capacity, q, g);
      } else {
        DivModUnique(g + capacity, capacity, 0, g + capacity);
        assert k == (q - 1) * capacity + (g + capacity);
        DivModUnique(k, capacity, q - 1, g + capacity);
      }
    }
    res
  }

  /** The cell reached after `i` probes from `start`. */
  function At(start: int, i: int, capacity: int): int
    requires 0 <= start < capacity && 0 <= i < capacity
  {
    if start + i < capacity then start + i else start + i - capacity
  }

  /** How many probes separate cell `b` from cell `a`. */
  function Dist(a: int, b: int, capacity: int): int
    requires 0 <= a < capacity && 0 <= b < capacity
  {
    if a <= b then b - a else b - a + capacity
  }

  lemma LoopAt(start: int, i: int, capacity: int)
    requires 0 <= start < capacity && 0 <= i < capacity
    ensures Loop(start + i, capacity) == At(start, i, capacity)
  {
    DivModUnique(start + i, capacity, if start + i < capacity then 0 else 1, At(start, i, capacity));
  }

  // ---------------------------------------------------------------------------
  // Table contents as values
  // ---------------------------------------------------------------------------

  /** What the five parallel arrays hold. */
  datatype Cells = Cells(busy: seq<bool>, kps: seq<int>, khs: seq<int>, chns: seq<int>, vals: seq<int>)

  /** A stored entry: where its key lives and the value kept for it. */
  datatype Slot = Slot(keyp: int, value: int)

  predicate Shaped(c: Cells, capacity: int)
  {
    capacity > 0
    && |c.busy| == |c.kps| == |c.khs| == |c.chns| == |c.vals| == capacity
  }

  function Home(c: Cells, j: int): int
    requires 0 <= j < |c.khs|
  {
    c.khs[j] % |c.khs|
  }

  /** The probe path of the key stored in cell `j` passes over cell `x` before reaching `j`. */
  predicate Crosses(c: Cells, j: int, x: int)
    requires Shaped(c, |c.busy|)
    requires 0 <= j < |c.busy| && 0 <= x < |c.busy|
  {
    c.busy[j] && Dist(Home(c, j), x, |c.busy|) < Dist(Home(c, j), j, |c.busy|)
  }

  ghost function Crossing(c: Cells, x: int): set<int>
    requires Shaped(c, |c.busy|) && 0 <= x < |c.busy|
  {
    set j | 0 <= j < |c.busy| && Crosses(c, j, x)
  }

  ghost function BusySet(c: Cells): set<int>
  {
    set j | 0 <= j < |c.busy| && c.busy[j]
  }

  ghost function BusyBelow(busy: seq<bool>, n: int): set<int>
    requires n <= |busy|
  {
    set j | 0 <= j < n && busy[j]
  }

  lemma BusyBelowStep(busy: seq<bool>, n: int)
    requires 0 <= n < |busy|
    ensures |BusyBelow(busy, n + 1)| == |BusyBelow(busy, n)| + if busy[n] then 1 else 0
  {
    assert BusyBelow(busy, n + 1) == BusyBelow(busy, n) + if busy[n] then {n} else {};
  }

  /** Every counter is the number of stored keys whose path passes over the cell. */
  ghost predicate Counted(c: Cells)
    requires Shaped(c, |c.busy|)
  {
    forall x | 0 <= x < |c.busy| :: c.chns[x] == |Crossing(c, x)|
  }

  /** Busy cells point at keys in memory, know their hashes, and hold distinct keys. */
  ghost predicate Keyed<K>(c: Cells, hsh: K -> int, mem: seq<K>)
    requires Shaped(c, |c.busy|)
  {
    && (forall j | 0 <= j < |c.busy| && c.busy[j] :: 0 <= c.kps[j] < |mem| && c.khs[j] == hsh(mem[c.kps[j]]))
    && (forall i, j | 0 <= i < |c.busy| && 0 <= j < |c.busy| && c.busy[i] && c.busy[j] && i != j ::
          mem[c.kps[i]] != mem[c.kps[j]])
  }

  ghost predicate Good<K>(c: Cells, capacity: int, hsh: K -> int, mem: seq<K>)
  {
    Shaped(c, capacity) && 2 * capacity < INT_MAX && Counted(c) && Keyed(c, hsh, mem)
  }

  /** Cell `j` is busy and its key pointer is aimed into memory. */
  predicate Holds<K>(c: Cells, mem: seq<K>, j: int)
  {
    && 0 <= j < |c.busy| && |c.kps| == |c.vals| == |c.busy|
    && c.busy[j] && 0 <= c.kps[j] < |mem|
  }

  /** Cell `j` holds `key`. */
  ghost predicate Stored<K>(c: Cells, mem: seq<K>, key: K, j: int)
  {
    Holds(c, mem, j) && mem[c.kps[j]] == key
  }

  ghost function CellOf<K>(c: Cells, mem: seq<K>, key: K): (j: int)
    requires exists j :: Stored(c, mem, key, j)
    ensures Stored(c, mem, key, j)
  {
    var j :| Stored(c, mem, key, j);
    j
  }

  /** The finite map the table stands for. */
  ghost function Abs<K(!new)>(c: Cells, mem: seq<K>): map<K, Slot>
  {
    map k | k in (set j | 0 <= j < |c.busy| && Holds(c, mem, j) :: mem[c.kps[j]]) && exists j :: Stored(c, mem, k, j) ::
      var j := CellOf(c, mem, k); Slot(c.kps[j], c.vals[j])
  }

  lemma AbsSpec<K(!new)>(c: Cells, hsh: K -> int, mem: seq<K>)
    requires Shaped(c, |c.busy|) && Keyed(c, hsh, mem)
    ensures forall k :: k in Abs(c, mem) <==> exists j :: Stored(c, mem, k, j)
    ensures forall k, j :: Stored(c, mem, k, j) ==> k in Abs(c, mem) && Abs(c, mem)[k] == Slot(c.kps[j], c.vals[j])
  {
    forall k, j | Stored(c, mem, k, j) ensures k in Abs(c, mem) && Abs(c, mem)[k] == Slot(c.kps[j], c.vals[j]) {
      assert Holds(c, mem, j);
    }
  }

  /** Two finite maps with one meaning are equal; this picks the map out by its cells. */
  lemma AbsIs<K(!new)>(c: Cells, hsh: K -> int, mem: seq<K>, m: map<K, Slot>)
    requires Shaped(c, |c.busy|) && Keyed(c, hsh, mem)
    requires forall k | k in m :: exists j :: Stored(c, mem, k, j)
    requires forall k, j | Stored(c, mem, k, j) :: k in m && m[k] == Slot(c.kps[j], c.vals[j])
    ensures Abs(c, mem) == m
  {
    AbsSpec(c, hsh, mem);
    var a := Abs(c, mem);
    assert a.Keys == m.Keys;
    forall k | k in a ensures a[k] == m[k] {
      var j :| Stored(c, mem, k, j);
    }
  }

  /** As many keys as busy cells: no key is stored twice. */
  lemma AbsSize<K(!new)>(c: Cells, hsh: K -> int, mem: seq<K>)
    requires Shaped(c, |c.busy|) && Keyed(c, hsh, mem)
    ensures |Abs(c, mem)| == |BusySet(c)|
  {
    AbsSpec(c, hsh, mem);
    var f := map j | j in BusySet(c) :: mem[c.kps[j]];
    forall k | k in Abs(c, mem) ensures exists j :: j in BusySet(c) && f[j] == k {
      var j :| Stored(c, mem, k, j);
      assert j in BusySet(c) && f[j] == k;
    }
    forall j | j in BusySet(c) ensures f[j] in Abs(c, mem).Keys {
      assert Stored(c, mem, f[j], j);
    }
    ImageSize(BusySet(c), f, Abs(c, mem).Keys);
  }

  /** A table with fewer keys than cells has an empty cell, and counters stay within the capacity. */
  lemma RoomLeft<K(!new)>(c: Cells, capacity: int, hsh: K -> int, mem: seq<K>)
    requires Good(c, capacity, hsh, mem)
    ensures |Abs(c, mem)| < capacity <==> exists j :: 0 <= j < capacity && !c.busy[j]
    ensures forall x | 0 <= x < capacity :: 0 <= c.chns[x] <= capacity
  {
    AbsSize(c, hsh, mem);
    SubsetSize(BusySet(c), capacity);
    forall x | 0 <= x < capacity ensures 0 <= c.chns[x] <= capacity {
      SubsetSize(Crossing(c, x), capacity);
    }
    if j :| 0 <= j < capacity && !c.busy[j] {
      assert j !in BusySet(c) && j in Range(capacity);
    } else {
      assert BusySet(c) == Range(capacity);
    }
  }

  /** The early exit is sound: a key stored farther along the path keeps the counter positive. */
  lemma StoredBeyond<K(!new)>(c: Cells, capacity: int, hsh: K -> int, mem: seq<K>, j: int, i: int)
    requires Good(c, capacity, hsh, mem)
    requires 0 <= j < capacity && c.busy[j]
    requires 0 <= i < Dist(Home(c, j), j, capacity)
    ensures c.chns[At(Home(c, j), i, capacity)] > 0
  {
    var x := At(Home(c, j), i, capacity);
    assert j in Crossing(c, x);
    assert |Crossing(c, x)| == |Crossing(c, x) - {j}| + 1;
  }

  // ---------------------------------------------------------------------------
  // What one insertion and one removal do to the cells
  // ---------------------------------------------------------------------------

  /** Counters shifted by `delta` on the first `n` cells of the path from `start`. */
  predicate Shifted(chns: seq<int>, chns': seq<int>, start: int, n: int, delta: int)
    requires 0 <= start < |chns|
  {
    |chns'| == |chns|
    && forall x | 0 <= x < |chns| ::
         chns'[x] == chns[x] + if Dist(start, x, |chns|) < n then delta else 0
  }

  ghost predicate Inserted(c: Cells, c': Cells, index: int, hash: int, keyp: int, value: int)
    requires Shaped(c, |c.busy|) && 0 <= index < |c.busy|
  {
    var start := hash % |c.busy|;
    && !c.busy[index]
    && c'.busy == c.busy[index := true]
    && c'.kps == c.kps[index := keyp]
    && c'.khs == c.khs[index := hash]
    && c'.vals == c.vals[index := value]
    && Shifted(c.chns, c'.chns, start, Dist(start, index, |c.busy|), 1)
  }

  lemma InsertedCounted(c: Cells, c': Cells, index: int, hash: int, keyp: int, value: int)
    requires Shaped(c, |c.busy|) && Counted(c)
    requires 0 <= index < |c.busy| && Inserted(c, c', index, hash, keyp, value)
    ensures Shaped(c', |c.busy|) && Counted(c')
  {
    var start := hash % |c.busy|;
    forall x | 0 <= x < |c.busy| ensures c'.chns[x] == |Crossing(c', x)| {
      if Dist(start, x, |c.busy|) < Dist(start, index, |c.busy|) {
        assert Crossing(c', x) == Crossing(c, x) + {index};
      } else {
        assert Crossing(c', x) == Crossing(c, x);
      }
    }
  }

  lemma InsertedAbs<K(!new)>(c: Cells, c': Cells, index: int, hash: int, keyp: int, value: int,
                             hsh: K -> int, mem: seq<K>)
    requires Shaped(c, |c.busy|) && Keyed(c, hsh, mem)
    requires 0 <= index < |c.busy| && Inserted(c, c', index, hash, keyp, value)
    requires 0 <= keyp < |mem| && hash == hsh(mem[keyp]) && mem[keyp] !in Abs(c, mem)
    ensures Shaped(c', |c.busy|) && Keyed(c', hsh, mem)
    ensures Abs(c', mem) == Abs(c, mem)[mem[keyp] := Slot(keyp, value)]
  {
    AbsSpec(c, hsh, mem);
    forall j | 0 <= j < |c.busy| && c.busy[j] ensures mem[c.kps[j]] != mem[keyp] {
      assert Stored(c, mem, mem[c.kps[j]], j);
    }
    var m := Abs(c, mem)[mem[keyp] := Slot(keyp, value)];
    forall k | k in m ensures exists j :: Stored(c', mem, k, j) {
      if k == mem[keyp] {
        assert Stored(c', mem, k, index);
      } else {
        var j :| Stored(c, mem, k, j);
        assert Stored(c', mem, k, j);
      }
    }
    forall k, j | Stored(c', mem, k, j) ensures k in m && m[k] == Slot(c'.kps[j], c'.vals[j]) {
      if j != index { assert Stored(c, mem, k, j); }
    }
    AbsIs(c', hsh, mem, m);
  }

  ghost predicate Removed(c: Cells, c': Cells, index: int)
    requires Shaped(c, |c.busy|) && 0 <= index < |c.busy|
  {
    var start := Home(c, index);
    && c.busy[index]
    && c' == c.(busy := c.busy[index := false], chns := c'.chns)
    && Shifted(c.chns, c'.chns, start, Dist(start, index, |c.busy|), -1)
  }

  lemma RemovedCounted(c: Cells, c': Cells, index: int)
    requires Shaped(c, |c.busy|) && Counted(c)
    requires 0 <= index < |c.busy| && Removed(c, c', index)
    ensures Shaped(c', |c.busy|) && Counted(c')
  {
    var start := Home(c, index);
    forall x | 0 <= x < |c.busy| ensures c'.chns[x] == |Crossing(c', x)| {
      if Dist(start, x, |c.busy|) < Dist(start, index, |c.busy|) {
        assert index in Crossing(c, x);
        assert Crossing(c', x) == Crossing(c, x) - {index};
      } else {
        assert Crossing(c', x) == Crossing(c, x);
      }
    }
  }

  lemma RemovedAbs<K(!new)>(c: Cells, c': Cells, index: int, hsh: K -> int, mem: seq<K>)
    requires Shaped(c, |c.busy|) && Keyed(c, hsh, mem)
    requires 0 <= index < |c.busy| && Removed(c, c', index)
    ensures Shaped(c', |c.busy|) && Keyed(c', hsh, mem)
    ensures Abs(c', mem) == Abs(c, mem) - {mem[c.kps[index]]}
  {
    AbsSpec(c, hsh, mem);
    assert forall j | 0 <= j < |c.busy| && c'.busy[j] :: c.busy[j] && j != index;
    var m := Abs(c, mem) - {mem[c.kps[index]]};
    forall k | k in m ensures exists j :: Stored(c', mem, k, j) {
      var j :| Stored(c, mem, k, j);
      assert j != index;
      assert Stored(c', mem, k, j);
    }
    forall k, j | Stored(c', mem, k, j) ensures k in m && m[k] == Slot(c'.kps[j], c'.vals[j]) {
      assert Stored(c, mem, k, j) && c.busy[index];
      assert mem[c.kps[j]] != mem[c.kps[index]];
    }
    AbsIs(c', hsh, mem, m);
  }

  /** Memory may change anywhere no busy cell points. */
  lemma MemoryFrame<K(!new)>(c: Cells, capacity: int, hsh: K -> int, mem: seq<K>, mem': seq<K>)
    requires Good(c, capacity, hsh, mem)
    requires |mem'| == |mem|
    requires forall k | k in Abs(c, mem) :: 0 <= Abs(c, mem)[k].keyp < |mem| && mem'[Abs(c, mem)[k].keyp] == k
    ensures Good(c, capacity, hsh, mem')
    ensures Abs(c, mem') == Abs(c, mem)
  {
    AbsSpec(c, hsh, mem);
    forall j | 0 <= j < capacity && c.busy[j] ensures mem'[c.kps[j]] == mem[c.kps[j]] {
      assert Stored(c, mem, mem[c.kps[j]], j);
    }
    forall i, j | 0 <= i < capacity && 0 <= j < capacity && c.busy[i] && c.busy[j] && i != j
      ensures mem'[c.kps[i]] != mem'[c.kps[j]]
    {
      assert mem[c.kps[i]] != mem[c.kps[j]];
    }
    forall k | k in Abs(c, mem) ensures exists j :: Stored(c, mem', k, j) {
      var j :| Stored(c, mem, k, j);
      assert Stored(c, mem', k, j);
    }
    forall k, j | Stored(c, mem', k, j) ensures Stored(c, mem, k, j) {}
    AbsIs(c, hsh, mem', Abs(c, mem));
  }

  // ---------------------------------------------------------------------------
  // The table
  // ---------------------------------------------------------------------------

  class Table<K(==,!new)> {
    const capacity: int
    const busybits: array<bool>
    const keyps: array<int>
    const khs: array<int>
    const chns: array<int>
    const vals: array<int>
    ghost const hsh: K -> int

    ghost const Repr: set<object>

    ghost predicate Arrays()
    {
      && Repr == {busybits as object, keyps, khs, chns, vals}
      && capacity > 0
      && busybits.Length == keyps.Length == khs.Length == chns.Length == vals.Length == capacity
      && keyps != khs && keyps != chns && keyps != vals && khs != chns && khs != vals && chns != vals
    }

    ghost function Now(): Cells
      reads Repr
      requires Arrays()
    {
      Cells(busybits[..], keyps[..], khs[..], chns[..], vals[..])
    }

    ghost predicate Valid(mem: seq<K>)
      reads Repr
    {
      Arrays() && Good(Now(), capacity, hsh, mem)
    }

    ghost function Contents(mem: seq<K>): map<K, Slot>
      reads Repr
      requires Valid(mem)
    {
      Abs(Now(), mem)
    }

    /** Memory may change wherever no stored key pointer is aimed. */
    lemma FrameMemory(mem: seq<K>, mem': seq<K>)
      requires Valid(mem) && |mem'| == |mem|
      requires forall k | k in Contents(mem) ::
                 0 <= Contents(mem)[k].keyp < |mem| && mem'[Contents(mem)[k].keyp] == k
      ensures Valid(mem') && Contents(mem') == Contents(mem)
    {
      var m := Contents(mem);
      assert m == Abs(Now(), mem);
      assert forall k | k in m :: 0 <= m[k].keyp < |mem| && mem'[m[k].keyp] == k;
      MemoryFrame(Now(), capacity, hsh, mem, mem');
    }

    /** `map_initialize`: clears busy bits and counters, leaves the other arrays as they are. */
    constructor (capacity: int, ghost hsh: K -> int)
      requires 0 < capacity && 2 * capacity < INT_MAX
      ensures this.capacity == capacity && this.hsh == hsh
      ensures fresh(Repr)
      ensures forall mem :: Valid(mem) && Contents(mem) == map[]
    {
      this.capacity := capacity;
      this.hsh := hsh;
      var bbs, kps, hs := new bool[capacity], new int[capacity], new int[capacity];
      var cs, vs := new int[capacity], new int[capacity];
      busybits, keyps, khs, chns, vals := bbs, kps, hs, cs, vs;
      Repr := {bbs as object, kps, hs, cs, vs};
      new;
      var i := 0;
      while i < capacity
        invariant 0 <= i <= capacity
        invariant forall j | 0 <= j < i :: !busybits[j] && chns[j] == 0
      {
        busybits[i] := false;
        chns[i] := 0;
        i := i + 1;
      }
      assert forall x | 0 <= x < capacity :: Crossing(Now(), x) == {};
      forall mem: seq<K> ensures Valid(mem) && Contents(mem) == map[] {
        AbsIs(Now(), hsh, mem, map[]);
      }
    }

    /** `find_key`: the cell holding `key`, or -1. */
    method FindKey(mem: seq<K>, key: K, hash: int) returns (r: int)
      requires Valid(mem) && hash == hsh(key)
      ensures r == -1 ==> forall j :: !Stored(Now(), mem, key, j)
      ensures r != -1 ==> Stored(Now(), mem, key, r)
    {
      ghost var c := Now();
      var start := Loop(hash, capacity);
      var i := 0;
      while i < capacity
        invariant 0 <= i <= capacity
        invariant forall d | 0 <= d < i :: !Stored(c, mem, key, At(start, d, capacity))
      {
        LoopAt(start, i, capacity);
        var index := Loop(start + i, capacity);
        var bb := busybits[index];
        var kh := khs[index];
        var chn := chns[index];
        var kp := keyps[index];
        if bb && kh == hash {
          if mem[kp] == key {
            return index;
          }
        } else {
          if chn == 0 {
            forall j ensures !Stored(c, mem, key, j) {
              if 0 <= j < capacity && c.busy[j] && Home(c, j) == start {
                assert At(start, Dist(start, j, capacity), capacity) == j;
                if i < Dist(start, j, capacity) { StoredBeyond(c, capacity, hsh, mem, j, i); }
              }
            }
            return -1;
          }
        }
        i := i + 1;
      }
      forall j ensures !Stored(c, mem, key, j) {
        if 0 <= j < capacity { assert At(start, Dist(start, j, capacity), capacity) == j; }
      }
      return -1;
    }

    /**
      `find_empty`: walks to the first empty cell, counting every cell it passes.
      A full table yields -1 and has every counter raised.
     */
    method FindEmpty(start: int) returns (r: int)
      requires Arrays() && 0 <= start < capacity && 2 * capacity < INT_MAX
      requires forall x | 0 <= x < capacity :: chns[x] < INT_MAX
      modifies chns
      ensures -1 <= r < capacity
      ensures r == -1 <==> forall x | 0 <= x < capacity :: busybits[x]
      ensures r != -1 ==> !busybits[r] && forall d | 0 <= d < Dist(start, r, capacity) :: busybits[At(start, d, capacity)]
      ensures Shifted(old(chns[..]), chns[..], start, if r == -1 then capacity else Dist(start, r, capacity), 1)
    {
      var i := 0;
      while i < capacity
        invariant 0 <= i <= capacity
        invariant forall d | 0 <= d < i :: busybits[At(start, d, capacity)]
        invariant Shifted(old(chns[..]), chns[..], start, i, 1)
      {
        LoopAt(start, i, capacity);
        var index := Loop(start + i, capacity);
        var bb := busybits[index];
        if !bb {
          return index;
        }
        var chn := chns[index];
        assert chn + 1 <= INT_MAX by { assert Dist(start, index, capacity) == i; }
        chns[index] := chn + 1;
        i := i + 1;
      }
      forall x | 0 <= x < capacity ensures busybits[x] {
        assert At(start, Dist(start, x, capacity), capacity) == x;
      }
      return -1;
    }

    /**
      `find_key_remove_chain`: walks to `key`, discounting every cell it passes, and frees
      its cell.  Without the key the walk discounts every counter and yields -1.
     */
    method FindKeyRemoveChain(mem: seq<K>, key: K, hash: int) returns (r: int, keypOut: int)
      requires Valid(mem) && hash == hsh(key)
      modifies chns, busybits
      ensures r == -1 ==> forall j :: !old(Stored(Now(), mem, key, j))
      ensures r == -1 ==> Now() == old(Now()).(chns := chns[..])
      ensures r == -1 ==> Shifted(old(chns[..]), chns[..], Loop(hash, capacity), capacity, -1)
      ensures r != -1 ==> old(Stored(Now(), mem, key, r)) && Removed(old(Now()), Now(), r)
      ensures r != -1 ==> keypOut == keyps[r]
    {
      ghost var c := Now();
      var i := 0;
      var start := Loop(hash, capacity);
      while i < capacity
        invariant 0 <= i <= capacity
        invariant busybits[..] == c.busy && keyps[..] == c.kps && khs[..] == c.khs && vals[..] == c.vals
        invariant forall d | 0 <= d < i :: !Stored(c, mem, key, At(start, d, capacity))
        invariant Shifted(c.chns, chns[..], start, i, -1)
      {
        LoopAt(start, i, capacity);
        var index := Loop(start + i, capacity);
        var bb := busybits[index];
        var kh := khs[index];
        var chn := chns[index];
        var kp := keyps[index];
        if bb && kh == hash {
          if mem[kp] == key {
            busybits[index] := false;
            assert Stored(c, mem, key, index) && Home(c, index) == start;
            assert busybits[..] == c.busy[index := false];
            return index, keyps[index];
          }
        }
        chns[index] := chn - 1;
        i := i + 1;
      }
      forall j ensures !Stored(c, mem, key, j) {
        if 0 <= j < capacity { assert At(start, Dist(start, j, capacity), capacity) == j; }
      }
      return -1, -1;
    }

    /** `map_get` */
    method Get(mem: seq<K>, key: K, hash: int) returns (found: bool, value: int)
      requires Valid(mem) && hash == hsh(key)
      ensures found <==> key in Contents(mem)
      ensures found ==> value == Contents(mem)[key].value
    {
      AbsSpec(Now(), hsh, mem);
      var index := FindKey(mem, key, hash);
      if index == -1 {
        return false, -1;
      }
      return true, vals[index];
    }

    /** `map_put`: the key must be new and the table not full. */
    method Put(mem: seq<K>, keyp: int, hash: int, value: int)
      requires Valid(mem) && 0 <= keyp < |mem| && hash == hsh(mem[keyp])
      requires mem[keyp] !in Contents(mem) && |Contents(mem)| < capacity
      modifies Repr
      ensures Valid(mem)
      ensures Contents(mem) == old(Contents(mem))[mem[keyp] := Slot(keyp, value)]
    {
      ghost var c := Now();
      RoomLeft(c, capacity, hsh, mem);
      var start := Loop(hash, capacity);
      var index := FindEmpty(start);
      busybits[index] := true;
      keyps[index] := keyp;
      khs[index] := hash;
      vals[index] := value;
      InsertedCounted(c, Now(), index, hash, keyp, value);
      InsertedAbs(c, Now(), index, hash, keyp, value, hsh, mem);
    }

    /** `map_erase`: the key must be stored; yields the pointer it was stored under. */
    method Erase(mem: seq<K>, key: K, hash: int) returns (keypOut: int)
      requires Valid(mem) && hash == hsh(key)
      requires key in Contents(mem)
      modifies Repr
      ensures Valid(mem)
      ensures Contents(mem) == old(Contents(mem)) - {key}
      ensures keypOut == old(Contents(mem))[key].keyp
    {
      ghost var c := Now();
      AbsSpec(c, hsh, mem);
      var index;
      index, keypOut := FindKeyRemoveChain(mem, key, hash);
      RemovedCounted(c, Now(), index);
      RemovedAbs(c, Now(), index, hsh, mem);
    }

    /** `map_size` */
    method Size(ghost mem: seq<K>) returns (s: int)
      requires Valid(mem)
      ensures s == |Contents(mem)|
    {
      s := 0;
      var i := 0;
      ghost var busy := busybits[..];
      while i < capacity
        invariant 0 <= i <= capacity
        invariant s == |BusyBelow(busy, i)|
      {
        BusyBelowStep(busy, i);
        if busybits[i] {
          s := s + 1;
        }
        i := i + 1;
      }
      assert BusyBelow(busy, capacity) == BusySet(Now());
      AbsSize(Now(), hsh, mem);
    }
  }
}
