/** dpdk-lb-hashring.c: flows kept in a linear-probing ring that never deletes. */
module LbRing {
  import opened Words
  import opened LbSpec
  import FiniteSets
  import HashTable

  /** `hash_entry_t` */
  datatype Entry = Entry(used: bool, key: Key, value: u32)

  ghost predicate Sits(c: seq<Entry>, k: Key, j: int)
  {
    0 <= j < |c| && c[j].used && c[j].key == k
  }

  /** Every cell between the home of a stored key and its own cell is in use. */
  ghost predicate NoGap(c: seq<Entry>, hash: Key -> int, j: int)
    requires 0 <= j < |c| && 0 <= hash(c[j].key) < |c|
  {
    forall d | 0 <= d < HashTable.Dist(hash(c[j].key), j, |c|) :: c[HashTable.At(hash(c[j].key), d, |c|)].used
  }

  /** The cells hold exactly `contents`, each key once and without a gap before it. */
  ghost predicate Holds(c: seq<Entry>, hash: Key -> int, contents: map<Key, u32>)
    requires forall k :: 0 <= hash(k) < |c|
  {
    && (forall j | 0 <= j < |c| && c[j].used :: c[j].key in contents && contents[c[j].key] == c[j].value)
    && (forall k | k in contents :: exists j :: Sits(c, k, j))
    && (forall i, j | 0 <= i < |c| && 0 <= j < |c| && c[i].used && c[j].used && i != j :: c[i].key != c[j].key)
    && (forall j | 0 <= j < |c| && c[j].used :: NoGap(c, hash, j))
  }

  /** The ring has a free cell exactly when it holds fewer keys than cells. */
  lemma RoomIffUnused(c: seq<Entry>, hash: Key -> int, contents: map<Key, u32>)
    requires |c| > 0 && (forall k :: 0 <= hash(k) < |c|) && Holds(c, hash, contents)
    ensures |contents| < |c| <==> exists j :: 0 <= j < |c| && !c[j].used
    ensures |contents| <= |c|
  {
    hide NoGap;
    var used := set j | 0 <= j < |c| && c[j].used;
    UsedSize(c, hash, contents, used);
    FiniteSets.SubsetSize(used, |c|);
    if j :| 0 <= j < |c| && !c[j].used {
      assert j !in used && j in FiniteSets.Range(|c|);
    } else {
      assert used == FiniteSets.Range(|c|);
    }
  }

  lemma UsedSize(c: seq<Entry>, hash: Key -> int, contents: map<Key, u32>, used: set<int>)
    requires (forall k :: 0 <= hash(k) < |c|) && Holds(c, hash, contents)
    requires forall j :: j in used <==> 0 <= j < |c| && c[j].used
    ensures |used| == |contents|
  {
    hide NoGap;
    var f := map j | j in used :: c[j].key;
    forall k | k in contents.Keys ensures exists j :: j in used && f[j] == k {
      var j :| Sits(c, k, j);
      assert j in used && f[j] == k;
    }
    FiniteSets.ImageSize(used, f, contents.Keys);
  }

  /** Probing for `key` met only other keys up to a free cell: `key` is not stored. */
  lemma GapMeansAbsent(c: seq<Entry>, hash: Key -> int, contents: map<Key, u32>, key: Key, pos: int)
    requires (forall k :: 0 <= hash(k) < |c|) && Holds(c, hash, contents) && 0 <= pos <= |c|
    requires forall d | 0 <= d < pos :: c[HashTable.At(hash(key), d, |c|)].key != key
    requires pos < |c| ==> !c[HashTable.At(hash(key), pos, |c|)].used
    ensures key !in contents
  {
    forall j ensures !Sits(c, key, j) {
      if 0 <= j < |c| {
        var d := HashTable.Dist(hash(key), j, |c|);
        assert HashTable.At(hash(key), d, |c|) == j;
        if c[j].used { assert NoGap(c, hash, j); }
      }
    }
  }

  lemma Filled(c: seq<Entry>, hash: Key -> int, contents: map<Key, u32>, key: Key, value: u32, pos: int)
    requires (forall k :: 0 <= hash(k) < |c|) && Holds(c, hash, contents) && key !in contents && 0 <= pos < |c|
    requires forall d | 0 <= d < pos :: c[HashTable.At(hash(key), d, |c|)].used
    requires !c[HashTable.At(hash(key), pos, |c|)].used
    ensures Holds(c[HashTable.At(hash(key), pos, |c|) := Entry(true, key, value)], hash, contents[key := value])
  {
    var x := HashTable.At(hash(key), pos, |c|);
    var c' := c[x := Entry(true, key, value)];
    var m := contents[key := value];
    forall k | k in m ensures exists j :: Sits(c', k, j) {
      if k == key {
        assert Sits(c', k, x);
      } else {
        var j :| Sits(c, k, j);
        assert Sits(c', k, j);
      }
    }
    forall j | 0 <= j < |c| && c'[j].used ensures NoGap(c', hash, j) {
      if j != x { assert NoGap(c, hash, j); }
    }
  }

  class Ring {
    const size: int
    const hash: Key -> int
    const cells: array<Entry>
    ghost var contents: map<Key, u32>

    ghost predicate Valid()
      reads this, cells
    {
      && 0 < size == cells.Length
      && (forall k :: 0 <= hash(k) < size)
      && Holds(cells[..], hash, contents)
    }

    /** `hash_init` */
    constructor (size: int, hash: Key -> int)
      requires 0 < size && forall k :: 0 <= hash(k) < size
      ensures Valid() && fresh(cells) && contents == map[] && this.size == size
    {
      this.size, this.hash := size, hash;
      cells := new Entry[size](_ => Entry(false, Key(0, 0, 0), 0));
      contents := map[];
    }

    /** `hash_get` */
    method Get(key: Key) returns (found: bool, value: u32)
      requires Valid()
      ensures found <==> key in contents
      ensures found ==> value == contents[key]
    {
      hide NoGap;
      ghost var c := cells[..];
      value := 0;
      var pos := 0;
      while pos < size
        invariant 0 <= pos <= size
        invariant forall d | 0 <= d < pos :: c[HashTable.At(hash(key), d, |c|)].key != key
      {
        HashTable.LoopAt(hash(key), pos, size);
        var entry := cells[(hash(key) + pos) % size];
        if !entry.used {
          break;
        } else if entry.key == key {
          return true, entry.value;
        }
        pos := pos + 1;
      }
      GapMeansAbsent(c, hash, contents, key, pos);
      return false, 0;
    }

    /** `hash_set`: a full ring silently ignores a new key. */
    method Set(key: Key, value: u32)
      requires Valid()
      modifies this, cells
      ensures Valid()
      ensures contents == if key in old(contents) || |old(contents)| < size then old(contents)[key := value] else old(contents)
    {
      hide Holds;
      ghost var c := cells[..];
      RoomIffUnused(c, hash, contents);
      var pos := 0;
      while pos < size
        invariant 0 <= pos <= size
        invariant cells[..] == c && contents == old(contents)
        invariant forall d | 0 <= d < pos :: c[HashTable.At(hash(key), d, |c|)].key != key
        invariant forall d | 0 <= d < pos :: c[HashTable.At(hash(key), d, |c|)].used
      {
        HashTable.LoopAt(hash(key), pos, size);
        var x := (hash(key) + pos) % size;
        if !cells[x].used {
          GapMeansAbsent(c, hash, contents, key, pos);
          Filled(c, hash, contents, key, value, pos);
          cells[x] := cells[x].(key := key);
          cells[x] := cells[x].(value := value);
          cells[x] := cells[x].(used := true);
          contents := contents[key := value];
          assert cells[..] == c[x := Entry(true, key, value)];
          return;
        } else if cells[x].key == key {
          Overwritten(c, hash, contents, key, value, x);
          cells[x] := cells[x].(value := value);
          contents := contents[key := value];
          assert cells[..] == c[x := c[x].(value := value)];
          return;
        }
        pos := pos + 1;
      }
      GapMeansAbsent(c, hash, contents, key, pos);
      forall j | 0 <= j < size ensures c[j].used {
        assert HashTable.At(hash(key), HashTable.Dist(hash(key), j, |c|), |c|) == j;
      }
    }
  }

  lemma Overwritten(c: seq<Entry>, hash: Key -> int, contents: map<Key, u32>, key: Key, value: u32, x: int)
    requires (forall k :: 0 <= hash(k) < |c|) && Holds(c, hash, contents) && Sits(c, key, x)
    ensures key in contents
    ensures Holds(c[x := c[x].(value := value)], hash, contents[key := value])
  {
    var c' := c[x := c[x].(value := value)];
    var m := contents[key := value];
    forall k | k in m ensures exists j :: Sits(c', k, j) {
      var j :| Sits(c, k, j);
      assert Sits(c', k, j);
    }
    forall j | 0 <= j < |c| && c'[j].used ensures NoGap(c', hash, j) {
      assert NoGap(c, hash, j);
    }
  }

  /** The incoming half of `dispatch_packet`. */
  class Balancer {
    const dips: seq<u32>
    const table: Ring
    var nextDip: int

    ghost predicate Valid()
      reads this, table, table.cells
    {
      table.Valid() && 0 <= nextDip < |dips|
    }

    ghost function Now(): Lb
      reads this, table
    {
      Lb(table.contents, nextDip)
    }

    constructor (dips: seq<u32>, size: int, hash: Key -> int)
      requires 0 < |dips| && 0 < size && forall k :: 0 <= hash(k) < size
      ensures Valid() && Now() == Lb(map[], 0) && this.dips == dips && table.size == size
      ensures fresh(table) && fresh(table.cells)
    {
      this.dips := dips;
      table := new Ring(size, hash);
      nextDip := 0;
    }

    method Choose(key: Key) returns (server: u32)
      requires Valid()
      modifies this, table, table.cells
      ensures Valid()
      ensures server == Server(dips, old(Now()), key)
      ensures Now() == Step(dips, table.size, old(Now()), key)
    {
      hide Holds;
      var found;
      found, server := table.Get(key);
      if !found {
        server := dips[nextDip];
        nextDip := nextDip + 1;
        if nextDip >= |dips| || dips[nextDip] == 0 {
          nextDip := 0;
        }
        table.Set(key, server);
      }
    }
  }

  /** The packets of a whole trace, one after the other. */
  method Serve(dips: seq<u32>, size: int, hash: Key -> int, keys: seq<Key>) returns (servers: seq<u32>)
    requires 0 < |dips| && 0 < size && forall k :: 0 <= hash(k) < size
    ensures servers == Servers(dips, size, Lb(map[], 0), keys)
  {
    hide Ring.Valid, Server, Step, Servers, Final;
    var lb := new Balancer(dips, size, hash);
    servers := [];
    ghost var start := Lb(map[], 0);
    ServersEmpty(dips, size, start);
    var i := 0;
    while i < |keys|
      invariant 0 <= i <= |keys| && lb.Valid() && lb.dips == dips && lb.table.size == size
      invariant fresh(lb) && fresh(lb.table) && fresh(lb.table.cells)
      invariant servers == Servers(dips, size, start, keys[..i])
      invariant lb.Now() == Final(dips, size, start, keys[..i])
    {
      ServersMore(dips, size, start, keys[..i], keys[i]);
      assert keys[..i + 1] == keys[..i] + [keys[i]];
      var server := lb.Choose(keys[i]);
      servers := servers + [server];
      i := i + 1;
    }
    assert keys[..|keys|] == keys;
  }
}
