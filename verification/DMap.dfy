/**
  double-map.c: values kept in numbered slots and found by either of two keys.
  Two hash tables map the keys, which live inside the stored values, to slot
  numbers.
 */
module DMap {
  import opened FiniteSets
  import opened HashTable

  /**
    The table contents `m` index the used slots by `key`: both directions of the
    correspondence, with every key pointer aimed at the slot itself.
   */
  ghost predicate Indexes<K(!new), V(!new)>(m: map<K, Slot>, entries: map<int, V>, key: V -> K)
  {
    && (forall i | i in entries :: key(entries[i]) in m && m[key(entries[i])] == Slot(i, i))
    && (forall k | k in m :: m[k].value in entries && key(entries[m[k].value]) == k)
  }

  lemma IndexesEmpty<K(!new), V(!new)>(key: V -> K)
    ensures Indexes(map[], map[], key)
  {
  }

  lemma IndexesPut<K(!new), V(!new)>(m: map<K, Slot>, entries: map<int, V>, key: V -> K, i: int, v: V)
    requires Indexes(m, entries, key) && i !in entries && key(v) !in m
    ensures Indexes(m[key(v) := Slot(i, i)], entries[i := v], key)
  {
  }

  lemma IndexesErase<K(!new), V(!new)>(m: map<K, Slot>, entries: map<int, V>, key: V -> K, i: int)
    requires Indexes(m, entries, key) && i in entries
    ensures key(entries[i]) in m && m[key(entries[i])] == Slot(i, i)
    ensures Indexes(m - {key(entries[i])}, entries - {i}, key)
  {
  }

  lemma IndexesSize<K(!new), V(!new)>(m: map<K, Slot>, entries: map<int, V>, key: V -> K)
    requires Indexes(m, entries, key)
    ensures |m| == |entries|
  {
    var f := map i | i in entries :: key(entries[i]);
    assert forall i | i in entries.Keys :: f[i] == key(entries[i]) && f[i] in m.Keys && m[f[i]].value == i;
    forall k | k in m.Keys ensures exists i :: i in entries.Keys && f[i] == k {
      assert f[m[k].value] == k;
    }
    ImageSize(entries.Keys, f, m.Keys);
  }

  ghost predicate InSlots<V>(vs: seq<V>, entries: map<int, V>)
  {
    forall i | i in entries :: 0 <= i < |vs| && vs[i] == entries[i]
  }

  /** The keys found in a block of values, which is where key pointers lead. */
  function KeysOf<K, V>(vs: seq<V>, key: V -> K): seq<K>
  {
    seq(|vs|, i requires 0 <= i < |vs| => key(vs[i]))
  }

  /** Writing a value with a new key to an unused slot moves no key that a stored pointer is aimed at. */
  lemma WriteUnused<K(!new), V(!new)>(m: map<K, Slot>, entries: map<int, V>, key: V -> K, vs: seq<V>, i: int, v: V)
    requires Indexes(m, entries, key) && InSlots(vs, entries)
    requires 0 <= i < |vs| && i !in entries && forall j | j in entries :: key(entries[j]) != key(v)
    ensures key(v) !in m
    ensures var mem, mem' := KeysOf(vs, key), KeysOf(vs[i := v], key);
      && |mem'| == |mem| == |vs| && mem'[i] == key(v)
      && forall x | x in m :: 0 <= m[x].keyp < |mem| && mem'[m[x].keyp] == x
  {
  }

  lemma InSlotsPut<V>(vs: seq<V>, entries: map<int, V>, i: int, v: V)
    requires InSlots(vs, entries) && 0 <= i < |vs| && i !in entries
    ensures InSlots(vs[i := v], entries[i := v]) && |entries[i := v]| == |entries| + 1
  {
  }

  /** A key table tracks the used slots of a block of values by one of their keys. */
  ghost predicate Tracks<K(!new), V(!new)>(t: Table<K>, key: V -> K, vs: seq<V>, entries: map<int, V>)
    reads t.Repr
  {
    t.Valid(KeysOf(vs, key)) && Indexes(t.Contents(KeysOf(vs, key)), entries, key)
  }

  /** Room for one more slot means room for its key. */
  lemma RoomForOne<K(!new), V(!new)>(t: Table<K>, key: V -> K, vs: seq<V>, entries: map<int, V>, index: int)
    requires Tracks(t, key, vs, entries) && InSlots(vs, entries) && |vs| <= t.capacity
    requires 0 <= index < |vs| && index !in entries
    ensures |t.Contents(KeysOf(vs, key))| < t.capacity
  {
    hide Table.Valid, Table.Contents;
    IndexesSize(t.Contents(KeysOf(vs, key)), entries, key);
    SubsetSize(entries.Keys + {index}, |vs|);
  }

  /** Enters the key of the value just written to an unused slot. */
  method Enter<K(==,!new), V(!new)>(t: Table<K>, key: V -> K, vs: seq<V>, index: int, hash: int,
                                    ghost vs0: seq<V>, ghost entries: map<int, V>)
    requires 0 <= index < |vs| == |vs0| && vs == vs0[index := vs[index]] && |vs0| <= t.capacity
    requires Tracks(t, key, vs0, entries) && InSlots(vs0, entries) && index !in entries
    requires forall i | i in entries :: key(entries[i]) != key(vs[index])
    requires hash == t.hsh(key(vs[index]))
    modifies t.Repr
    ensures Tracks(t, key, vs, entries[index := vs[index]])
  {
    hide Table.Valid, Table.Contents, Indexes, KeysOf, InSlots;
    ghost var m := t.Contents(KeysOf(vs0, key));
    RoomForOne(t, key, vs0, entries, index);
    WriteUnused(m, entries, key, vs0, index, vs[index]);
    IndexesPut(m, entries, key, index, vs[index]);
    t.FrameMemory(KeysOf(vs0, key), KeysOf(vs, key));
    t.Put(KeysOf(vs, key), index, hash, index);
  }

  /** Removes the key of a used slot. */
  method Leave<K(==,!new), V(!new)>(t: Table<K>, key: V -> K, vs: seq<V>, index: int, hash: int, ghost entries: map<int, V>)
    requires Tracks(t, key, vs, entries) && InSlots(vs, entries) && index in entries
    requires hash == t.hsh(key(vs[index]))
    modifies t.Repr
    ensures Tracks(t, key, vs, entries - {index})
  {
    hide Table.Valid, Table.Contents, Indexes, KeysOf;
    IndexesErase(t.Contents(KeysOf(vs, key)), entries, key, index);
    var keypOut := t.Erase(KeysOf(vs, key), key(vs[index]), hash);
    assert keypOut == index;
  }

  class DoubleMap<K1(==,!new), K2(==,!new), V(0,!new)> {
    const a: Table<K1>
    const b: Table<K2>
    const values: array<V>
    const keyA: V -> K1
    const keyB: V -> K2
    const hashA: K1 -> int
    const hashB: K2 -> int
    const capacity: int
    const keysCapacity: int
    var nVals: int
    ghost var entries: map<int, V>  // the used slots

    ghost const Repr: set<object> := {this, values} + a.Repr + b.Repr

    ghost predicate Layout()
    {
      && a.hsh == hashA && b.hsh == hashB
      && a.capacity == b.capacity == keysCapacity
      && 0 < capacity <= keysCapacity && values.Length == capacity
      && {this as object, values} !! a.Repr !! b.Repr
    }

    ghost predicate Valid()
      reads Repr
    {
      && Layout()
      && InSlots(values[..], entries)
      && Tracks(a, keyA, values[..], entries)
      && Tracks(b, keyB, values[..], entries)
      && nVals == |entries|
    }

    /** `dmap_allocate` */
    constructor (keyA: V -> K1, keyB: V -> K2, hashA: K1 -> int, hashB: K2 -> int, capacity: int, keysCapacity: int)
      requires 0 < capacity <= keysCapacity && 2 * keysCapacity < INT_MAX
      ensures Valid() && fresh(Repr) && entries == map[]
      ensures this.keyA == keyA && this.keyB == keyB && this.capacity == capacity
    {
      hide Table.Valid, Table.Contents, KeysOf, Indexes;
      IndexesEmpty(keyA);
      IndexesEmpty(keyB);
      this.keyA, this.keyB, this.hashA, this.hashB := keyA, keyB, hashA, hashB;
      this.capacity, this.keysCapacity := capacity, keysCapacity;
      values := new V[capacity];
      a := new Table<K1>(keysCapacity, hashA);
      b := new Table<K2>(keysCapacity, hashB);
      nVals := 0;
      entries := map[];
      new;
      assert Tracks(a, this.keyA, values[..], entries);
      assert Tracks(b, this.keyB, values[..], entries);
    }

    /** `dmap_get_a` */
    method GetA(key: K1) returns (found: bool, index: int)
      requires Valid()
      ensures found <==> exists i :: i in entries && keyA(entries[i]) == key
      ensures found ==> index in entries && keyA(entries[index]) == key
    {
      hide Table.Valid, Table.Contents;
      var hash := hashA(key);
      found, index := a.Get(KeysOf(values[..], keyA), key, hash);
    }

    /** `dmap_get_b` */
    method GetB(key: K2) returns (found: bool, index: int)
      requires Valid()
      ensures found <==> exists i :: i in entries && keyB(entries[i]) == key
      ensures found ==> index in entries && keyB(entries[index]) == key
    {
      hide Table.Valid, Table.Contents;
      var hash := hashB(key);
      found, index := b.Get(KeysOf(values[..], keyB), key, hash);
    }

    /** `dmap_put`: the slot must be unused and both keys new. */
    method Put(value: V, index: int)
      requires Valid() && 0 <= index < capacity && index !in entries
      requires forall i | i in entries :: keyA(entries[i]) != keyA(value) && keyB(entries[i]) != keyB(value)
      modifies Repr
      ensures Valid() && entries == old(entries)[index := value]
    {
      hide Tracks, InSlots;
      ghost var was, vs := entries, values[..];
      InSlotsPut(vs, was, index, value);
      values[index] := value;
      assert values[..] == vs[index := value];
      var hash1 := hashA(keyA(values[index]));
      Enter(a, keyA, values[..], index, hash1, vs, was);
      assert values[..] == vs[index := value];
      var hash2 := hashB(keyB(values[index]));
      Enter(b, keyB, values[..], index, hash2, vs, was);
      assert values[..] == vs[index := value];
      nVals := nVals + 1;
      entries := was[index := value];
      assert values[..] == vs[index := value];
    }

    /** `dmap_get_value` */
    method GetValue(index: int) returns (v: V)
      requires Valid() && index in entries
      ensures v == entries[index]
    {
      hide Tracks;
      v := values[index];
    }

    /** `dmap_erase`: the slot must be used; its bytes stay behind. */
    method Erase(index: int)
      requires Valid() && index in entries
      modifies Repr
      ensures Valid() && entries == old(entries) - {index}
    {
      hide Tracks;
      ghost var was, vs := entries, values[..];
      var hash1 := hashA(keyA(values[index]));
      Leave(a, keyA, values[..], index, hash1, was);
      assert values[..] == vs;
      var hash2 := hashB(keyB(values[index]));
      Leave(b, keyB, values[..], index, hash2, was);
      assert values[..] == vs;
      nVals := nVals - 1;
      entries := was - {index};
      assert values[..] == vs;
    }

    /** `dmap_size` */
    method Size() returns (n: int)
      requires Valid()
      ensures n == |entries|
    {
      n := nVals;
    }
  }
}
