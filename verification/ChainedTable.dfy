/**
  The chained hash table of dpdk-nat-basichash.c: buckets of linked entries, new
  entries pushed at the front, values overwritten in place, nothing ever removed.
 */
module ChainedTable {

  class Entry<K, V> {
    const key: K
    var value: V
    const next: Entry?<K, V>

    constructor (key: K, value: V, next: Entry?<K, V>)
      ensures this.key == key && this.value == value && this.next == next
    {
      this.key, this.value, this.next := key, value, next;
    }
  }

  ghost function EntryAt<K, V>(c: seq<Entry<K, V>>, i: int): Entry?<K, V>
  {
    if 0 <= i < |c| then c[i] else null
  }

  /** Following `next` from `head` visits exactly `c`. */
  ghost predicate Linked<K, V>(head: Entry?<K, V>, c: seq<Entry<K, V>>)
  {
    head == EntryAt(c, 0) && forall i {:trigger c[i].next} | 0 <= i < |c| :: c[i].next == EntryAt(c, i + 1)
  }

  lemma PushLinked<K, V>(e: Entry<K, V>, c: seq<Entry<K, V>>)
    requires Linked(e.next, c)
    ensures Linked(e, [e] + c)
  {
    var d := [e] + c;
    forall i | 0 <= i < |d| ensures d[i].next == EntryAt(d, i + 1) {
      if i > 0 {
        assert d[i] == c[i - 1] && c[i - 1].next == EntryAt(c, i);
      }
    }
  }

  class Table<K(==,!new), V> {
    const size: int
    const hash: K -> int
    const buckets: array<Entry?<K, V>>
    ghost var chains: seq<seq<Entry<K, V>>>  // the entries of each bucket, newest first
    ghost var entries: map<K, Entry<K, V>>   // the entry of each stored key

    /** A bucket holds just the entries of the keys that hash there. */
    ghost predicate BucketOk(b: int)
      reads this, buckets
      requires 0 <= b < buckets.Length && b < |chains|
    {
      var c := chains[b];
      && Linked(buckets[b], c)
      && (forall i | 0 <= i < |c| :: c[i].key in entries && entries[c[i].key] == c[i])
      && (forall k | k in entries && hash(k) == b :: entries[k] in c)
    }

    ghost predicate Valid()
      reads this, buckets
    {
      && buckets.Length == |chains| == size
      && (forall k :: 0 <= hash(k) < size)
      && (forall k | k in entries :: entries[k].key == k)
      && (forall b | 0 <= b < size :: BucketOk(b))
    }

    /** The finite map the table stands for. */
    ghost function Contents(): map<K, V>
      reads this, entries.Values
    {
      map k | k in entries :: entries[k].value
    }

    /** `hash_init` */
    constructor (size: int, hash: K -> int)
      requires 0 < size && forall k :: 0 <= hash(k) < size
      ensures this.size == size && this.hash == hash
      ensures Valid() && fresh(buckets) && entries == map[] && Contents() == map[]
    {
      this.size, this.hash := size, hash;
      buckets := new Entry?<K, V>[size](_ => null);
      chains := seq(size, _ => []);
      entries := map[];
    }

    /** `hash_get` */
    method Get(key: K) returns (entry: Entry?<K, V>)
      requires Valid()
      ensures entry == if key in entries then entries[key] else null
    {
      assert BucketOk(hash(key));
      ghost var c := chains[hash(key)];
      assert key in entries ==> entries[key] in c;
      entry := buckets[hash(key)];
      ghost var i := 0;
      while entry != null
        invariant 0 <= i <= |c|
        invariant entry == EntryAt(c, i)
        invariant forall j | 0 <= j < i :: c[j].key != key
        decreases |c| - i
      {
        if entry.key == key {
          return;
        }
        entry := entry.next;
        i := i + 1;
      }
    }

    /** `hash_set`: overwrites the value of a stored key, or pushes a new entry on its bucket. */
    method Set(key: K, value: V)
      requires Valid()
      modifies this`entries, this`chains, buckets, entries.Values
      ensures Valid()
      ensures forall k | k in entries :: (k in old(entries) && entries[k] == old(entries)[k]) || fresh(entries[k])
      ensures Contents() == old(Contents())[key := value]
    {
      var entry := Get(key);
      if entry != null {
        entry.value := value;
        assert forall k | k in entries && k != key :: entries[k] != entry;
        return;
      }
      var b := hash(key);
      assert BucketOk(b);
      entry := new Entry(key, value, buckets[b]);
      PushLinked(entry, chains[b]);
      buckets[b] := entry;
      chains := chains[b := [entry] + chains[b]];
      entries := entries[key := entry];
      forall x | 0 <= x < size ensures BucketOk(x) {
        assert old(BucketOk(x));
        PushedBucket(x, b, entry, old(chains[x]), old(entries));
      }
    }

    lemma PushedBucket(x: int, b: int, e: Entry<K, V>, c: seq<Entry<K, V>>, was: map<K, Entry<K, V>>)
      requires buckets.Length == |chains| && 0 <= x < |chains| && b == hash(e.key)
      requires chains[x] == if x == b then [e] + c else c
      requires entries == was[e.key := e] && e.key !in was
      requires Linked(buckets[x], chains[x])
      requires forall i | 0 <= i < |c| :: c[i].key in was && was[c[i].key] == c[i]
      requires forall k | k in was && hash(k) == x :: was[k] in c
      ensures BucketOk(x)
    {
    }
  }
}
