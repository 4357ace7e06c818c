/** expirator.c: drops stale indexes from the allocator and their entries from the map together. */
module Expirator {
  import opened Words
  import opened IndexChain
  import opened HashTable
  import opened DChain
  import opened DMap

  function NotBefore(uses: map<int, u32>, time: u32): map<int, u32>
  {
    map i | i in uses && uses[i] >= time :: uses[i]
  }

  function Restrict<T>(m: map<int, T>, keys: set<int>): map<int, T>
  {
    map i | i in m && i in keys :: m[i]
  }

  lemma StaleGone<T>(uses: map<int, u32>, entries: map<int, T>, gone: set<int>, time: u32)
    requires uses.Keys == entries.Keys
    requires gone <= uses.Keys && forall i | i in uses :: i in gone <==> uses[i] < time
    ensures uses - gone == NotBefore(uses, time)
    ensures entries - gone == Restrict(entries, (uses - gone).Keys)
    ensures |uses - gone| == |uses| - |gone|
  {
    var kept := uses - gone;
    assert kept.Keys == uses.Keys - gone;
    var left := NotBefore(uses, time);
    forall i ensures i in kept <==> i in left {}
    RestrictIs(entries, gone, kept.Keys);
  }

  lemma RestrictIs<T>(m: map<int, T>, gone: set<int>, keys: set<int>)
    requires keys == m.Keys - gone
    ensures m - gone == Restrict(m, keys)
  {
  }

  lemma MinusOne<T>(m: map<int, T>, gone: set<int>, i: int)
    requires i in m - gone
    ensures m - gone - {i} == m - (gone + {i})
    ensures |m - (gone + {i})| < |m - gone|
  {
    assert (m - gone).Keys == (m - (gone + {i})).Keys + {i};
  }

  /** The free list after the indexes of `al` have been freed one after the other. */
  function Pushed(al: seq<int>, fl: seq<int>): seq<int>
    decreases |al|
  {
    if al == [] then fl else Pushed(al[1..], [al[0]] + fl)
  }

  lemma PushedNone(fl: seq<int>)
    ensures Pushed([], fl) == fl
  {
  }

  lemma {:induction false} PushedMore(al: seq<int>, fl: seq<int>, i: int)
    ensures Pushed(al + [i], fl) == [i] + Pushed(al, fl)
    decreases |al|
  {
    if al == [] {
      assert [] + [i] == [i] && [i][1..] == [];
    } else {
      assert (al + [i])[1..] == al[1..] + [i];
      PushedMore(al[1..], [al[0]] + fl, i);
    }
  }

  /**
    `expire_items`: after it exactly the indexes used at `time` or later are left, in both
    structures.  They went oldest first.
   */
  method ExpireItems<K1(==,!new), K2(==,!new), V(0,!new)>(chain: DoubleChain, dmap: DoubleMap<K1, K2, V>, time: u32)
    returns (count: int)
    requires chain.Valid() && dmap.Valid() && chain.Repr !! dmap.Repr
    requires chain.LastUse().Keys == dmap.entries.Keys
    modifies chain.Repr, dmap.Repr
    ensures chain.Valid() && dmap.Valid()
    ensures chain.LastUse() == NotBefore(old(chain.LastUse()), time)
    ensures dmap.entries == Restrict(old(dmap.entries), chain.LastUse().Keys)
    ensures count == |old(chain.LastUse())| - |chain.LastUse()|
    ensures 0 <= count <= |old(chain.chain.al)| && chain.chain.al == old(chain.chain.al)[count..]
    ensures chain.chain.fl == Pushed(old(chain.chain.al)[..count], old(chain.chain.fl))
  {
    hide DoubleChain.Valid, DoubleChain.LastUse, DoubleMap.Valid, Without, Restrict, NotBefore, Pushed;
    count := 0;
    ghost var uses0, entries0, al0, fl0 := chain.LastUse(), dmap.entries, chain.chain.al, chain.chain.fl;
    PushedNone(fl0);
    assert al0[..0] == [];
    ghost var gone: set<int> := {};
    while true
      invariant chain.Valid() && dmap.Valid()
      invariant chain.LastUse() == uses0 - gone && dmap.entries == entries0 - gone
      invariant gone <= uses0.Keys && forall i | i in gone :: uses0[i] < time
      invariant count == |gone|
      invariant 0 <= count <= |al0| && chain.chain.al == al0[count..] && chain.chain.fl == Pushed(al0[..count], fl0)
      decreases |dmap.entries|
    {
      if count < |al0| { chain.HeadFirst(); }
      var ok, index := chain.ExpireOneIndex(time);
      if !ok {
        break;
      }
      MinusOne(uses0, gone, index);
      MinusOne(entries0, gone, index);
      dmap.Erase(index);
      PushedMore(al0[..count], fl0, index);
      assert al0[..count + 1] == al0[..count] + [index];
      count := count + 1;
      gone := gone + {index};
    }
    assert forall i | i in uses0 && i !in gone :: i in chain.LastUse();
    StaleGone(uses0, entries0, gone, time);
  }
}
