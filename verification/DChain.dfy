/**
  double-chain.c: the index allocator with a timestamp per index.  Timestamps
  stay sorted along the list of allocated indexes, so looking at its head tells
  whether anything has expired.
 */
module DChain {
  import opened Words
  import opened FiniteSets
  import opened IndexChain

  /** Distinct indexes within the range, with timestamps that never decrease along the list. */
  predicate Ordered(al: seq<int>, stamps: seq<u32>)
  {
    && Distinct(al)
    && (forall k | 0 <= k < |al| :: 0 <= al[k] < |stamps|)
    && (forall i, j | 0 <= i < j < |al| :: stamps[al[i]] <= stamps[al[j]])
  }

  /** When each listed index was last used. */
  ghost function Uses(al: seq<int>, stamps: seq<u32>): (m: map<int, u32>)
    requires forall k | 0 <= k < |al| :: 0 <= al[k] < |stamps|
  {
    map i | i in al :: stamps[i]
  }

  predicate NoneAfter(uses: map<int, u32>, time: u32)
  {
    forall i | i in uses :: uses[i] <= time
  }

  lemma CutOrdered(al: seq<int>, stamps: seq<u32>, p: int)
    requires Ordered(al, stamps) && 0 <= p < |al|
    ensures Ordered(Cut(al, p), stamps)
  {
    var t := Cut(al, p);
    forall i, j | 0 <= i < j < |t|
      ensures 0 <= t[i] < |stamps| && 0 <= t[j] < |stamps| && stamps[t[i]] <= stamps[t[j]]
    {
      var i', j' := if i < p then i else i + 1, if j < p then j else j + 1;
      assert t[i] == al[i'] && t[j] == al[j'];
    }
    forall k | 0 <= k < |t| ensures 0 <= t[k] < |stamps| {
      assert t[k] == al[if k < p then k else k + 1];
    }
  }

  lemma CutUses(al: seq<int>, stamps: seq<u32>, p: int)
    requires Ordered(al, stamps) && 0 <= p < |al| && Ordered(Cut(al, p), stamps)
    ensures Uses(Cut(al, p), stamps) == Uses(al, stamps) - {al[p]}
  {
    var t := Cut(al, p);
    var m, m' := Uses(al, stamps) - {al[p]}, Uses(t, stamps);
    forall i ensures i in m <==> i in m' {
      CutMembers(al, p, i);
    }
  }

  lemma WithoutOrdered(al: seq<int>, stamps: seq<u32>, x: int)
    requires Ordered(al, stamps)
    ensures Ordered(Without(al, x), stamps) && x !in Without(al, x)
    ensures Uses(Without(al, x), stamps) == Uses(al, stamps) - {x}
  {
    if x in al {
      CutOrdered(al, stamps, PositionOf(al, x));
      CutUses(al, stamps, PositionOf(al, x));
    }
  }

  lemma AppendOrdered(al: seq<int>, stamps: seq<u32>, index: int, time: u32)
    requires Ordered(al, stamps) && 0 <= index < |stamps| && index !in al
    requires NoneAfter(Uses(al, stamps), time)
    ensures Ordered(al + [index], stamps[index := time])
    ensures Uses(al + [index], stamps[index := time]) == Uses(al, stamps)[index := time]
  {
    assert forall k | 0 <= k < |al| :: al[k] in al && al[k] in Uses(al, stamps);
  }

  /** Using an index, new or listed, at the newest time yet. */
  lemma UsedLast(al: seq<int>, stamps: seq<u32>, index: int, time: u32)
    requires Ordered(al, stamps) && 0 <= index < |stamps|
    requires NoneAfter(Uses(al, stamps), time)
    ensures Ordered(Without(al, index) + [index], stamps[index := time])
    ensures Uses(Without(al, index) + [index], stamps[index := time]) == Uses(al, stamps)[index := time]
  {
    WithoutOrdered(al, stamps, index);
    AppendOrdered(Without(al, index), stamps, index, time);
  }

  lemma HeadOut(al: seq<int>)
    requires Distinct(al) && al != []
    ensures Without(al, al[0]) == al[1..]
  {
    assert PositionOf(al, al[0]) == 0;
  }

  /** The head is the oldest: if it is not older than some time, nothing is. */
  lemma HeadIsOldest(al: seq<int>, stamps: seq<u32>)
    requires Ordered(al, stamps) && al != []
    ensures al[0] in Uses(al, stamps) && Uses(al, stamps)[al[0]] == stamps[al[0]]
    ensures forall i | i in Uses(al, stamps) :: stamps[al[0]] <= Uses(al, stamps)[i]
  {
    forall i | i in al ensures stamps[al[0]] <= stamps[i] {
      var k :| 0 <= k < |al| && al[k] == i;
    }
  }

  lemma UsesMembers(al: seq<int>, stamps: seq<u32>)
    requires Ordered(al, stamps)
    ensures |Uses(al, stamps)| == |al| && forall i :: i in Uses(al, stamps) <==> i in al
  {
    DistinctSize(al);
    assert Uses(al, stamps).Keys == set x | x in al;
  }

  lemma WithoutNone(al: seq<int>, x: int)
    requires x !in al
    ensures Without(al, x) == al
  {
  }

  class DoubleChain {
    const chain: Chain
    const timestamps: array<u32>

    ghost const Repr: set<object> := {chain, chain.cells, timestamps}

    ghost predicate Valid()
      reads Repr
    {
      && chain.Valid()
      && timestamps.Length == chain.IndexRange()
      && Ordered(chain.al, timestamps[..])
    }

    ghost function IndexRange(): int
    {
      chain.IndexRange()
    }

    /** The allocated indexes and when each was last used. */
    ghost function LastUse(): map<int, u32>
      reads Repr
      requires Valid()
    {
      Uses(chain.al, timestamps[..])
    }

    lemma HeadFirst()
      requires Valid() && chain.al != []
      ensures Without(chain.al, chain.al[0]) == chain.al[1..]
    {
      HeadOut(chain.al);
    }

    /** `dchain_allocate` */
    constructor (indexRange: int)
      requires 0 < indexRange
      ensures Valid() && fresh(Repr) && IndexRange() == indexRange
      ensures LastUse() == map[] && chain.al == []
      ensures |chain.fl| == indexRange && forall k | 0 <= k < indexRange :: chain.fl[k] == k
    {
      chain := new Chain(indexRange);
      timestamps := new u32[indexRange];
    }

    /** `dchain_allocate_new_index` */
    method AllocateNewIndex(time: u32) returns (ok: bool, index: int)
      requires Valid() && NoneAfter(LastUse(), time)
      modifies Repr
      ensures Valid()
      ensures ok <==> |old(LastUse())| < IndexRange()
      ensures ok ==> 0 <= index < IndexRange() && index !in old(LastUse())
      ensures ok ==> LastUse() == old(LastUse())[index := time] && chain.al == old(chain.al) + [index]
      ensures ok ==> old(chain.fl) == [index] + chain.fl
      ensures !ok ==> LastUse() == old(LastUse()) && chain.al == old(chain.al) && chain.fl == old(chain.fl) == []
    {
      hide Threaded, Ordered, Uses, Without;
      ghost var al, stamps := chain.al, timestamps[..];
      UsesMembers(al, stamps);
      ok, index := chain.AllocateNewIndex();
      if ok {
        WithoutNone(al, index);
        UsedLast(al, stamps, index, time);
        timestamps[index] := time;
        assert timestamps[..] == stamps[index := time];
      }
    }

    /** `dchain_rejuvenate_index` */
    method RejuvenateIndex(index: int, time: u32) returns (ok: bool)
      requires Valid() && NoneAfter(LastUse(), time) && 0 <= index < IndexRange()
      modifies Repr
      ensures Valid()
      ensures ok <==> index in old(LastUse())
      ensures ok ==> LastUse() == old(LastUse())[index := time]
      ensures ok ==> chain.al == Without(old(chain.al), index) + [index]
      ensures !ok ==> LastUse() == old(LastUse()) && chain.al == old(chain.al)
      ensures chain.fl == old(chain.fl)
    {
      hide Threaded, Ordered, Uses, Without;
      ghost var al, stamps := chain.al, timestamps[..];
      UsesMembers(al, stamps);
      ok := chain.RejuvenateIndex(index);
      if ok {
        UsedLast(al, stamps, index, time);
        timestamps[index] := time;
        assert timestamps[..] == stamps[index := time];
      }
    }

    /** `dchain_expire_one_index`: frees the oldest index if anything at all is older than `time`. */
    method ExpireOneIndex(time: u32) returns (ok: bool, index: int)
      requires Valid()
      modifies Repr
      ensures Valid()
      ensures ok <==> exists i :: i in old(LastUse()) && old(LastUse())[i] < time
      ensures ok ==> index in old(LastUse()) && old(LastUse())[index] < time && 0 <= index < IndexRange()
      ensures ok ==> old(chain.al) != [] && index == old(chain.al)[0] && chain.al == Without(old(chain.al), index)
      ensures ok ==> LastUse() == old(LastUse()) - {index} && chain.fl == [index] + old(chain.fl)
      ensures !ok ==> LastUse() == old(LastUse()) && chain.al == old(chain.al) && chain.fl == old(chain.fl)
    {
      hide Threaded, Ordered, Uses, Without;
      ghost var al, stamps := chain.al, timestamps[..];
      UsesMembers(al, stamps);
      var hasInd;
      hasInd, index := chain.GetOldestIndex();
      if hasInd {
        HeadIsOldest(al, stamps);
        if timestamps[index] < time {
          WithoutOrdered(al, stamps, index);
          assert index in LastUse() && LastUse()[index] < time;
          ok := chain.FreeIndex(index);
          assert timestamps[..] == stamps;
          return ok, index;
        }
      }
      return false, index;
    }
  }
}
