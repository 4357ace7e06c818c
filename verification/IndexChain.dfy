/**
  The index allocator of double-chain-impl.c.  One array of cells holds two
  lists: a circular doubly linked list of allocated indexes in order of use
  (sentinel cell 0), and a singly linked list of free indexes (sentinel cell 1).
  Index i lives in cell i + 2.
 */
module IndexChain {
  import opened FiniteSets

  const ALLOC_LIST_HEAD := 0
  const FREE_LIST_HEAD := 1
  const INDEX_SHIFT := 2

  datatype Cell = Cell(prev: int, next: int)

  // ---------------------------------------------------------------------------
  // Lists of indexes
  // ---------------------------------------------------------------------------

  function Cut(s: seq<int>, p: int): (t: seq<int>)
    requires 0 <= p < |s|
    ensures |t| == |s| - 1
    ensures Distinct(s) ==> Distinct(t) && s[p] !in t
  {
    s[..p] + s[p + 1..]
  }

  ghost function PositionOf(s: seq<int>, x: int): (p: int)
    requires x in s
    ensures 0 <= p < |s| && s[p] == x
  {
    var p :| 0 <= p < |s| && s[p] == x;
    p
  }

  /** `s` with one occurrence of `x` taken out and the order of the others kept. */
  ghost function Without(s: seq<int>, x: int): seq<int>
  {
    if x in s then Cut(s, PositionOf(s, x)) else s
  }

  // ---------------------------------------------------------------------------
  // Lists threaded through cells
  // ---------------------------------------------------------------------------

  function NextIn(s: seq<int>, k: int, head: int): int
    requires 0 <= k < |s|
  {
    if k == |s| - 1 then head else s[k + 1] + INDEX_SHIFT
  }

  function PrevIn(s: seq<int>, k: int, head: int): int
    requires 0 <= k < |s|
  {
    if k == 0 then head else s[k - 1] + INDEX_SHIFT
  }

  function FirstOf(s: seq<int>, head: int): int
  {
    if s == [] then head else s[0] + INDEX_SHIFT
  }

  function LastOf(s: seq<int>, head: int): int
  {
    if s == [] then head else s[|s| - 1] + INDEX_SHIFT
  }

  predicate Within(c: seq<Cell>, s: seq<int>)
  {
    |c| >= INDEX_SHIFT && forall k | 0 <= k < |s| :: 0 <= s[k] < |c| - INDEX_SHIFT
  }

  predicate AllocLink(c: seq<Cell>, al: seq<int>, k: int)
    requires Within(c, al) && 0 <= k < |al|
  {
    c[al[k] + INDEX_SHIFT] == Cell(PrevIn(al, k, ALLOC_LIST_HEAD), NextIn(al, k, ALLOC_LIST_HEAD))
  }

  /** Following `next` (or `prev`) from the alloc sentinel visits exactly `al` (or its reverse). */
  predicate AllocLinked(c: seq<Cell>, al: seq<int>)
  {
    && Within(c, al)
    && Distinct(al)
    && c[ALLOC_LIST_HEAD] == Cell(LastOf(al, ALLOC_LIST_HEAD), FirstOf(al, ALLOC_LIST_HEAD))
    && forall k | 0 <= k < |al| :: AllocLink(c, al, k)
  }

  predicate FreeLink(c: seq<Cell>, fl: seq<int>, k: int)
    requires Within(c, fl) && 0 <= k < |fl|
  {
    c[fl[k] + INDEX_SHIFT] == Cell(NextIn(fl, k, FREE_LIST_HEAD), NextIn(fl, k, FREE_LIST_HEAD))
  }

  /** Following `next` from the free sentinel visits exactly `fl`; `prev` duplicates `next`. */
  predicate FreeLinked(c: seq<Cell>, fl: seq<int>)
  {
    && Within(c, fl)
    && Distinct(fl)
    && c[FREE_LIST_HEAD] == Cell(FirstOf(fl, FREE_LIST_HEAD), FirstOf(fl, FREE_LIST_HEAD))
    && forall k | 0 <= k < |fl| :: FreeLink(c, fl, k)
  }

  /** Both lists are well linked and every index is on exactly one of them. */
  predicate Threaded(c: seq<Cell>, al: seq<int>, fl: seq<int>)
  {
    && AllocLinked(c, al)
    && FreeLinked(c, fl)
    && forall i | 0 <= i < |c| - INDEX_SHIFT :: (i in al) != (i in fl)
  }

  lemma AllocFrame(c: seq<Cell>, c': seq<Cell>, al: seq<int>)
    requires AllocLinked(c, al) && |c'| == |c|
    requires c'[ALLOC_LIST_HEAD] == c[ALLOC_LIST_HEAD]
    requires forall k | 0 <= k < |al| :: c'[al[k] + INDEX_SHIFT] == c[al[k] + INDEX_SHIFT]
    ensures AllocLinked(c', al)
  {
    forall k | 0 <= k < |al| ensures AllocLink(c', al, k) {
      assert AllocLink(c, al, k);
    }
  }

  lemma FreeFrame(c: seq<Cell>, c': seq<Cell>, fl: seq<int>)
    requires FreeLinked(c, fl) && |c'| == |c|
    requires c'[FREE_LIST_HEAD] == c[FREE_LIST_HEAD]
    requires forall k | 0 <= k < |fl| :: c'[fl[k] + INDEX_SHIFT] == c[fl[k] + INDEX_SHIFT]
    ensures FreeLinked(c', fl)
  {
    forall k | 0 <= k < |fl| ensures FreeLink(c', fl, k) {
      assert FreeLink(c, fl, k);
    }
  }

  // ---------------------------------------------------------------------------
  // The four relinking steps the operations are made of
  // ---------------------------------------------------------------------------

  function SetNext(c: seq<Cell>, i: int, v: int): seq<Cell>
    requires 0 <= i < |c|
  {
    c[i := c[i].(next := v)]
  }

  function SetPrev(c: seq<Cell>, i: int, v: int): seq<Cell>
    requires 0 <= i < |c|
  {
    c[i := c[i].(prev := v)]
  }

  /** Takes cell `x` out of the doubly linked list. */
  function Unlink(c: seq<Cell>, x: int): seq<Cell>
    requires 0 <= x < |c| && 0 <= c[x].prev < |c| && 0 <= c[x].next < |c|
  {
    SetPrev(SetNext(c, c[x].prev, c[x].next), c[x].next, c[x].prev)
  }

  /** Links cell `x` right before the alloc sentinel. */
  function Append(c: seq<Cell>, x: int): seq<Cell>
    requires 0 < x < |c| && 0 <= c[ALLOC_LIST_HEAD].prev < |c|
  {
    var last := c[ALLOC_LIST_HEAD].prev;
    SetPrev(SetNext(SetPrev(SetNext(c, x, ALLOC_LIST_HEAD), x, last), last, x), ALLOC_LIST_HEAD, x)
  }

  function PopFree(c: seq<Cell>): seq<Cell>
    requires |c| > FREE_LIST_HEAD && 0 <= c[FREE_LIST_HEAD].next < |c|
  {
    var second := c[c[FREE_LIST_HEAD].next].next;
    SetPrev(SetNext(c, FREE_LIST_HEAD, second), FREE_LIST_HEAD, second)
  }

  function PushFree(c: seq<Cell>, x: int): seq<Cell>
    requires FREE_LIST_HEAD < x < |c|
  {
    var first := c[FREE_LIST_HEAD].next;
    SetPrev(SetNext(SetPrev(SetNext(c, x, first), x, first), FREE_LIST_HEAD, x), FREE_LIST_HEAD, x)
  }

  lemma UnlinkCell(c: seq<Cell>, x: int, y: int)
    requires 0 <= x < |c| && 0 <= c[x].prev < |c| && 0 <= c[x].next < |c| && 0 <= y < |c|
    ensures Unlink(c, x)[y] == Cell(if y == c[x].next then c[x].prev else c[y].prev,
                                    if y == c[x].prev then c[x].next else c[y].next)
  {
  }

  /** In a list of distinct members, being the neighbour of the p-th one is a matter of position. */
  lemma Neighbours(al: seq<int>, p: int, j: int)
    requires Distinct(al) && 0 <= p < |al| && 0 <= j < |al|
    requires forall k | 0 <= k < |al| :: 0 <= al[k]
    ensures al[j] + INDEX_SHIFT == PrevIn(al, p, ALLOC_LIST_HEAD) <==> j == p - 1
    ensures al[j] + INDEX_SHIFT == NextIn(al, p, ALLOC_LIST_HEAD) <==> j == p + 1
  {
  }

  lemma UnlinkAt(c: seq<Cell>, al: seq<int>, p: int, k: int)
    requires AllocLinked(c, al) && 0 <= p < |al| && 0 <= k < |al| - 1
    requires c[al[p] + INDEX_SHIFT] == Cell(PrevIn(al, p, ALLOC_LIST_HEAD), NextIn(al, p, ALLOC_LIST_HEAD))
    ensures Within(c, Cut(al, p)) && AllocLink(Unlink(c, al[p] + INDEX_SHIFT), Cut(al, p), k)
  {
    var j := if k < p then k else k + 1;
    assert AllocLink(c, al, j);
    UnlinkCell(c, al[p] + INDEX_SHIFT, al[j] + INDEX_SHIFT);
    Neighbours(al, p, j);
  }

  lemma UnlinkLinked(c: seq<Cell>, al: seq<int>, p: int)
    requires AllocLinked(c, al) && 0 <= p < |al|
    ensures var x := al[p] + INDEX_SHIFT;
      && 0 <= c[x].prev < |c| && 0 <= c[x].next < |c|
      && AllocLinked(Unlink(c, x), Cut(al, p))
      && Unlink(c, x)[FREE_LIST_HEAD] == c[FREE_LIST_HEAD]
      && forall i | 0 <= i < |c| - INDEX_SHIFT && i !in al :: Unlink(c, x)[i + INDEX_SHIFT] == c[i + INDEX_SHIFT]
  {
    assert AllocLink(c, al, p);
    var c', al' := Unlink(c, al[p] + INDEX_SHIFT), Cut(al, p);
    assert Within(c', al');
    forall k | 0 <= k < |al'| ensures AllocLink(c', al', k) {
      UnlinkAt(c, al, p, k);
    }
  }

  lemma AppendLinked(c: seq<Cell>, al: seq<int>, i: int)
    requires AllocLinked(c, al) && 0 <= i < |c| - INDEX_SHIFT && i !in al
    ensures var x := i + INDEX_SHIFT;
      && AllocLinked(Append(c, x), al + [i])
      && Append(c, x)[FREE_LIST_HEAD] == c[FREE_LIST_HEAD]
      && forall j | 0 <= j < |c| - INDEX_SHIFT && j !in al && j != i ::
           Append(c, x)[j + INDEX_SHIFT] == c[j + INDEX_SHIFT]
  {
    var c' := Append(c, i + INDEX_SHIFT);
    var al' := al + [i];
    forall k | 0 <= k < |al'| ensures AllocLink(c', al', k) {
      if k < |al| { assert AllocLink(c, al, k); }
    }
  }

  lemma PopFreeLinked(c: seq<Cell>, fl: seq<int>)
    requires FreeLinked(c, fl) && fl != []
    ensures FreeLinked(PopFree(c), fl[1..])
    ensures forall x | 0 <= x < |c| && x != FREE_LIST_HEAD :: PopFree(c)[x] == c[x]
  {
    assert FreeLink(c, fl, 0);
    var c' := PopFree(c);
    forall k | 0 <= k < |fl[1..]| ensures FreeLink(c', fl[1..], k) {
      assert FreeLink(c, fl, k + 1);
    }
  }

  lemma PushFreeLinked(c: seq<Cell>, fl: seq<int>, i: int)
    requires FreeLinked(c, fl) && 0 <= i < |c| - INDEX_SHIFT && i !in fl
    ensures FreeLinked(PushFree(c, i + INDEX_SHIFT), [i] + fl)
    ensures forall x | 0 <= x < |c| && x != FREE_LIST_HEAD && x != i + INDEX_SHIFT ::
              PushFree(c, i + INDEX_SHIFT)[x] == c[x]
  {
    var c' := PushFree(c, i + INDEX_SHIFT);
    var fl' := [i] + fl;
    forall k | 0 <= k < |fl'| ensures FreeLink(c', fl', k) {
      if k > 0 { assert FreeLink(c, fl, k - 1); }
    }
  }

  // ---------------------------------------------------------------------------
  // Facts about every threaded array
  // ---------------------------------------------------------------------------

  /** The local test "next == prev, and not the alloc sentinel" singles out the free indexes. */
  predicate LooksFree(cell: Cell)
  {
    cell.next == cell.prev && cell.prev != ALLOC_LIST_HEAD
  }

  lemma LooksFreeIsFree(c: seq<Cell>, al: seq<int>, fl: seq<int>, i: int)
    requires Threaded(c, al, fl) && 0 <= i < |c| - INDEX_SHIFT
    ensures LooksFree(c[i + INDEX_SHIFT]) <==> i in fl
    ensures i in al && c[i + INDEX_SHIFT].next == c[i + INDEX_SHIFT].prev <==> al == [i]
    ensures (i in al) != (i in fl)
  {
    if i in fl {
      var k :| 0 <= k < |fl| && fl[k] == i;
      assert FreeLink(c, fl, k);
    } else {
      var k :| 0 <= k < |al| && al[k] == i;
      assert AllocLink(c, al, k);
    }
  }

  lemma WithoutOnly(i: int)
    ensures Without([i], i) + [i] == [i]
  {
    assert i in [i];
  }

  /** The cells alone determine both lists. */
  lemma ThreadedUnique(c: seq<Cell>, al: seq<int>, fl: seq<int>, al': seq<int>, fl': seq<int>)
    requires Threaded(c, al, fl) && Threaded(c, al', fl')
    ensures al == al' && fl == fl'
  {
    AllocPrefix(c, al, al', |al|);
    AllocPrefix(c, al', al, |al'|);
    FreePrefix(c, fl, fl', |fl|);
    FreePrefix(c, fl', fl, |fl'|);
  }

  lemma {:induction false} AllocPrefix(c: seq<Cell>, al: seq<int>, al': seq<int>, n: int)
    requires AllocLinked(c, al) && AllocLinked(c, al') && 0 <= n <= |al|
    ensures n <= |al'| && al[..n] == al'[..n]
  {
    if n > 0 {
      AllocPrefix(c, al, al', n - 1);
      if n > 1 {
        assert AllocLink(c, al, n - 2) && AllocLink(c, al', n - 2);
        assert al[n - 2] == al[..n - 1][n - 2] == al'[n - 2];
      }
      assert al[..n] == al[..n - 1] + [al[n - 1]];
      assert al'[..n] == al'[..n - 1] + [al'[n - 1]];
    }
  }

  lemma {:induction false} FreePrefix(c: seq<Cell>, fl: seq<int>, fl': seq<int>, n: int)
    requires FreeLinked(c, fl) && FreeLinked(c, fl') && 0 <= n <= |fl|
    ensures n <= |fl'| && fl[..n] == fl'[..n]
  {
    if n > 0 {
      FreePrefix(c, fl, fl', n - 1);
      if n > 1 {
        assert FreeLink(c, fl, n - 2) && FreeLink(c, fl', n - 2);
        assert fl[n - 2] == fl[..n - 1][n - 2] == fl'[n - 2];
      }
      assert fl[..n] == fl[..n - 1] + [fl[n - 1]];
      assert fl'[..n] == fl'[..n - 1] + [fl'[n - 1]];
    }
  }

  lemma Apart(c: seq<Cell>, al: seq<int>, fl: seq<int>)
    requires Threaded(c, al, fl)
    ensures forall k | 0 <= k < |al| :: al[k] !in fl
    ensures forall k | 0 <= k < |fl| :: fl[k] !in al
  {
    assert forall k | 0 <= k < |al| :: al[k] in al;
    assert forall k | 0 <= k < |fl| :: fl[k] in fl;
  }

  /** Every index is on one of the two lists, so together they are as long as the range. */
  lemma ThreadedLengths(c: seq<Cell>, al: seq<int>, fl: seq<int>)
    requires Threaded(c, al, fl)
    ensures |al| + |fl| == |c| - INDEX_SHIFT
  {
    var both := al + fl;
    Apart(c, al, fl);
    assert Distinct(both);
    DistinctCover(both, |c| - INDEX_SHIFT);
  }

  /** A list of distinct numbers that is exactly [0, n) has n members. */
  lemma {:induction false} DistinctCover(s: seq<int>, n: int)
    requires n >= 0 && Distinct(s)
    requires forall i :: i in s <==> 0 <= i < n
    ensures |s| == n
  {
    if n == 0 {
      assert forall k | 0 <= k < |s| :: s[k] in s;
    } else {
      assert n - 1 in s;
      var p :| 0 <= p < |s| && s[p] == n - 1;
      var t := Cut(s, p);
      forall i | 0 <= i < n - 1 ensures i in t {
        assert i in s;
        var k :| 0 <= k < |s| && s[k] == i;
        assert t[if k < p then k else k - 1] == i;
      }
      forall i | i in t ensures 0 <= i < n - 1 {
        var k :| 0 <= k < |t| && t[k] == i;
        assert t[k] in s;
      }
      DistinctCover(t, n - 1);
    }
  }

  lemma AllocateThreaded(c: seq<Cell>, al: seq<int>, fl: seq<int>)
    requires Threaded(c, al, fl) && fl != []
    ensures c[FREE_LIST_HEAD].next == fl[0] + INDEX_SHIFT && fl[0] !in al
    ensures 0 <= c[ALLOC_LIST_HEAD].prev < |c|
    ensures Threaded(Append(PopFree(c), fl[0] + INDEX_SHIFT), al + [fl[0]], fl[1..])
  {
    Apart(c, al, fl);
    var c1 := PopFree(c);
    PopFreeLinked(c, fl);
    AllocFrame(c, c1, al);
    AppendLinked(c1, al, fl[0]);
    var c2 := Append(c1, fl[0] + INDEX_SHIFT);
    FreeFrame(c1, c2, fl[1..]);
    forall i | 0 <= i < |c| - INDEX_SHIFT ensures (i in al + [fl[0]]) != (i in fl[1..]) {
      assert (i in al) != (i in fl);
      assert fl == [fl[0]] + fl[1..];
      if i in fl[1..] { var k :| 0 <= k < |fl[1..]| && fl[1..][k] == i; assert fl[k + 1] == i; }
    }
  }

  lemma CutMembers(s: seq<int>, p: int, i: int)
    requires 0 <= p < |s| && Distinct(s)
    ensures i in Cut(s, p) <==> i in s && i != s[p]
  {
    assert s == s[..p] + [s[p]] + s[p + 1..];
  }

  /** Moving the p-th allocated index to the free list, or to the newest end, keeps the partition. */
  lemma CutPartition(c: seq<Cell>, al: seq<int>, fl: seq<int>, p: int)
    requires Threaded(c, al, fl) && 0 <= p < |al|
    ensures forall k | 0 <= k < |fl| :: fl[k] !in al && fl[k] !in Cut(al, p)
    ensures al[p] !in fl
    ensures forall j | 0 <= j < |c| - INDEX_SHIFT :: (j in Cut(al, p)) != (j in [al[p]] + fl)
    ensures forall j | 0 <= j < |c| - INDEX_SHIFT :: (j in Cut(al, p) + [al[p]]) != (j in fl)
  {
    Apart(c, al, fl);
    forall j ensures j in Cut(al, p) <==> j in al && j != al[p] {
      CutMembers(al, p, j);
    }
  }

  lemma FreeCut(c: seq<Cell>, al: seq<int>, fl: seq<int>, p: int)
    requires Threaded(c, al, fl) && 0 <= p < |al|
    ensures var x := al[p] + INDEX_SHIFT;
      && 0 <= c[x].prev < |c| && 0 <= c[x].next < |c|
      && Threaded(PushFree(Unlink(c, x), x), Cut(al, p), [al[p]] + fl)
  {
    CutPartition(c, al, fl, p);
    var x := al[p] + INDEX_SHIFT;
    UnlinkLinked(c, al, p);
    var c1 := Unlink(c, x);
    FreeFrame(c, c1, fl);
    PushFreeLinked(c1, fl, al[p]);
    AllocFrame(c1, PushFree(c1, x), Cut(al, p));
  }

  lemma RejuvenateCut(c: seq<Cell>, al: seq<int>, fl: seq<int>, p: int)
    requires Threaded(c, al, fl) && 0 <= p < |al|
    ensures var x := al[p] + INDEX_SHIFT;
      && 0 <= c[x].prev < |c| && 0 <= c[x].next < |c|
      && 0 <= Unlink(c, x)[ALLOC_LIST_HEAD].prev < |c|
      && Threaded(Append(Unlink(c, x), x), Cut(al, p) + [al[p]], fl)
  {
    CutPartition(c, al, fl, p);
    var x := al[p] + INDEX_SHIFT;
    UnlinkLinked(c, al, p);
    var c1 := Unlink(c, x);
    FreeFrame(c, c1, fl);
    AppendLinked(c1, Cut(al, p), al[p]);
    FreeFrame(c1, Append(c1, x), fl);
  }

  lemma FreeThreaded(c: seq<Cell>, al: seq<int>, fl: seq<int>, i: int)
    requires Threaded(c, al, fl) && i in al
    ensures var x := i + INDEX_SHIFT;
      && x < |c| && 0 <= c[x].prev < |c| && 0 <= c[x].next < |c|
      && Threaded(PushFree(Unlink(c, x), x), Without(al, i), [i] + fl)
  {
    FreeCut(c, al, fl, PositionOf(al, i));
  }

  lemma RejuvenateThreaded(c: seq<Cell>, al: seq<int>, fl: seq<int>, i: int)
    requires Threaded(c, al, fl) && i in al
    ensures var x := i + INDEX_SHIFT;
      && x < |c| && 0 <= c[x].prev < |c| && 0 <= c[x].next < |c|
      && 0 <= Unlink(c, x)[ALLOC_LIST_HEAD].prev < |c|
      && Threaded(Append(Unlink(c, x), x), Without(al, i) + [i], fl)
  {
    RejuvenateCut(c, al, fl, PositionOf(al, i));
  }

  // ---------------------------------------------------------------------------
  // The allocator
  // ---------------------------------------------------------------------------

  class Chain {
    const cells: array<Cell>
    ghost var al: seq<int>  // allocated indexes, least recently used first
    ghost var fl: seq<int>  // free indexes, next to be handed out first

    ghost predicate Valid()
      reads this, cells
    {
      Threaded(cells[..], al, fl)
    }

    ghost function IndexRange(): int
    {
      cells.Length - INDEX_SHIFT
    }

    /** `dchain_impl_init` */
    constructor (size: int)
      requires 0 < size
      ensures fresh(cells) && IndexRange() == size
      ensures Valid() && al == [] && |fl| == size && forall k | 0 <= k < size :: fl[k] == k
    {
      cells := new Cell[size + INDEX_SHIFT];
      new;
      cells[ALLOC_LIST_HEAD] := cells[ALLOC_LIST_HEAD].(prev := 0);
      cells[ALLOC_LIST_HEAD] := cells[ALLOC_LIST_HEAD].(next := 0);
      var i := INDEX_SHIFT;
      cells[FREE_LIST_HEAD] := cells[FREE_LIST_HEAD].(next := i);
      cells[FREE_LIST_HEAD] := cells[FREE_LIST_HEAD].(prev := cells[FREE_LIST_HEAD].next);
      while i < size + INDEX_SHIFT - 1
        invariant INDEX_SHIFT <= i <= size + INDEX_SHIFT - 1
        invariant cells[ALLOC_LIST_HEAD] == Cell(0, 0)
        invariant cells[FREE_LIST_HEAD] == Cell(INDEX_SHIFT, INDEX_SHIFT)
        invariant forall j | INDEX_SHIFT <= j < i :: cells[j] == Cell(j + 1, j + 1)
      {
        cells[i] := cells[i].(next := i + 1);
        cells[i] := cells[i].(prev := cells[i].next);
        i := i + 1;
      }
      cells[i] := cells[i].(next := FREE_LIST_HEAD);
      cells[i] := cells[i].(prev := cells[i].next);
      al := [];
      fl := seq(size, k => k);
      forall j | 0 <= j < size ensures j !in al && j in fl {
        assert fl[j] == j;
      }
      assert forall k | 0 <= k < size :: FreeLink(cells[..], fl, k);
    }

    /** `dchain_impl_allocate_new_index`: hands out the head of the free list as the newest index. */
    method AllocateNewIndex() returns (ok: bool, index: int)
      requires Valid()
      modifies this, cells
      ensures Valid()
      ensures ok <==> |old(al)| < IndexRange()
      ensures ok ==> 0 <= index < IndexRange() && index !in old(al) && al == old(al) + [index]
      ensures ok ==> old(fl) == [index] + fl
      ensures !ok ==> al == old(al) && fl == old(fl) == []
    {
      ghost var c := cells[..];
      ThreadedLengths(c, al, fl);
      var taken := cells[FREE_LIST_HEAD].next;
      if taken == FREE_LIST_HEAD {
        return false, -1;
      }
      AllocateThreaded(c, al, fl);
      cells[FREE_LIST_HEAD] := cells[FREE_LIST_HEAD].(next := cells[taken].next);
      cells[FREE_LIST_HEAD] := cells[FREE_LIST_HEAD].(prev := cells[FREE_LIST_HEAD].next);
      assert cells[..] == PopFree(c);

      cells[taken] := cells[taken].(next := ALLOC_LIST_HEAD);
      cells[taken] := cells[taken].(prev := cells[ALLOC_LIST_HEAD].prev);
      var allocHeadPrev := cells[ALLOC_LIST_HEAD].prev;
      cells[allocHeadPrev] := cells[allocHeadPrev].(next := taken);
      cells[ALLOC_LIST_HEAD] := cells[ALLOC_LIST_HEAD].(prev := taken);
      index := taken - INDEX_SHIFT;
      assert cells[..] == Append(PopFree(c), taken);
      al, fl := al + [index], fl[1..];
      return true, index;
    }

    /** `dchain_impl_free_index` */
    method FreeIndex(index: int) returns (ok: bool)
      requires Valid() && 0 <= index < IndexRange()
      modifies this, cells
      ensures Valid()
      ensures ok <==> index in old(al)
      ensures ok ==> al == Without(old(al), index) && fl == [index] + old(fl)
      ensures !ok ==> al == old(al) && fl == old(fl)
    {
      hide Threaded, Without;
      ghost var c := cells[..];
      LooksFreeIsFree(c, al, fl, index);
      var freed := index + INDEX_SHIFT;
      var freedPrev := cells[freed].prev;
      var freedNext := cells[freed].next;
      if freedNext == freedPrev {
        if freedPrev != ALLOC_LIST_HEAD {
          return false;
        }
      }
      FreeThreaded(c, al, fl, index);
      cells[freedPrev] := cells[freedPrev].(next := freedNext);
      assert cells[..] == SetNext(c, freedPrev, freedNext);
      cells[freedNext] := cells[freedNext].(prev := freedPrev);
      assert cells[..] == Unlink(c, freed);

      cells[freed] := cells[freed].(next := cells[FREE_LIST_HEAD].next);
      cells[freed] := cells[freed].(prev := cells[freed].next);
      cells[FREE_LIST_HEAD] := cells[FREE_LIST_HEAD].(next := freed);
      cells[FREE_LIST_HEAD] := cells[FREE_LIST_HEAD].(prev := cells[FREE_LIST_HEAD].next);
      assert cells[..] == PushFree(Unlink(c, freed), freed);
      al, fl := Without(al, index), [index] + fl;
      return true;
    }

    /** `dchain_impl_get_oldest_index` */
    method GetOldestIndex() returns (ok: bool, index: int)
      requires Valid()
      ensures ok <==> al != []
      ensures ok ==> index == al[0] && 0 <= index < IndexRange()
    {
      if cells[ALLOC_LIST_HEAD].next == cells[ALLOC_LIST_HEAD].prev {
        if cells[ALLOC_LIST_HEAD].next == ALLOC_LIST_HEAD {
          return false, -1;
        }
      }
      return true, cells[ALLOC_LIST_HEAD].next - INDEX_SHIFT;
    }

    /** `dchain_impl_rejuvenate_index`: moves an allocated index to the newest end. */
    method RejuvenateIndex(index: int) returns (ok: bool)
      requires Valid() && 0 <= index < IndexRange()
      modifies this, cells
      ensures Valid()
      ensures ok <==> index in old(al)
      ensures ok ==> al == Without(old(al), index) + [index]
      ensures !ok ==> al == old(al)
      ensures fl == old(fl)
    {
      hide Threaded, Without;
      ghost var c := cells[..];
      LooksFreeIsFree(c, al, fl, index);
      WithoutOnly(index);
      var lifted := index + INDEX_SHIFT;
      var liftedNext := cells[lifted].next;
      var liftedPrev := cells[lifted].prev;
      if liftedNext == liftedPrev {
        if liftedNext != ALLOC_LIST_HEAD {
          return false;
        } else {
          return true;
        }
      }
      RejuvenateThreaded(c, al, fl, index);
      cells[liftedPrev] := cells[liftedPrev].(next := liftedNext);
      assert cells[..] == SetNext(c, liftedPrev, liftedNext);
      cells[liftedNext] := cells[liftedNext].(prev := liftedPrev);
      assert cells[..] == Unlink(c, lifted);

      var alHeadPrev := cells[ALLOC_LIST_HEAD].prev;
      cells[lifted] := cells[lifted].(next := ALLOC_LIST_HEAD);
      cells[lifted] := cells[lifted].(prev := alHeadPrev);
      cells[alHeadPrev] := cells[alHeadPrev].(next := lifted);
      cells[ALLOC_LIST_HEAD] := cells[ALLOC_LIST_HEAD].(prev := lifted);
      assert cells[..] == Append(Unlink(c, lifted), lifted);
      al := Without(al, index) + [index];
      return true;
    }
  }
}
