/** The array-backed binary min-heap: growth, insertion with a bubble-up that always runs
    to the root, and removal with a sift-down that looks one slot past the live part.
 */
module MinHeap {
  import opened Common

  function Parent(k: int): int {
    (k - 1) / 2
  }

  ghost predicate IsHeap(s: seq<int>) {
    forall k :: 1 <= k < |s| ==> s[Parent(k)] <= s[k]
  }

  /** Heap order everywhere but between `j` and its parent, and across `j`. */
  ghost predicate HeapButUp(s: seq<int>, j: int) {
    && (forall k :: 1 <= k < |s| && k != j ==> s[Parent(k)] <= s[k])
    && (forall k :: 1 <= k < |s| && Parent(k) == j && j >= 1 ==> s[Parent(j)] <= s[k])
  }

  /** Heap order everywhere but between `j` and its children, and across `j`. */
  ghost predicate HeapButDown(s: seq<int>, j: int) {
    && (forall k :: 1 <= k < |s| && Parent(k) != j ==> s[Parent(k)] <= s[k])
    && (forall k :: 1 <= k < |s| && Parent(k) == j && 1 <= j < |s| ==> s[Parent(j)] <= s[k])
  }

  lemma {:induction false} RootIsLeast(s: seq<int>, k: nat)
    requires IsHeap(s) && k < |s|
    ensures s[0] <= s[k]
  {
    if k > 0 {
      RootIsLeast(s, Parent(k));
    }
  }

  lemma AppendedLeaf(s: seq<int>, value: int)
    requires IsHeap(s)
    ensures HeapButUp(s + [value], |s|)
    ensures multiset(s + [value]) == multiset(s) + multiset{value}
  {
  }

  /** One turn of the bubble-up loop, whether or not it swaps. */
  lemma BubbleStep(s: seq<int>, j: nat)
    requires 1 <= j < |s| && HeapButUp(s, j)
    ensures HeapButUp(if s[j] < s[Parent(j)] then Swap(s, j, Parent(j)) else s, Parent(j))
  {
  }

  /** One swap of the sift-down, with the smaller child. */
  lemma SiftStep(s: seq<int>, j: nat, c: nat)
    requires j < |s| && 1 <= c < |s| && Parent(c) == j && s[c] < s[j] && HeapButDown(s, j)
    requires forall k :: 1 <= k < |s| && Parent(k) == j ==> s[c] <= s[k]
    ensures HeapButDown(Swap(s, j, c), c)
  {
  }

  /** What the comparisons of `refactor` select, given that `stale`, the slot behind the
      live part, equals the value being sifted: `index` when that is in place, and
      otherwise the smaller child, which is live. */
  lemma {:induction false} ChosenChild(s: seq<int>, stale: int, index: nat, small: nat)
    requires HeapButDown(s, index) && (index < |s| || index == |s| == 0)
    requires stale == (s + [stale])[index]
    requires small == Choice(s + [stale], index)
    ensures small == index ==> IsHeap(s)
    ensures small != index ==> index < small < |s| && HeapButDown(Swap(s, small, index), small)
  {
    var l, r := index * 2 + 1, index * 2 + 2;
    assert forall k :: 1 <= k && Parent(k) == index ==> k == l || k == r;
    if small != index {
      assert small < |s| && Parent(small) == index;
      SiftStep(s, index, small);
      assert Swap(s, small, index) == Swap(s, index, small);
    }
  }

  /** The comparisons of `refactor`, on the live cells and the one behind them. */
  function Choice(c: seq<int>, index: nat): nat
    requires index < |c|
  {
    var l, r := index * 2 + 1, index * 2 + 2;
    var small := if l < |c| && c[l] < c[index] then l else index;
    if r < |c| && c[r] < c[small] then r else small
  }

  /** The last element moved to the root, and its slot forgotten. */
  function RootDropped(s: seq<int>): seq<int>
    requires s != []
  {
    s[0 := s[|s| - 1]][..|s| - 1]
  }

  lemma {:induction false} DropRoot(s: seq<int>)
    requires IsHeap(s) && s != []
    ensures forall x :: x in s ==> s[0] <= x
    ensures HeapButDown(RootDropped(s), 0)
    ensures multiset(RootDropped(s)) == multiset(s) - multiset{s[0]}
  {
    forall k | 0 <= k < |s| ensures s[0] <= s[k] {
      RootIsLeast(s, k);
    }
    var n, t := |s| - 1, RootDropped(s);
    if n > 0 {
      assert s == [s[0]] + s[1..n] + [s[n]];
      assert t == [s[n]] + s[1..n];
    } else {
      assert s == [s[0]] && t == [];
    }
  }

  class MinHeap {
    var iSize: nat
    var iCapacity: nat
    var pContent: array<int>  // of length 0 where the program has NULL
    ghost var live: seq<int>  // the first iSize cells

    ghost predicate Sized()
      reads this, pContent
    {
      iSize <= iCapacity == pContent.Length && live == pContent[..iSize]
    }

    ghost predicate Valid()
      reads this, pContent
    {
      Sized() && IsHeap(live)
    }

    constructor ()
      ensures Valid() && live == [] && fresh(pContent)
    {
      iSize := 0;
      iCapacity := 0;
      pContent := new int[0];
      live := [];
    }

    /** Make room for one more, keeping the contents. */
    method Reserver()
      requires Sized()
      modifies this
      ensures Sized() && live == old(live) && iSize < iCapacity
      ensures iCapacity == if old(iSize < iCapacity) then old(iCapacity) else 2 * iSize + 1
      ensures pContent == old(pContent) || fresh(pContent)
    {
      if iSize + 1 <= iCapacity {
        return;
      }
      var iCapacityOld := iCapacity;
      iCapacity := 2 * iSize + 1;
      var pContTemp := pContent;
      pContent := new int[iCapacity](_ => 0);
      forall i | 0 <= i < iCapacityOld {
        pContent[i] := pContTemp[i];
      }
    }

    method SwapCells(i: nat, j: nat)
      requires Sized() && i < iSize && j < iSize
      modifies this`live, pContent
      ensures Sized() && live == Swap(old(live), i, j)
      ensures forall k :: iSize <= k < pContent.Length ==> pContent[k] == old(pContent[k])
    {
      pContent[i], pContent[j] := pContent[j], pContent[i];
      live := Swap(live, i, j);
    }

    /** Write behind the live part and take the cell in. */
    method Append(value: int)
      requires Sized() && iSize < iCapacity
      modifies this`iSize, this`live, pContent
      ensures Sized() && live == old(live) + [value]
    {
      pContent[iSize] := value;
      iSize := iSize + 1;
      live := live + [value];
    }

    method AddItem(value: int)
      requires Valid()
      modifies this, pContent
      ensures Valid() && multiset(live) == multiset(old(live)) + multiset{value}
      ensures pContent == old(pContent) || fresh(pContent)
    {
      if iSize + 1 > iCapacity {
        Reserver();
      }
      AppendedLeaf(live, value);
      Append(value);
      BubbleUp();
    }

    /** The loop of `addItem`: up to the root, without stopping where the order holds. */
    method BubbleUp()
      requires Sized() && iSize > 0 && HeapButUp(live, iSize - 1)
      modifies this`live, pContent
      ensures Valid() && multiset(live) == multiset(old(live))
    {
      var j := iSize - 1;
      while j != 0
        invariant 0 <= j < iSize && Sized() && HeapButUp(live, j)
        invariant multiset(live) == multiset(old(live))
      {
        var i := Parent(j);
        BubbleStep(live, j);
        if pContent[j] < pContent[i] {
          SwapCells(j, i);
        }
        j := i;
      }
    }

    /** The comparisons of `refactor`: they reach the slot just past the live part. */
    method SmallestOf(index: nat) returns (small: nat)
      requires Sized() && index <= iSize < iCapacity
      ensures small == Choice(live + [pContent[iSize]], index)
    {
      assert pContent[..iSize + 1] == live + [pContent[iSize]];
      var lChild := index * 2 + 1;
      var rChild := index * 2 + 2;
      small := index;
      if lChild <= iSize && pContent[lChild] < pContent[small] {
        small := lChild;
      }
      if rChild <= iSize && pContent[rChild] < pContent[small] {
        small := rChild;
      }
    }

    /** The sift-down. The slot past the live part still holds the very value being sifted, so the strict
        comparison never selects it. */
    method Refactor(index: nat)
      requires Sized() && iSize < iCapacity && (index < iSize || index == iSize == 0)
      requires HeapButDown(live, index) && pContent[iSize] == pContent[index]
      modifies this`live, pContent
      ensures Valid() && multiset(live) == multiset(old(live)) && pContent[iSize] == old(pContent[iSize])
      decreases iSize - index
    {
      var small := SmallestOf(index);
      ChosenChild(live, pContent[iSize], index, small);
      if small != index {
        SwapCells(small, index);
        assert pContent[small] == live[small] == pContent[iSize];
        Refactor(small);
      }
    }

    /** The least item, which is removed once. */
    method TopItem() returns (top: int)
      requires Valid() && iSize > 0
      modifies this, pContent
      ensures Valid() && pContent == old(pContent)
      ensures top in old(live) && forall x :: x in old(live) ==> top <= x
      ensures multiset(live) == multiset(old(live)) - multiset{top} && iSize == old(iSize) - 1
    {
      top := -1;
      if iSize > 0 {
        top := pContent[0];
      }
      DropRoot(live);
      MoveLastToRoot();
      Refactor(0);
    }

    method MoveLastToRoot()
      requires Sized() && iSize > 0
      modifies this`iSize, this`live, pContent
      ensures Sized() && iSize == old(iSize) - 1 && pContent[iSize] == pContent[0]
      ensures live == RootDropped(old(live))
    {
      pContent[0] := pContent[iSize - 1];
      live := RootDropped(live);
      iSize := iSize - 1;
    }
  }

  // ---------- Adding and draining ----------

  /** `out` is what has come out so far, `live` what is still in. */
  ghost predicate Draining(xs: seq<int>, out: seq<int>, live: seq<int>) {
    && multiset(out) + multiset(live) == multiset(xs)
    && IsSorted(out)
    && forall i, y :: 0 <= i < |out| && y in live ==> out[i] <= y
  }

  lemma {:induction false} DrainStep(xs: seq<int>, out: seq<int>, live: seq<int>, top: int, live': seq<int>)
    requires Draining(xs, out, live) && top in live && forall x :: x in live ==> top <= x
    requires multiset(live') == multiset(live) - multiset{top}
    ensures Draining(xs, out + [top], live')
  {
    forall y | y in live' ensures y in live {
      assert y in multiset(live');
    }
    assert multiset(out + [top]) == multiset(out) + multiset{top};
  }

  /** Any values added one by one come out sorted when the heap is drained. */
  method AddAllThenDrain(xs: seq<int>) returns (out: seq<int>)
    ensures IsSorted(out) && multiset(out) == multiset(xs)
  {
    var heap := new MinHeap();
    for i := 0 to |xs|
      invariant heap.Valid() && fresh(heap) && fresh(heap.pContent)
      invariant multiset(heap.live) == multiset(xs[..i])
    {
      assert xs[..i + 1] == xs[..i] + [xs[i]];
      heap.AddItem(xs[i]);
    }
    assert xs[..|xs|] == xs;
    out := [];
    while heap.iSize > 0
      invariant heap.Valid() && fresh(heap) && fresh(heap.pContent)
      invariant Draining(xs, out, heap.live)
      decreases heap.iSize
    {
      ghost var live := heap.live;
      var top := heap.TopItem();
      DrainStep(xs, out, live, top, heap.live);
      out := out + [top];
    }
    assert heap.live == [];
  }
}
