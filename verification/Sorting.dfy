/** The three sorting routines. They share one specification, `Sort`; quicksort meets it
    when the values are pairwise distinct, and otherwise its hole-passing partition runs
    forever, which is also proved.
 */
module Sorting {
  import opened Common

  // ---------- The specification ----------

  function InsertSorted(x: int, s: seq<int>): (r: seq<int>)
    ensures |r| == |s| + 1
  {
    if s == [] || x <= s[0] then [x] + s else [s[0]] + InsertSorted(x, s[1..])
  }

  function Sort(s: seq<int>): (r: seq<int>)
    ensures |r| == |s|
  {
    if s == [] then [] else InsertSorted(s[0], Sort(s[1..]))
  }

  lemma {:induction false} SortedBehindLeast(s: seq<int>, t: seq<int>)
    requires s != [] && t == s[1..] && IsSorted(t) && forall x :: x in t ==> s[0] <= x
    ensures IsSorted(s)
  {
    forall i, j | 0 <= i < j < |s| ensures s[i] <= s[j] {
      assert s[j] == t[j - 1] && t[j - 1] in t;
      if i > 0 { assert s[i] == t[i - 1]; }
    }
  }

  lemma {:induction false} Uncons(s: seq<int>)
    requires s != []
    ensures multiset(s) == multiset{s[0]} + multiset(s[1..])
    ensures IsSorted(s) <==> IsSorted(s[1..]) && forall x :: x in s[1..] ==> s[0] <= x
  {
    var t := s[1..];
    assert s == [s[0]] + t;
    if IsSorted(t) && forall x :: x in t ==> s[0] <= x {
      SortedBehindLeast(s, t);
    }
    if IsSorted(s) {
      forall x | x in t ensures s[0] <= x {
        var i :| 0 <= i < |t| && t[i] == x;
        assert s[i + 1] == x;
      }
    }
  }

  lemma {:induction false} SameMembers(s: seq<int>, t: seq<int>)
    requires multiset(s) == multiset(t)
    ensures forall y :: y in s <==> y in t
    ensures |s| == |t|
  {
    assert forall y :: y in s <==> y in multiset(s);
    assert forall y :: y in t <==> y in multiset(t);
    assert |s| == |multiset(s)| && |t| == |multiset(t)|;
  }

  lemma {:induction false} Cons(x: int, s: seq<int>)
    ensures multiset([x] + s) == multiset{x} + multiset(s)
    ensures IsSorted([x] + s) <==> IsSorted(s) && forall y :: y in s ==> x <= y
  {
    Uncons([x] + s);
    assert ([x] + s)[1..] == s;
  }

  lemma {:induction false} InsertSortedSorts(x: int, s: seq<int>)
    requires IsSorted(s)
    ensures IsSorted(InsertSorted(x, s)) && multiset(InsertSorted(x, s)) == multiset(s) + multiset{x}
  {
    if s == [] || x <= s[0] {
      Cons(x, s);
    } else {
      var t := InsertSorted(x, s[1..]);
      InsertSortedSorts(x, s[1..]);
      Uncons(s);
      assert forall y :: y in t ==> s[0] <= y by {
        SameMembers(t, s[1..] + [x]);
      }
      Cons(s[0], t);
    }
  }

  lemma {:induction false} SortSorts(s: seq<int>)
    ensures IsSorted(Sort(s)) && multiset(Sort(s)) == multiset(s)
  {
    if s != [] {
      SortSorts(s[1..]);
      InsertSortedSorts(s[0], Sort(s[1..]));
      Uncons(s);
    }
  }

  lemma {:induction false} SameLeast(s: seq<int>, t: seq<int>)
    requires IsSorted(s) && IsSorted(t) && multiset(s) == multiset(t) && s != [] && t != []
    ensures s[0] == t[0]
  {
    assert s[0] in multiset(t) && t[0] in multiset(s);
  }

  lemma {:induction false} SortedPermutationIsUnique(s: seq<int>, t: seq<int>)
    requires IsSorted(s) && IsSorted(t) && multiset(s) == multiset(t)
    ensures s == t
    decreases |s|
  {
    assert |s| == |multiset(s)| == |multiset(t)| == |t|;
    if s != [] {
      SameLeast(s, t);
      Uncons(s);
      Uncons(t);
      SameRest(s[0], multiset(s[1..]), multiset(t[1..]));
      SortedPermutationIsUnique(s[1..], t[1..]);
      assert s == [s[0]] + s[1..] && t == [t[0]] + t[1..];
    }
  }

  lemma {:induction false} SameRest(x: int, a: multiset<int>, b: multiset<int>)
    requires multiset{x} + a == multiset{x} + b
    ensures a == b
  {
    assert a == multiset{x} + a - multiset{x};
    assert b == multiset{x} + b - multiset{x};
  }

  /** `Sort(s)` is the one sorted rearrangement of `s`. */
  lemma {:induction false} SortIsUnique(s: seq<int>, t: seq<int>)
    ensures t == Sort(s) <==> IsSorted(t) && multiset(t) == multiset(s)
  {
    SortSorts(s);
    if IsSorted(t) && multiset(t) == multiset(s) {
      SortedPermutationIsUnique(t, Sort(s));
    }
  }

  // ---------- Bubble sort and selection sort ----------

  /** From `n` on the cells are in order, and not below any cell before them. */
  ghost predicate TopSorted(s: seq<int>, n: int) {
    forall i, j :: 0 <= i < j < |s| && n <= j ==> s[i] <= s[j]
  }

  method BubbleSort(arr: array<int>)
    modifies arr
    ensures arr[..] == Sort(old(arr[..]))
  {
    var cnt := arr.Length;
    for i := 0 to cnt
      invariant TopSorted(arr[..], cnt - i)
      invariant multiset(arr[..]) == multiset(old(arr[..]))
    {
      for j := 0 to cnt - i - 1
        invariant TopSorted(arr[..], cnt - i)
        invariant forall k :: 0 <= k < j ==> arr[..][k] <= arr[..][j]
        invariant multiset(arr[..]) == multiset(old(arr[..]))
      {
        if arr[j] > arr[j + 1] {
          ghost var s := arr[..];
          arr[j], arr[j + 1] := arr[j + 1], arr[j];
          assert arr[..] == Swap(s, j, j + 1);
        }
      }
    }
    SortIsUnique(old(arr[..]), arr[..]);
  }

  /** Up to `n` the cells are in order, and not above any cell after them. */
  ghost predicate BottomSorted(s: seq<int>, n: int) {
    forall i, j :: 0 <= i < j < |s| && i < n ==> s[i] <= s[j]
  }

  method SelectionSort(arr: array<int>)
    modifies arr
    ensures arr[..] == Sort(old(arr[..]))
  {
    var cnt := arr.Length;
    for i := 0 to cnt
      invariant BottomSorted(arr[..], i)
      invariant multiset(arr[..]) == multiset(old(arr[..]))
    {
      var k := i;
      for j := i + 1 to cnt
        invariant i <= k < j
        invariant forall m :: i <= m < j ==> arr[k] <= arr[m]
      {
        if arr[j] < arr[k] { k := j; }
      }
      if i != k {
        ghost var s := arr[..];
        arr[i], arr[k] := arr[k], arr[i];
        assert arr[..] == Swap(s, i, k);
      }
    }
    SortIsUnique(old(arr[..]), arr[..]);
  }

  // ---------- The partition, round by round ----------

  function ScanDown(s: seq<int>, low: nat, high: nat, flag: int): (h: nat)
    requires low <= high < |s|
    ensures low <= h <= high && (h > low ==> s[h] <= flag)
    ensures forall k :: h < k <= high ==> flag < s[k]
  {
    if low < high && flag < s[high] then ScanDown(s, low, high - 1, flag) else high
  }

  function ScanUp(s: seq<int>, low: nat, high: nat, flag: int): (l: nat)
    requires low <= high < |s|
    ensures low <= l <= high && (l < high ==> s[l] >= flag)
    ensures forall k :: low <= k < l ==> s[k] < flag
    decreases high - low
  {
    if low < high && flag > s[low] then ScanUp(s, low + 1, high, flag) else low
  }

  /** The cells and the two indices; the cell at `low` is the hole the pivot left. */
  datatype St = St(s: seq<int>, low: nat, high: nat)

  predicate InRange(t: St) {
    t.low <= t.high < |t.s|
  }

  /** One turn of the partition's outer loop. */
  function Round(t: St, flag: int): (u: St)
    requires InRange(t)
    ensures InRange(u) && |u.s| == |t.s| && t.low <= u.low && u.high <= t.high
  {
    var h := ScanDown(t.s, t.low, t.high, flag);
    var s1 := t.s[t.low := t.s[h]];
    var l := ScanUp(s1, t.low, h, flag);
    St(s1[h := s1[l]], l, h)
  }

  function Rounds(t: St, flag: int, n: nat): (u: St)
    requires InRange(t)
    ensures InRange(u)
    decreases n
  {
    if n == 0 || t.low >= t.high then t else Rounds(Round(t, flag), flag, n - 1)
  }

  /** No cell between the hole and `high` equals the pivot. */
  ghost predicate PivotOnce(t: St, flag: int)
    requires InRange(t)
  {
    forall k :: t.low < k <= t.high ==> t.s[k] != flag
  }

  /** What each round keeps, for a partition of `o` over [lo, hi]: the cells with the hole
      filled are a rearrangement, and those passed over are on their side. */
  ghost predicate Partitioning(o: seq<int>, lo: nat, hi: nat, t: St, flag: int) {
    && lo <= t.low <= t.high <= hi < |o| == |t.s|
    && multiset(t.s[t.low := flag]) == multiset(o)
    && (forall k :: 0 <= k < |o| && !(lo <= k <= hi) ==> t.s[k] == o[k])
    && (forall k :: lo <= k < t.low ==> t.s[k] < flag)
    && (forall k :: t.high < k <= hi ==> t.s[k] > flag)
  }

  lemma RoundKeepsCells(t: St, flag: int)
    requires InRange(t)
    ensures var u := Round(t, flag); multiset(u.s[u.low := flag]) == multiset(t.s[t.low := flag])
  {
  }

  /** With the pivot's value nowhere else in the range, a round keeps the invariant and
      brings the indices closer. */
  lemma {:induction false} RoundProgresses(o: seq<int>, lo: nat, hi: nat, t: St, flag: int)
    requires Partitioning(o, lo, hi, t, flag) && PivotOnce(t, flag) && t.low < t.high
    ensures var u := Round(t, flag);
      Partitioning(o, lo, hi, u, flag) && PivotOnce(u, flag) && u.high - u.low < t.high - t.low
  {
    RoundKeepsCells(t, flag);
  }

  /** With the pivot's value somewhere else in the range, it stays there. */
  lemma {:induction false} RoundKeepsTwin(t: St, flag: int, k: nat)
    requires InRange(t) && t.low < k <= t.high && t.s[k] == flag
    ensures var u := Round(t, flag); exists j :: u.low < j <= u.high && u.s[j] == flag
  {
    var u := Round(t, flag);
    var h := ScanDown(t.s, t.low, t.high, flag);
    var s1 := t.s[t.low := t.s[h]];
    assert h >= k;
    if t.s[h] == flag {
      assert u.low == t.low && u.s[h] == flag;
    } else {
      assert s1[k] == flag && u.low <= k < h;
      if u.low == k {
        assert u.s[h] == flag;
      } else {
        assert u.s[k] == flag;
      }
    }
  }

  /** Then the loop never ends. */
  lemma {:induction false} TwinRunsForever(t: St, flag: int, k: nat, n: nat)
    requires InRange(t) && t.low < k <= t.high && t.s[k] == flag
    ensures Rounds(t, flag, n).low < Rounds(t, flag, n).high
    decreases n
  {
    if n > 0 {
      RoundKeepsTwin(t, flag, k);
      var u := Round(t, flag);
      var j :| u.low < j <= u.high && u.s[j] == flag;
      TwinRunsForever(u, flag, j, n - 1);
    }
  }

  /** The state in which the loop ends. */
  ghost function Settle(o: seq<int>, lo: nat, hi: nat, t: St, flag: int): (u: St)
    requires Partitioning(o, lo, hi, t, flag) && PivotOnce(t, flag)
    ensures lo <= u.low <= hi && |u.s| == |o|
    decreases t.high - t.low
  {
    if t.low < t.high then
      RoundProgresses(o, lo, hi, t, flag);
      Settle(o, lo, hi, Round(t, flag), flag)
    else t
  }

  lemma {:induction false} SettlePartitions(o: seq<int>, lo: nat, hi: nat, t: St, flag: int)
    requires Partitioning(o, lo, hi, t, flag) && PivotOnce(t, flag)
    ensures var u := Settle(o, lo, hi, t, flag); Partitioning(o, lo, hi, u, flag) && u.low == u.high
    decreases t.high - t.low
  {
    if t.low < t.high {
      RoundProgresses(o, lo, hi, t, flag);
      SettlePartitions(o, lo, hi, Round(t, flag), flag);
    }
  }

  lemma {:induction false} SettleIsRounds(o: seq<int>, lo: nat, hi: nat, t: St, flag: int) returns (n: nat)
    requires Partitioning(o, lo, hi, t, flag) && PivotOnce(t, flag)
    ensures Rounds(t, flag, n) == Settle(o, lo, hi, t, flag)
    ensures Rounds(t, flag, n).low == Rounds(t, flag, n).high
    decreases t.high - t.low
  {
    SettlePartitions(o, lo, hi, t, flag);
    if t.low < t.high {
      RoundProgresses(o, lo, hi, t, flag);
      n := SettleIsRounds(o, lo, hi, Round(t, flag), flag);
      n := n + 1;
    } else {
      n := 0;
    }
  }

  ghost predicate Stops(t: St, flag: int)
    requires InRange(t)
  {
    exists n :: Rounds(t, flag, n).low >= Rounds(t, flag, n).high
  }

  lemma PartitionStarts(s: seq<int>, low: nat, high: nat)
    requires low <= high < |s|
    ensures Partitioning(s, low, high, St(s, low, high), s[low])
  {
  }

  /** The partition ends exactly when the pivot's value occurs once in the range. */
  lemma {:induction false} PartitionStopsIffPivotOnce(s: seq<int>, low: nat, high: nat)
    requires low <= high < |s|
    ensures Stops(St(s, low, high), s[low]) <==> PivotOnce(St(s, low, high), s[low])
  {
    var t, flag := St(s, low, high), s[low];
    if PivotOnce(t, flag) {
      PartitionStarts(s, low, high);
      var n := SettleIsRounds(s, low, high, t, flag);
      assert Rounds(t, flag, n).low >= Rounds(t, flag, n).high;
    } else {
      var k :| t.low < k <= t.high && t.s[k] == flag;
      forall n: nat ensures Rounds(t, flag, n).low < Rounds(t, flag, n).high {
        TwinRunsForever(t, flag, k, n);
      }
    }
  }

  /** The array after the partition, and where the pivot went. */
  ghost function Partition(s: seq<int>, low: nat, high: nat): (r: (seq<int>, nat))
    requires low <= high < |s| && PivotOnce(St(s, low, high), s[low])
    ensures |r.0| == |s| && low <= r.1 <= high
  {
    PartitionStarts(s, low, high);
    var u := Settle(s, low, high, St(s, low, high), s[low]);
    (u.s[u.low := s[low]], u.low)
  }

  /** `f` is `s` with the range rearranged around the pivot at `p`. */
  ghost predicate SplitAt(s: seq<int>, low: nat, high: nat, f: seq<int>, p: nat) {
    && low <= p <= high < |s| == |f| && multiset(f) == multiset(s)
    && (forall k :: 0 <= k < |s| && !(low <= k <= high) ==> f[k] == s[k])
    && (forall k :: low <= k < p ==> f[k] < f[p])
    && (forall k :: p < k <= high ==> f[k] > f[p])
  }

  lemma {:induction false} PartitionSplits(s: seq<int>, low: nat, high: nat)
    requires low <= high < |s| && PivotOnce(St(s, low, high), s[low])
    ensures var (f, p) := Partition(s, low, high); SplitAt(s, low, high, f, p) && f[p] == s[low]
  {
    PartitionStarts(s, low, high);
    SettlePartitions(s, low, high, St(s, low, high), s[low]);
  }

  /** The two inner loops of the partition. */
  method MoveDown(arr: array<int>, low: nat, high0: nat, flag: int) returns (high: nat)
    requires low <= high0 < arr.Length
    ensures high == ScanDown(arr[..], low, high0, flag)
  {
    high := high0;
    while low < high && flag < arr[high]
      invariant low <= high < arr.Length
      invariant ScanDown(arr[..], low, high, flag) == ScanDown(arr[..], low, high0, flag)
    {
      high := high - 1;
    }
  }

  method MoveUp(arr: array<int>, low0: nat, high: nat, flag: int) returns (low: nat)
    requires low0 <= high < arr.Length
    ensures low == ScanUp(arr[..], low0, high, flag)
  {
    low := low0;
    while low < high && flag > arr[low]
      invariant low <= high < arr.Length
      invariant ScanUp(arr[..], low, high, flag) == ScanUp(arr[..], low0, high, flag)
    {
      low := low + 1;
    }
  }

  method MyPartition(arr: array<int>, low0: nat, high0: nat) returns (p: nat)
    requires low0 <= high0 < arr.Length && PivotOnce(St(arr[..], low0, high0), arr[low0])
    modifies arr
    ensures (arr[..], p) == Partition(old(arr[..]), low0, high0)
  {
    var low, high := low0, high0;
    var flag := arr[low];
    ghost var o := arr[..];
    ghost var t := St(o, low, high);
    PartitionStarts(o, low, high);
    while low < high
      invariant t == St(arr[..], low, high) && Partitioning(o, low0, high0, t, flag) && PivotOnce(t, flag)
      invariant Settle(o, low0, high0, t, flag) == Settle(o, low0, high0, St(o, low0, high0), flag)
      decreases t.high - t.low
    {
      RoundProgresses(o, low0, high0, t, flag);
      high := MoveDown(arr, low, high, flag);
      arr[low] := arr[high];
      low := MoveUp(arr, low, high, flag);
      arr[high] := arr[low];
      t := Round(t, flag);
      assert arr[..] == t.s;
    }
    arr[low] := flag;
    p := low;
  }

  // ---------- Quicksort ----------

  ghost predicate DistinctOn(s: seq<int>, low: int, high: int) {
    forall i, j :: 0 <= i < |s| && 0 <= j < |s| && low <= i < j <= high ==> s[i] != s[j]
  }

  /** Every partition of the recursion ends. The state after the partition decides about both
      sides: the sort of the left one does not change the answer for the right one, by
      `LeftSortKeepsStops` below. */
  ghost predicate SortStops(s: seq<int>, low: int, high: int)
    requires 0 <= low && high < |s|
    decreases high - low, 1
  {
    low < high ==>
      && Stops(St(s, low, high), s[low])
      && (PartitionStopsIffPivotOnce(s, low, high); SidesStop(s, low, high))
  }

  ghost predicate SidesStop(s: seq<int>, low: nat, high: nat)
    requires low < high < |s| && PivotOnce(St(s, low, high), s[low])
    decreases high as int - low, 0
  {
    var (f, p) := Partition(s, low, high);
    SortStops(f, low, p - 1) && SortStops(f, p + 1, high)
  }

  /** A slice of the array, as a multiset, is what is left of the whole beside the rest. */
  lemma {:induction false} SameSlice(s: seq<int>, f: seq<int>, low: nat, high: int)
    requires |s| == |f| && low <= high + 1 <= |s| && multiset(f) == multiset(s)
    requires forall k :: 0 <= k < |s| && !(low <= k <= high) ==> f[k] == s[k]
    ensures multiset(f[low..high + 1]) == multiset(s[low..high + 1])
    ensures f[..low] == s[..low] && f[high + 1..] == s[high + 1..]
  {
    var m := high + 1;
    Slices(s, low, m);
    Slices(f, low, m);
    assert f[..low] == s[..low] && f[m..] == s[m..];
    CancelSides(multiset(s[..low]), multiset(s[low..m]), multiset(f[low..m]), multiset(s[m..]));
  }

  lemma {:induction false} CancelSides(a: multiset<int>, x: multiset<int>, y: multiset<int>, b: multiset<int>)
    requires a + x + b == a + y + b
    ensures x == y
  {
    assert x == a + x + b - a - b;
    assert y == a + y + b - a - b;
  }

  lemma Slices(s: seq<int>, i: nat, j: nat)
    requires i <= j <= |s|
    ensures s == s[..i] + s[i..j] + s[j..]
    ensures multiset(s) == multiset(s[..i]) + multiset(s[i..j]) + multiset(s[j..])
  {
  }

  lemma {:induction false} CountsTellDistinct(q: seq<int>)
    ensures DistinctOn(q, 0, |q| - 1) <==> forall x :: multiset(q)[x] <= 1
  {
    if DistinctOn(q, 0, |q| - 1) {
      forall x ensures multiset(q)[x] <= 1 {
        CountsOnce(q, x);
      }
    } else {
      var i, j :| 0 <= i < j < |q| && q[i] == q[j];
      Slices(q, j, j + 1);
      assert q[i] == q[..j][i] && q[i] in q[..j] && q[j..j + 1] == [q[j]];
      assert multiset(q)[q[j]] >= 2;
    }
  }

  lemma {:induction false} CountsOnce(q: seq<int>, x: int)
    requires DistinctOn(q, 0, |q| - 1)
    ensures multiset(q)[x] <= 1
  {
    if q != [] {
      Uncons(q);
      CountsOnce(q[1..], x);
      assert q[0] !in q[1..];
    }
  }

  /** Rearranging a slice keeps its values distinct. */
  lemma {:induction false} DistinctPermutes(s: seq<int>, f: seq<int>, low: nat, high: int)
    requires |s| == |f| && low <= high + 1 <= |s|
    requires multiset(f[low..high + 1]) == multiset(s[low..high + 1])
    ensures DistinctOn(s, low, high) <==> DistinctOn(f, low, high)
  {
    SliceDistinct(s, low, high);
    SliceDistinct(f, low, high);
    CountsTellDistinct(s[low..high + 1]);
    CountsTellDistinct(f[low..high + 1]);
  }

  lemma SliceDistinct(s: seq<int>, low: nat, high: int)
    requires low <= high + 1 <= |s|
    ensures DistinctOn(s, low, high) <==> DistinctOn(s[low..high + 1], 0, high - low)
  {
  }

  /** After the partition, distinctness of the range is that of its two sides. */
  lemma {:induction false} PartitionDistinct(s: seq<int>, low: nat, high: nat)
    requires low <= high < |s| && PivotOnce(St(s, low, high), s[low])
    ensures var (f, p) := Partition(s, low, high);
      DistinctOn(s, low, high) <==> DistinctOn(f, low, p - 1) && DistinctOn(f, p + 1, high)
  {
    PartitionSplits(s, low, high);
    var (f, p) := Partition(s, low, high);
    SplitDistinct(s, low, high, f, p);
  }

  lemma {:induction false} SplitDistinct(s: seq<int>, low: nat, high: nat, f: seq<int>, p: nat)
    requires SplitAt(s, low, high, f, p)
    ensures DistinctOn(s, low, high) <==> DistinctOn(f, low, p - 1) && DistinctOn(f, p + 1, high)
  {
    SameSlice(s, f, low, high);
    DistinctPermutes(s, f, low, high);
  }

  /** One level of the recursion: both sides of the equivalence below unfold alike. */
  lemma {:induction false} StopsUnfolds(s: seq<int>, low: nat, high: nat, l: bool, r: bool)
    requires low < high < |s| && PivotOnce(St(s, low, high), s[low])
    requires var (f, p) := Partition(s, low, high);
      l == SortStops(f, low, p - 1) && r == SortStops(f, p + 1, high)
    ensures SortStops(s, low, high) == (l && r)
  {
    PartitionStopsIffPivotOnce(s, low, high);
  }

  ghost predicate StopsAsDistinct(s: seq<int>, low: int, high: int)
    requires 0 <= low && high < |s|
  {
    SortStops(s, low, high) == DistinctOn(s, low, high)
  }

  ghost predicate SidesAsDistinct(s: seq<int>, low: nat, high: nat)
    requires low < high < |s| && PivotOnce(St(s, low, high), s[low])
  {
    var (f, p) := Partition(s, low, high);
    StopsAsDistinct(f, low, p - 1) && StopsAsDistinct(f, p + 1, high)
  }

  lemma {:induction false} SidesDecide(s: seq<int>, low: nat, high: nat)
    requires low < high < |s| && PivotOnce(St(s, low, high), s[low]) && SidesAsDistinct(s, low, high)
    ensures StopsAsDistinct(s, low, high)
  {
    var (f, p) := Partition(s, low, high);
    var lower, upper := SortStops(f, low, p - 1), SortStops(f, p + 1, high);
    assert SortStops(s, low, high) == (lower && upper) by {
      StopsUnfolds(s, low, high, lower, upper);
    }
    assert DistinctOn(s, low, high) == (DistinctOn(f, low, p - 1) && DistinctOn(f, p + 1, high)) by {
      PartitionDistinct(s, low, high);
    }
  }

  lemma {:induction false} TwinDecides(s: seq<int>, low: nat, high: nat)
    requires low < high < |s| && !PivotOnce(St(s, low, high), s[low])
    ensures StopsAsDistinct(s, low, high)
  {
    PartitionStopsIffPivotOnce(s, low, high);
  }

  lemma {:induction false} ShortDecides(s: seq<int>, low: nat, high: int)
    requires high <= low && high < |s|
    ensures StopsAsDistinct(s, low, high)
  {
  }

  lemma {:induction false} SidesDecided(s: seq<int>, low: nat, high: nat)
    requires low < high < |s| && PivotOnce(St(s, low, high), s[low])
    ensures SidesAsDistinct(s, low, high)
    decreases high as int - low, 0
  {
    var (f, p) := Partition(s, low, high);
    StopsDecided(f, low, p - 1);
    StopsDecided(f, p + 1, high);
  }

  lemma {:induction false} StopsDecided(s: seq<int>, low: int, high: int)
    requires 0 <= low && high < |s|
    ensures StopsAsDistinct(s, low, high)
    decreases high - low, 1
  {
    if low >= high {
      ShortDecides(s, low, high);
    } else if PivotOnce(St(s, low, high), s[low]) {
      SidesDecided(s, low, high);
      SidesDecide(s, low, high);
    } else {
      TwinDecides(s, low, high);
    }
  }

  /** The recursion ends exactly when no value occurs twice in the range. */
  lemma {:induction false} SortStopsIffDistinct(s: seq<int>, low: int, high: int)
    requires 0 <= low && high < |s|
    ensures SortStops(s, low, high) <==> DistinctOn(s, low, high)
  {
    StopsDecided(s, low, high);
  }

  /** Whether the sort of a range ends does not depend on the rest of the array. */
  lemma {:induction false} SortStopsFrame(s: seq<int>, t: seq<int>, low: nat, high: int)
    requires low <= high + 1 <= |s| && |t| == |s| && s[low..high + 1] == t[low..high + 1]
    ensures SortStops(s, low, high) == SortStops(t, low, high)
  {
    SortStopsIffDistinct(s, low, high);
    SortStopsIffDistinct(t, low, high);
    SliceDistinct(s, low, high);
    SliceDistinct(t, low, high);
  }

  /** The smallest such range: two equal values are never sorted. */
  lemma {:induction false} EqualPairRunsForever()
    ensures !SortStops([2, 2], 0, 1)
  {
    SortStopsIffDistinct([2, 2], 0, 1);
    assert [2, 2][0] == [2, 2][1];
  }

  ghost function SortSlice(s: seq<int>, low: nat, high: int): (r: seq<int>)
    requires low <= high + 1 <= |s|
    ensures |r| == |s|
  {
    s[..low] + Sort(s[low..high + 1]) + s[high + 1..]
  }

  lemma {:induction false} LeftSortKeepsStops(f: seq<int>, low: nat, p: nat, high: nat)
    requires low <= p <= high < |f|
    ensures SortStops(SortSlice(f, low, p - 1), p + 1, high) == SortStops(f, p + 1, high)
  {
    var g := SortSlice(f, low, p - 1);
    SortSliceTail(f, low, p);
    assert g[p + 1..high + 1] == g[p..][1..high + 1 - p];
    assert f[p + 1..high + 1] == f[p..][1..high + 1 - p];
    SortStopsFrame(g, f, p + 1, high);
  }

  lemma SortSliceTail(f: seq<int>, low: nat, p: nat)
    requires low <= p <= |f|
    ensures |SortSlice(f, low, p - 1)| == |f| && SortSlice(f, low, p - 1)[p..] == f[p..]
  {
  }

  /** Sorting around a pivot. */
  lemma {:induction false} SortAroundPivot(q: seq<int>, l: seq<int>, x: int, r: seq<int>)
    requires multiset(q) == multiset(l) + multiset{x} + multiset(r)
    requires (forall y :: y in l ==> y < x) && (forall y :: y in r ==> x < y)
    ensures Sort(q) == Sort(l) + [x] + Sort(r)
  {
    SortSorts(l);
    SortSorts(r);
    var t := Sort(l) + [x] + Sort(r);
    SameMembers(Sort(l), l);
    SameMembers(Sort(r), r);
    SortedAround(Sort(l), x, Sort(r));
    SortIsUnique(q, t);
  }

  lemma {:induction false} SortedAround(l: seq<int>, x: int, r: seq<int>)
    requires IsSorted(l) && IsSorted(r)
    requires (forall y :: y in l ==> y < x) && (forall y :: y in r ==> x < y)
    ensures IsSorted(l + [x] + r)
  {
    forall i, j | 0 <= i < j < |l| + 1 + |r| ensures (l + [x] + r)[i] <= (l + [x] + r)[j] {
      assert i < |l| ==> l[i] in l;
      assert j > |l| ==> r[j - |l| - 1] in r;
    }
  }

  lemma {:induction false} PartitionThenSort(s: seq<int>, low: nat, high: nat)
    requires low <= high < |s| && PivotOnce(St(s, low, high), s[low])
    ensures var (f, p) := Partition(s, low, high);
      SortSlice(SortSlice(f, low, p - 1), p + 1, high) == SortSlice(s, low, high)
  {
    PartitionSplits(s, low, high);
    var (f, p) := Partition(s, low, high);
    SplitThenSort(s, low, high, f, p);
  }

  lemma {:induction false} SplitThenSort(s: seq<int>, low: nat, high: nat, f: seq<int>, p: nat)
    requires SplitAt(s, low, high, f, p)
    ensures SortSlice(SortSlice(f, low, p - 1), p + 1, high) == SortSlice(s, low, high)
  {
    SameSlice(s, f, low, high);
    var l, r := f[low..p], f[p + 1..high + 1];
    SidesOfPivot(f, low, p, high + 1, l, r);
    SortSides(s, f, low, p, high + 1, l, r);
  }

  lemma SidesOfPivot(f: seq<int>, low: nat, p: nat, m: nat, l: seq<int>, r: seq<int>)
    requires low <= p < m <= |f| && l == f[low..p] && r == f[p + 1..m]
    requires (forall k :: low <= k < p ==> f[k] < f[p]) && (forall k :: p < k < m ==> f[k] > f[p])
    ensures (forall y :: y in l ==> y < f[p]) && (forall y :: y in r ==> f[p] < y)
  {
  }

  lemma {:induction false} SortSides(s: seq<int>, f: seq<int>, low: nat, p: nat, m: nat, l: seq<int>, r: seq<int>)
    requires low <= p < m <= |f| == |s| && l == f[low..p] && r == f[p + 1..m]
    requires multiset(f[low..m]) == multiset(s[low..m]) && f[..low] == s[..low] && f[m..] == s[m..]
    requires (forall y :: y in l ==> y < f[p]) && (forall y :: y in r ==> f[p] < y)
    ensures SortSlice(SortSlice(f, low, p - 1), p + 1, m - 1) == SortSlice(s, low, m - 1)
  {
    Cells(f, low, p, m);
    assert Sort(s[low..m]) == Sort(l) + [f[p]] + Sort(r) by {
      SortAroundPivot(s[low..m], l, f[p], r);
    }
    SortPieces(f, f[..low], l, f[p], r, f[m..]);
  }

  lemma {:induction false} Cells(f: seq<int>, low: nat, p: nat, m: nat)
    requires low <= p < m <= |f|
    ensures f == f[..low] + f[low..p] + [f[p]] + f[p + 1..m] + f[m..]
    ensures multiset(f[low..m]) == multiset(f[low..p]) + multiset{f[p]} + multiset(f[p + 1..m])
  {
    assert f[low..m] == f[low..p] + [f[p]] + f[p + 1..m];
  }

  /** Sorting the two sides in turn, where the pieces are. */
  lemma {:induction false} SortPieces(f: seq<int>, a: seq<int>, l: seq<int>, x: int, r: seq<int>, b: seq<int>)
    requires f == a + l + [x] + r + b
    ensures var low, p, m := |a|, |a| + |l|, |a| + |l| + 1 + |r|;
      SortSlice(SortSlice(f, low, p - 1), p + 1, m - 1) == a + (Sort(l) + [x] + Sort(r)) + b
  {
    var l', r' := Sort(l), Sort(r);
    Regroup(a, l, x, r, b);
    Regroup(a, l', x, r, b);
    Regroup(a, l', x, r', b);
    SortMiddle(a, l, [x] + r + b);
    SortMiddle(a + l' + [x], r, b);
  }

  lemma Regroup(a: seq<int>, l: seq<int>, x: int, r: seq<int>, b: seq<int>)
    ensures a + l + [x] + r + b == a + l + ([x] + r + b)
    ensures a + l + [x] + r + b == a + (l + [x] + r) + b
  {
  }

  lemma {:induction false} SortMiddle(a: seq<int>, l: seq<int>, b: seq<int>)
    ensures SortSlice(a + l + b, |a|, |a| + |l| - 1) == a + Sort(l) + b
  {
  }

  lemma RightSideKept(f: seq<int>, low: nat, p: nat, high: nat)
    requires low <= p <= high < |f| && DistinctOn(f, p + 1, high)
    ensures DistinctOn(SortSlice(f, low, p - 1), p + 1, high)
  {
  }

  /** What the two recursive calls need, and what they add up to. */
  lemma {:induction false} SortBothSides(s: seq<int>, low: nat, high: nat, f: seq<int>, p: nat) returns (g: seq<int>)
    requires low < high < |s| && DistinctOn(s, low, high) && PivotOnce(St(s, low, high), s[low])
    requires (f, p) == Partition(s, low, high)
    ensures low <= p <= high < |f| && DistinctOn(f, low, p - 1)
    ensures g == SortSlice(f, low, p - 1) && |g| == |s|
    ensures DistinctOn(g, p + 1, high) && SortSlice(g, p + 1, high) == SortSlice(s, low, high)
  {
    PartitionDistinct(s, low, high);
    PartitionThenSort(s, low, high);
    RightSideKept(f, low, p, high);
    g := SortSlice(f, low, p - 1);
  }

  lemma {:induction false} ShortSliceSorted(s: seq<int>, low: nat, high: int)
    requires high <= low <= high + 1 <= |s|
    ensures SortSlice(s, low, high) == s
  {
    var q := s[low..high + 1];
    assert IsSorted(q);
    SortIsUnique(q, q);
    Slices(s, low, high + 1);
  }

  /** `my_quick_sort`: on distinct values, the slice ends up sorted and the rest untouched. */
  method MyQuickSort(arr: array<int>, low: int, high: int)
    requires 0 <= low <= high + 1 <= arr.Length && DistinctOn(arr[..], low, high)
    modifies arr
    ensures arr[..] == SortSlice(old(arr[..]), low, high)
    decreases high - low
  {
    ghost var s := arr[..];
    if low < high {
      assert PivotOnce(St(s, low, high), s[low]);
      var locate: int := MyPartition(arr, low, high);
      ghost var g := SortBothSides(s, low, high, arr[..], locate);
      MyQuickSort(arr, low, locate - 1);
      assert arr[..] == g;
      MyQuickSort(arr, locate + 1, high);
    } else {
      ShortSliceSorted(s, low, high);
    }
  }

  method QuickSort(arr: array<int>)
    requires DistinctOn(arr[..], 0, arr.Length - 1)
    modifies arr
    ensures arr[..] == Sort(old(arr[..]))
  {
    ghost var s := arr[..];
    assert s[0..|s|] == s;
    MyQuickSort(arr, 0, arr.Length - 1);
  }
}
