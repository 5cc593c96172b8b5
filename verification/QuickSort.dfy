/** The quicksort test program (testcase/src/quick-sort.c): a partition that moves a hole through the
    array instead of swapping. */
module QuickSort {
  ghost predicate Sorted(s: seq<int>) {
    forall i, j :: 0 <= i < j < |s| ==> s[i] <= s[j]
  }

  /** Moving the hole from `i` to `j`: once the pivot is counted in the hole, nothing is lost. */
  lemma HoleMoves(s: seq<int>, i: nat, j: nat, pivot: int)
    requires i < |s| && j < |s|
    ensures multiset(s[i := s[j]][j := pivot]) == multiset(s[i := pivot])
  {
    if i != j {
      var x, y := s[i], s[j];
      assert multiset(s[i := y]) == multiset(s) - multiset{x} + multiset{y};
      assert s[i := y][j] == y;
      assert multiset(s[i := y][j := pivot]) == multiset(s[i := y]) - multiset{y} + multiset{pivot};
    } else {
      assert s[i := s[j]][j := pivot] == s[i := pivot];
    }
  }

  /** The range `p..q` with the pivot put into the hole. */
  ghost function Filled(a: array<int>, p: nat, q: nat, hole: nat, pivot: int): seq<int>
    requires p <= hole <= q < a.Length
    reads a
  {
    a[p..q + 1][hole - p := pivot]
  }

  /** Copies `a[from]` into the hole, which leaves the hole at `from`. */
  method MoveHole(a: array<int>, p: nat, q: nat, hole: nat, from: nat, ghost pivot: int)
    requires p <= hole <= q < a.Length && p <= from <= q
    modifies a
    ensures a[hole] == old(a[from])
    ensures forall k :: 0 <= k < a.Length && k != hole ==> a[k] == old(a[k])
    ensures multiset(Filled(a, p, q, from, pivot)) == multiset(old(Filled(a, p, q, hole, pivot)))
  {
    HoleMoves(a[p..q + 1], hole - p, from - p, pivot);
    ghost var s := a[p..q + 1];
    a[hole] := a[from];
    assert a[p..q + 1] == s[hole - p := s[from - p]];
  }

  method FillHole(a: array<int>, p: nat, q: nat, hole: nat, pivot: int)
    requires p <= hole <= q < a.Length
    modifies a
    ensures a[hole] == pivot
    ensures forall k :: 0 <= k < a.Length && k != hole ==> a[k] == old(a[k])
    ensures a[p..q + 1] == old(Filled(a, p, q, hole, pivot))
  {
    a[hole] := pivot;
  }

  /** No element on the left is above the pivot; every element on the right is. */
  ghost predicate Split(left: seq<int>, pivot: int, right: seq<int>) {
    (forall x :: x in left ==> x <= pivot) && (forall x :: x in right ==> x > pivot)
  }

  lemma SplitAt(a: array<int>, lo: nat, m: nat, hi: nat)
    requires lo <= m < hi <= a.Length
    requires (forall k :: lo <= k < m ==> a[k] <= a[m]) && (forall k :: m < k < hi ==> a[k] > a[m])
    ensures Split(a[lo..m], a[m], a[m + 1..hi])
  {
  }

  method Partition(a: array<int>, p: nat, q: nat) returns (m: nat)
    requires p < q < a.Length
    modifies a
    ensures p <= m <= q && a[m] == old(a[p])
    ensures Split(a[p..m], a[m], a[m + 1..q + 1])
    ensures multiset(a[p..q + 1]) == multiset(old(a[p..q + 1]))
    ensures forall k :: 0 <= k < a.Length && !(p <= k <= q) ==> a[k] == old(a[k])
  {
    hide Filled, Split;
    var pivot := a[p];
    var i, j := p, q;
    ghost var was := a[p..q + 1];
    FilledIn(a, p, q, p);
    while i < j
      invariant p <= i <= j <= q
      invariant forall k :: p <= k < i ==> a[k] <= pivot
      invariant forall k :: j < k <= q ==> a[k] > pivot
      invariant multiset(Filled(a, p, q, i, pivot)) == multiset(was)
      invariant forall k :: 0 <= k < a.Length && !(p <= k <= q) ==> a[k] == old(a[k])
      decreases j - i
    {
      ghost var i0 := i;
      while i < j && a[j] > pivot
        invariant i <= j <= q
        invariant forall k :: j < k <= q ==> a[k] > pivot
        modifies {}
      {
        j := j - 1;
      }
      MoveHole(a, p, q, i, j, pivot);
      while i < j && a[i] <= pivot
        invariant p <= i <= j && i0 <= i
        invariant forall k :: p <= k < i ==> a[k] <= pivot
        modifies {}
      {
        i := i + 1;
      }
      MoveHole(a, p, q, j, i, pivot);
    }
    FillHole(a, p, q, i, pivot);
    m := i;
    SplitAt(a, p, m, q + 1);
  }

  lemma FilledIn(a: array<int>, p: nat, q: nat, hole: nat)
    requires p <= hole <= q < a.Length
    ensures Filled(a, p, q, hole, a[hole]) == a[p..q + 1]
  {
  }

  lemma SameElements(s: seq<int>, t: seq<int>, bound: int)
    requires multiset(s) == multiset(t)
    ensures (forall x :: x in s ==> x <= bound) ==> forall x :: x in t ==> x <= bound
    ensures (forall x :: x in s ==> x > bound) ==> forall x :: x in t ==> x > bound
  {
    forall x | x in t ensures x in s {
      assert x in multiset(t);
    }
  }

  lemma Assemble(left: seq<int>, pivot: int, right: seq<int>)
    requires Sorted(left) && Sorted(right)
    requires Split(left, pivot, right)
    ensures Sorted(left + [pivot] + right)
  {
    var s := left + [pivot] + right;
    forall i, j | 0 <= i < j < |s| ensures s[i] <= s[j] {
      if i < |left| { assert s[i] in left; }
      if j > |left| { assert s[j] in right; }
    }
  }

  /** quick_sort on any range `lo .. hi - 1`: the same elements, in order, and nothing else touched. */
  method Sort(a: array<int>, lo: nat, hi: nat)
    requires lo <= hi <= a.Length
    modifies a
    ensures Sorted(a[lo..hi])
    ensures multiset(a[lo..hi]) == multiset(old(a[lo..hi]))
    ensures forall k :: 0 <= k < a.Length && !(lo <= k < hi) ==> a[k] == old(a[k])
    decreases hi - lo, 1
  {
    hide Sorted, Split;
    Short(a[lo..hi]);
    if lo + 1 >= hi { return; }
    var m := Partition(a, lo, hi - 1);
    Cut(a, lo, m, hi);
    ghost var left, right, pivot := a[lo..m], a[m + 1..hi], a[m];
    SortSides(a, lo, m, hi);
    Cut(a, lo, m, hi);
    Joined(left, a[lo..m], pivot, right, a[m + 1..hi]);
  }

  /** The two recursive calls. */
  method SortSides(a: array<int>, lo: nat, m: nat, hi: nat)
    requires lo <= m < hi <= a.Length
    modifies a
    ensures Sorted(a[lo..m]) && multiset(a[lo..m]) == multiset(old(a[lo..m]))
    ensures Sorted(a[m + 1..hi]) && multiset(a[m + 1..hi]) == multiset(old(a[m + 1..hi]))
    ensures a[m] == old(a[m])
    ensures forall k :: 0 <= k < a.Length && !(lo <= k < hi) ==> a[k] == old(a[k])
    decreases hi - lo, 0
  {
    hide Sorted;
    ghost var right := a[m + 1..hi];
    Sort(a, lo, m);
    Same(a, m + 1, hi, right);
    ghost var left := a[lo..m];
    Sort(a, m + 1, hi);
    Same(a, lo, m, left);
  }

  lemma Cut(a: array<int>, lo: nat, m: nat, hi: nat)
    requires lo <= m < hi <= a.Length
    ensures a[lo..hi] == a[lo..m] + [a[m]] + a[m + 1..hi]
  {
  }

  lemma Same(a: array<int>, lo: nat, hi: nat, s: seq<int>)
    requires lo <= hi <= a.Length && |s| == hi - lo
    requires forall k :: lo <= k < hi ==> a[k] == s[k - lo]
    ensures a[lo..hi] == s
  {
  }

  lemma Short(s: seq<int>)
    ensures |s| <= 1 ==> Sorted(s)
  {
  }

  /** The two sides of a partitioned range have been sorted. */
  lemma Joined(left: seq<int>, left': seq<int>, pivot: int, right: seq<int>, right': seq<int>)
    requires Split(left, pivot, right)
    requires multiset(left) == multiset(left') && multiset(right) == multiset(right')
    requires Sorted(left') && Sorted(right')
    ensures Sorted(left' + [pivot] + right')
    ensures multiset(left' + [pivot] + right') == multiset(left + [pivot] + right)
  {
    SameElements(left, left', pivot);
    SameElements(right, right', pivot);
    Assemble(left', pivot, right');
  }

  /** Sorting determines the result: two sorted permutations are equal. */
  lemma {:induction false} SortedUnique(s: seq<int>, t: seq<int>)
    requires Sorted(s) && Sorted(t) && multiset(s) == multiset(t)
    ensures s == t
  {
    if s == [] {
      assert |multiset(t)| == 0;
    } else {
      hide Sorted;
      assert |multiset(s)| == |multiset(t)|;
      FirstIsLeast(s, t);
      FirstIsLeast(t, s);
      SortedTail(s);
      SortedTail(t);
      SortedUnique(s[1..], t[1..]);
      HeadAndTail(s, t);
    }
  }

  lemma HeadAndTail(s: seq<int>, t: seq<int>)
    requires s != [] && t != [] && s[0] == t[0] && s[1..] == t[1..]
    ensures s == t
  {
    assert s == [s[0]] + s[1..] && t == [t[0]] + t[1..];
  }

  lemma SortedTail(s: seq<int>)
    requires s != [] && Sorted(s)
    ensures Sorted(s[1..]) && multiset(s[1..]) == multiset(s) - multiset{s[0]}
  {
    assert s == [s[0]] + s[1..];
  }

  lemma FirstIsLeast(s: seq<int>, t: seq<int>)
    requires s != [] && t != [] && Sorted(s) && multiset(s) == multiset(t)
    ensures s[0] <= t[0]
  {
    assert t[0] in multiset(t);
    assert t[0] in s;
  }

  /** The test program: on any permutation of 0 .. n-1, both of its checks pass. */
  method SortTwice(a: array<int>)
    requires multiset(a[..]) == multiset(seq(a.Length, i => i))
    modifies a
    ensures a[..] == seq(a.Length, i => i)
  {
    SortAll(a);
    Check(a);
    SortAll(a);
    Check(a);
  }

  method SortAll(a: array<int>)
    requires multiset(a[..]) == multiset(seq(a.Length, i => i))
    modifies a
    ensures a[..] == seq(a.Length, i => i)
  {
    assert a[0..a.Length] == a[..];
    Sort(a, 0, a.Length);
    assert a[0..a.Length] == a[..];
    SortedUnique(a[..], seq(a.Length, i => i));
  }

  method Check(a: array<int>)
    requires a[..] == seq(a.Length, i => i)
  {
    for i := 0 to a.Length {
      assert a[..][i] == i;
      assert a[i] == i;
    }
  }
}
