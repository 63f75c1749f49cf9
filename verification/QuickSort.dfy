/** q_sort of cpp/algorithm/algorithm.c: quicksort in place, with a hole that moves between
    the two scanning indices while the key is held outside the array. */
module QuickSort {

  predicate Sorted(s: seq<int>) {
    forall i, j :: 0 <= i < j < |s| ==> s[i] <= s[j]
  }

  /** Nothing outside [left, right) differs. */
  predicate SameOutside(s: seq<int>, t: seq<int>, left: nat, right: nat)
    requires |s| == |t| && left <= right <= |s|
  {
    s[..left] == t[..left] && s[right..] == t[right..]
  }

  /** Filling the hole at i from j moves the hole to j and loses nothing. */
  lemma MoveHole(s: seq<int>, i: nat, j: nat, key: int)
    requires i < |s| && j < |s|
    ensures multiset(s[i := key]) == multiset(s[i := s[j]][j := key])
  {
    if i != j {
      var t := s[i := key];
      assert s[i := s[j]][j := key] == t[i := t[j]][j := key];
      assert multiset(t[i := t[j]]) == multiset(t) - multiset{key} + multiset{t[j]};
    } else {
      assert s[i := s[j]][j := key] == s[i := key];
    }
  }

  lemma SegmentMultiset(s: seq<int>, t: seq<int>, left: nat, right: nat)
    requires |s| == |t| && left <= right <= |s| && SameOutside(s, t, left, right)
    requires multiset(s) == multiset(t)
    ensures multiset(s[left..right]) == multiset(t[left..right])
  {
    assert s == s[..left] + s[left..right] + s[right..];
    assert t == t[..left] + t[left..right] + t[right..];
    assert multiset(s[left..right]) == multiset(s) - multiset(s[..left]) - multiset(s[right..]);
    assert multiset(t[left..right]) == multiset(t) - multiset(t[..left]) - multiset(t[right..]);
  }

  lemma BoundKept(s: seq<int>, t: seq<int>, v: int)
    requires multiset(s) == multiset(t)
    ensures (forall i :: 0 <= i < |t| ==> t[i] <= v) ==> (forall i :: 0 <= i < |s| ==> s[i] <= v)
    ensures (forall i :: 0 <= i < |t| ==> t[i] >= v) ==> (forall i :: 0 <= i < |s| ==> s[i] >= v)
  {
    forall i | 0 <= i < |s|
      ensures s[i] in t
    {
      assert s[i] in multiset(s);
      assert s[i] in multiset(t);
    }
  }

  /** Lines 93-96: walk down over values that are not below the key. */
  method ScanDown(a: array<int>, i: nat, j0: nat, key: int) returns (j: nat)
    requires i < j0 < a.Length
    ensures i <= j <= j0 && (i < j ==> a[j] < key)
    ensures forall k :: j < k <= j0 ==> key <= a[k]
  {
    j := j0;
    while i < j && key <= a[j]
      invariant i <= j <= j0
      invariant forall k :: j < k <= j0 ==> key <= a[k]
    {
      j := j - 1;
    }
  }

  /** Lines 98-101: walk up over values that are not above the key. */
  method ScanUp(a: array<int>, i0: nat, j: nat, key: int) returns (i: nat)
    requires i0 <= j < a.Length
    ensures i0 <= i <= j && (i < j ==> a[i] > key)
    ensures i0 < j && a[i0] < key ==> i0 < i
    ensures forall k :: i0 <= k < i ==> a[k] <= key
  {
    i := i0;
    while i < j && key >= a[i]
      invariant i0 <= i <= j
      invariant i0 < j && a[i0] < key && i == i0 ==> key >= a[i]
      invariant forall k :: i0 <= k < i ==> a[k] <= key
    {
      i := i + 1;
    }
  }

  /** Lines 88-104: the partition loop around the key a[left]. */
  method Partition(a: array<int>, left: nat, right: nat) returns (i: nat)
    requires left < right < a.Length
    modifies a
    ensures left <= i <= right
    ensures forall k :: left <= k < i ==> a[k] <= a[i]
    ensures forall k :: i < k <= right ==> a[i] <= a[k]
    ensures SameOutside(a[..], old(a[..]), left, right + 1)
    ensures multiset(a[..]) == multiset(old(a[..]))
  {
    i := left;
    var j := right;
    var key := a[left];
    assert a[..][i := key] == a[..];
    while i < j
      invariant Holed(a[..], i, key, left, right, old(a[..])) && i <= j <= right
      invariant Scanned(a[..], left, i, j, right, key)
      decreases j - i
    {
      i, j := MoveBoth(a, i, j, key, left, right, old(a[..]));
    }
    ghost var t := a[..];
    a[i] := key;
    assert a[..] == t[i := key];
    assert a[..][..left] == t[..left] && a[..][right + 1..] == t[right + 1..];
  }

  /** Values left of i are not above the key, values right of j are not below it. */
  predicate Scanned(t: seq<int>, left: nat, i: nat, j: nat, right: nat, key: int)
    requires i <= |t| && right < |t|
  {
    (forall k :: left <= k < i ==> t[k] <= key) && (forall k :: j < k <= right ==> key <= t[k])
  }

  /** One pass of the outer loop, lines 93-102. */
  method MoveBoth(a: array<int>, i: nat, j: nat, key: int, left: nat, right: nat, ghost s: seq<int>)
    returns (i': nat, j': nat)
    requires Holed(a[..], i, key, left, right, s) && i < j <= right
    requires Scanned(a[..], left, i, j, right, key)
    modifies a
    ensures Holed(a[..], i', key, left, right, s) && i <= i' <= j' <= j && j' - i' < j - i
    ensures Scanned(a[..], left, i', j', right, key)
  {
    j' := ScanDown(a, i, j, key);
    Fill(a, i, j', key, left, right, s);
    assert i < j' ==> a[..][i] < key;
    i' := ScanUp(a, i, j', key);
    Fill(a, j', i', key, left, right, s);
  }

  /** The array is the original one, rearranged inside the segment, once the key is put into
      the hole. */
  ghost predicate Holed(t: seq<int>, hole: nat, key: int, left: nat, right: nat, s: seq<int>) {
    && |t| == |s| && left <= hole <= right < |s|
    && SameOutside(t, s, left, right + 1)
    && multiset(t[hole := key]) == multiset(s)
  }

  /** a[to] = a[from]: the hole moves. */
  method Fill(a: array<int>, to: nat, from: nat, key: int, left: nat, right: nat, ghost s: seq<int>)
    requires Holed(a[..], to, key, left, right, s) && left <= from <= right
    modifies a
    ensures Holed(a[..], from, key, left, right, s)
    ensures a[..] == old(a[..])[to := old(a[from])]
  {
    ghost var t := a[..];
    MoveHole(t, to, from, key);
    a[to] := a[from];
    assert a[..] == t[to := t[from]];
    assert a[..][..left] == t[..left] && a[..][right + 1..] == t[right + 1..];
  }

  /** q_sort: the segment left..right becomes sorted, keeps its values, and nothing else
      in the array changes. */
  method QSort(a: array<int>, left: int, right: int)
    requires 0 <= left && right < a.Length
    modifies a
    ensures left <= right ==> Sorted(a[..][left..right + 1])
    ensures left <= right ==> SameOutside(a[..], old(a[..]), left, right + 1)
    ensures left <= right ==> multiset(a[..][left..right + 1]) == multiset(old(a[..])[left..right + 1])
    ensures left > right ==> a[..] == old(a[..])
    ensures multiset(a[..]) == multiset(old(a[..]))
    decreases right - left
  {
    if left >= right {
      return;
    }
    ghost var s0 := a[..];
    var i: int := Partition(a, left, right);
    ghost var s1 := a[..];
    QSort(a, left, i - 1);
    EmptyPart(a[..], left);
    ghost var s2 := a[..];
    QSort(a, i + 1, right);
    EmptyPart(a[..], i + 1);
    ghost var s3 := a[..];
    Combine(s0, s1, s2, s3, left, i, right);
  }

  /** The four stages of one call: before, partitioned, left part sorted, right part sorted. */
  lemma Combine(s0: seq<int>, s1: seq<int>, s2: seq<int>, s3: seq<int>, left: nat, i: nat, right: nat)
    requires left <= i <= right < |s0| == |s1| == |s2| == |s3|
    requires SameOutside(s1, s0, left, right + 1) && Split(s1, left, i, right)
    requires multiset(s0) == multiset(s1) == multiset(s2) == multiset(s3)
    requires SameOutside(s2, s1, left, i) && Sorted(s2[left..i])
    requires SameOutside(s3, s2, i + 1, right + 1) && Sorted(s3[i + 1..right + 1])
    ensures Sorted(s3[left..right + 1]) && SameOutside(s3, s0, left, right + 1)
    ensures multiset(s3[left..right + 1]) == multiset(s0[left..right + 1])
  {
    LeftDone(s1, s2, left, i, right);
    RightDone(s2, s3, left, i, right);
    SegmentMultiset(s3, s0, left, right + 1);
    SamePart(s3, s2, left, i, i + 1);
    Joined(s3, left, i, right);
  }

  lemma SamePart(s: seq<int>, t: seq<int>, left: nat, right: nat, n: nat)
    requires left <= right <= n <= |s| == |t| && s[..n] == t[..n]
    ensures s[left..right] == t[left..right]
  {
    assert s[left..right] == s[..n][left..right];
    assert t[left..right] == t[..n][left..right];
  }

  /** An empty part is sorted and leaves the array alone. */
  lemma EmptyPart(s: seq<int>, at: nat)
    requires at <= |s|
    ensures Sorted(s[at..at]) && SameOutside(s, s, at, at)
  {
  }

  predicate Split(s: seq<int>, left: nat, i: nat, right: nat)
    requires left <= i <= right < |s|
  {
    (forall k :: left <= k < i ==> s[k] <= s[i]) && (forall k :: i < k <= right ==> s[i] <= s[k])
  }

  /** Rearranging the part below the key keeps the split. */
  lemma LeftDone(s: seq<int>, t: seq<int>, left: nat, i: nat, right: nat)
    requires left <= i <= right < |s| == |t| && Split(s, left, i, right)
    requires SameOutside(t, s, left, i) && multiset(t) == multiset(s)
    ensures Split(t, left, i, right) && t[i] == s[i] && SameOutside(t, s, left, right + 1)
  {
    SegmentMultiset(t, s, left, i);
    BoundKept(t[left..i], s[left..i], s[i]);
    assert forall k :: i <= k < |s| ==> t[k] == t[i..][k - i] && s[k] == s[i..][k - i];
    forall k | left <= k < i
      ensures t[k] <= t[i]
    {
      assert t[k] == t[left..i][k - left];
    }
    assert t[right + 1..] == t[i..][right + 1 - i..];
    assert s[right + 1..] == s[i..][right + 1 - i..];
  }

  lemma RightDone(s: seq<int>, t: seq<int>, left: nat, i: nat, right: nat)
    requires left <= i <= right < |s| == |t| && Split(s, left, i, right)
    requires SameOutside(t, s, i + 1, right + 1) && multiset(t) == multiset(s)
    ensures Split(t, left, i, right) && t[..i + 1] == s[..i + 1] && SameOutside(t, s, left, right + 1)
  {
    SegmentMultiset(t, s, i + 1, right + 1);
    BoundKept(t[i + 1..right + 1], s[i + 1..right + 1], s[i]);
    assert forall k :: 0 <= k <= i ==> t[k] == t[..i + 1][k] && s[k] == s[..i + 1][k];
    forall k | i < k <= right
      ensures t[i] <= t[k]
    {
      assert t[k] == t[i + 1..right + 1][k - i - 1];
    }
    assert t[..left] == t[..i + 1][..left];
    assert s[..left] == s[..i + 1][..left];
  }

  lemma Joined(s: seq<int>, left: nat, i: nat, right: nat)
    requires left <= i <= right < |s| && Split(s, left, i, right)
    requires Sorted(s[left..i]) && Sorted(s[i + 1..right + 1])
    ensures Sorted(s[left..right + 1])
  {
    var t := s[left..right + 1];
    forall k, l | 0 <= k < l < |t|
      ensures t[k] <= t[l]
    {
      if left + l < i {
        assert t[k] == s[left..i][k] && t[l] == s[left..i][l];
      } else if left + k > i {
        assert t[k] == s[i + 1..right + 1][left + k - i - 1] && t[l] == s[i + 1..right + 1][left + l - i - 1];
      }
    }
  }
}
