/** Sorting of polygon edges: a quicksort that stops early and leaves elements out, finished by an
    insertion sort. */
module SortEdges {
  import Words

  /** What the comparison of keys is when no key is a NaN. */
  ghost predicate StrictWeakOrder<T(!new)>(less: (T, T) -> bool) {
    && (forall a :: !less(a, a))
    && (forall a, b, c :: less(a, b) && less(b, c) ==> less(a, c))
    && (forall a, b, c :: less(a, c) ==> less(a, b) || less(b, c))
  }

  ghost predicate Sorted<T>(s: seq<T>, less: (T, T) -> bool) {
    forall i, j :: 0 <= i < j < |s| ==> !less(s[j], s[i])
  }

  ghost predicate Permuted<T>(s: seq<T>, t: seq<T>) {
    multiset(s) == multiset(t)
  }

  /** No element of `t` comes before one of `s`. */
  ghost predicate Before<T>(s: seq<T>, t: seq<T>, less: (T, T) -> bool) {
    forall x, y :: x in s && y in t ==> !less(y, x)
  }

  // ---- insertion sort ----

  /** The first `i + 1` elements are in order once `t` is put into the hole at `j`. */
  ghost predicate HoleAt<T>(s: seq<T>, i: nat, j: nat, t: T, less: (T, T) -> bool) {
    && j <= i < |s|
    && (forall x, y :: 0 <= x < y <= i && x != j && y != j ==> !less(s[y], s[x]))
    && (forall y :: j < y <= i ==> less(t, s[y]))
  }

  method InsSort<T(!new)>(a: array<T>, n: nat, less: (T, T) -> bool)
    requires n <= a.Length && StrictWeakOrder(less)
    modifies a
    ensures Sorted(a[..n], less)
    ensures Permuted(a[..n], old(a[..n])) && a[n..] == old(a[n..])
  {
    hide Permuted, HoleAt, Sorted;
    ghost var was := a[..];
    StartSorted(was, n, less);
    var i := 1;
    while i < n
      invariant 1 <= i && (i <= n || n <= 1)
      invariant Sorted(a[..if i <= n then i else n], less)
      invariant Permuted(a[..], was) && a[n..] == was[n..]
    {
      var t := a[i];
      var j := i;
      OpenHole(a[..], i, less);
      while j > 0
        invariant HoleAt(a[..], i, j, t, less) && j <= i
        invariant Permuted(a[..][j := t], was) && a[n..] == was[n..]
        invariant j == i ==> a[j] == t
      {
        if !less(t, a[j - 1]) {
          break;
        }
        MoveHole(a[..], i, j, t, less, was);
        ghost var next := a[..][j := a[j - 1]];
        a[j] := a[j - 1];
        assert a[..] == next;
        j := j - 1;
      }
      FillHole(a[..], i, j, t, less);
      ghost var filled := a[..][j := t];
      if i != j {
        a[j] := t;
      }
      assert a[..] == filled;
      i := i + 1;
    }
    PermutedPrefix(a[..], was, n);
    assert a[..][..n] == a[..n] && was[..n] == old(a[..n]);
  }

  lemma StartSorted<T>(s: seq<T>, n: nat, less: (T, T) -> bool)
    requires n <= |s|
    ensures Permuted(s, s) && Sorted(s[..if 1 <= n then 1 else n], less)
  {
  }

  lemma OpenHole<T>(s: seq<T>, i: nat, less: (T, T) -> bool)
    requires i < |s| && Sorted(s[..i], less)
    ensures HoleAt(s, i, i, s[i], less) && s[i := s[i]] == s
  {
    forall x, y | 0 <= x < y < i ensures !less(s[y], s[x]) {
      assert s[..i][x] == s[x] && s[..i][y] == s[y];
    }
  }

  /** Moving a neighbour into the hole moves the hole. */
  lemma MoveHole<T>(s: seq<T>, i: nat, j: nat, t: T, less: (T, T) -> bool, was: seq<T>)
    requires HoleAt(s, i, j, t, less) && j > 0 && less(t, s[j - 1]) && Permuted(s[j := t], was)
    ensures HoleAt(s[j := s[j - 1]], i, j - 1, t, less)
    ensures Permuted(s[j := s[j - 1]][j - 1 := t], was)
  {
    ShiftPermutes(s, j, t);
    hide Permuted;
    PermutedChain(s[j := s[j - 1]][j - 1 := t], s[j := t], was);
  }

  lemma ShiftPermutes<T>(s: seq<T>, j: nat, t: T)
    requires 0 < j < |s|
    ensures Permuted(s[j := s[j - 1]][j - 1 := t], s[j := t])
  {
    hide Permuted;
    var u := s[j := t];
    SwapPermutes(u, j - 1, j);
    assert u[j - 1 := u[j]][j := u[j - 1]] == s[j := s[j - 1]][j - 1 := t];
  }

  lemma PermutedChain<T>(s: seq<T>, t: seq<T>, u: seq<T>)
    requires Permuted(s, t) && Permuted(t, u)
    ensures Permuted(s, u) && Permuted(u, s)
  {
  }

  /** Two permuted sequences that agree from `n` on are permuted below it. */
  lemma PermutedPrefix<T>(s: seq<T>, t: seq<T>, n: nat)
    requires Permuted(s, t) && n <= |s| && |s| == |t| && s[n..] == t[n..]
    ensures Permuted(s[..n], t[..n])
  {
    assert s == s[..n] + s[n..] && t == t[..n] + t[n..];
    assert multiset(s[..n]) == multiset(s) - multiset(s[n..]);
    assert multiset(t[..n]) == multiset(t) - multiset(t[n..]);
  }

  lemma FillHole<T(!new)>(s: seq<T>, i: nat, j: nat, t: T, less: (T, T) -> bool)
    requires HoleAt(s, i, j, t, less) && (j > 0 ==> !less(t, s[j - 1])) && StrictWeakOrder(less)
    ensures Sorted(s[j := t][..i + 1], less)
  {
    var u := s[j := t];
    forall x, y | 0 <= x < y <= i ensures !less(u[y], u[x]) {
      if y == j && x < j - 1 {
        Chain(s[x], s[j - 1], t, less);
      } else if x == j {
        Asymmetric(t, s[y], less);
      }
    }
    SortedPrefix(u, i + 1, less);
  }

  lemma SortedPrefix<T>(s: seq<T>, n: nat, less: (T, T) -> bool)
    requires n <= |s| && forall x, y :: 0 <= x < y < n ==> !less(s[y], s[x])
    ensures Sorted(s[..n], less)
  {
  }

  /** "Not after" is transitive. */
  lemma Chain<T(!new)>(a: T, b: T, c: T, less: (T, T) -> bool)
    requires StrictWeakOrder(less) && !less(b, a) && !less(c, b)
    ensures !less(c, a)
  {
  }

  lemma Asymmetric<T(!new)>(a: T, b: T, less: (T, T) -> bool)
    requires StrictWeakOrder(less) && less(a, b)
    ensures !less(b, a)
  {
  }

  lemma SwapPermutes<T>(s: seq<T>, x: nat, y: nat)
    requires x < |s| && y < |s|
    ensures Permuted(s[x := s[y]][y := s[x]], s)
  {
  }

  // ---- quicksort ----

  /** What the quicksort leaves: blocks of at most 12 elements in any order, and between the two parts of
      a partition possibly one element that belongs somewhere in the first part. */
  ghost predicate NearlySorted<T>(s: seq<T>, less: (T, T) -> bool)
    decreases |s|
  {
    |s| <= 12 || exists j, i :: PartedAt(s, j, i, less) && NearlySorted(s[..j], less) && NearlySorted(s[i..], less)
  }

  /** The two parts are `s[..j]` and `s[i..]`; the upper one is never empty, nor is what lies below it. */
  ghost predicate PartedAt<T>(s: seq<T>, j: int, i: int, less: (T, T) -> bool) {
    0 <= j <= i <= j + 1 && 0 < i < |s| && Before(s[..i], s[i..], less)
  }

  /** A nearly sorted sequence of more than 12 elements has a place with nothing behind it that comes before
      anything ahead of it. */
  lemma NearlySortedIsCut<T>(s: seq<T>, less: (T, T) -> bool)
    requires NearlySorted(s, less) && |s| > 12
    ensures exists i :: 0 < i < |s| && Before(s[..i], s[i..], less) && !less(s[i], s[0])
  {
    hide Before;
    var j, i :| PartedAt(s, j, i, less) && NearlySorted(s[..j], less) && NearlySorted(s[i..], less);
    FirstIsNotAfter(s, i, less);
  }

  lemma FirstIsNotAfter<T>(s: seq<T>, i: nat, less: (T, T) -> bool)
    requires 0 < i < |s| && Before(s[..i], s[i..], less)
    ensures !less(s[i], s[0])
  {
    assert s[..i][0] in s[..i] && s[i..][0] in s[i..];
  }

  /** So a descending one is not nearly sorted. */
  lemma DescendingIsNotNearlySorted<T>(s: seq<T>, less: (T, T) -> bool)
    requires |s| > 12 && forall x, y :: 0 <= x < y < |s| ==> less(s[y], s[x])
    ensures !NearlySorted(s, less)
  {
    hide NearlySorted;
    if NearlySorted(s, less) {
      NearlySortedIsCut(s, less);
    }
  }

  /** Nothing in `a[from..to]` comes after `v`. */
  ghost predicate NoneAbove<T>(s: seq<T>, from: nat, to: nat, v: T, less: (T, T) -> bool)
    requires to <= |s|
  {
    forall k :: from <= k < to ==> !less(v, s[k])
  }

  /** Nothing in `a[from..to]` comes before `v`. */
  ghost predicate NoneBelow<T>(s: seq<T>, from: nat, to: nat, v: T, less: (T, T) -> bool)
    requires to <= |s|
  {
    forall k :: from <= k < to ==> !less(s[k], v)
  }

  /** `s` and `was` differ at most by a rearrangement of `[lo, hi)`. */
  ghost predicate Rearranged<T>(s: seq<T>, was: seq<T>, lo: nat, hi: nat) {
    && |s| == |was| && lo <= hi <= |s|
    && s[..lo] == was[..lo] && s[hi..] == was[hi..]
    && Permuted(s[lo..hi], was[lo..hi])
  }

  lemma RearrangedSelf<T>(s: seq<T>, lo: nat, hi: nat)
    requires lo <= hi <= |s|
    ensures Rearranged(s, s, lo, hi)
  {
  }

  lemma RearrangedChain<T>(s: seq<T>, t: seq<T>, u: seq<T>, lo: nat, hi: nat)
    requires Rearranged(s, t, lo, hi) && Rearranged(t, u, lo, hi)
    ensures Rearranged(s, u, lo, hi)
  {
  }

  lemma SwapRearranges<T>(s: seq<T>, was: seq<T>, x: nat, y: nat, lo: nat, hi: nat)
    requires Rearranged(s, was, lo, hi) && lo <= x < hi && lo <= y < hi
    ensures Rearranged(s[x := s[y]][y := s[x]], was, lo, hi)
  {
    hide Permuted;
    var t := s[x := s[y]][y := s[x]];
    SwapPermutes(s[lo..hi], x - lo, y - lo);
    SwapInside(s, x, y, lo, hi);
    PermutedChain(t[lo..hi], s[lo..hi], was[lo..hi]);
  }

  lemma SwapInside<T>(s: seq<T>, x: nat, y: nat, lo: nat, hi: nat)
    requires lo <= x < hi <= |s| && lo <= y < hi
    ensures var t, u := s[x := s[y]][y := s[x]], s[lo..hi];
      && t[lo..hi] == u[x - lo := u[y - lo]][y - lo := u[x - lo]]
      && t[..lo] == s[..lo] && t[hi..] == s[hi..]
  {
  }

  method Swap<T>(a: array<T>, x: nat, y: nat, ghost was: seq<T>, ghost lo: nat, ghost hi: nat)
    requires Rearranged(a[..], was, lo, hi) && lo <= x < hi && lo <= y < hi && hi <= a.Length
    modifies a
    ensures forall k :: 0 <= k < a.Length ==> a[k] == old(a[if k == x then y else if k == y then x else k])
    ensures Rearranged(a[..], was, lo, hi)
  {
    hide Permuted, Rearranged;
    SwapRearranges(a[..], was, x, y, lo, hi);
    ghost var next := a[..][x := a[y]][y := a[x]];
    a[x], a[y] := a[y], a[x];
    assert a[..] == next;
  }

  /** One of two values is not above `v` and the other is not below it. */
  ghost predicate Between<T>(v: T, x: T, y: T, less: (T, T) -> bool) {
    (!less(v, x) && !less(y, v)) || (!less(v, y) && !less(x, v))
  }

  /** The two comparisons, and a third one when they differ, single out the median. */
  lemma MedianOfThree<T(!new)>(x: T, y: T, z: T, less: (T, T) -> bool)
    requires StrictWeakOrder(less)
    ensures if less(x, y) == less(y, z) then Between(y, x, z, less)
      else if less(x, z) == less(y, z) then Between(x, y, z, less)
      else Between(z, x, y, less)
  {
  }

  /** Bring the median of the first, the middle and the last element to the front; the other two end up
      in the middle and at the end. */
  method MedianToFront<T(!new)>(a: array<T>, p: nat, n: nat, less: (T, T) -> bool)
    requires 12 < n && p + n <= a.Length && StrictWeakOrder(less)
    modifies a
    ensures Rearranged(a[..], old(a[..]), p, p + n)
    ensures Between(a[p], a[p + n / 2], a[p + n - 1], less)
  {
    hide Permuted, Rearranged, StrictWeakOrder, Between;
    ghost var was := a[..];
    RearrangedSelf(was, p, p + n);
    var m := n / 2;
    MedianOfThree(a[p], a[p + m], a[p + n - 1], less);
    var c01 := less(a[p], a[p + m]);
    var c12 := less(a[p + m], a[p + n - 1]);
    if c01 != c12 {
      var c := less(a[p], a[p + n - 1]);
      var z := if c == c12 then 0 else n - 1;
      Swap(a, p + z, p + m, was, p, p + n);
    }
    Swap(a, p, p + m, was, p, p + n);
  }

  /** The state at the head of the partition loop, in absolute indices: `[p + 1, i)` holds nothing above the
      pivot, `(j, p + n)` nothing below it, and `w` is a sentinel that stops the upward scan. */
  ghost predicate Scanning<T>(s: seq<T>, p: nat, hi: nat, i: nat, j: nat, w: nat, less: (T, T) -> bool) {
    && p < i <= w < hi <= |s| && j < hi && i <= j + 1 && w <= j + 1
    && !less(s[w], s[p])
    && NoneAbove(s, p, i, s[p], less)
    && NoneBelow(s, j + 1, hi, s[p], less)
  }

  /** The upward scan stops at the sentinel at the latest. */
  method ScanUp<T(!new)>(a: array<T>, p: nat, start: nat, ghost hi: nat, ghost w: nat, less: (T, T) -> bool)
    returns (i: nat)
    requires p < start <= w < hi <= a.Length && !less(a[w], a[p])
    ensures start <= i <= w && !less(a[i], a[p])
    ensures forall k :: start <= k < i ==> less(a[k], a[p])
  {
    i := start;
    while true
      invariant start <= i <= w
      invariant forall k :: start <= k < i ==> less(a[k], a[p])
      decreases w - i
    {
      if !less(a[i], a[p]) {
        break;
      }
      i := i + 1;
    }
  }

  /** The downward scan stops at the sentinel `u` at the latest. */
  method ScanDown<T(!new)>(a: array<T>, p: nat, start: nat, ghost u: nat, less: (T, T) -> bool)
    returns (j: nat)
    requires p <= u <= start < a.Length && !less(a[p], a[u])
    ensures u <= j <= start && !less(a[p], a[j])
    ensures forall k :: j < k <= start ==> less(a[p], a[k])
  {
    j := start;
    while true
      invariant u <= j <= start
      invariant forall k :: j < k <= start ==> less(a[p], a[k])
      decreases j - u
    {
      if !less(a[p], a[j]) {
        break;
      }
      j := j - 1;
    }
  }

  /** Scanning from both ends keeps what is known about them, and the scans cross by at most one. */
  lemma ScansMeet<T(!new)>(s: seq<T>, p: nat, hi: nat, i0: nat, j0: nat, w: nat, i: nat, j: nat, less: (T, T) -> bool)
    requires StrictWeakOrder(less) && Scanning(s, p, hi, i0, j0, w, less)
    requires i0 <= i <= w && !less(s[i], s[p]) && forall k :: i0 <= k < i ==> less(s[k], s[p])
    requires i0 - 1 <= j <= j0 && !less(s[p], s[j]) && forall k :: j < k <= j0 ==> less(s[p], s[k])
    ensures i <= j + 1
    ensures NoneAbove(s, p, i, s[p], less) && NoneBelow(s, j + 1, hi, s[p], less)
  {
    forall k | p <= k < i ensures !less(s[p], s[k]) {
      if k >= i0 {
        Asymmetric(s[k], s[p], less);
      }
    }
    forall k | j + 1 <= k < hi ensures !less(s[k], s[p]) {
      if k <= j0 {
        Asymmetric(s[p], s[k], less);
      }
    }
    if i > j + 1 {
      ScansCross(s, s[p], i0, j0, i, j, less);
      assert false;
    }
  }

  /** If the scans crossed by more, each would have passed the element after `j`. */
  lemma ScansCross<T>(s: seq<T>, v: T, i0: nat, j0: nat, i: nat, j: nat, less: (T, T) -> bool)
    requires i0 <= j + 1 < i <= |s| && j < j0 < |s|
    requires forall k :: i0 <= k < i ==> less(s[k], v)
    requires forall k :: j < k <= j0 ==> less(v, s[k])
    ensures less(s[j + 1], v) && less(v, s[j + 1])
  {
  }

  /** Swapping the two elements the scans stopped at, and stepping over them. */
  lemma SwapScanned<T>(s: seq<T>, t: seq<T>, p: nat, hi: nat, i: nat, j: nat, less: (T, T) -> bool)
    requires p < i < j < hi <= |s| && |t| == |s|
    requires !less(s[i], s[p]) && !less(s[p], s[j])
    requires NoneAbove(s, p, i, s[p], less) && NoneBelow(s, j + 1, hi, s[p], less)
    requires forall k :: 0 <= k < |s| ==> t[k] == s[if k == i then j else if k == j then i else k]
    ensures Scanning(t, p, hi, i + 1, j - 1, j, less)
  {
  }

  /** Where the scans met the range is parted. */
  lemma Parted<T(!new)>(s: seq<T>, p: nat, hi: nat, i: nat, j: nat, less: (T, T) -> bool)
    requires StrictWeakOrder(less) && p < i < hi <= |s| && p <= j <= i <= j + 1
    requires !less(s[p], s[j]) && !less(s[i], s[p])
    requires NoneAbove(s, p, i, s[p], less) && NoneBelow(s, j + 1, hi, s[p], less)
    ensures PartedAt(s[p..hi], j - p, i - p, less)
  {
    forall x, y | x in s[p..i] && y in s[i..hi] ensures !less(y, x) {
      Chain(x, s[p], y, less);
    }
    assert s[p..hi][..i - p] == s[p..i] && s[p..hi][i - p..] == s[i..hi];
  }

  /** Both scans of one round, in absolute indices. */
  method ScanBoth<T(!new)>(a: array<T>, p: nat, ghost hi: nat, i0: nat, j0: nat, ghost w: nat, less: (T, T) -> bool)
    returns (i: nat, j: nat)
    requires StrictWeakOrder(less) && Scanning(a[..], p, hi, i0, j0, w, less)
    ensures i0 <= i <= w && p <= j <= j0 && hi <= a.Length && i <= j + 1 && w < hi && j0 < hi && p < i0
    ensures !less(a[i], a[p]) && !less(a[p], a[j])
    ensures NoneAbove(a[..], p, i, a[p], less) && NoneBelow(a[..], j + 1, hi, a[p], less)
  {
    hide StrictWeakOrder, Scanning, NoneAbove, NoneBelow;
    ScanningGives(a[..], p, hi, i0, j0, w, less);
    i := ScanUp(a, p, i0, hi, w, less);
    j := ScanDown(a, p, j0, i0 - 1, less);
    ScansMeet(a[..], p, hi, i0, j0, w, i, j, less);
  }

  /** Partition `a[p..p + n]` around the median of three. `i` and `j` are counted from `p`. */
  method Partition<T(!new)>(a: array<T>, p: nat, n: nat, less: (T, T) -> bool) returns (i: nat, j: nat)
    requires 12 < n && p + n <= a.Length && StrictWeakOrder(less)
    modifies a
    ensures Rearranged(a[..], old(a[..]), p, p + n)
    ensures PartedAt(a[p..p + n], j, i, less)
    ensures MetAtTie(a[p..p + n], j, i, less)
  {
    hide Permuted, Rearranged, StrictWeakOrder, PartedAt, Scanning, NoneAbove, NoneBelow, MetAtTie;
    MedianToFront(a, p, n, less);
    ghost var w: nat := if !less(a[p + n / 2], a[p]) then p + n / 2 else p + n - 1;
    StartScanning(a[..], p, p + n, w, less);
    i, j := PartitionLoop(a, p, n, w, old(a[..]), less);
  }

  method PartitionLoop<T(!new)>(a: array<T>, p: nat, n: nat, ghost start: nat, ghost was: seq<T>, less: (T, T) -> bool)
    returns (i: nat, j: nat)
    requires 12 < n && p + n <= a.Length && StrictWeakOrder(less)
    requires Scanning(a[..], p, p + n, p + 1, p + n - 1, start, less) && Rearranged(a[..], was, p, p + n)
    modifies a
    ensures Rearranged(a[..], was, p, p + n)
    ensures PartedAt(a[p..p + n], j, i, less)
    ensures MetAtTie(a[p..p + n], j, i, less)
  {
    hide Permuted, Rearranged, StrictWeakOrder, PartedAt, Scanning, NoneAbove, NoneBelow;
    ghost var hi: nat, w: nat := p + n, start;
    i := 1;
    j := n - 1;
    while true
      invariant 1 <= i && Scanning(a[..], p, hi, p + i, p + j, w, less)
      invariant Rearranged(a[..], was, p, hi)
      decreases n - i
    {
      var up, down := ScanBoth(a, p, hi, p + i, p + j, w, less);
      i, j := up - p, down - p;
      if i >= j {
        Parted(a[..], p, hi, up, down, less);
        assert a[..][p..hi] == a[p..p + n];
        Meeting(a[..], p, hi, up, down, less);
        return;
      }
      ghost var s := a[..];
      Swap(a, p + i, p + j, was, p, hi);
      SwapScanned(s, a[..], p, hi, up, down, less);
      w := down;
      i := i + 1;
      j := j - 1;
    }
  }

  /** The scans stop at one element only if it compares like the pivot. */
  ghost predicate MetAtTie<T>(s: seq<T>, j: int, i: int, less: (T, T) -> bool) {
    i == j ==> 0 < j < |s| && !less(s[j], s[0]) && !less(s[0], s[j])
  }

  lemma Meeting<T>(s: seq<T>, p: nat, hi: nat, i: nat, j: nat, less: (T, T) -> bool)
    requires p < i < hi <= |s| && p <= j <= i && !less(s[i], s[p]) && !less(s[p], s[j])
    ensures MetAtTie(s[p..hi], j - p, i - p, less)
  {
  }

  /** No two elements compare alike. */
  ghost predicate NoTies<T>(s: seq<T>, less: (T, T) -> bool) {
    forall x, y :: 0 <= x < y < |s| ==> less(s[x], s[y]) || less(s[y], s[x])
  }

  /** So without ties every partition leaves an element out of both of its parts, and no later step of the
      quicksort sees it. */
  lemma LeftOut<T(!new)>(s: seq<T>, j: nat, i: nat, less: (T, T) -> bool)
    requires StrictWeakOrder(less) && NoTies(s, less) && PartedAt(s, j, i, less) && MetAtTie(s, j, i, less)
    ensures i == j + 1 && s == s[..j] + [s[j]] + s[i..]
    ensures s[j] !in s[..j] && s[j] !in s[i..]
  {
  }

  lemma StartScanning<T(!new)>(s: seq<T>, p: nat, hi: nat, w: nat, less: (T, T) -> bool)
    requires StrictWeakOrder(less) && p < w < hi <= |s| && !less(s[w], s[p])
    ensures Scanning(s, p, hi, p + 1, hi - 1, w, less)
  {
  }

  lemma ScanningGives<T>(s: seq<T>, p: nat, hi: nat, i: nat, j: nat, w: nat, less: (T, T) -> bool)
    requires Scanning(s, p, hi, i, j, w, less)
    ensures p < i <= w < hi <= |s| && j < hi && i <= j + 1 && !less(s[w], s[p]) && !less(s[p], s[i - 1])
  {
  }

  ghost predicate Finishes<T>(t: seq<T>, cur: seq<T>, less: (T, T) -> bool) {
    Permuted(t, cur) && NearlySorted(t, less)
  }

  /** Sorting what is left, `cur`, in whatever nearly sorted order, makes the whole nearly sorted. */
  ghost predicate Completes<T(!new)>(pre: seq<T>, cur: seq<T>, post: seq<T>, less: (T, T) -> bool) {
    forall t: seq<T> :: Finishes(t, cur, less) ==> NearlySorted(pre + t + post, less)
  }

  /** A partition with both of its parts nearly sorted is nearly sorted. */
  lemma Assemble<T>(s: seq<T>, j: nat, i: nat, l: seq<T>, r: seq<T>, less: (T, T) -> bool)
    requires PartedAt(s, j, i, less)
    requires Permuted(l, s[..j]) && Permuted(r, s[i..]) && NearlySorted(l, less) && NearlySorted(r, less)
    ensures Permuted(l + s[j..i] + r, s) && NearlySorted(l + s[j..i] + r, less)
  {
    hide NearlySorted;
    var mid := s[j..i];
    var t := l + mid + r;
    PermutedLength(l, s[..j]);
    PermutedLength(r, s[i..]);
    assert s == s[..j] + mid + s[i..];
    assert t[..j] == l && t[i..] == r && t[..i] == l + mid && s[..i] == s[..j] + mid;
    forall x, y | x in t[..i] && y in t[i..] ensures !less(y, x) {
      PermutedMember(l, s[..j], x);
      PermutedMember(r, s[i..], y);
    }
    NearlyAssembled(t, j, i, less);
  }

  lemma NearlyAssembled<T>(t: seq<T>, j: nat, i: nat, less: (T, T) -> bool)
    requires PartedAt(t, j, i, less) && NearlySorted(t[..j], less) && NearlySorted(t[i..], less)
    ensures NearlySorted(t, less)
  {
  }

  lemma PermutedLength<T>(s: seq<T>, t: seq<T>)
    requires Permuted(s, t)
    ensures |s| == |t|
  {
    assert |multiset(s)| == |s| && |multiset(t)| == |t|;
  }

  lemma PermutedMember<T>(s: seq<T>, t: seq<T>, x: T)
    requires Permuted(s, t)
    ensures x in s <==> x in t
  {
    assert x in s <==> x in multiset(s);
    assert x in t <==> x in multiset(t);
  }

  /** Rearranging what is left to do does not change what completes it. */
  lemma AfterPartition<T(!new)>(s: seq<T>, t: seq<T>, lo: nat, p: nat, q: nat, hi: nat, less: (T, T) -> bool)
    requires lo <= p <= q <= hi <= |s| && Completes(s[lo..p], s[p..q], s[q..hi], less) && Rearranged(t, s, p, q)
    ensures |t| == |s| && Completes(t[lo..p], t[p..q], t[q..hi], less)
  {
    hide NearlySorted, Permuted;
    OutsideSame(s, t, lo, p, q, hi);
    forall u: seq<T> | Finishes(u, t[p..q], less) ensures Finishes(u, s[p..q], less) {
      PermutedChain(u, t[p..q], s[p..q]);
    }
  }

  lemma OutsideSame<T>(s: seq<T>, t: seq<T>, lo: nat, p: nat, q: nat, hi: nat)
    requires lo <= p <= q <= hi <= |s| && Rearranged(t, s, p, q)
    ensures |t| == |s| && t[lo..p] == s[lo..p] && t[q..hi] == s[q..hi]
  {
    assert t[lo..p] == t[..p][lo..] && s[lo..p] == s[..p][lo..];
    assert t[q..hi] == t[q..][..hi - q] && s[q..hi] == s[q..][..hi - q];
  }

  lemma SameSlices<T>(s: seq<T>, t: seq<T>, a: nat, b: nat, c: nat, d: nat)
    requires a <= c <= d <= b <= |s| && |t| == |s| && t[a..b] == s[a..b]
    ensures t[c..d] == s[c..d]
  {
    SubSlice(s, a, b, c - a, d - a);
    SubSlice(t, a, b, c - a, d - a);
  }

  lemma SubSlice<T>(s: seq<T>, a: nat, b: nat, x: nat, y: nat)
    requires x <= y && a + y <= b <= |s|
    ensures s[a..b][x..y] == s[a + x..a + y]
  {
    var u := s[a..b];
    assert forall k :: x <= k < y ==> u[k] == s[a + k];
    assert forall k :: 0 <= k < y - x ==> u[x..y][k] == s[a + x..a + y][k];
  }

  lemma PartSlices<T>(s: seq<T>, p: nat, q: nat, j: nat, i: nat)
    requires p + j <= p + i <= q <= |s|
    ensures s[p..q][j..i] == s[p + j..p + i] && s[p..q][i..] == s[p + i..q] && s[p..q][..j] == s[p..p + j]
  {
    SubSlice(s, p, q, j, i);
    SubSlice(s, p, q, i, q - p);
    SubSlice(s, p, q, 0, j);
  }

  /** The lower part is done: the upper part is left. */
  lemma AfterLower<T(!new)>(s: seq<T>, t: seq<T>, lo: nat, p: nat, q: nat, hi: nat, j: nat, i: nat,
                           less: (T, T) -> bool)
    requires lo <= p <= q <= hi <= |s| && Completes(s[lo..p], s[p..q], s[q..hi], less)
    requires PartedAt(s[p..q], j, i, less) && Rearranged(t, s, p, p + j) && NearlySorted(t[p..p + j], less)
    ensures |t| == |s| && p + i <= q && Completes(t[lo..p + i], t[p + i..q], t[q..hi], less)
  {
    hide NearlySorted, Permuted, PartedAt;
    PartedBounds(s[p..q], j, i, less);
    var cur, l := s[p..q], t[p..p + j];
    OutsideSame(s, t, lo, p, p + j, hi);
    SameSlices(s, t, p + j, hi, p + j, p + i);
    SameSlices(s, t, p + j, hi, p + i, q);
    SameSlices(s, t, p + j, hi, q, hi);
    PartSlices(s, p, q, j, i);
    var left := t[p + i..q];
    forall u: seq<T> | Finishes(u, left, less)
      ensures NearlySorted(t[lo..p + i] + u + t[q..hi], less)
    {
      Assemble(cur, j, i, l, u, less);
      assert t[lo..p + i] == s[lo..p] + (l + cur[j..i]);
      assert t[lo..p + i] + u + t[q..hi] == s[lo..p] + (l + cur[j..i] + u) + s[q..hi];
    }
  }

  /** The upper part is done: the lower part is left. */
  lemma AfterUpper<T(!new)>(s: seq<T>, t: seq<T>, lo: nat, p: nat, q: nat, hi: nat, j: nat, i: nat,
                           less: (T, T) -> bool)
    requires lo <= p <= q <= hi <= |s| && Completes(s[lo..p], s[p..q], s[q..hi], less)
    requires PartedAt(s[p..q], j, i, less) && Rearranged(t, s, p + i, q) && NearlySorted(t[p + i..q], less)
    ensures |t| == |s| && p + j <= q && Completes(t[lo..p], t[p..p + j], t[p + j..hi], less)
  {
    hide NearlySorted, Permuted, PartedAt;
    PartedBounds(s[p..q], j, i, less);
    var cur, r := s[p..q], t[p + i..q];
    OutsideSame(s, t, lo, p + i, q, hi);
    SameSlices(s, t, lo, p + i, lo, p);
    SameSlices(s, t, lo, p + i, p, p + j);
    SameSlices(s, t, lo, p + i, p + j, p + i);
    PartSlices(s, p, q, j, i);
    forall u: seq<T> | Finishes(u, t[p..p + j], less)
      ensures NearlySorted(t[lo..p] + u + t[p + j..hi], less)
    {
      Assemble(cur, j, i, u, r, less);
      assert t[p + j..hi] == cur[j..i] + r + s[q..hi];
      assert t[lo..p] + u + t[p + j..hi] == s[lo..p] + (u + cur[j..i] + r) + s[q..hi];
    }
  }

  lemma PartedBounds<T>(s: seq<T>, j: nat, i: nat, less: (T, T) -> bool)
    requires PartedAt(s, j, i, less)
    ensures j <= i <= j + 1 && j < |s| && 0 < i <= |s|
  {
  }

  lemma Widen<T>(s: seq<T>, was: seq<T>, p: nat, q: nat, lo: nat, hi: nat)
    requires Rearranged(s, was, p, q) && lo <= p && q <= hi <= |s|
    ensures Rearranged(s, was, lo, hi)
  {
    hide Permuted;
    OutsideSame(was, s, lo, p, q, hi);
    assert s[..lo] == s[..p][..lo] && was[..lo] == was[..p][..lo];
    assert s[hi..] == s[q..][hi - q..] && was[hi..] == was[q..][hi - q..];
    PermutedMiddle(s[lo..p], s[p..q], was[p..q], s[q..hi]);
    assert s[lo..hi] == s[lo..p] + s[p..q] + s[q..hi];
    assert was[lo..hi] == was[lo..p] + was[p..q] + was[q..hi];
  }

  lemma PermutedMiddle<T>(pre: seq<T>, s: seq<T>, t: seq<T>, post: seq<T>)
    requires Permuted(s, t)
    ensures Permuted(pre + s + post, pre + t + post)
  {
  }

  lemma StartCompletes<T(!new)>(s: seq<T>, lo: nat, hi: nat, less: (T, T) -> bool)
    requires lo <= hi <= |s|
    ensures Completes(s[lo..lo], s[lo..hi], s[hi..hi], less)
  {
    hide NearlySorted;
    forall u: seq<T> | Finishes(u, s[lo..hi], less) ensures NearlySorted(s[lo..lo] + u + s[hi..hi], less) {
      assert s[lo..lo] + u + s[hi..hi] == u;
    }
  }

  lemma EndCompletes<T(!new)>(s: seq<T>, lo: nat, p: nat, q: nat, hi: nat, less: (T, T) -> bool)
    requires lo <= p <= q <= hi <= |s| && q - p <= 12 && Completes(s[lo..p], s[p..q], s[q..hi], less)
    ensures NearlySorted(s[lo..hi], less)
  {
    SmallIsNearly(s[p..q], less);
    hide NearlySorted;
    assert s[lo..hi] == s[lo..p] + s[p..q] + s[q..hi];
  }

  lemma SmallIsNearly<T>(s: seq<T>, less: (T, T) -> bool)
    requires |s| <= 12
    ensures NearlySorted(s, less) && Permuted(s, s)
  {
  }

  /** The loop invariant of the quicksort: `was[lo..hi]` has only been rearranged, and a nearly sorted
      `cur[p..q]` would complete it. */
  ghost predicate Progress<T(!new)>(cur: seq<T>, was: seq<T>, lo: nat, p: nat, q: nat, hi: nat, less: (T, T) -> bool) {
    && lo <= p <= q <= hi <= |cur| && Rearranged(cur, was, lo, hi)
    && Completes(cur[lo..p], cur[p..q], cur[q..hi], less)
  }

  lemma PartitionProgress<T(!new)>(s: seq<T>, t: seq<T>, was: seq<T>, lo: nat, p: nat, q: nat, hi: nat,
                                   less: (T, T) -> bool)
    requires Progress(s, was, lo, p, q, hi, less) && Rearranged(t, s, p, q)
    ensures Progress(t, was, lo, p, q, hi, less)
  {
    hide Completes, Rearranged;
    AfterPartition(s, t, lo, p, q, hi, less);
    Widen(t, s, p, q, lo, hi);
    RearrangedChain(t, s, was, lo, hi);
  }

  lemma LowerProgress<T(!new)>(s: seq<T>, t: seq<T>, was: seq<T>, lo: nat, p: nat, q: nat, hi: nat, j: nat, i: nat,
                               less: (T, T) -> bool)
    requires Progress(s, was, lo, p, q, hi, less) && PartedAt(s[p..q], j, i, less)
    requires p + j <= |t| && Rearranged(t, s, p, p + j) && NearlySorted(t[p..p + j], less)
    ensures Progress(t, was, lo, p + i, q, hi, less)
  {
    hide Completes, Rearranged, NearlySorted;
    AfterLower(s, t, lo, p, q, hi, j, i, less);
    PartedBounds(s[p..q], j, i, less);
    Widen(t, s, p, p + j, lo, hi);
    RearrangedChain(t, s, was, lo, hi);
  }

  lemma UpperProgress<T(!new)>(s: seq<T>, t: seq<T>, was: seq<T>, lo: nat, p: nat, q: nat, hi: nat, j: nat, i: nat,
                               less: (T, T) -> bool)
    requires Progress(s, was, lo, p, q, hi, less) && PartedAt(s[p..q], j, i, less)
    requires p + i <= q <= |t| && Rearranged(t, s, p + i, q) && NearlySorted(t[p + i..q], less)
    ensures Progress(t, was, lo, p, p + j, hi, less)
  {
    hide Completes, Rearranged, NearlySorted;
    AfterUpper(s, t, lo, p, q, hi, j, i, less);
    PartedBounds(s[p..q], j, i, less);
    Widen(t, s, p + i, q, lo, hi);
    RearrangedChain(t, s, was, lo, hi);
  }

  lemma StartProgress<T(!new)>(s: seq<T>, lo: nat, hi: nat, less: (T, T) -> bool)
    requires lo <= hi <= |s|
    ensures Progress(s, s, lo, lo, hi, hi, less)
  {
    hide Completes, Rearranged;
    RearrangedSelf(s, lo, hi);
    StartCompletes(s, lo, hi, less);
  }

  lemma EndProgress<T(!new)>(s: seq<T>, was: seq<T>, lo: nat, p: nat, q: nat, hi: nat, less: (T, T) -> bool)
    requires Progress(s, was, lo, p, q, hi, less) && q - p <= 12
    ensures Rearranged(s, was, lo, hi) && hi <= |s| && lo <= hi && NearlySorted(s[lo..hi], less)
  {
    EndCompletes(s, lo, p, q, hi, less);
  }

  /** `depth` calls inside one another, each on at most half of the range of the one around it. */
  ghost predicate Shallow(depth: nat, count: nat) {
    depth > 0 ==> Words.Pow2(depth) <= count
  }

  lemma OneDeeper(depth: nat, part: nat, count: nat)
    requires Shallow(depth, part) && 2 * part <= count && count > 12
    ensures Shallow(depth + 1, count)
  {
    if depth == 0 {
      assert Words.Pow2(1) == 2 * Words.Pow2(0);
    }
  }

  lemma Shallower(depth: nat, n: nat, count: nat)
    requires Shallow(depth, n) && n <= count
    ensures Shallow(depth, count)
  {
  }

  /** Partition while the range is longer than 12; recurse on the smaller part, go on with the larger. */
  method Quicksort<T(!new)>(a: array<T>, start: nat, count: nat, less: (T, T) -> bool) returns (ghost depth: nat)
    requires start + count <= a.Length && StrictWeakOrder(less)
    modifies a
    ensures Rearranged(a[..], old(a[..]), start, start + count)
    ensures NearlySorted(a[start..start + count], less)
    ensures Shallow(depth, count)
    decreases count
  {
    hide Permuted, Rearranged, StrictWeakOrder, PartedAt, NearlySorted, Progress;
    depth := 0;
    ghost var was, hi := a[..], start + count;
    var p: nat, n: nat := start, count;
    StartProgress(was, start, hi, less);
    ghost var inner;
    while n > 12
      invariant start <= p && p + n <= hi && n <= count && Shallow(depth, count)
      invariant Progress(a[..], was, start, p, p + n, hi, less)
      decreases n
    {
      ghost var s := a[..];
      var i, j := Partition(a, p, n, less);
      ghost var t := a[..];
      PartitionProgress(s, t, was, start, p, p + n, hi, less);
      assert t[p..p + n] == a[p..p + n];
      PartedBounds(a[p..p + n], j, i, less);
      if j < n - i {
        inner := Quicksort(a, p, j, less);
        OneDeeper(inner, j, n);
        assert a[..][p..p + j] == a[p..p + j];
        LowerProgress(t, a[..], was, start, p, p + n, hi, j, i, less);
        Shallower(inner + 1, n, count);
        p := p + i;
        n := n - i;
      } else {
        inner := Quicksort(a, p + i, n - i, less);
        OneDeeper(inner, n - i, n);
        assert a[..][p + i..p + n] == a[p + i..p + n];
        UpperProgress(t, a[..], was, start, p, p + n, hi, j, i, less);
        Shallower(inner + 1, n, count);
        n := j;
      }
      depth := if inner + 1 > depth then inner + 1 else depth;
    }
    EndProgress(a[..], was, start, p, p + n, hi, less);
    assert a[..][start..hi] == a[start..hi];
  }

  // ---- both ----

  /** Sort the first `n` edges: the result is sorted, and it is a permutation. */
  method SortEdges<T(!new)>(a: array<T>, n: nat, less: (T, T) -> bool)
    requires n <= a.Length && StrictWeakOrder(less)
    modifies a
    ensures Sorted(a[..n], less)
    ensures Permuted(a[..n], old(a[..n])) && a[n..] == old(a[n..])
  {
    ghost var depth := Quicksort(a, 0, n, less);
    ghost var s := a[..];
    assert s[0..n] == a[..n] && old(a[..])[0..n] == old(a[..n]);
    InsSort(a, n, less);
  }
}
