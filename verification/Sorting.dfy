/** The in-place quicksort of the frozen containers.  It recurses on a range that includes
  * the pivot, which may be the range it was given; `Unsettled` is why it still ends.
  */
module Sorting {

  ghost predicate StrictWeakOrder<T(!new)>(less: (T, T) -> bool) {
    && (forall x :: !less(x, x))
    && (forall x, y, z :: less(x, y) && less(y, z) ==> less(x, z))
    && (forall x, y, z :: less(x, z) ==> less(x, y) || less(y, z))
  }

  ghost predicate Sorted<T>(s: seq<T>, less: (T, T) -> bool) {
    forall i, j | 0 <= i < j < |s| :: !less(s[j], s[i])
  }

  /** No element of `s` is greater than one of `t`. */
  ghost predicate Below<T>(s: seq<T>, t: seq<T>, less: (T, T) -> bool) {
    forall i, j | 0 <= i < |s| && 0 <= j < |t| :: !less(t[j], s[i])
  }

  lemma BelowPermuted<T>(s: seq<T>, s': seq<T>, t: seq<T>, less: (T, T) -> bool)
    requires Below(s, t, less) && multiset(s) == multiset(s')
    ensures Below(s', t, less)
  {
    forall i, j | 0 <= i < |s'| && 0 <= j < |t| ensures !less(t[j], s'[i]) {
      assert s'[i] in multiset(s') && s'[i] in multiset(s);
    }
  }

  lemma SortedConcat<T>(s: seq<T>, t: seq<T>, less: (T, T) -> bool)
    requires Sorted(s, less) && Sorted(t, less) && Below(s, t, less)
    ensures Sorted(s + t, less)
  {
  }

  /** Some element of the range is greater than its last one. */
  ghost predicate Unsettled<T>(a: array<T>, left: int, right: int, less: (T, T) -> bool)
    requires 0 <= left && right < a.Length
    reads a
  {
    exists i | left <= i < right :: less(a[right], a[i])
  }

  /** `s` with two elements exchanged. */
  function Swapped<T>(s: seq<T>, i: int, j: int): seq<T>
    requires 0 <= i < |s| && 0 <= j < |s|
  {
    s[i := s[j]][j := s[i]]
  }

  lemma SwapPermutes<T>(s: seq<T>, i: int, j: int)
    requires 0 <= i < |s| && 0 <= j < |s|
    ensures multiset(Swapped(s, i, j)) == multiset(s)
  {
  }

  lemma SwapInside<T>(s: seq<T>, i: int, j: int, lo: int, hi: int)
    requires 0 <= lo <= i < hi <= |s| && lo <= j < hi
    ensures Swapped(s, i, j)[..lo] == s[..lo] && Swapped(s, i, j)[hi..] == s[hi..]
    ensures multiset(Swapped(s, i, j)[lo..hi]) == multiset(s[lo..hi])
  {
    assert Swapped(s, i, j)[lo..hi] == Swapped(s[lo..hi], i - lo, j - lo);
    SwapPermutes(s[lo..hi], i - lo, j - lo);
  }

  method Swap<T>(a: array<T>, i: int, j: int)
    requires 0 <= i < a.Length && 0 <= j < a.Length
    modifies a
    ensures a[..] == Swapped(old(a[..]), i, j)
    ensures a[i] == old(a[j]) && a[j] == old(a[i])
    ensures forall k | 0 <= k < a.Length && k != i && k != j :: a[k] == old(a[k])
  {
    var tmp := a[i];
    a[i] := a[j];
    a[j] := tmp;
  }

  /** `s` and `t` agree outside [lo, hi) and hold the same elements inside. */
  ghost predicate Rearranged<T>(s: seq<T>, t: seq<T>, lo: int, hi: int)
    requires 0 <= lo <= hi <= |s| && |s| == |t|
  {
    s[..lo] == t[..lo] && s[hi..] == t[hi..] && multiset(s[lo..hi]) == multiset(t[lo..hi])
  }

  lemma SwapRearranges<T>(s: seq<T>, i: int, j: int, lo: int, hi: int)
    requires 0 <= lo <= i < hi <= |s| && lo <= j < hi
    ensures Rearranged(s, Swapped(s, i, j), lo, hi)
  {
    SwapInside(s, i, j, lo, hi);
  }

  lemma NothingRearranged<T>(s: seq<T>, lo: int, hi: int)
    requires 0 <= lo <= hi <= |s|
    ensures Rearranged(s, s, lo, hi)
  {
  }

  lemma ThreeParts<T>(s: seq<T>, lo: int, lo': int, hi': int, hi: int)
    requires 0 <= lo <= lo' <= hi' <= hi <= |s|
    ensures s[lo..hi] == s[lo..lo'] + s[lo'..hi'] + s[hi'..hi]
  {
  }

  lemma SameOutside<T>(s: seq<T>, t: seq<T>, lo: int, lo': int, hi': int, hi: int)
    requires 0 <= lo <= lo' <= hi' <= hi <= |s| == |t|
    requires s[..lo'] == t[..lo'] && s[hi'..] == t[hi'..]
    ensures s[lo..lo'] == t[lo..lo'] && s[hi'..hi] == t[hi'..hi]
    ensures s[..lo] == t[..lo] && s[hi..] == t[hi..]
  {
    assert s[..lo'][lo..] == s[lo..lo'] && t[..lo'][lo..] == t[lo..lo'];
    assert s[hi'..][..hi - hi'] == s[hi'..hi] && t[hi'..][..hi - hi'] == t[hi'..hi];
    assert s[..lo'][..lo] == s[..lo] && t[..lo'][..lo] == t[..lo];
    assert s[hi'..][hi - hi'..] == s[hi..] && t[hi'..][hi - hi'..] == t[hi..];
  }

  lemma RearrangedTwice<T>(s: seq<T>, t: seq<T>, u: seq<T>, lo: int, hi: int, lo': int, hi': int)
    requires 0 <= lo <= lo' <= hi' <= hi <= |s| && |s| == |t| == |u|
    requires Rearranged(s, t, lo, hi) && Rearranged(t, u, lo', hi')
    ensures Rearranged(s, u, lo, hi)
  {
    SameOutside(t, u, lo, lo', hi', hi);
    ThreeParts(t, lo, lo', hi', hi);
    ThreeParts(u, lo, lo', hi', hi);
  }

  method Partition<T>(a: array<T>, from: int, right: int, less: (T, T) -> bool) returns (left: int)
    requires 0 <= from < right < a.Length
    requires forall x :: !less(x, x)
    modifies a
    ensures from <= left <= right
    ensures forall i | from <= i < left :: less(a[i], a[left])
    ensures forall i | left <= i <= right :: !less(a[i], a[left])
    ensures Rearranged(old(a[..]), a[..], from, right + 1)
    ensures left == right ==> old(Unsettled(a, from, right, less))
  {
    hide Rearranged;
    hide Swapped;
    var pivot := from + (right - from) / 2;
    var value := a[pivot];
    SwapRearranges(a[..], right, pivot, from, right + 1);
    Swap(a, right, pivot);
    ghost var start := a[..];
    left := MoveSmaller(a, from, right, value, less, pivot);
    if left == right {
      assert old(less(a[right], a[pivot]));
    }
    MoveLeft(a, from, left, right, right, start);
    RearrangedTwice(old(a[..]), start, a[..], from, right + 1, from, right + 1);
  }

  /** The loop of `partition`: what is less than `value` ends up before the rest. */
  method MoveSmaller<T>(a: array<T>, from: int, right: int, value: T, less: (T, T) -> bool, ghost pivot: int)
      returns (left: int)
    requires 0 <= from <= pivot < right < a.Length
    modifies a
    ensures from <= left <= right && a[right] == old(a[right])
    ensures forall i | from <= i < left :: less(a[i], value)
    ensures forall i | left <= i < right :: !less(a[i], value)
    ensures left == right ==> less(old(a[pivot]), value)
    ensures Rearranged(old(a[..]), a[..], from, right + 1)
  {
    hide Rearranged;
    left := from;
    NothingRearranged(a[..], from, right + 1);
    for it := left to right
      invariant from <= left <= it && a[right] == old(a[right])
      invariant forall i | from <= i < left :: less(a[i], value)
      invariant forall i | left <= i < it :: !less(a[i], value)
      invariant it <= pivot ==> a[pivot] == old(a[pivot])
      invariant left == it && it > pivot ==> less(old(a[pivot]), value)
      invariant Rearranged(old(a[..]), a[..], from, right + 1)
    {
      if less(a[it], value) {
        MoveLeft(a, from, left, it, right, old(a[..]));
        left := left + 1;
      }
    }
  }

  /** `cswap(*it, *left)` */
  method MoveLeft<T>(a: array<T>, ghost from: int, left: int, it: int, ghost right: int, ghost start: seq<T>)
    requires 0 <= from <= left <= it <= right < a.Length == |start|
    requires Rearranged(start, a[..], from, right + 1)
    modifies a
    ensures Rearranged(start, a[..], from, right + 1)
    ensures a[left] == old(a[it]) && a[it] == old(a[left])
    ensures forall i | 0 <= i < a.Length && i != it && i != left :: a[i] == old(a[i])
  {
    hide Rearranged;
    hide Swapped;
    SwapRearranges(a[..], it, left, from, right + 1);
    Swap(a, it, left);
    RearrangedTwice(start, old(a[..]), a[..], from, right + 1, from, right + 1);
  }

  /** The sorted prefix grows by a part that nothing to its right is less than. */
  lemma PrefixGrows<T(!new)>(s: seq<T>, u: seq<T>, from: int, left: int, p: int, right: int, less: (T, T) -> bool)
    requires 0 <= from <= left <= p <= right < |s| == |u|
    requires Sorted(s[from..left], less) && Below(s[from..left], s[left..right + 1], less)
    requires Rearranged(s, u, left, right + 1) && Sorted(u[left..p + 1], less)
    requires Below(u[left..p + 1], u[p + 1..right + 1], less)
    ensures Sorted(u[from..p + 1], less) && Below(u[from..p + 1], u[p + 1..right + 1], less)
  {
    var done, mid, rest := s[from..left], u[left..p + 1], u[p + 1..right + 1];
    assert done == s[..left][from..] && u[from..left] == u[..left][from..];
    assert u[from..p + 1] == done + mid;
    assert u[left..right + 1] == mid + rest;
    BelowRearranged(done, s[left..right + 1], mid + rest, less);
    assert forall i | 0 <= i < |mid| :: mid[i] == (mid + rest)[i];
    assert forall i | 0 <= i < |rest| :: rest[i] == (mid + rest)[i + |mid|];
    SortedConcat(done, mid, less);
  }

  lemma BelowRearranged<T>(s: seq<T>, t: seq<T>, t': seq<T>, less: (T, T) -> bool)
    requires Below(s, t, less) && multiset(t) == multiset(t')
    ensures Below(s, t', less)
  {
    forall i, j | 0 <= i < |s| && 0 <= j < |t'| ensures !less(t'[j], s[i]) {
      assert t'[j] in multiset(t') && t'[j] in multiset(t);
    }
  }

  /** The loop body of `quicksort`: partition, then sort up to and including the pivot. */
  method SortLeftPart<T(!new)>(a: array<T>, left: int, right: int, less: (T, T) -> bool) returns (p: int)
    requires 0 <= left < right < a.Length
    requires StrictWeakOrder(less)
    modifies a
    ensures left <= p <= right
    ensures Rearranged(old(a[..]), a[..], left, right + 1)
    ensures Sorted(a[left..p + 1], less) && Below(a[left..p + 1], a[p + 1..right + 1], less)
    decreases right - left, if Unsettled(a, left, right, less) then 1 else 0, 0
  {
    hide Rearranged;
    hide Sorted;
    hide Below;
    p := Partition(a, left, right, less);
    ghost var parted := a[..];
    PartedIsBelow(parted, left, p, right, less);
    Quicksort(a, left, p, less);
    RearrangedTwice(old(a[..]), parted, a[..], left, right + 1, left, p + 1);
    StillBelow(parted, a[..], left, p, right, less);
  }

  lemma PartedIsBelow<T(!new)>(s: seq<T>, left: int, p: int, right: int, less: (T, T) -> bool)
    requires 0 <= left <= p <= right < |s| && StrictWeakOrder(less)
    requires forall i | left <= i < p :: less(s[i], s[p])
    requires forall i | p <= i <= right :: !less(s[i], s[p])
    ensures Below(s[left..p + 1], s[p + 1..right + 1], less)
  {
    forall i, j | left <= i <= p < j <= right ensures !less(s[j], s[i]) {
      assert i < p ==> less(s[i], s[p]);
      assert !less(s[j], s[p]);
    }
  }

  lemma StillBelow<T>(s: seq<T>, t: seq<T>, left: int, p: int, right: int, less: (T, T) -> bool)
    requires 0 <= left <= p <= right < |s| == |t|
    requires Below(s[left..p + 1], s[p + 1..right + 1], less) && Rearranged(s, t, left, p + 1)
    ensures Below(t[left..p + 1], t[p + 1..right + 1], less)
  {
    assert t[p + 1..right + 1] == t[p + 1..][..right - p] == s[p + 1..][..right - p] == s[p + 1..right + 1];
    BelowPermuted(s[left..p + 1], t[left..p + 1], s[p + 1..right + 1], less);
  }

  /** At most one element remains. */
  lemma LastElement<T(!new)>(s: seq<T>, from: int, left: int, right: int, less: (T, T) -> bool)
    requires 0 <= from <= left <= right + 1 <= |s| && right <= left
    requires Sorted(s[from..left], less) && Below(s[from..left], s[left..right + 1], less)
    ensures Sorted(s[from..right + 1], less)
  {
    SortedConcat(s[from..left], s[left..right + 1], less);
    assert s[from..right + 1] == s[from..left] + s[left..right + 1];
  }

  /** Sorts a[from..right], both ends included. */
  method Quicksort<T(!new)>(a: array<T>, from: int, right: int, less: (T, T) -> bool)
    requires 0 <= from <= right + 1 <= a.Length
    requires StrictWeakOrder(less)
    modifies a
    ensures Rearranged(old(a[..]), a[..], from, right + 1)
    ensures Sorted(a[from..right + 1], less)
    decreases right - from, if from <= right && Unsettled(a, from, right, less) then 1 else 0, 1
  {
    hide Rearranged;
    var left := from;
    NothingRearranged(a[..], from, right + 1);
    while 0 < right - left
      invariant from <= left <= right + 1
      invariant Rearranged(old(a[..]), a[..], from, right + 1)
      invariant Sorted(a[from..left], less) && Below(a[from..left], a[left..right + 1], less)
      invariant left == from ==> a[..] == old(a[..])
      decreases right - left
    {
      ghost var before := a[..];
      var newPivot := SortLeftPart(a, left, right, less);
      RearrangedTwice(old(a[..]), before, a[..], from, right + 1, left, right + 1);
      PrefixGrows(before, a[..], from, left, newPivot, right, less);
      left := newPivot + 1;
    }
    LastElement(a[..], from, left, right, less);
    assert a[from..right + 1] == a[..][from..right + 1] && a[from..left] == a[..][from..left];
  }

  /** `quicksort` of a whole container: a sorted copy. */
  method SortedCopy<T(!new)>(items: seq<T>, less: (T, T) -> bool) returns (res: seq<T>)
    requires StrictWeakOrder(less)
    ensures Sorted(res, less) && multiset(res) == multiset(items)
  {
    var a := new T[|items|](i requires 0 <= i < |items| => items[i]);
    assert a[..] == items;
    Quicksort(a, 0, a.Length - 1, less);
    assert a[0..a.Length] == a[..];
    assert items == items[0..|items|];
    res := a[..];
  }
}
