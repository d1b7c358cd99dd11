/** `frozen::map`: items sorted once, found by an unrolled lower bound. */
module SortedMap {
  import opened Bits
  import opened Powers
  import opened Sorting
  import opened Wrappers

  // ----- lower bound ------------------------------------------------------------------------

  /** What is less than the value comes first. */
  ghost predicate Divided<T, V>(s: seq<T>, value: V, less: (T, V) -> bool) {
    forall i, j | 0 <= i < j < |s| :: less(s[j], value) ==> less(s[i], value)
  }

  /** `r` is the first position in [first, first + n) whose element is not less, or the end. */
  ghost predicate IsLowerBound<T, V>(s: seq<T>, first: nat, n: nat, value: V, less: (T, V) -> bool, r: nat)
    requires first + n <= |s|
  {
    && first <= r <= first + n
    && (forall i | first <= i < r :: less(s[i], value))
    && (forall i | r <= i < first + n :: !less(s[i], value))
  }

  predicate IsPower(p: nat) {
    p == 1 || (p > 1 && p % 2 == 0 && IsPower(p / 2))
  }

  lemma {:induction false} PowerIsPower(k: nat)
    ensures IsPower(Power(k))
  {
    if k > 0 {
      PowerIsPower(k - 1);
      assert Power(k) / 2 == Power(k - 1);
    }
  }

  /** `doit_fast`: halving a range of size one less than a power of two. */
  function DoItFast<T, V>(s: seq<T>, first: nat, n: nat, value: V, less: (T, V) -> bool): (r: nat)
    requires first + n <= |s| && IsPower(n + 1) && Divided(s, value, less)
    ensures IsLowerBound(s, first, n, value, less, r)
    decreases n
  {
    if n == 0 then first
    else
      var it := first + n / 2;
      DoItFast(s, if less(s[it], value) then it + 1 else first, n / 2, value, less)
  }

  /** `doitfirst`: peels off the largest such prefix until one is left. */
  function DoItFirst<T, V>(s: seq<T>, first: nat, n: nat, value: V, less: (T, V) -> bool): (r: nat)
    requires n >= 1 && first + n <= |s| && Divided(s, value, less)
    ensures IsLowerBound(s, first, n, value, less, r)
    decreases n
  {
    hide IsLowerBound;
    hide Divided;
    if NextPower(n) - 1 == n then
      PowerIsPower(Log2(n - 1) + 1);
      DoItFast(s, first, n, value, less)
    else if n == 1 then DoItFast(s, first, 1, value, less)
    else
      PrefixFits(n);
      var nextStart := NextPower(n) / 2 - 1;
      var it := first + nextStart;
      if less(s[it], value) then
        var r := DoItFirst(s, it + 1, n - nextStart - 1, value, less);
        RightPart(s, first, n, nextStart, value, less, r);
        r
      else
        var r := DoItFast(s, first, nextStart, value, less);
        LeftPart(s, first, n, nextStart, value, less, r);
        r
  }

  lemma RightPart<T, V>(s: seq<T>, first: nat, n: nat, k: nat, value: V, less: (T, V) -> bool, r: nat)
    requires k < n && first + n <= |s| && Divided(s, value, less) && less(s[first + k], value)
    requires IsLowerBound(s, first + k + 1, n - k - 1, value, less, r)
    ensures IsLowerBound(s, first, n, value, less, r)
  {
  }

  lemma LeftPart<T, V>(s: seq<T>, first: nat, n: nat, k: nat, value: V, less: (T, V) -> bool, r: nat)
    requires k < n && first + n <= |s| && Divided(s, value, less) && !less(s[first + k], value)
    requires IsLowerBound(s, first, k, value, less, r)
    ensures IsLowerBound(s, first, n, value, less, r)
  {
  }

  /** The prefix is one less than a power of two, and something is left after its pivot. */
  lemma PrefixFits(n: nat)
    requires n >= 2
    ensures NextPower(n) >= 2 && IsPower(NextPower(n) / 2) && NextPower(n) / 2 - 1 < n - 1
  {
    Log2Range(n - 1);
    assert NextPower(n) / 2 == Power(Log2(n - 1));
    PowerIsPower(Log2(n - 1));
  }

  // ----- the map --------------------------------------------------------------------------------

  type Items<K, V> = seq<(K, V)>

  /** `CompareKey` on two items. */
  function ByKey<K, V>(less: (K, K) -> bool): ((K, V), (K, V)) -> bool {
    (x: (K, V), y: (K, V)) => less(x.0, y.0)
  }

  /** `CompareKey` on an item and a key. */
  function ToKey<K, V>(less: (K, K) -> bool): ((K, V), K) -> bool {
    (x: (K, V), key: K) => less(x.0, key)
  }

  predicate Equivalent<K>(less: (K, K) -> bool, a: K, b: K) {
    !less(a, b) && !less(b, a)
  }

  /** `where` of `lower_bound_impl`: an index, or the size when the key is absent. */
  function LowerBoundImpl<K(!new), V>(items: Items<K, V>, less: (K, K) -> bool, key: K): (r: nat)
    requires |items| >= 1 && StrictWeakOrder(less) && Sorted(items, ByKey(less))
    ensures r <= |items|
    ensures r < |items| ==> Equivalent(less, items[r].0, key) && forall i | 0 <= i < r :: less(items[i].0, key)
    ensures r == |items| ==> forall i | 0 <= i < |items| :: !Equivalent(less, items[i].0, key)
  {
    SortedIsDivided(items, less, key);
    var at := DoItFirst(items, 0, |items|, key, ToKey(less));
    BoundMeaning(items, less, key, at);
    if at != |items| && !less(key, items[at].0) then at else |items|
  }

  /** An equivalent item can only be at the lower bound. */
  lemma BoundMeaning<K(!new), V>(items: Items<K, V>, less: (K, K) -> bool, key: K, at: nat)
    requires StrictWeakOrder(less) && Sorted(items, ByKey(less))
    requires IsLowerBound(items, 0, |items|, key, ToKey(less), at)
    ensures forall i | 0 <= i < at :: less(items[i].0, key)
    ensures at < |items| ==> !less(items[at].0, key)
    ensures at == |items| || less(key, items[at].0) ==>
      forall i | 0 <= i < |items| :: !Equivalent(less, items[i].0, key)
  {
    assert forall i | 0 <= i < at :: ToKey<K, V>(less)(items[i], key);
    assert forall i | at <= i < |items| :: !ToKey<K, V>(less)(items[i], key);
    if at < |items| && less(key, items[at].0) {
      forall i | at <= i < |items| ensures less(key, items[i].0) {
        assert i > at ==> !ByKey<K, V>(less)(items[i], items[at]);
      }
    }
  }

  lemma SortedIsDivided<K(!new), V>(items: Items<K, V>, less: (K, K) -> bool, key: K)
    requires StrictWeakOrder(less) && Sorted(items, ByKey(less))
    ensures Divided(items, key, ToKey(less))
  {
    forall i, j | 0 <= i < j < |items| && less(items[j].0, key) ensures less(items[i].0, key) {
      assert !ByKey<K, V>(less)(items[j], items[i]);
    }
  }

  function FindImpl<K(!new), V>(items: Items<K, V>, less: (K, K) -> bool, key: K): (r: nat)
    requires |items| >= 1 && StrictWeakOrder(less) && Sorted(items, ByKey(less))
    ensures r <= |items|
  {
    var at := LowerBoundImpl(items, less, key);
    if at != |items| && !less(key, items[at].0) then at else |items|
  }

  /** `at_impl`; `None` is the thrown `std::out_of_range`. */
  function AtImpl<K(!new), V>(items: Items<K, V>, less: (K, K) -> bool, key: K): Option<V>
    requires |items| >= 1 && StrictWeakOrder(less) && Sorted(items, ByKey(less))
  {
    var at := LowerBoundImpl(items, less, key);
    if at != |items| then Some(items[at].1) else None
  }

  /** `count`, by `binary_search` */
  function Count<K(!new), V>(items: Items<K, V>, less: (K, K) -> bool, key: K): nat
    requires |items| >= 1 && StrictWeakOrder(less) && Sorted(items, ByKey(less))
  {
    SortedIsDivided(items, less, key);
    var at := DoItFirst(items, 0, |items|, key, ToKey(less));
    if at != |items| && !less(key, items[at].0) then 1 else 0
  }

  /** The constructor. */
  method Make<K(!new), V(!new)>(input: Items<K, V>, less: (K, K) -> bool) returns (items: Items<K, V>)
    requires StrictWeakOrder(less)
    ensures Sorted(items, ByKey(less)) && multiset(items) == multiset(input)
  {
    ByKeyIsOrder<K, V>(less);
    items := SortedCopy(input, ByKey(less));
  }

  lemma ByKeyIsOrder<K(!new), V(!new)>(less: (K, K) -> bool)
    requires StrictWeakOrder(less)
    ensures StrictWeakOrder(ByKey<K, V>(less))
  {
    var onItems := ByKey<K, V>(less);
    forall x, y, z
      ensures !onItems(x, x)
      ensures onItems(x, y) && onItems(y, z) ==> onItems(x, z)
      ensures onItems(x, z) ==> onItems(x, y) || onItems(y, z)
    {
      assert !less(x.0, x.0);
      assert less(x.0, y.0) && less(y.0, z.0) ==> less(x.0, z.0);
      assert less(x.0, z.0) ==> less(x.0, y.0) || less(y.0, z.0);
    }
  }

  // ----- agreement with a linear scan --------------------------------------------------------------

  /** The first item of `input` whose key is equivalent. */
  function Scan<K, V>(input: Items<K, V>, less: (K, K) -> bool, key: K): Option<(K, V)> {
    if input == [] then None
    else if Equivalent(less, input[0].0, key) then Some(input[0])
    else Scan(input[1..], less, key)
  }

  ghost predicate DistinctKeys<K, V>(input: Items<K, V>, less: (K, K) -> bool) {
    forall i, j | 0 <= i < j < |input| :: !Equivalent(less, input[i].0, input[j].0)
  }

  lemma {:induction false} ScanFinds<K, V>(input: Items<K, V>, less: (K, K) -> bool, key: K)
    ensures match Scan(input, less, key)
      case Some(x) => x in input && Equivalent(less, x.0, key)
      case None => forall x <- input :: !Equivalent(less, x.0, key)
  {
    if input != [] {
      ScanFinds(input[1..], less, key);
    }
  }

  /** The position found holds an equivalent key, if there is one at all. */
  lemma FoundIfPresent<K(!new), V>(items: Items<K, V>, less: (K, K) -> bool, key: K)
    requires |items| >= 1 && StrictWeakOrder(less) && Sorted(items, ByKey(less))
    ensures var r := LowerBoundImpl(items, less, key);
      && FindImpl(items, less, key) == r
      && (r < |items| ==> Equivalent(less, items[r].0, key))
      && (r == |items| ==> forall x <- items :: !Equivalent(less, x.0, key))
      && Count(items, less, key) == (if r < |items| then 1 else 0)
  {
    SortedIsDivided(items, less, key);
    BoundMeaning(items, less, key, DoItFirst(items, 0, |items|, key, ToKey(less)));
  }

  /** For distinct keys, the sorted map answers as a linear scan of the original items does. */
  lemma MapIsScan<K(!new), V>(input: Items<K, V>, items: Items<K, V>, less: (K, K) -> bool, key: K)
    requires |input| >= 1 && StrictWeakOrder(less) && DistinctKeys(input, less)
    requires Sorted(items, ByKey(less)) && multiset(items) == multiset(input)
    ensures |items| == |input|
    ensures var r := FindImpl(items, less, key);
      match Scan(input, less, key)
      case Some(x) => r < |items| && items[r] == x && AtImpl(items, less, key) == Some(x.1)
        && Count(items, less, key) == 1
      case None => r == |items| && AtImpl(items, less, key) == None && Count(items, less, key) == 0
  {
    assert |items| == |multiset(items)| == |multiset(input)| == |input|;
    FoundIfPresent(items, less, key);
    ScanFinds(input, less, key);
    var r := LowerBoundImpl(items, less, key);
    assert forall x :: x in items <==> x in input by {
      assert forall x :: x in items <==> x in multiset(items);
      assert forall x :: x in input <==> x in multiset(input);
    }
    if r < |items| {
      assert items[r] in items && items[r] in input;
      var x := Scan(input, less, key).value;
      SameKeySameItem(input, less, x, items[r], key);
    }
  }

  lemma SameKeySameItem<K(!new), V>(input: Items<K, V>, less: (K, K) -> bool, x: (K, V), y: (K, V), key: K)
    requires StrictWeakOrder(less) && DistinctKeys(input, less) && x in input && y in input
    requires Equivalent(less, x.0, key) && Equivalent(less, y.0, key)
    ensures x == y
  {
    var i :| 0 <= i < |input| && input[i] == x;
    var j :| 0 <= j < |input| && input[j] == y;
    assert Equivalent(less, x.0, y.0) && Equivalent(less, y.0, x.0);
  }
}
