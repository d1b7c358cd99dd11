/** The perfect hash of `frozen::unordered_map`.  The random generator is an oracle: the
  * finite sequence of numbers it will still produce.  Every result is about the tables that
  * are returned before it runs dry.
  */
module PerfectHash {
  import opened Bits
  import opened Powers
  import opened Sorting
  import opened Wrappers

  const UNUSED: nat := 0xffff_ffff_ffff_ffff
  const HIGH_BIT: nat := 0x8000_0000_0000_0000

  class Prg {
    var seeds: seq<nat>

    method Next() returns (seed: Option<nat>)
      modifies this
      ensures if old(seeds) == [] then seed == None && seeds == []
        else seed == Some(old(seeds)[0]) && seeds == old(seeds)[1..]
    {
      if |seeds| == 0 {
        return None;
      }
      seed, seeds := Some(seeds[0]), seeds[1..];
    }
  }

  /** `seed_or_index`: the high bit of the word says which. */
  datatype SeedOrIndex = SeedOrIndex(value: nat) {
    predicate IsSeed() {
      value >= HIGH_BIT
    }
  }

  function MakeEntry(isSeed: bool, v: nat): (r: SeedOrIndex)
    ensures r.IsSeed() == isSeed
    ensures !isSeed && v < HIGH_BIT ==> r.value == v
  {
    if isSeed then SeedOrIndex(v % HIGH_BIT + HIGH_BIT) else SeedOrIndex(v % HIGH_BIT)
  }

  type Hasher<!K> = (K, nat) -> nat

  datatype Tables = Tables(firstSeed: nat, first: seq<SeedOrIndex>, second: seq<nat>)

  /** `pmh_tables::lookup` */
  function Lookup<K>(t: Tables, hash: Hasher<K>, key: K): nat
    requires |t.first| == |t.second| > 0
  {
    var m := |t.first|;
    var d := t.first[hash(key, t.firstSeed) % m];
    if !d.IsSeed() then d.value else t.second[hash(key, d.value) % m]
  }

  // ----- step one: buckets --------------------------------------------------------------------

  function BucketMax(m: nat): nat
    requires m > 0
  {
    2 * Power(Log2(m) / 2)
  }

  /** Twice the square root of the size, that rounded down to a power of two. */
  lemma BucketLimit(m: nat)
    requires m > 0
    ensures exists k: nat :: BucketMax(m) == 2 * Power(k) && Power(k) * Power(k) <= m < 4 * (Power(k) * Power(k))
  {
    Log2Range(m);
    var k := Log2(m) / 2;
    PowerSquare(k);
    assert Power(2 * k + 1) == 2 * Power(2 * k) && Power(2 * k + 2) == 4 * Power(2 * k);
    PowerMonotone(2 * k, Log2(m));
    PowerMonotone(Log2(m) + 1, 2 * k + 2);
  }

  lemma {:induction false} PowerSquare(k: nat)
    ensures Power(k) * Power(k) == Power(2 * k)
  {
    if k > 0 {
      PowerSquare(k - 1);
      assert Power(2 * k) == 2 * Power(2 * k - 1) == 4 * Power(2 * (k - 1));
      Doubled(Power(k - 1));
    }
  }

  lemma Doubled(p: nat)
    ensures (2 * p) * (2 * p) == 4 * (p * p)
  {
  }

  /** The items among the first `n` that hash to bucket `b`, in order. */
  function BucketOf<K>(items: seq<K>, hash: Hasher<K>, seed: nat, m: nat, b: nat, n: nat): (s: seq<nat>)
    requires n <= |items| && m > 0
    ensures forall x: nat :: x in s <==> x < n && hash(items[x], seed) % m == b
    ensures forall i, j | 0 <= i < j < |s| :: s[i] < s[j]
  {
    if n == 0 then []
    else
      var s := BucketOf(items, hash, seed, m, b, n - 1);
      assert forall i | 0 <= i < |s| :: s[i] in s;
      assert forall x: nat :: x in s + [n - 1] <==> x in s || x == n - 1;
      if hash(items[n - 1], seed) % m == b then s + [n - 1] else s
  }

  /** `make_pmh_buckets`: new seeds until no bucket overflows. */
  method MakeBuckets<K>(items: seq<K>, hash: Hasher<K>, m: nat, prg: Prg)
      returns (ok: bool, seed: nat, buckets: array<seq<nat>>)
    requires m > 0
    modifies prg
    ensures fresh(buckets) && buckets.Length == m
    ensures !ok ==> prg.seeds == []
    ensures ok ==> forall b | 0 <= b < m ::
      buckets[b] == BucketOf(items, hash, seed, m, b, |items|) && |buckets[b]| <= BucketMax(m)
  {
    buckets := new seq<nat>[m](_ => []);
    seed := 0;
    while true
      invariant fresh(buckets) && buckets.Length == m
      decreases |prg.seeds|
    {
      ghost var supply := prg.seeds;
      for b := 0 to m
        invariant prg.seeds == supply
        invariant forall c | 0 <= c < b :: buckets[c] == []
      {
        buckets[b] := [];
      }
      var next := prg.Next();
      if next.None? {
        return false, seed, buckets;
      }
      seed := next.value;
      var rejected := false;
      for i := 0 to |items|
        invariant !rejected && |prg.seeds| < |supply|
        invariant forall b | 0 <= b < m ::
          buckets[b] == BucketOf(items, hash, seed, m, b, i) && |buckets[b]| <= BucketMax(m)
      {
        var b := hash(items[i], seed) % m;
        if |buckets[b]| >= BucketMax(m) {
          rejected := true;
          break;
        }
        buckets[b] := buckets[b] + [i];
      }
      if !rejected {
        return true, seed, buckets;
      }
    }
  }

  // ----- step two: larger buckets first ------------------------------------------------------------

  datatype BucketRef = BucketRef(hash: nat, items: seq<nat>)

  function BySize(): (BucketRef, BucketRef) -> bool {
    (x: BucketRef, y: BucketRef) => |x.items| > |y.items|
  }

  /** Each bucket once, in some order. */
  ghost predicate Lists(refs: seq<BucketRef>, buckets: seq<seq<nat>>) {
    && (forall b | 0 <= b < |buckets| :: BucketRef(b, buckets[b]) in refs)
    && (forall r <- refs :: r.hash < |buckets| && r.items == buckets[r.hash])
    && (forall i, j | 0 <= i < j < |refs| :: refs[i].hash != refs[j].hash)
  }

  /** `get_sorted_buckets` */
  method SortedBuckets(buckets: seq<seq<nat>>) returns (refs: seq<BucketRef>)
    ensures Lists(refs, buckets) && Sorted(refs, BySize())
    ensures forall i, j | 0 <= i < j < |refs| :: |refs[i].items| >= |refs[j].items|
  {
    var unsorted := seq(|buckets|, b requires 0 <= b < |buckets| => BucketRef(b, buckets[b]));
    refs := SortedCopy(unsorted, BySize());
    ListsAnyOrder(unsorted, refs, buckets);
  }

  lemma ListsAnyOrder(s: seq<BucketRef>, t: seq<BucketRef>, buckets: seq<seq<nat>>)
    requires |s| == |buckets| && forall b | 0 <= b < |s| :: s[b] == BucketRef(b, buckets[b])
    requires multiset(s) == multiset(t)
    ensures Lists(t, buckets)
  {
    forall r | r in t ensures r in s {
      assert r in multiset(t);
    }
    forall b | 0 <= b < |buckets| ensures BucketRef(b, buckets[b]) in t {
      assert s[b] in multiset(s);
    }
    forall i, j | 0 <= i < j < |t| ensures t[i].hash != t[j].hash {
      assert t[i] in t && t[j] in t;
      if t[i].hash == t[j].hash {
        TwiceInMultiset(t, i, j);
        OnceInMultiset(s, t[i].hash);
      }
    }
  }

  lemma TwiceInMultiset<T>(t: seq<T>, i: int, j: int)
    requires 0 <= i < j < |t| && t[i] == t[j]
    ensures multiset(t)[t[i]] >= 2
  {
    assert t == t[..i] + [t[i]] + t[i + 1..j] + [t[j]] + t[j + 1..];
  }

  lemma OnceInMultiset(s: seq<BucketRef>, b: nat)
    requires b < |s| && forall i, j | 0 <= i < j < |s| :: s[i] != s[j]
    ensures multiset(s)[s[b]] == 1
  {
    assert s == s[..b] + [s[b]] + s[b + 1..];
    assert s[b] !in s[..b] && s[b] !in s[b + 1..];
  }

  // ----- step three: slots ------------------------------------------------------------------------------

  /** Item `x` is found through the tables made so far. */
  ghost predicate Placed<K>(items: seq<K>, hash: Hasher<K>, seed: nat, g: seq<SeedOrIndex>, h: seq<nat>, x: nat)
    requires |g| == |h| > 0 && x < |items|
  {
    Lookup(Tables(seed, g, h), hash, items[x]) == x
  }

  /** Filled slots keep what they hold. */
  ghost predicate Extends(h: seq<nat>, h': seq<nat>) {
    |h| == |h'| && forall s | 0 <= s < |h| :: h[s] != UNUSED ==> h'[s] == h[s]
  }

  ghost predicate InBounds(g: seq<SeedOrIndex>, h: seq<nat>, n: nat) {
    && (forall b | 0 <= b < |g| :: g[b].IsSeed() || g[b].value < n)
    && (forall s | 0 <= s < |h| :: h[s] == UNUSED || h[s] < n)
  }

  /** A later bucket does not disturb an item of an earlier one. */
  lemma StaysPlaced<K>(items: seq<K>, hash: Hasher<K>, seed: nat, g: seq<SeedOrIndex>, h: seq<nat>,
                       b: nat, d: SeedOrIndex, h': seq<nat>, x: nat)
    requires |g| == |h| > 0 && x < |items| < HIGH_BIT && b < |g|
    requires Placed(items, hash, seed, g, h, x) && Extends(h, h')
    requires hash(items[x], seed) % |g| != b
    ensures Placed(items, hash, seed, g[b := d], h', x)
  {
  }

  predicate AllDifferentFrom(data: seq<nat>, a: nat) {
    forall i | 0 <= i < |data| :: data[i] != a
  }

  /** Slots tried for the first items of a bucket under `d`. */
  ghost predicate FreeSlots<K>(items: seq<K>, hash: Hasher<K>, bucket: seq<nat>, d: SeedOrIndex, h: seq<nat>,
      slots: seq<nat>)
    requires |h| > 0 && |slots| <= |bucket| && forall i | 0 <= i < |bucket| :: bucket[i] < |items|
  {
    && (forall i | 0 <= i < |slots| :: slots[i] == hash(items[bucket[i]], d.value) % |h| && h[slots[i]] == UNUSED)
    && (forall i, j | 0 <= i < j < |slots| :: slots[i] != slots[j])
  }

  /** The seed search for one bucket: every item gets a free slot of its own. */
  method FindSlots<K>(items: seq<K>, hash: Hasher<K>, bucket: seq<nat>, h: array<nat>, prg: Prg)
      returns (ok: bool, d: SeedOrIndex, slots: seq<nat>)
    requires h.Length > 0 && forall i | 0 <= i < |bucket| :: bucket[i] < |items|
    modifies prg
    ensures !ok ==> prg.seeds == []
    ensures ok ==> d.IsSeed() && |slots| == |bucket| && FreeSlots(items, hash, bucket, d, h[..], slots)
  {
    slots := [];
    d := MakeEntry(true, 0);
    var next := prg.Next();
    if next.None? {
      return false, d, slots;
    }
    d := MakeEntry(true, next.value);
    while |slots| < |bucket|
      invariant d.IsSeed() && |slots| <= |bucket|
      invariant FreeSlots(items, hash, bucket, d, h[..], slots)
      decreases |prg.seeds|, |bucket| - |slots|
    {
      var slot := hash(items[bucket[|slots|]], d.value) % h.Length;
      if h[slot] != UNUSED || !AllDifferentFrom(slots, slot) {
        slots := [];
        next := prg.Next();
        if next.None? {
          return false, d, slots;
        }
        d := MakeEntry(true, next.value);
        continue;
      }
      slots := slots + [slot];
    }
    ok := true;
  }

  method FillSlots(bucket: seq<nat>, slots: seq<nat>, h: array<nat>)
    requires |slots| == |bucket| && forall i | 0 <= i < |slots| :: slots[i] < h.Length && h[slots[i]] == UNUSED
    requires forall i, j | 0 <= i < j < |slots| :: slots[i] != slots[j]
    modifies h
    ensures forall i | 0 <= i < |slots| :: h[slots[i]] == bucket[i]
    ensures forall s | 0 <= s < h.Length && s !in slots :: h[s] == old(h[s])
    ensures Extends(old(h[..]), h[..])
  {
    for i := 0 to |bucket|
      invariant forall j | 0 <= j < i :: h[slots[j]] == bucket[j]
      invariant forall s | 0 <= s < h.Length && s !in slots :: h[s] == old(h[s])
    {
      h[slots[i]] := bucket[i];
    }
  }

  /** One bucket of step three. */
  method PlaceBucket<K>(items: seq<K>, hash: Hasher<K>, seed: nat, r: BucketRef, g: array<SeedOrIndex>,
      h: array<nat>, prg: Prg)
      returns (ok: bool, ghost d: SeedOrIndex)
    requires |items| < HIGH_BIT && g.Length == h.Length > 0 && r.hash < g.Length
    requires forall i | 0 <= i < |r.items| :: r.items[i] < |items| && hash(items[r.items[i]], seed) % g.Length == r.hash
    requires InBounds(g[..], h[..], |items|)
    modifies g, h, prg
    ensures !ok ==> prg.seeds == []
    ensures ok && |r.items| > 0 ==> g[..] == old(g[..])[r.hash := d]
    ensures |r.items| == 0 ==> g[..] == old(g[..])
    ensures ok ==> InBounds(g[..], h[..], |items|) && Extends(old(h[..]), h[..])
    ensures ok ==> forall i | 0 <= i < |r.items| :: Placed(items, hash, seed, g[..], h[..], r.items[i])
  {
    d := SeedOrIndex(0);
    if |r.items| == 1 {
      d := MakeEntry(false, r.items[0]);
      g[r.hash] := MakeEntry(false, r.items[0]);
    } else if |r.items| > 1 {
      var found, entry, slots := FindSlots(items, hash, r.items, h, prg);
      if !found {
        return false, d;
      }
      d := entry;
      g[r.hash] := entry;
      FillSlots(r.items, slots, h);
    }
    ok := true;
  }

  /** The buckets are those of step one. */
  ghost predicate Bucketed<K>(items: seq<K>, hash: Hasher<K>, seed: nat, buckets: seq<seq<nat>>) {
    |buckets| > 0 && forall b | 0 <= b < |buckets| :: buckets[b] == BucketOf(items, hash, seed, |buckets|, b, |items|)
  }

  lemma BucketIsSound<K>(items: seq<K>, hash: Hasher<K>, seed: nat, buckets: seq<seq<nat>>, refs: seq<BucketRef>,
      k: nat)
    requires Bucketed(items, hash, seed, buckets) && Lists(refs, buckets) && k < |refs|
    ensures refs[k].hash < |buckets|
    ensures forall i | 0 <= i < |refs[k].items| ::
      refs[k].items[i] < |items| && hash(items[refs[k].items[i]], seed) % |buckets| == refs[k].hash
  {
    assert refs[k] in refs;
    forall i | 0 <= i < |refs[k].items|
      ensures refs[k].items[i] < |items| && hash(items[refs[k].items[i]], seed) % |buckets| == refs[k].hash
    {
      assert refs[k].items[i] in buckets[refs[k].hash];
    }
  }

  /** The items of the first `k` buckets are found. */
  ghost predicate PlacedUpTo<K>(items: seq<K>, hash: Hasher<K>, seed: nat, refs: seq<BucketRef>, k: nat,
                                g: seq<SeedOrIndex>, h: seq<nat>)
    requires |g| == |h| > 0 && k <= |refs|
  {
    forall j, i | 0 <= j < k && 0 <= i < |refs[j].items| ::
      refs[j].items[i] < |items| && Placed(items, hash, seed, g, h, refs[j].items[i])
  }

  lemma OneMorePlaced<K>(items: seq<K>, hash: Hasher<K>, seed: nat, buckets: seq<seq<nat>>, refs: seq<BucketRef>,
      k: nat, g: seq<SeedOrIndex>, h: seq<nat>, d: SeedOrIndex, g': seq<SeedOrIndex>, h': seq<nat>)
    requires Bucketed(items, hash, seed, buckets) && Lists(refs, buckets) && k < |refs|
    requires |g| == |h| == |g'| == |h'| == |buckets| && |items| < HIGH_BIT
    requires PlacedUpTo(items, hash, seed, refs, k, g, h) && Extends(h, h')
    requires refs[k].hash < |g| && g' == if |refs[k].items| == 0 then g else g[refs[k].hash := d]
    requires forall i | 0 <= i < |refs[k].items| ::
      refs[k].items[i] < |items| && Placed(items, hash, seed, g', h', refs[k].items[i])
    ensures PlacedUpTo(items, hash, seed, refs, k + 1, g', h')
  {
    assert g[refs[k].hash := g[refs[k].hash]] == g;
    forall j, i | 0 <= j < k && 0 <= i < |refs[j].items|
      ensures refs[j].items[i] < |items| && Placed(items, hash, seed, g', h', refs[j].items[i])
    {
      var x := refs[j].items[i];
      assert refs[j] in refs && x in buckets[refs[j].hash];
      StaysPlaced(items, hash, seed, g, h, refs[k].hash, g'[refs[k].hash], h', x);
    }
  }

  lemma EveryItemPlaced<K>(items: seq<K>, hash: Hasher<K>, seed: nat, buckets: seq<seq<nat>>, refs: seq<BucketRef>,
                           g: seq<SeedOrIndex>, h: seq<nat>)
    requires Bucketed(items, hash, seed, buckets) && Lists(refs, buckets) && |g| == |h| == |buckets|
    requires PlacedUpTo(items, hash, seed, refs, |refs|, g, h)
    ensures forall x: nat | x < |items| :: Placed(items, hash, seed, g, h, x)
  {
    forall x: nat | x < |items| ensures Placed(items, hash, seed, g, h, x) {
      var b := hash(items[x], seed) % |buckets|;
      assert BucketRef(b, buckets[b]) in refs && x in buckets[b];
      var j :| 0 <= j < |refs| && refs[j] == BucketRef(b, buckets[b]);
      var i :| 0 <= i < |buckets[b]| && buckets[b][i] == x;
      assert refs[j].items[i] == x;
    }
  }

  /** Every entry leads to an index below `n`. */
  ghost predicate InRange(t: Tables, n: nat) {
    && (forall b | 0 <= b < |t.first| :: t.first[b].IsSeed() || t.first[b].value < n)
    && (forall s | 0 <= s < |t.second| :: t.second[s] < n)
  }

  lemma LookupInRange<Q>(t: Tables, n: nat, hash: Hasher<Q>, key: Q)
    requires |t.first| == |t.second| > 0 && InRange(t, n)
    ensures Lookup(t, hash, key) < n
  {
  }

  ghost predicate AllPlaced<K>(items: seq<K>, hash: Hasher<K>, t: Tables)
    requires |t.first| == |t.second| > 0
  {
    forall x | 0 <= x < |items| :: Lookup(t, hash, items[x]) == x
  }

  /** The loop of step three. */
  method PlaceAll<K>(items: seq<K>, hash: Hasher<K>, seed: nat, buckets: seq<seq<nat>>, refs: seq<BucketRef>,
                     g: array<SeedOrIndex>, h: array<nat>, prg: Prg) returns (ok: bool)
    requires Bucketed(items, hash, seed, buckets) && Lists(refs, buckets) && |items| < HIGH_BIT
    requires g.Length == h.Length == |buckets| && InBounds(g[..], h[..], |items|)
    modifies g, h, prg
    ensures !ok ==> prg.seeds == []
    ensures ok ==> InBounds(g[..], h[..], |items|)
    ensures ok ==> forall x: nat | x < |items| :: Placed(items, hash, seed, g[..], h[..], x)
  {
    for k := 0 to |refs|
      invariant InBounds(g[..], h[..], |items|)
      invariant PlacedUpTo(items, hash, seed, refs, k, g[..], h[..])
    {
      ghost var g0, h0 := g[..], h[..];
      BucketIsSound(items, hash, seed, buckets, refs, k);
      var placed, d := PlaceBucket(items, hash, seed, refs[k], g, h, prg);
      if !placed {
        return false;
      }
      OneMorePlaced(items, hash, seed, buckets, refs, k, g0, h0, d, g[..], h[..]);
    }
    EveryItemPlaced(items, hash, seed, buckets, refs, g[..], h[..]);
    ok := true;
  }

  function Cleared(h: seq<nat>): (r: seq<nat>)
    ensures |r| == |h| && forall s | 0 <= s < |h| :: r[s] == if h[s] == UNUSED then 0 else h[s]
  {
    seq(|h|, s requires 0 <= s < |h| => if h[s] == UNUSED then 0 else h[s])
  }

  /** Unused slots become 0, so that a lookup is never out of range. */
  method ClearUnused(h: array<nat>)
    modifies h
    ensures h[..] == Cleared(old(h[..]))
  {
    for i := 0 to h.Length
      invariant forall s | 0 <= s < h.Length :: h[s] == if s < i && old(h[s]) == UNUSED then 0 else old(h[s])
    {
      if h[i] == UNUSED {
        h[i] := 0;
      }
    }
  }

  lemma LookupAfterClearing<K>(items: seq<K>, hash: Hasher<K>, seed: nat, g: seq<SeedOrIndex>, h: seq<nat>)
    requires |g| == |h| > 0 && 1 <= |items| < HIGH_BIT && InBounds(g, h, |items|)
    requires forall x: nat | x < |items| :: Placed(items, hash, seed, g, h, x)
    ensures AllPlaced(items, hash, Tables(seed, g, Cleared(h)))
    ensures InRange(Tables(seed, g, Cleared(h)), |items|)
  {
    var before, after := Tables(seed, g, h), Tables(seed, g, Cleared(h));
    forall x: nat | x < |items| ensures Lookup(after, hash, items[x]) == x {
      assert Placed(items, hash, seed, g, h, x);
    }
  }

  /** `make_pmh_tables`: whenever it returns, each key is found at its own index, and
    * every entry leads to an index in range (`LookupInRange`: any key at all does). */
  method MakeTables<K>(items: seq<K>, hash: Hasher<K>, m: nat, prg: Prg) returns (r: Option<Tables>)
    requires 1 <= |items| < HIGH_BIT && m > 0
    modifies prg
    ensures r.None? ==> prg.seeds == []
    ensures r.Some? ==> |r.value.first| == |r.value.second| == m
    ensures r.Some? ==> AllPlaced(items, hash, r.value)
    ensures r.Some? ==> InRange(r.value, |items|)
  {
    var made, seed, step := MakeBuckets(items, hash, m, prg);
    if !made {
      return None;
    }
    var buckets := step[..];
    var refs := SortedBuckets(buckets);
    var g := new SeedOrIndex[m](_ => SeedOrIndex(0));
    var h := new nat[m](_ => UNUSED);
    var placed := PlaceAll(items, hash, seed, buckets, refs, g, h, prg);
    if !placed {
      return None;
    }
    LookupAfterClearing(items, hash, seed, g[..], h[..]);
    ClearUnused(h);
    r := Some(Tables(seed, g[..], h[..]));
  }

  /** Tables exist only for pairwise distinct keys. */
  lemma KeysAreDistinct<K>(items: seq<K>, hash: Hasher<K>, t: Tables, i: nat, j: nat)
    requires |t.first| == |t.second| > 0 && AllPlaced(items, hash, t)
    requires i < j < |items|
    ensures items[i] != items[j]
  {
    assert Lookup(t, hash, items[i]) == i;
    assert Lookup(t, hash, items[j]) == j;
  }

  // ----- the map ---------------------------------------------------------------------------------------

  type Items<K, V> = seq<(K, V)>

  function Keys<K, V>(items: Items<K, V>): (keys: seq<K>)
    ensures |keys| == |items| && forall i | 0 <= i < |items| :: keys[i] == items[i].0
  {
    seq(|items|, i requires 0 <= i < |items| => items[i].0)
  }

  function StorageSize(n: nat): nat
    requires n >= 1
  {
    NextPower(n) * (if n < 32 then 2 else 1)
  }

  /** At least twice as many slots as items for a small map, at least as many for a large one, less
    * than twice that, and always a power of two. */
  lemma StorageRange(n: nat)
    requires n >= 1
    ensures var m := if n < 32 then 2 * n else n;
      m <= StorageSize(n) < 2 * m && exists e: nat :: StorageSize(n) == Power(e)
  {
    NextPowerIsLeast(n, Log2(n) + 1) by {
      Log2Range(n);
    }
    var e: nat :| NextPower(n) == Power(e);
    assert Power(e + 1) == 2 * Power(e);
    if n > 1 {
      Log2Range(n - 1);
    }
  }

  /** What the constructor establishes: tables of the right size, made for these keys. */
  ghost predicate Built<K, V>(items: Items<K, V>, t: Tables, hash: Hasher<K>) {
    && 1 <= |items| && |t.first| == |t.second| == StorageSize(|items|)
    && AllPlaced(Keys(items), hash, t) && InRange(t, |items|)
  }

  method MakeUnorderedMap<K, V>(items: Items<K, V>, hash: Hasher<K>, prg: Prg) returns (r: Option<Tables>)
    requires 1 <= |items| < HIGH_BIT
    modifies prg
    ensures r.None? ==> prg.seeds == []
    ensures r.Some? ==> Built(items, r.value, hash)
  {
    r := MakeTables(Keys(items), hash, StorageSize(|items|), prg);
  }

  /** The caller's comparison of an item's key with a key to be found, perhaps of another type. */
  type KeyEqual<!K, !Q> = (K, Q) -> bool

  /** `find_impl`: the position, or the size. */
  function FindImpl<K, V, Q>(items: Items<K, V>, t: Tables, ghost made: Hasher<K>, hash: Hasher<Q>,
      equal: KeyEqual<K, Q>, key: Q): nat
    requires Built(items, t, made)
  {
    LookupInRange(t, |items|, hash, key);
    var at := Lookup(t, hash, key);
    if equal(items[at].0, key) then at else |items|
  }

  /** `at_impl`; `None` is the thrown `std::out_of_range`. */
  function AtImpl<K, V, Q>(items: Items<K, V>, t: Tables, ghost made: Hasher<K>, hash: Hasher<Q>,
      equal: KeyEqual<K, Q>, key: Q): Option<V>
    requires Built(items, t, made)
  {
    LookupInRange(t, |items|, hash, key);
    var kv := items[Lookup(t, hash, key)];
    if equal(kv.0, key) then Some(kv.1) else None
  }

  function Count<K, V, Q>(items: Items<K, V>, t: Tables, ghost made: Hasher<K>, hash: Hasher<Q>,
      equal: KeyEqual<K, Q>, key: Q): nat
    requires Built(items, t, made)
  {
    LookupInRange(t, |items|, hash, key);
    if equal(items[Lookup(t, hash, key)].0, key) then 1 else 0
  }

  /** The position of the first item that equals `key`, or the size. */
  function Scan<K, V, Q>(items: Items<K, V>, equal: KeyEqual<K, Q>, key: Q): (r: nat)
    ensures r <= |items|
    ensures r < |items| ==> equal(items[r].0, key)
    ensures forall i | 0 <= i < r :: !equal(items[i].0, key)
  {
    if items == [] then 0 else if equal(items[0].0, key) then 0 else 1 + Scan(items[1..], equal, key)
  }

  /** Items that equal `key` hash as it does. */
  ghost predicate HashRespects<K, V, Q>(items: Items<K, V>, made: Hasher<K>, hash: Hasher<Q>,
      equal: KeyEqual<K, Q>, key: Q)
  {
    forall i, seed: nat | 0 <= i < |items| && equal(items[i].0, key) :: made(items[i].0, seed) == hash(key, seed)
  }

  /** For every comparison that the hash respects, the perfect hash answers as a linear scan does,
    * for present and for absent keys. */
  lemma MapIsScan<K, V, Q>(items: Items<K, V>, t: Tables, made: Hasher<K>, hash: Hasher<Q>,
      equal: KeyEqual<K, Q>, key: Q)
    requires Built(items, t, made) && HashRespects(items, made, hash, equal, key)
    ensures var r := Scan(items, equal, key);
      && FindImpl(items, t, made, hash, equal, key) == r
      && AtImpl(items, t, made, hash, equal, key) == (if r < |items| then Some(items[r].1) else None)
      && Count(items, t, made, hash, equal, key) == (if r < |items| then 1 else 0)
  {
    LookupInRange(t, |items|, hash, key);
    var r, at := Scan(items, equal, key), Lookup(t, hash, key);
    if r < |items| {
      assert Lookup(t, made, Keys(items)[r]) == r;
      SameLookup(t, made, hash, items[r].0, key);
    }
  }

  lemma SameLookup<K, Q>(t: Tables, made: Hasher<K>, hash: Hasher<Q>, k: K, q: Q)
    requires |t.first| == |t.second| > 0 && forall seed: nat :: made(k, seed) == hash(q, seed)
    ensures Lookup(t, made, k) == Lookup(t, hash, q)
  {
  }
}
