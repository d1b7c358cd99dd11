/** Substring search with a precomputed failure table, `frozen::knuth_morris_pratt_searcher`. */
module Kmp {

  /** The first `k` characters of `p` also end its first `j` characters. */
  ghost predicate Border(p: string, k: int, j: int) {
    0 <= k < j <= |p| && p[..k] == p[j - k..j]
  }

  /** A border of the first `j` characters after which a mismatch at `j` could be repaired. */
  ghost predicate Fallback(p: string, k: int, j: int) {
    Border(p, k, j) && j < |p| && p[k] != p[j]
  }

  /** `c` is the longest border after which the next character differs, or -1 if there is none. */
  ghost predicate LongestFallback(p: string, c: int, j: int) {
    && (c == -1 || Fallback(p, c, j))
    && forall k | k > c :: !Fallback(p, k, j)
  }

  ghost predicate LongestBorder(p: string, c: int, j: int) {
    Border(p, c, j) && forall k | k > c :: !Border(p, k, j)
  }

  /** Below a border `c` of `j`, the borders of `j` are those of `c`. */
  lemma BordersNest(p: string, k: int, c: int, j: int)
    requires Border(p, c, j) && k < c
    ensures Border(p, k, j) <==> Border(p, k, c)
  {
    if 0 <= k {
      assert p[..c][c - k..] == p[c - k..c];
      assert p[j - c..j][c - k..] == p[j - k..j];
    }
  }

  /** A border grows by one character exactly when the next characters agree. */
  lemma BorderGrows(p: string, k: int, j: int)
    requires 0 <= k && 0 < j < |p|
    ensures Border(p, k + 1, j + 1) <==> Border(p, k, j) && p[k] == p[j]
  {
    if k < j {
      assert p[..k + 1] == p[..k] + [p[k]];
      assert p[j - k..j + 1] == p[j - k..j] + [p[j]];
    }
  }

  /** Equal characters at `pos` and at its longest border: the table entry is shared. */
  lemma SharedFallback(p: string, pos: int, cnd: int, c: int)
    requires pos < |p| && LongestBorder(p, cnd, pos) && p[pos] == p[cnd]
    requires LongestFallback(p, c, cnd)
    ensures LongestFallback(p, c, pos)
    ensures LongestBorder(p, cnd + 1, pos + 1)
  {
    forall k ensures Fallback(p, k, pos) <==> Fallback(p, k, cnd) {
      if k < cnd {
        BordersNest(p, k, cnd, pos);
      }
    }
    var next := pos + 1;
    BorderGrows(p, cnd, pos);
    forall k | k > cnd + 1 ensures !Border(p, k, next) {
      BorderGrows(p, k - 1, pos);
    }
  }

  /** Borders of `pos` longer than `c` cannot be extended by the character at `pos`. */
  ghost predicate NoneExtends(p: string, c: int, pos: int)
    requires 0 <= pos < |p|
  {
    forall k | k > c && Border(p, k, pos) :: p[k] != p[pos]
  }

  /** Following the table from a border that cannot be extended skips no border that can. */
  lemma FollowTable(p: string, cnd: int, c: int, pos: int)
    requires 0 < pos < |p| && Border(p, cnd, pos) && p[cnd] != p[pos] && NoneExtends(p, cnd, pos)
    requires LongestFallback(p, c, cnd)
    ensures c == -1 || Border(p, c, pos)
    ensures NoneExtends(p, c, pos)
  {
    if c != -1 {
      BordersNest(p, c, cnd, pos);
    }
    forall k | k > c && Border(p, k, pos) ensures p[k] != p[pos] {
      if k < cnd {
        BordersNest(p, k, cnd, pos);
        assert !Fallback(p, k, cnd);
      }
    }
  }

  /** The search for an extendable border ended at `c`. */
  lemma BorderFound(p: string, c: int, pos: int)
    requires 0 < pos < |p| && NoneExtends(p, c, pos)
    requires c == -1 || (Border(p, c, pos) && p[c] == p[pos])
    ensures LongestBorder(p, c + 1, pos + 1)
  {
    if c >= 0 {
      BorderGrows(p, c, pos);
    }
    var next := pos + 1;
    forall k | k > c + 1 ensures !Border(p, k, next) {
      if k >= 1 {
        BorderGrows(p, k - 1, pos);
      }
    }
  }

  ghost predicate TableUpTo(needle: string, cache: seq<int>, n: int) {
    n <= |cache| && forall j | 0 <= j < n :: -1 <= cache[j] < j && LongestFallback(needle, cache[j], j)
  }

  lemma TableKept(needle: string, cache: seq<int>, cache': seq<int>, n: int)
    requires TableUpTo(needle, cache, n) && n <= |cache'| && forall j | 0 <= j < n :: cache'[j] == cache[j]
    ensures TableUpTo(needle, cache', n)
  {
  }

  /** The inner loop of `build_kmp_cache`: from border to border until one can be extended. */
  method FollowMismatches(needle: string, cache: array<int>, pos: int, border: int) returns (cnd: int, ghost steps: nat)
    requires 0 < pos < |needle| && TableUpTo(needle, cache[..], pos)
    requires LongestBorder(needle, border, pos) && needle[border] != needle[pos]
    ensures -1 <= cnd < pos && NoneExtends(needle, cnd, pos)
    ensures cnd == -1 || (Border(needle, cnd, pos) && needle[cnd] == needle[pos])
    ensures steps + cnd <= border - 1
  {
    FollowTable(needle, border, cache[border], pos);
    cnd := cache[border];
    steps := 0;
    while cnd >= 0 && needle[pos] != needle[cnd]
      invariant -1 <= cnd < border
      invariant cnd == -1 || Border(needle, cnd, pos)
      invariant NoneExtends(needle, cnd, pos)
      invariant steps + cnd <= border - 1
    {
      assert LongestFallback(needle, cache[..][cnd], cnd);
      FollowTable(needle, cnd, cache[cnd], pos);
      steps := steps + 1;
      cnd := cache[cnd];
    }
  }

  /** `build_kmp_cache`; `steps` counts comparisons of characters. */
  method BuildKmpCache(needle: string) returns (cache: array<int>, ghost steps: nat)
    requires |needle| >= 1
    ensures fresh(cache) && cache.Length == |needle|
    ensures TableUpTo(needle, cache[..], |needle|)
    ensures steps <= 3 * |needle|
  {
    var cnd := 0;
    cache := new int[|needle|](_ => -1);
    steps := 0;
    for pos := 1 to |needle|
      invariant LongestBorder(needle, cnd, pos)
      invariant TableUpTo(needle, cache[..], pos)
      invariant steps + cnd <= 3 * (pos - 1)
    {
      steps := steps + 1;
      if needle[pos] == needle[cnd] {
        SharedFallback(needle, pos, cnd, cache[cnd]);
        cache[pos] := cache[cnd];
        cnd := cnd + 1;
      } else {
        ghost var table := cache[..];
        cache[pos] := cnd;
        TableKept(needle, table, cache[..], pos);
        ghost var tried;
        cnd, tried := FollowMismatches(needle, cache, pos, cnd);
        steps := steps + tried;
        steps := steps + 1;
        BorderFound(needle, cnd, pos);
        cnd := cnd + 1;
      }
    }
  }

  ghost predicate OccursAt(needle: string, text: string, at: int) {
    0 <= at <= |text| - |needle| && text[at..at + |needle|] == needle
  }

  ghost predicate NoneBefore(needle: string, text: string, at: int) {
    forall s | s < at :: !OccursAt(needle, text, s)
  }

  /** The last `i` characters read are the first `i` of the needle. */
  ghost predicate Matched(needle: string, text: string, iter: int, i: int) {
    0 <= i <= iter <= |text| && i <= |needle| && text[iter - i..iter] == needle[..i]
  }

  lemma OneMoreMatched(needle: string, text: string, iter: int, i: int)
    requires Matched(needle, text, iter, i) && i < |needle| && iter < |text| && text[iter] == needle[i]
    ensures Matched(needle, text, iter + 1, i + 1)
    ensures i + 1 == |needle| ==> OccursAt(needle, text, iter - i)
  {
    assert text[iter - i..iter + 1] == text[iter - i..iter] + [text[iter]];
    assert needle[..i + 1] == needle[..i] + [needle[i]];
    if i + 1 == |needle| {
      assert needle[..i + 1] == needle;
      assert iter - i + |needle| == iter + 1;
    }
  }

  /** No occurrence begins `k` characters before a mismatch unless `k` is at most the table's border. */
  lemma NotHere(needle: string, text: string, iter: int, i: int, c: int, k: int)
    requires Matched(needle, text, iter, i) && i < |needle| && iter < |text| && text[iter] != needle[i]
    requires LongestFallback(needle, c, i) && c < k <= i
    ensures !OccursAt(needle, text, iter - k)
  {
    var s := iter - k;
    if 0 <= s <= |text| - |needle| {
      var here := text[s..s + |needle|];
      assert here[k] == text[iter];
      assert here[..k] == text[s..iter] == text[iter - i..iter][i - k..] == needle[i - k..i];
      assert !Fallback(needle, k, i);
    }
  }

  /** After a mismatch the needle may be moved to the table's border without passing an occurrence. */
  lemma ShiftIsSafe(needle: string, text: string, iter: int, i: int, c: int)
    requires Matched(needle, text, iter, i) && i < |needle| && iter < |text| && text[iter] != needle[i]
    requires NoneBefore(needle, text, iter - i) && LongestFallback(needle, c, i)
    ensures NoneBefore(needle, text, iter - c)
    ensures c >= 0 ==> Matched(needle, text, iter, c)
  {
    forall s | iter - i <= s < iter - c ensures !OccursAt(needle, text, s) {
      NotHere(needle, text, iter, i, c, iter - s);
    }
    if c >= 0 {
      assert needle[i - c..i] == text[iter - i..iter][i - c..] == text[iter - c..iter];
    }
  }

  /** The search itself.  The result is a range of the text: the first occurrence of the
    * needle, or empty at the end if there is none. */
  method Search(needle: string, step: array<int>, text: string) returns (first: nat, last: nat, ghost steps: nat)
    requires |needle| >= 1 && step.Length == |needle| && TableUpTo(needle, step[..], |needle|)
    ensures first == last ==> first == |text| && forall s :: !OccursAt(needle, text, s)
    ensures first != last ==>
      last == first + |needle| && OccursAt(needle, text, first) && NoneBefore(needle, text, first)
    ensures steps <= 2 * |text|
  {
    var i, iter := 0, 0;
    steps := 0;
    while iter != |text|
      invariant 0 <= i < |needle| && Matched(needle, text, iter, i)
      invariant NoneBefore(needle, text, iter - i)
      invariant steps + 2 * (|text| - iter) + i <= 2 * |text|
      decreases 2 * (|text| - iter) + i
    {
      steps := steps + 1;
      if needle[i] == text[iter] {
        OneMoreMatched(needle, text, iter, i);
        if i == |needle| - 1 {
          return iter - i, iter - i + |needle|, steps;
        }
        i := i + 1;
        iter := iter + 1;
      } else {
        ShiftIsSafe(needle, text, iter, i, step[i]);
        if step[i] > -1 {
          i := step[i];
        } else {
          iter := iter + 1;
          i := 0;
        }
      }
    }
    return |text|, |text|, steps;
  }

  method FindFirst(needle: string, text: string) returns (first: nat, last: nat)
    requires |needle| >= 1
    ensures first == last ==> first == |text| && forall s :: !OccursAt(needle, text, s)
    ensures first != last ==>
      last == first + |needle| && OccursAt(needle, text, first) && NoneBefore(needle, text, first)
  {
    var step, _ := BuildKmpCache(needle);
    var f, l, _ := Search(needle, step, text);
    return f, l;
  }
}
