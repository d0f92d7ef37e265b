/** Keep-first deduplication (a `seen` set and a forward loop, as in
    `deduplicate_by_content`, `deduplicate_intelligently` and both
    `deduplicate_chapters`) and the stable sort by a lexicographic key that
    two of them apply. */
module KeepFirst {

  /** The keys occurring in `xs`. */
  function Keys<T, K(==)>(xs: seq<T>, key: T -> K): set<K> {
    set i | 0 <= i < |xs| :: key(xs[i])
  }

  predicate DistinctKeys<T, K(==)>(xs: seq<T>, key: T -> K) {
    forall i, j :: 0 <= i < j < |xs| ==> key(xs[i]) != key(xs[j])
  }

  /** No element occurs twice. */
  predicate Distinct<T(==)>(xs: seq<T>) {
    forall i, j :: 0 <= i < j < |xs| ==> xs[i] != xs[j]
  }

  /** Distinct keys make distinct elements. */
  lemma DistinctKeysDistinct<T, K>(xs: seq<T>, key: T -> K)
    requires DistinctKeys(xs, key)
    ensures Distinct(xs)
  {
  }

  /** `a` is `b` with some elements left out, order kept. */
  predicate IsSubseq<T(==)>(a: seq<T>, b: seq<T>)
    decreases |b|
  {
    |a| == 0 || (|b| > 0 && ((a[0] == b[0] && IsSubseq(a[1..], b[1..])) || IsSubseq(a, b[1..])))
  }

  /** Reference definition: the elements whose key has not occurred
      earlier, in order. */
  function FirstOccurrences<T, K(==)>(xs: seq<T>, key: T -> K): seq<T>
    decreases |xs|
  {
    if |xs| == 0 then []
    else
      var init := xs[..|xs| - 1];
      FirstOccurrences(init, key) + (if key(xs[|xs| - 1]) in Keys(init, key) then [] else [xs[|xs| - 1]])
  }

  lemma KeysSnoc<T, K>(xs: seq<T>, x: T, key: T -> K)
    ensures Keys(xs + [x], key) == Keys(xs, key) + {key(x)}
  {
    var ys := xs + [x];
    assert key(x) == key(ys[|xs|]);
    forall k | k in Keys(ys, key) ensures k in Keys(xs, key) + {key(x)} {
      var i :| 0 <= i < |ys| && key(ys[i]) == k;
      if i < |xs| {
        assert ys[i] == xs[i];
      }
    }
    forall k | k in Keys(xs, key) ensures k in Keys(ys, key) {
      var i :| 0 <= i < |xs| && key(xs[i]) == k;
      assert ys[i] == xs[i];
    }
  }

  /** The `for ch in chapters: if key not in seen: ...` loop. */
  method KeepFirstByKey<T, K(==)>(xs: seq<T>, key: T -> K) returns (unique: seq<T>)
    ensures unique == FirstOccurrences(xs, key)
  {
    var seen: set<K> := {};
    unique := [];
    for i := 0 to |xs|
      invariant seen == Keys(xs[..i], key)
      invariant unique == FirstOccurrences(xs[..i], key)
    {
      assert xs[..i + 1][..i] == xs[..i];
      KeysSnoc(xs[..i], xs[i], key);
      assert xs[..i] + [xs[i]] == xs[..i + 1];
      if key(xs[i]) !in seen {
        seen := seen + {key(xs[i])};
        unique := unique + [xs[i]];
      }
    }
    assert xs[..|xs|] == xs;
  }

  /** The kept elements have pairwise distinct keys and cover every key of
      the input. */
  lemma {:induction false} FirstOccurrencesKeys<T, K>(xs: seq<T>, key: T -> K)
    ensures DistinctKeys(FirstOccurrences(xs, key), key)
    ensures Keys(FirstOccurrences(xs, key), key) == Keys(xs, key)
    decreases |xs|
  {
    if |xs| > 0 {
      var init, x := xs[..|xs| - 1], xs[|xs| - 1];
      FirstOccurrencesKeys(init, key);
      assert init + [x] == xs;
      KeysSnoc(init, x, key);
      var f := FirstOccurrences(init, key);
      if key(x) !in Keys(init, key) {
        KeysSnoc(f, x, key);
        forall i | 0 <= i < |f| ensures key(f[i]) != key(x) {
          assert key(f[i]) in Keys(f, key);
        }
        var g := f + [x];
        assert FirstOccurrences(xs, key) == g;
        forall i, j | 0 <= i < j < |g| ensures key(g[i]) != key(g[j]) {
          if j < |f| {
            assert g[i] == f[i] && g[j] == f[j];
          } else {
            assert g[i] == f[i] && g[j] == x;
          }
        }
      } else {
        assert FirstOccurrences(xs, key) == f + [] == f;
      }
    }
  }

  /** Keep-first: an element is kept exactly when no earlier element has
      its key. */
  lemma {:induction false} FirstOccurrencesSubseq<T, K>(xs: seq<T>, key: T -> K)
    ensures IsSubseq(FirstOccurrences(xs, key), xs)
    decreases |xs|
  {
    if |xs| > 0 {
      var init, x := xs[..|xs| - 1], xs[|xs| - 1];
      FirstOccurrencesSubseq(init, key);
      assert init + [x] == xs;
      if key(x) in Keys(init, key) {
        assert FirstOccurrences(xs, key) == FirstOccurrences(init, key) + [] == FirstOccurrences(init, key);
        SubseqSnoc(FirstOccurrences(init, key), init, x, false);
      } else {
        SubseqSnoc(FirstOccurrences(init, key), init, x, true);
      }
    }
  }

  lemma {:induction false} SubseqSnoc<T>(a: seq<T>, b: seq<T>, x: T, take: bool)
    requires IsSubseq(a, b)
    ensures IsSubseq(if take then a + [x] else a, b + [x])
    decreases |b|
  {
    if |b| == 0 {
      assert |a| == 0;
      if take {
        assert (a + [x])[1..] == [];
        assert (b + [x])[1..] == [];
      }
    } else if |a| > 0 && a[0] == b[0] && IsSubseq(a[1..], b[1..]) {
      SubseqSnoc(a[1..], b[1..], x, take);
      assert (b + [x])[1..] == b[1..] + [x];
      if take {
        assert (a + [x])[1..] == a[1..] + [x];
      }
    } else if |a| > 0 {
      SubseqSnoc(a, b[1..], x, take);
      assert (b + [x])[1..] == b[1..] + [x];
    } else {
      if take {
        SubseqSnoc(a, b[1..], x, take);
        assert (b + [x])[1..] == b[1..] + [x];
      }
    }
  }

  /** Each kept element is the first one with its key. */
  lemma {:induction false} FirstOccurrencesKeepFirst<T, K>(xs: seq<T>, key: T -> K, i: nat)
    requires i < |xs|
    ensures (exists j :: 0 <= j < |FirstOccurrences(xs, key)| && FirstOccurrences(xs, key)[j] == xs[i])
            <== key(xs[i]) !in Keys(xs[..i], key)
    decreases |xs|
  {
    var init, x := xs[..|xs| - 1], xs[|xs| - 1];
    if i == |xs| - 1 {
      assert xs[..i] == init;
      if key(x) !in Keys(init, key) {
        var f := FirstOccurrences(xs, key);
        assert f[|f| - 1] == x;
      }
    } else {
      assert init[..i] == xs[..i] && init[i] == xs[i];
      FirstOccurrencesKeepFirst(init, key, i);
      if key(xs[i]) !in Keys(xs[..i], key) {
        var j :| 0 <= j < |FirstOccurrences(init, key)| && FirstOccurrences(init, key)[j] == xs[i];
        assert FirstOccurrences(xs, key)[j] == xs[i];
      }
    }
  }

  /** A list whose keys are already distinct is kept whole. */
  lemma {:induction false} FirstOccurrencesOfDistinct<T, K>(xs: seq<T>, key: T -> K)
    requires DistinctKeys(xs, key)
    ensures FirstOccurrences(xs, key) == xs
    decreases |xs|
  {
    if |xs| > 0 {
      var init, x := xs[..|xs| - 1], xs[|xs| - 1];
      assert DistinctKeys(init, key) by {
        forall i, j | 0 <= i < j < |init| ensures key(init[i]) != key(init[j]) {
          assert init[i] == xs[i] && init[j] == xs[j];
        }
      }
      FirstOccurrencesOfDistinct(init, key);
      forall i | 0 <= i < |init| ensures key(init[i]) != key(x) {
        assert init[i] == xs[i];
      }
      assert key(x) !in Keys(init, key);
      assert xs == init + [x];
    }
  }

  /** Deduplicating twice is deduplicating once. */
  lemma FirstOccurrencesIdempotent<T, K>(xs: seq<T>, key: T -> K)
    ensures FirstOccurrences(FirstOccurrences(xs, key), key) == FirstOccurrences(xs, key)
  {
    FirstOccurrencesKeys(xs, key);
    FirstOccurrencesOfDistinct(FirstOccurrences(xs, key), key);
  }

  // ---------------------------------------------------------------------
  // sorted(xs, key=...) by a lexicographic pair
  // ---------------------------------------------------------------------

  predicate LexLe(a: (int, int), b: (int, int)) {
    a.0 < b.0 || (a.0 == b.0 && a.1 <= b.1)
  }

  predicate Sorted<T>(xs: seq<T>, key: T -> (int, int)) {
    forall i, j :: 0 <= i < j < |xs| ==> LexLe(key(xs[i]), key(xs[j]))
  }

  /** Insert `x` after every element whose key is not greater (stable). */
  function Insert<T>(x: T, s: seq<T>, key: T -> (int, int)): (r: seq<T>)
    ensures |r| == |s| + 1
    ensures multiset(r) == multiset(s) + multiset{x}
    decreases |s|
  {
    if |s| == 0 then [x]
    else if LexLe(key(s[|s| - 1]), key(x)) then s + [x]
    else
      var r := Insert(x, s[..|s| - 1], key) + [s[|s| - 1]];
      assert s == s[..|s| - 1] + [s[|s| - 1]];
      r
  }

  lemma {:induction false} InsertSorted<T>(x: T, s: seq<T>, key: T -> (int, int))
    requires Sorted(s, key)
    ensures Sorted(Insert(x, s, key), key)
    ensures forall i :: 0 <= i < |Insert(x, s, key)| ==>
              Insert(x, s, key)[i] == x || exists j :: 0 <= j < |s| && Insert(x, s, key)[i] == s[j]
    decreases |s|, 1
  {
    if |s| > 0 && !LexLe(key(s[|s| - 1]), key(x)) {
      InsertSortedBefore(x, s, key);
    }
  }

  /** `x` goes before the last element, which stays last. */
  lemma {:induction false} InsertSortedBefore<T>(x: T, s: seq<T>, key: T -> (int, int))
    requires Sorted(s, key) && |s| > 0 && !LexLe(key(s[|s| - 1]), key(x))
    ensures Sorted(Insert(x, s, key), key)
    ensures forall i :: 0 <= i < |Insert(x, s, key)| ==>
              Insert(x, s, key)[i] == x || exists j :: 0 <= j < |s| && Insert(x, s, key)[i] == s[j]
    decreases |s|, 0
  {
    var init := s[..|s| - 1];
    InsertSorted(x, init, key);
    var r := Insert(x, init, key);
    assert Insert(x, s, key) == r + [s[|s| - 1]];
    forall i | 0 <= i < |r| ensures LexLe(key(r[i]), key(s[|s| - 1])) {
      if r[i] != x {
        var j :| 0 <= j < |init| && r[i] == init[j];
        assert init[j] == s[j];
      }
    }
    forall i | 0 <= i < |r| ensures r[i] == x || exists j :: 0 <= j < |s| && r[i] == s[j] {
      if r[i] != x {
        var j :| 0 <= j < |init| && r[i] == init[j];
        assert init[j] == s[j];
      }
    }
  }

  /** Reordering a list keeps its keys. */
  lemma KeysOfPermutation<T, K>(a: seq<T>, b: seq<T>, key: T -> K)
    requires multiset(a) == multiset(b)
    ensures Keys(a, key) == Keys(b, key)
  {
    forall k | k in Keys(a, key) ensures k in Keys(b, key) {
      var i :| 0 <= i < |a| && key(a[i]) == k;
      assert a[i] in multiset(b);
      var j :| 0 <= j < |b| && b[j] == a[i];
    }
    forall k | k in Keys(b, key) ensures k in Keys(a, key) {
      var j :| 0 <= j < |b| && key(b[j]) == k;
      assert b[j] in multiset(a);
      var i :| 0 <= i < |a| && a[i] == b[j];
    }
  }

  /** An element occurring at two positions is counted twice. */
  lemma TwiceCounted<T>(s: seq<T>, i: nat, j: nat)
    requires i < j < |s| && s[i] == s[j]
    ensures multiset(s)[s[i]] >= 2
  {
    assert s == s[..j] + [s[j]] + s[j + 1..];
    assert s[i] in multiset(s[..j]) by {
      assert s[..j][i] == s[i];
    }
  }

  /** In a list without repeats every element is counted at most once. */
  lemma {:induction false} DistinctCounted<T>(s: seq<T>, x: T)
    requires Distinct(s)
    ensures multiset(s)[x] <= 1
    decreases |s|
  {
    if |s| > 0 {
      assert s == [s[0]] + s[1..];
      assert Distinct(s[1..]) by {
        forall i, j | 0 <= i < j < |s[1..]| ensures s[1..][i] != s[1..][j] {
          assert s[1..][i] == s[i + 1] && s[1..][j] == s[j + 1];
        }
      }
      DistinctCounted(s[1..], x);
      if x == s[0] {
        assert x !in s[1..] by {
          forall k | 0 <= k < |s[1..]| ensures s[1..][k] != x {
            assert s[1..][k] == s[k + 1];
          }
        }
      }
    }
  }

  /** Reordering keeps keys distinct. */
  lemma PermutationDistinctKeys<T, K>(a: seq<T>, b: seq<T>, key: T -> K)
    requires multiset(a) == multiset(b) && DistinctKeys(b, key)
    ensures DistinctKeys(a, key)
  {
    forall i, j | 0 <= i < j < |a| ensures key(a[i]) != key(a[j]) {
      if a[i] == a[j] {
        TwiceCounted(a, i, j);
        DistinctKeysDistinct(b, key);
        DistinctCounted(b, a[i]);
      } else {
        assert a[i] in multiset(b) && a[j] in multiset(b);
        var p :| 0 <= p < |b| && b[p] == a[i];
        var q :| 0 <= q < |b| && b[q] == a[j];
      }
    }
  }

  /** `sorted(xs, key=key)`: Python's stable sort, as insertion sort. */
  function Sort<T>(xs: seq<T>, key: T -> (int, int)): (r: seq<T>)
    ensures |r| == |xs|
    ensures multiset(r) == multiset(xs)
    decreases |xs|
  {
    if |xs| == 0 then []
    else
      assert xs == xs[..|xs| - 1] + [xs[|xs| - 1]];
      Insert(xs[|xs| - 1], Sort(xs[..|xs| - 1], key), key)
  }

  lemma {:induction false} SortSorted<T>(xs: seq<T>, key: T -> (int, int))
    ensures Sorted(Sort(xs, key), key)
    decreases |xs|
  {
    if |xs| > 0 {
      SortSorted(xs[..|xs| - 1], key);
      InsertSorted(xs[|xs| - 1], Sort(xs[..|xs| - 1], key), key);
    }
  }

  /** Sorting a list that is already in order changes nothing. */
  lemma {:induction false} SortOfSorted<T>(xs: seq<T>, key: T -> (int, int))
    requires Sorted(xs, key)
    ensures Sort(xs, key) == xs
    decreases |xs|
  {
    if |xs| > 0 {
      var init := xs[..|xs| - 1];
      SortOfSorted(init, key);
      assert xs == init + [xs[|xs| - 1]];
    }
  }

  /** A subsequence of a sorted list is sorted. */
  lemma {:induction false} SubseqSorted<T>(a: seq<T>, b: seq<T>, key: T -> (int, int))
    requires IsSubseq(a, b) && Sorted(b, key)
    ensures Sorted(a, key)
    decreases |b|
  {
    if |a| > 0 {
      if a[0] == b[0] && IsSubseq(a[1..], b[1..]) {
        SubseqSorted(a[1..], b[1..], key);
        SubseqMembers(a[1..], b[1..]);
        forall j | 0 < j < |a| ensures LexLe(key(a[0]), key(a[j])) {
          var k :| 0 <= k < |b[1..]| && a[1..][j - 1] == b[1..][k];
          assert b[1..][k] == b[k + 1];
        }
      } else {
        SubseqSorted(a, b[1..], key);
      }
    }
  }

  /** A subsequence of a subsequence is a subsequence. */
  lemma {:induction false} SubseqTrans<T>(a: seq<T>, b: seq<T>, c: seq<T>)
    requires IsSubseq(a, b) && IsSubseq(b, c)
    ensures IsSubseq(a, c)
    decreases |c|
  {
    if |a| > 0 {
      if IsSubseq(b, c[1..]) {
        SubseqTrans(a, b, c[1..]);
      } else if a[0] == b[0] && IsSubseq(a[1..], b[1..]) {
        SubseqTrans(a[1..], b[1..], c[1..]);
      } else {
        SubseqTrans(a, b[1..], c[1..]);
      }
    }
  }

  lemma {:induction false} SubseqMembers<T>(a: seq<T>, b: seq<T>)
    requires IsSubseq(a, b)
    ensures forall i :: 0 <= i < |a| ==> exists k :: 0 <= k < |b| && a[i] == b[k]
    decreases |b|
  {
    if |a| > 0 {
      if a[0] == b[0] && IsSubseq(a[1..], b[1..]) {
        SubseqMembers(a[1..], b[1..]);
        forall i | 0 < i < |a| ensures exists k :: 0 <= k < |b| && a[i] == b[k] {
          assert a[i] == a[1..][i - 1];
          var k :| 0 <= k < |b[1..]| && a[1..][i - 1] == b[1..][k];
          assert b[k + 1] == b[1..][k];
        }
        assert a[0] == b[0];
      } else {
        SubseqMembers(a, b[1..]);
        forall i | 0 <= i < |a| ensures exists k :: 0 <= k < |b| && a[i] == b[k] {
          var k :| 0 <= k < |b[1..]| && a[i] == b[1..][k];
          assert b[k + 1] == b[1..][k];
        }
      }
    }
  }
}
