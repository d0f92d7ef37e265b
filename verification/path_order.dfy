/** Python's ordering of `str` values and `list.sort()` on a list of file
    names, shared by the scripts that sort the files they find. */
module PathOrder {
  /** Python's `<=` on `str`: code point by code point, a prefix first. */
  predicate StrLe(a: string, b: string)
    decreases |a|
  {
    |a| == 0 || (|b| > 0 && (a[0] < b[0] || (a[0] == b[0] && StrLe(a[1..], b[1..]))))
  }

  lemma {:induction false} StrLeTotal(a: string, b: string)
    ensures StrLe(a, b) || StrLe(b, a)
    decreases |a|
  {
    if |a| > 0 && |b| > 0 && a[0] == b[0] {
      StrLeTotal(a[1..], b[1..]);
    }
  }

  lemma {:induction false} StrLeTrans(a: string, b: string, c: string)
    requires StrLe(a, b) && StrLe(b, c)
    ensures StrLe(a, c)
    decreases |a|
  {
    if |a| > 0 && a[0] == b[0] && b[0] == c[0] {
      StrLeTrans(a[1..], b[1..], c[1..]);
    }
  }

  lemma {:induction false} StrLeAntisymmetric(a: string, b: string)
    requires StrLe(a, b) && StrLe(b, a)
    ensures a == b
    decreases |a|
  {
    if |a| > 0 {
      StrLeAntisymmetric(a[1..], b[1..]);
      assert a == [a[0]] + a[1..] && b == [b[0]] + b[1..];
    }
  }

  predicate SortedPaths(s: seq<string>) {
    forall i, j :: 0 <= i < j < |s| ==> StrLe(s[i], s[j])
  }

  function Insert(x: string, s: seq<string>): (r: seq<string>)
    ensures |r| == |s| + 1
    ensures multiset(r) == multiset(s) + multiset{x}
    decreases |s|
  {
    if |s| == 0 then [x]
    else if StrLe(x, s[0]) then [x] + s
    else
      assert s == [s[0]] + s[1..];
      [s[0]] + Insert(x, s[1..])
  }

  /** `content_files.sort()` */
  function SortPaths(s: seq<string>): (r: seq<string>)
    ensures multiset(r) == multiset(s)
    decreases |s|
  {
    if |s| == 0 then []
    else
      assert s == [s[0]] + s[1..];
      Insert(s[0], SortPaths(s[1..]))
  }

  lemma {:induction false} InsertSorted(x: string, s: seq<string>)
    requires SortedPaths(s)
    ensures SortedPaths(Insert(x, s))
    decreases |s|, 1
  {
    if |s| > 0 {
      if StrLe(x, s[0]) {
        InsertSortedFront(x, s);
      } else {
        InsertSortedLater(x, s);
      }
    }
  }

  /** `x` goes first: it is below the old head, hence below everything. */
  lemma InsertSortedFront(x: string, s: seq<string>)
    requires SortedPaths(s) && |s| > 0 && StrLe(x, s[0])
    ensures SortedPaths(Insert(x, s))
  {
    var r := Insert(x, s);
    assert r == [x] + s;
    forall i, j | 0 <= i < j < |r| ensures StrLe(r[i], r[j]) {
      if i == 0 {
        if j > 1 {
          StrLeTrans(x, s[0], s[j - 1]);
        }
      } else {
        assert r[i] == s[i - 1] && r[j] == s[j - 1];
      }
    }
  }

  /** Every element of an insertion into the tail of `s` is at least the
      head of `s`, when `x` is. */
  lemma InsertAboveHead(x: string, s: seq<string>)
    requires SortedPaths(s) && |s| > 0 && StrLe(s[0], x)
    ensures forall k :: 0 <= k < |Insert(x, s[1..])| ==> StrLe(s[0], Insert(x, s[1..])[k])
  {
    var t := Insert(x, s[1..]);
    forall k | 0 <= k < |t| ensures StrLe(s[0], t[k]) {
      assert t[k] in multiset(t);
      if t[k] != x {
        assert t[k] in multiset(s[1..]);
        var j :| 0 <= j < |s[1..]| && s[1..][j] == t[k];
        assert s[j + 1] == t[k];
      }
    }
  }

  /** `x` goes past the old head, which stays first. */
  lemma {:induction false} InsertSortedLater(x: string, s: seq<string>)
    requires SortedPaths(s) && |s| > 0 && !StrLe(x, s[0])
    ensures SortedPaths(Insert(x, s))
    decreases |s|, 0
  {
    StrLeTotal(x, s[0]);
    assert SortedPaths(s[1..]) by {
      forall i, j | 0 <= i < j < |s[1..]| ensures StrLe(s[1..][i], s[1..][j]) {
        assert s[1..][i] == s[i + 1] && s[1..][j] == s[j + 1];
      }
    }
    InsertSorted(x, s[1..]);
    InsertAboveHead(x, s);
    var t := Insert(x, s[1..]);
    var r := Insert(x, s);
    assert r == [s[0]] + t;
    forall i, j | 0 <= i < j < |r| ensures StrLe(r[i], r[j]) {
      if i > 0 {
        assert r[i] == t[i - 1] && r[j] == t[j - 1];
      }
    }
  }

  lemma {:induction false} SortSorted(s: seq<string>)
    ensures SortedPaths(SortPaths(s))
    decreases |s|
  {
    if |s| > 0 {
      SortSorted(s[1..]);
      InsertSorted(s[0], SortPaths(s[1..]));
    }
  }

  lemma {:induction false} StrLeRefl(a: string)
    ensures StrLe(a, a)
    decreases |a|
  {
    if |a| > 0 {
      StrLeRefl(a[1..]);
    }
  }

  /** The least path of a sorted list is its first. */
  lemma SortedHead(a: seq<string>, x: string)
    requires SortedPaths(a) && x in multiset(a)
    ensures StrLe(a[0], x)
  {
    var i :| 0 <= i < |a| && a[i] == x;
    if i == 0 {
      StrLeRefl(x);
    }
  }

  lemma MultisetTail(a: seq<string>, b: seq<string>)
    requires |a| > 0 && |b| > 0 && a[0] == b[0] && multiset(a) == multiset(b)
    ensures multiset(a[1..]) == multiset(b[1..])
  {
    assert a == [a[0]] + a[1..] && b == [b[0]] + b[1..];
    assert multiset(a[1..]) == multiset(a) - multiset{a[0]};
  }

  /** Sorting fixes the order completely: two lists holding the same paths
      sort to the same list, whatever order the walk produced. */
  lemma {:induction false} SortedUnique(a: seq<string>, b: seq<string>)
    requires SortedPaths(a) && SortedPaths(b) && multiset(a) == multiset(b)
    ensures a == b
    decreases |a|
  {
    if |a| > 0 {
      assert |b| > 0 by {
        assert |multiset(b)| == |multiset(a)|;
      }
      assert a == [a[0]] + a[1..] && b == [b[0]] + b[1..];
      assert a[0] in multiset(a) && b[0] in multiset(b);
      SortedHead(b, a[0]);
      SortedHead(a, b[0]);
      StrLeAntisymmetric(a[0], b[0]);
      MultisetTail(a, b);
      SortedUnique(a[1..], b[1..]);
    }
  }

  /** `sorted(s)`: the same names, each as often, in ascending order, and
      the only list that is both. */
  lemma SortSpec(s: seq<string>)
    ensures SortedPaths(SortPaths(s)) && multiset(SortPaths(s)) == multiset(s)
    ensures forall x :: x in SortPaths(s) <==> x in s
    ensures forall t :: SortedPaths(t) && multiset(t) == multiset(s) ==> t == SortPaths(s)
  {
    SortSorted(s);
    var r := SortPaths(s);
    forall x ensures x in r <==> x in s {
      assert x in r <==> x in multiset(r);
      assert x in s <==> x in multiset(s);
    }
    forall t | SortedPaths(t) && multiset(t) == multiset(s) ensures t == r {
      SortedUnique(t, r);
    }
  }
}
