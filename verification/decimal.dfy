/** Decimal rendering of non-negative integers: `str(n)`, the zero-padded
    `f"{n:04d}"` / `'%03d' % n`, and the digit grouping of `f"{n:,}"`. */
module Decimal {
  import Text

  predicate AllDigits(s: string) {
    forall i :: 0 <= i < |s| ==> Text.IsDigit(s[i])
  }

  function Digit(d: nat): (c: char)
    requires d < 10
    ensures Text.IsDigit(c)
  {
    ('0' as int + d) as char
  }

  function DigitValue(c: char): (d: nat)
    requires Text.IsDigit(c)
    ensures d < 10 && Digit(d) == c
  {
    c as int - '0' as int
  }

  /** `str(n)` */
  function Dec(n: nat): (r: string)
    ensures |r| >= 1 && AllDigits(r)
    ensures n >= 10 ==> r[0] != '0'
    decreases n
  {
    if n < 10 then [Digit(n)] else Dec(n / 10) + [Digit(n % 10)]
  }

  /** The number a digit string denotes (leading zeros allowed). */
  function Value(s: string): nat
    requires AllDigits(s)
    decreases |s|
  {
    if |s| == 0 then 0 else Value(s[..|s| - 1]) * 10 + DigitValue(s[|s| - 1])
  }

  function Zeros(k: nat): (r: string)
    ensures |r| == k && AllDigits(r)
    ensures forall i :: 0 <= i < k ==> r[i] == '0'
  {
    seq(k, i => '0')
  }

  /** Reading back what `Dec` wrote gives the number. */
  lemma {:induction false} ValueDec(n: nat)
    ensures Value(Dec(n)) == n
    decreases n
  {
    if n >= 10 {
      ValueDec(n / 10);
      var d := Dec(n);
      assert d[..|d| - 1] == Dec(n / 10);
    }
  }

  /** Leading zeros do not change the value. */
  lemma {:induction false} ValueZerosPrefix(k: nat, s: string)
    requires AllDigits(s)
    ensures Value(Zeros(k) + s) == Value(s)
    decreases |s|
  {
    var z := Zeros(k) + s;
    if |s| == 0 {
      assert z == Zeros(k);
      ValueZeros(k);
    } else {
      assert z[..|z| - 1] == Zeros(k) + s[..|s| - 1];
      ValueZerosPrefix(k, s[..|s| - 1]);
    }
  }

  lemma {:induction false} ValueZeros(k: nat)
    ensures Value(Zeros(k)) == 0
  {
    if k > 0 {
      assert Zeros(k)[..k - 1] == Zeros(k - 1);
      ValueZeros(k - 1);
    }
  }

  function Pow10(k: nat): (p: nat)
    ensures p >= 1
  {
    if k == 0 then 1 else 10 * Pow10(k - 1)
  }

  /** `str(n)` has at most `k` digits exactly when `n < 10^k`. */
  lemma {:induction false} DecLength(n: nat, k: nat)
    requires k >= 1
    ensures |Dec(n)| <= k <==> n < Pow10(k)
    decreases n
  {
    if n >= 10 {
      if k == 1 {
        assert Pow10(1) == 10;
      } else {
        DecLength(n / 10, k - 1);
      }
    } else {
      if k > 1 {
        PowMonotone(1, k);
      }
    }
  }

  lemma {:induction false} PowMonotone(j: nat, k: nat)
    requires j <= k
    ensures Pow10(j) <= Pow10(k)
    decreases k
  {
    if j < k {
      PowMonotone(j, k - 1);
    }
  }

  /** `f"{n:0{width}d}"`: `str(n)` left-padded with zeros to `width`. */
  function Pad(n: nat, width: nat): (r: string)
    ensures AllDigits(r)
    ensures |r| == if |Dec(n)| >= width then |Dec(n)| else width
  {
    var d := Dec(n);
    if |d| >= width then d else Zeros(width - |d|) + d
  }

  /** The padded rendering still denotes `n`. */
  lemma PadValue(n: nat, width: nat)
    ensures Value(Pad(n, width)) == n
  {
    ValueDec(n);
    var d := Dec(n);
    if |d| < width {
      ValueZerosPrefix(width - |d|, d);
    }
  }

  /** Distinct numbers get distinct padded renderings. */
  lemma PadInjective(a: nat, b: nat, width: nat)
    ensures Pad(a, width) == Pad(b, width) <==> a == b
  {
    PadValue(a, width);
    PadValue(b, width);
  }

  /** The padded rendering has exactly `width` digits iff `n < 10^width`. */
  lemma PadWidth(n: nat, width: nat)
    requires width >= 1
    ensures |Pad(n, width)| == width <==> n < Pow10(width)
  {
    DecLength(n, width);
  }

  /** The digit grouping of `f"{n:,}"` with the separator `sep` in place of
      the comma: groups of three counted from the right. */
  function GroupDigits(s: string, sep: char): (r: string)
    ensures |s| > 0 ==> |r| > 0
    decreases |s|
  {
    if |s| <= 3 then s else GroupDigits(s[..|s| - 3], sep) + [sep] + s[|s| - 3..]
  }

  /** Drop every occurrence of `c`. */
  function Remove(s: string, c: char): (r: string)
    ensures |r| <= |s|
  {
    if |s| == 0 then "" else Remove(s[..|s| - 1], c) + (if s[|s| - 1] == c then "" else [s[|s| - 1]])
  }

  /** No `c` is left. */
  lemma {:induction false} RemoveDrops(s: string, c: char)
    ensures forall i :: 0 <= i < |Remove(s, c)| ==> Remove(s, c)[i] != c
    decreases |s|
  {
    if |s| > 0 {
      RemoveDrops(s[..|s| - 1], c);
    }
  }

  lemma {:induction false} RemoveConcat(a: string, b: string, c: char)
    ensures Remove(a + b, c) == Remove(a, c) + Remove(b, c)
    decreases |b|
  {
    if |b| == 0 {
      assert a + b == a;
    } else {
      assert (a + b)[..|a + b| - 1] == a + b[..|b| - 1];
      RemoveConcat(a, b[..|b| - 1], c);
    }
  }

  lemma {:induction false} RemoveAbsent(s: string, c: char)
    requires forall i :: 0 <= i < |s| ==> s[i] != c
    ensures Remove(s, c) == s
    decreases |s|
  {
    if |s| > 0 {
      RemoveAbsent(s[..|s| - 1], c);
    }
  }

  /** Deleting the separators gives back the plain digit string. */
  lemma {:induction false} UngroupDigits(s: string, sep: char)
    requires AllDigits(s) && !Text.IsDigit(sep)
    ensures Remove(GroupDigits(s, sep), sep) == s
    decreases |s|
  {
    if |s| <= 3 {
      RemoveAbsent(s, sep);
    } else {
      var hi, lo := s[..|s| - 3], s[|s| - 3..];
      UngroupDigits(hi, sep);
      RemoveAbsent(lo, sep);
      UngroupStep(GroupDigits(hi, sep), hi, lo, sep);
      assert hi + lo == s;
    }
  }

  /** Removing the separators from `g`, a separator and `lo` leaves `hi`
      followed by `lo` when `g` ungroups to `hi` and `lo` holds none. */
  lemma UngroupStep(g: string, hi: string, lo: string, sep: char)
    requires Remove(g, sep) == hi && Remove(lo, sep) == lo
    ensures Remove(g + [sep] + lo, sep) == hi + lo
  {
    RemoveConcat(g + [sep], lo, sep);
    RemoveLast(g, sep);
  }

  lemma RemoveLast(g: string, sep: char)
    ensures Remove(g + [sep], sep) == Remove(g, sep)
  {
    assert (g + [sep])[..|g|] == g;
  }

  /** Every separator is followed by exactly three digits before the next
      separator or the end. */
  lemma {:induction false} GroupShape(s: string, sep: char, i: nat)
    requires AllDigits(s) && !Text.IsDigit(sep)
    requires i < |GroupDigits(s, sep)| && GroupDigits(s, sep)[i] == sep
    ensures i + 3 < |GroupDigits(s, sep)|
    ensures forall j :: i < j <= i + 3 ==> Text.IsDigit(GroupDigits(s, sep)[j])
    ensures i + 4 == |GroupDigits(s, sep)| || GroupDigits(s, sep)[i + 4] == sep
    decreases |s|
  {
    var hi, lo := s[..|s| - 3], s[|s| - 3..];
    var g := GroupDigits(hi, sep);
    assert GroupDigits(s, sep) == g + [sep] + lo;
    if i < |g| {
      GroupShape(hi, sep, i);
    }
  }

  /** `format_number`: `f"{num:,}".replace(',', '.')` for a count. */
  function FormatNumber(n: nat): (r: string)
    ensures Remove(r, '.') == Dec(n)
  {
    UngroupDigits(Dec(n), '.');
    GroupDigits(Dec(n), '.')
  }
}
