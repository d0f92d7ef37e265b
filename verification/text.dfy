/** The Python string primitives the scripts lean on: `str.isspace`,
    `str.split()`, `strip`, `re.sub(r'\s+', ' ', s)`, `in`, `startswith`,
    `replace`, `lower`/`upper` and `' '.join`.  Strings are `seq<char>`. */
module Text {

  // ---------------------------------------------------------------------
  // Character classes
  // ---------------------------------------------------------------------

  /** Python's `str.isspace()`, which is also the `\s` class of `re` on str
      patterns and the separator set of `str.split()`. */
  predicate IsSpace(c: char) {
    ('\t' <= c <= '\r') || ('\U{1C}' <= c <= '\U{1F}') || c == ' '
    || c == '\U{85}' || c == '\U{A0}' || c == '\U{1680}'
    || ('\U{2000}' <= c <= '\U{200A}') || c == '\U{2028}' || c == '\U{2029}'
    || c == '\U{202F}' || c == '\U{205F}' || c == '\U{3000}'
  }

  predicate IsAsciiLower(c: char) { 'a' <= c <= 'z' }
  predicate IsAsciiUpper(c: char) { 'A' <= c <= 'Z' }
  predicate IsDigit(c: char) { '0' <= c <= '9' }

  /** Upper-case letters that `LowerChar` maps: ASCII and Latin-1. */
  predicate IsUpperLetter(c: char) {
    IsAsciiUpper(c) || ('\U{C0}' <= c <= '\U{DE}' && c != '\U{D7}') || c == '\U{178}'
  }

  /** Lower-case letters that `UpperChar` maps: ASCII and Latin-1. */
  predicate IsLowerLetter(c: char) {
    IsAsciiLower(c) || ('\U{E0}' <= c <= '\U{FE}' && c != '\U{F7}') || c == '\U{FF}'
  }

  /** The `\w` class of `re`: letters, digits and underscore (ASCII and
      Latin-1 letters; other scripts are outside this model). */
  predicate IsWordChar(c: char) {
    IsAsciiLower(c) || IsAsciiUpper(c) || IsDigit(c) || c == '_'
    || ('\U{C0}' <= c <= '\U{FF}' && c != '\U{D7}' && c != '\U{F7}')
  }

  function LowerChar(c: char): (r: char)
    ensures IsUpperLetter(c) ==> IsLowerLetter(r)
    ensures !IsUpperLetter(c) ==> r == c
  {
    if c == '\U{178}' then '\U{FF}'
    else if IsUpperLetter(c) then (c as int + 32) as char
    else c
  }

  function UpperChar(c: char): (r: char)
    ensures IsLowerLetter(c) ==> IsUpperLetter(r)
    ensures !IsLowerLetter(c) ==> r == c
  {
    if c == '\U{FF}' then '\U{178}'
    else if IsLowerLetter(c) then (c as int - 32) as char
    else c
  }

  /** `s.lower()` */
  function Lower(s: string): (r: string)
    ensures |r| == |s|
    ensures forall i :: 0 <= i < |s| ==> r[i] == LowerChar(s[i])
  {
    seq(|s|, i requires 0 <= i < |s| => LowerChar(s[i]))
  }

  /** `s.upper()` (one character to one character; `ß` is left alone). */
  function Upper(s: string): (r: string)
    ensures |r| == |s|
    ensures forall i :: 0 <= i < |s| ==> r[i] == UpperChar(s[i])
  {
    seq(|s|, i requires 0 <= i < |s| => UpperChar(s[i]))
  }

  predicate NoSpace(s: string) {
    forall i :: 0 <= i < |s| ==> !IsSpace(s[i])
  }

  predicate AllSpace(s: string) {
    forall i :: 0 <= i < |s| ==> IsSpace(s[i])
  }

  /** A word of `str.split()`: non-empty, no whitespace. */
  predicate IsToken(t: string) {
    |t| > 0 && NoSpace(t)
  }

  // ---------------------------------------------------------------------
  // Substrings
  // ---------------------------------------------------------------------

  /** `s.startswith(p)` */
  predicate StartsWith(s: string, p: string) {
    |p| <= |s| && s[..|p|] == p
  }

  /** `s.endswith(p)` */
  predicate EndsWith(s: string, p: string) {
    |p| <= |s| && s[|s| - |p|..] == p
  }

  /** `p in s` */
  predicate Contains(s: string, p: string)
    decreases |s|
  {
    StartsWith(s, p) || (|s| > 0 && Contains(s[1..], p))
  }

  lemma ContainsAt(s: string, p: string, i: nat)
    requires i + |p| <= |s| && s[i..i + |p|] == p
    ensures Contains(s, p)
    decreases i
  {
    if i > 0 {
      assert s[1..][i - 1..i - 1 + |p|] == p;
      ContainsAt(s[1..], p, i - 1);
    }
  }

  lemma ContainsWitness(s: string, p: string) returns (i: nat)
    requires Contains(s, p)
    ensures i + |p| <= |s| && s[i..i + |p|] == p
    decreases |s|
  {
    if StartsWith(s, p) {
      i := 0;
    } else {
      var j := ContainsWitness(s[1..], p);
      i := j + 1;
      assert s[i..i + |p|] == s[1..][j..j + |p|];
    }
  }

  lemma ContainsPrefix(s: string, p: string, k: nat)
    requires k <= |s| && Contains(s[..k], p)
    ensures Contains(s, p)
  {
    var i := ContainsWitness(s[..k], p);
    assert s[i..i + |p|] == s[..k][i..i + |p|];
    ContainsAt(s, p, i);
  }

  /** `s[:n]` with Python's clamping when `n` exceeds the length. */
  function Take<T>(s: seq<T>, n: nat): (r: seq<T>)
    ensures |r| == if n < |s| then n else |s|
    ensures r == s[..|r|]
  {
    if n < |s| then s[..n] else s
  }

  /** `s.replace(pat, rep)`: every non-overlapping occurrence, left to right. */
  function Replace(s: string, pat: string, rep: string): (r: string)
    requires |pat| > 0
    decreases |s|
  {
    if |s| < |pat| then s
    else if s[..|pat|] == pat then rep + Replace(s[|pat|..], pat, rep)
    else [s[0]] + Replace(s[1..], pat, rep)
  }

  /** The number of occurrences `Replace` rewrites. */
  function ReplaceCount(s: string, pat: string): nat
    requires |pat| > 0
    decreases |s|
  {
    if |s| < |pat| then 0
    else if s[..|pat|] == pat then 1 + ReplaceCount(s[|pat|..], pat)
    else ReplaceCount(s[1..], pat)
  }

  /** Every rewrite changes the length by `|rep| - |pat|`. */
  lemma {:induction false} ReplaceLength(s: string, pat: string, rep: string)
    requires |pat| > 0
    ensures |Replace(s, pat, rep)| == |s| + ReplaceCount(s, pat) * (|rep| - |pat|)
    decreases |s|
  {
    if |s| < |pat| {
    } else if s[..|pat|] == pat {
      var rest := s[|pat|..];
      ReplaceLength(rest, pat, rep);
      assert |Replace(s, pat, rep)| == |rep| + |Replace(rest, pat, rep)|;
      assert ReplaceCount(s, pat) == 1 + ReplaceCount(rest, pat);
      MulSucc(ReplaceCount(rest, pat), |rep| - |pat|);
    } else {
      ReplaceLength(s[1..], pat, rep);
      assert |Replace(s, pat, rep)| == 1 + |Replace(s[1..], pat, rep)|;
    }
  }

  lemma MulSucc(c: nat, d: int)
    ensures (1 + c) * d == d + c * d
  {
  }

  /** The occurrences `Replace` rewrites are exactly the ones `in` sees. */
  lemma {:induction false} ReplaceCountContains(s: string, pat: string)
    requires |pat| > 0
    ensures ReplaceCount(s, pat) > 0 <==> Contains(s, pat)
    decreases |s|
  {
    if |s| < |pat| {
      NotContainsShort(s, pat);
    } else if s[..|pat|] == pat {
    } else {
      ReplaceCountContains(s[1..], pat);
    }
  }

  lemma {:induction false} NotContainsShort(s: string, p: string)
    requires |s| < |p|
    ensures !Contains(s, p)
    decreases |s|
  {
    if |s| > 0 {
      NotContainsShort(s[1..], p);
    }
  }

  /** A replacement whose two sides differ in length changes the text
      exactly when the pattern occurs in it. */
  lemma ReplaceChanges(s: string, pat: string, rep: string)
    requires |pat| > 0 && |rep| != |pat|
    ensures Replace(s, pat, rep) != s <==> Contains(s, pat)
  {
    ReplaceLengthChange(s, pat, rep);
    ReplaceCountContains(s, pat);
  }

  lemma {:induction false} ReplaceLengthChange(s: string, pat: string, rep: string)
    requires |pat| > 0
    ensures ReplaceCount(s, pat) == 0 ==> Replace(s, pat, rep) == s
    ensures ReplaceCount(s, pat) > 0 && |rep| > |pat| ==> |Replace(s, pat, rep)| > |s|
    ensures ReplaceCount(s, pat) > 0 && |rep| < |pat| ==> |Replace(s, pat, rep)| < |s|
    decreases |s|
  {
    if |s| < |pat| {
    } else if s[..|pat|] == pat {
      ReplaceLengthChange(s[|pat|..], pat, rep);
    } else {
      ReplaceLengthChange(s[1..], pat, rep);
      assert [s[0]] + s[1..] == s;
    }
  }

  /** With no occurrence the text comes back unchanged. */
  lemma {:induction false} ReplaceAbsent(s: string, pat: string, rep: string)
    requires |pat| > 0 && !Contains(s, pat)
    ensures Replace(s, pat, rep) == s
    decreases |s|
  {
    if |s| >= |pat| {
      assert !StartsWith(s, pat);
      ReplaceAbsent(s[1..], pat, rep);
    }
  }

  // ---------------------------------------------------------------------
  // split / join / strip
  // ---------------------------------------------------------------------

  function TokenEnd(s: string): (k: nat)
    ensures k <= |s|
    ensures forall i :: 0 <= i < k ==> !IsSpace(s[i])
    ensures k < |s| ==> IsSpace(s[k])
  {
    if |s| == 0 || IsSpace(s[0]) then 0 else 1 + TokenEnd(s[1..])
  }

  /** `s.split()`: the maximal runs of non-whitespace characters, in order. */
  function Split(s: string): (r: seq<string>)
    ensures forall i :: 0 <= i < |r| ==> IsToken(r[i])
    decreases |s|
  {
    if |s| == 0 then []
    else if IsSpace(s[0]) then Split(s[1..])
    else
      var k := TokenEnd(s);
      [s[..k]] + Split(s[k..])
  }

  /** `len(s.split())` */
  function WordCount(s: string): nat {
    |Split(s)|
  }

  /** `sep.join(ws)` */
  function Join(sep: string, ws: seq<string>): string
    decreases |ws|
  {
    if |ws| == 0 then ""
    else if |ws| == 1 then ws[0]
    else ws[0] + sep + Join(sep, ws[1..])
  }

  lemma {:induction false} TokenEndConcat(a: string, b: string)
    requires TokenEnd(a) < |a| || |b| == 0 || IsSpace(b[0])
    ensures TokenEnd(a + b) == TokenEnd(a)
    decreases |a|
  {
    if |a| == 0 {
    } else if IsSpace(a[0]) {
    } else {
      assert (a + b)[1..] == a[1..] + b;
      TokenEndConcat(a[1..], b);
    }
  }

  /** Splitting distributes over a concatenation that does not glue two
      words together. */
  lemma {:induction false} SplitConcat(a: string, b: string)
    requires |a| == 0 || |b| == 0 || IsSpace(a[|a| - 1]) || IsSpace(b[0])
    ensures Split(a + b) == Split(a) + Split(b)
    decreases |a|, 1
  {
    if |a| == 0 {
      assert a + b == b;
    } else if |b| == 0 {
      assert a + b == a;
    } else if IsSpace(a[0]) {
      assert (a + b)[1..] == a[1..] + b;
      SplitConcat(a[1..], b);
    } else {
      SplitConcatToken(a, b);
    }
  }

  /** `SplitConcat` when `a` starts with a word. */
  lemma {:induction false} SplitConcatToken(a: string, b: string)
    requires |a| > 0 && |b| > 0 && !IsSpace(a[0])
    requires IsSpace(a[|a| - 1]) || IsSpace(b[0])
    ensures Split(a + b) == Split(a) + Split(b)
    decreases |a|, 0
  {
    var k := TokenEnd(a);
    TokenEndConcat(a, b);
    SplitToken(a + b, k);
    SplitToken(a, k);
    ConcatSlices(a, b, k);
    if k < |a| {
      SplitConcat(a[k..], b);
      ConsAssoc(a[..k], Split(a[k..]), Split(b));
    } else {
      WholeToken(a, b);
    }
  }

  lemma WholeToken(a: string, b: string)
    requires |a| > 0 && TokenEnd(a) == |a|
    ensures a[TokenEnd(a)..] + b == b && Split(a[TokenEnd(a)..]) == []
  {
    assert a[|a|..] == [];
  }

  lemma ConcatSlices(a: string, b: string, k: nat)
    requires k <= |a|
    ensures (a + b)[..k] == a[..k] && (a + b)[k..] == a[k..] + b
  {
  }

  lemma ConsAssoc(w: string, x: seq<string>, y: seq<string>)
    ensures [w] + (x + y) == [w] + x + y
  {
  }

  /** A string that starts with a word splits into that word and the
      split of the rest. */
  lemma SplitToken(s: string, k: nat)
    requires |s| > 0 && !IsSpace(s[0]) && k == TokenEnd(s)
    ensures Split(s) == [s[..k]] + Split(s[k..])
  {
  }

  lemma SplitOfSpaces(s: string)
    requires AllSpace(s)
    ensures Split(s) == []
    decreases |s|
  {
    if |s| > 0 {
      SplitOfSpaces(s[1..]);
    }
  }

  lemma SplitOfToken(t: string)
    requires IsToken(t)
    ensures Split(t) == [t]
  {
    assert TokenEnd(t) == |t|;
    assert t[..|t|] == t;
    assert t[|t|..] == [];
  }

  /** `a + " " + b` splits into the words of `a` followed by those of `b`. */
  lemma SplitJoinSpace(a: string, b: string)
    ensures Split(a + " " + b) == Split(a) + Split(b)
  {
    SplitConcat(a, " " + b);
    assert (" " + b)[1..] == b;
    assert a + " " + b == a + (" " + b);
  }

  /** Re-splitting joined words gives the words back. */
  lemma {:induction false} SplitOfJoin(ws: seq<string>)
    requires forall i :: 0 <= i < |ws| ==> IsToken(ws[i])
    ensures Split(Join(" ", ws)) == ws
    decreases |ws|
  {
    if |ws| == 1 {
      SplitOfToken(ws[0]);
    } else if |ws| > 1 {
      SplitOfJoin(ws[1..]);
      SplitJoinSpace(ws[0], Join(" ", ws[1..]));
      SplitOfToken(ws[0]);
    }
  }

  function TrimStart(s: string): (r: string)
    ensures |r| <= |s| && r == s[|s| - |r|..]
    ensures |r| > 0 ==> !IsSpace(r[0])
    ensures AllSpace(s[..|s| - |r|])
    ensures |s| > 0 && IsSpace(s[0]) ==> |r| < |s|
    decreases |s|
  {
    if |s| > 0 && IsSpace(s[0]) then TrimStart(s[1..]) else s
  }

  function TrimEnd(s: string): (r: string)
    ensures |r| <= |s| && r == s[..|r|]
    ensures |r| > 0 ==> !IsSpace(r[|r| - 1])
    ensures AllSpace(s[|r|..])
    decreases |s|
  {
    if |s| > 0 && IsSpace(s[|s| - 1]) then TrimEnd(s[..|s| - 1]) else s
  }

  /** `s.strip()` */
  function Strip(s: string): (r: string)
    ensures |r| <= |s|
    ensures |r| > 0 ==> !IsSpace(r[0]) && !IsSpace(r[|r| - 1])
  {
    TrimEnd(TrimStart(s))
  }

  /** Stripping removes whitespace only: the words are the same. */
  lemma SplitStrip(s: string)
    ensures Split(Strip(s)) == Split(s)
  {
    SplitTrimStart(s);
    SplitTrimEnd(TrimStart(s));
  }

  /** Trailing whitespace carries no words. */
  lemma SplitTrimEnd(t: string)
    ensures Split(TrimEnd(t)) == Split(t)
  {
    var u := TrimEnd(t);
    assert t == u + t[|u|..];
    SplitConcat(u, t[|u|..]);
    SplitOfSpaces(t[|u|..]);
  }

  /** A string has no words exactly when it is all whitespace. */
  lemma {:induction false} SplitEmptyIff(s: string)
    ensures Split(s) == [] <==> AllSpace(s)
    decreases |s|
  {
    if |s| > 0 {
      SplitEmptyIff(s[1..]);
      if IsSpace(s[0]) && AllSpace(s[1..]) {
        forall i | 0 <= i < |s| ensures IsSpace(s[i]) {
          if i > 0 {
            assert s[i] == s[1..][i - 1];
          }
        }
      }
    }
  }

  lemma {:induction false} TrimStartAllSpace(s: string)
    requires AllSpace(s)
    ensures TrimStart(s) == ""
    decreases |s|
  {
    if |s| > 0 {
      assert AllSpace(s[1..]) by {
        forall i | 0 <= i < |s| - 1 ensures IsSpace(s[1..][i]) {
          assert s[1..][i] == s[i + 1];
        }
      }
      TrimStartAllSpace(s[1..]);
    }
  }

  /** A string strips to nothing exactly when it is all whitespace, which
      is also when it has no words. */
  lemma StripEmpty(s: string)
    ensures Strip(s) == "" <==> AllSpace(s)
    ensures Strip(s) == "" <==> Split(s) == []
  {
    SplitEmptyIff(s);
    SplitStrip(s);
    SplitEmptyIff(Strip(s));
    if AllSpace(s) {
      TrimStartAllSpace(s);
    }
  }

  /** `s.strip()` is empty (Python falsiness of the stripped text). */
  predicate IsBlank(s: string) {
    Strip(s) == ""
  }

  /** `s.lstrip(chars)` for an explicit character set. */
  function TrimStartSet(s: string, chars: set<char>): (r: string)
    ensures |r| <= |s| && r == s[|s| - |r|..]
    ensures |r| > 0 ==> r[0] !in chars
    decreases |s|
  {
    if |s| > 0 && s[0] in chars then TrimStartSet(s[1..], chars) else s
  }

  /** `re.sub(r'\s+', ' ', s)`: every run of whitespace becomes one space;
      the words in between are copied. */
  function CollapseSpaces(s: string): (r: string)
    ensures |r| <= |s|
    ensures forall i :: 0 <= i < |r| && IsSpace(r[i]) ==> r[i] == ' '
    ensures forall i :: 0 <= i < |r| - 1 ==> !(IsSpace(r[i]) && IsSpace(r[i + 1]))
    ensures |s| > 0 <==> |r| > 0
    ensures |r| > 0 ==> (IsSpace(r[0]) <==> IsSpace(s[0]))
    decreases |s|
  {
    if |s| == 0 then ""
    else if IsSpace(s[0]) then " " + CollapseSpaces(TrimStart(s))
    else
      var k := TokenEnd(s);
      s[..k] + CollapseSpaces(s[k..])
  }

  /** Collapsing whitespace keeps the words. */
  lemma {:induction false} SplitCollapse(s: string)
    ensures Split(CollapseSpaces(s)) == Split(s)
    decreases |s|, 1
  {
    if |s| == 0 {
    } else if IsSpace(s[0]) {
      var t := TrimStart(s);
      SplitCollapse(t);
      SplitConcat(" ", CollapseSpaces(t));
      SplitOfSpaces(" ");
      SplitTrimStart(s);
    } else {
      SplitCollapseToken(s);
    }
  }

  lemma {:induction false} SplitCollapseToken(s: string)
    requires |s| > 0 && !IsSpace(s[0])
    ensures Split(CollapseSpaces(s)) == Split(s)
    decreases |s|, 0
  {
    var k := TokenEnd(s);
    SplitCollapse(s[k..]);
    SplitConcat(s[..k], CollapseSpaces(s[k..]));
    SplitOfToken(s[..k]);
    SplitToken(s, k);
  }

  /** Leading whitespace carries no words. */
  lemma SplitTrimStart(s: string)
    ensures Split(TrimStart(s)) == Split(s)
  {
    var t := TrimStart(s);
    assert s == s[..|s| - |t|] + t;
    SplitConcat(s[..|s| - |t|], t);
    SplitOfSpaces(s[..|s| - |t|]);
  }

  /** `re.sub(r'  +', ' ', s)`: runs of two or more ASCII spaces become one. */
  function CollapseBlanks(s: string): (r: string)
    ensures |r| <= |s|
    ensures forall i :: 0 <= i < |r| - 1 ==> !(r[i] == ' ' && r[i + 1] == ' ')
    ensures |r| > 0 && |s| > 0 ==> (r[0] == ' ' <==> s[0] == ' ')
    decreases |s|
  {
    if |s| == 0 then ""
    else if s[0] == ' ' then " " + CollapseBlanks(DropBlanks(s))
    else [s[0]] + CollapseBlanks(s[1..])
  }

  function DropBlanks(s: string): (r: string)
    ensures |r| <= |s| && r == s[|s| - |r|..]
    ensures |r| > 0 ==> r[0] != ' '
    ensures |s| > 0 && s[0] == ' ' ==> |r| < |s|
    decreases |s|
  {
    if |s| > 0 && s[0] == ' ' then DropBlanks(s[1..]) else s
  }

  /** No two consecutive ASCII spaces. */
  predicate NoDoubleBlank(s: string) {
    forall i :: 0 <= i < |s| - 1 ==> !(s[i] == ' ' && s[i + 1] == ' ')
  }

  /** Trimming the ends of a string keeps it free of double blanks. */
  lemma NoDoubleBlankStrip(s: string)
    requires NoDoubleBlank(s)
    ensures NoDoubleBlank(Strip(s))
  {
    var i := StripSlice(s);
    NoDoubleBlankSlice(s, i, i + |Strip(s)|, Strip(s));
  }

  lemma NoDoubleBlankSlice(s: string, i: nat, j: nat, u: string)
    requires NoDoubleBlank(s) && i <= j <= |s| && u == s[i..j]
    ensures NoDoubleBlank(u)
  {
    assert forall k :: 0 <= k < |u| ==> u[k] == s[i + k];
  }

  // ---------------------------------------------------------------------
  // Facts about collapsing and stripping used by label normalisation
  // ---------------------------------------------------------------------

  /** Collapsing whitespace copies non-space characters only from the input. */
  lemma {:induction false} CollapseSpacesKeeps(s: string, p: char -> bool)
    requires forall i :: 0 <= i < |s| && !IsSpace(s[i]) ==> p(s[i])
    ensures forall i :: 0 <= i < |CollapseSpaces(s)| && !IsSpace(CollapseSpaces(s)[i]) ==> p(CollapseSpaces(s)[i])
    decreases |s|
  {
    if |s| == 0 {
    } else if IsSpace(s[0]) {
      var t := TrimStart(s);
      assert forall i :: 0 <= i < |t| ==> t[i] == s[|s| - |t| + i];
      CollapseSpacesKeeps(t, p);
    } else {
      var k := TokenEnd(s);
      assert forall i :: 0 <= i < |s| - k ==> s[k..][i] == s[k + i];
      CollapseSpacesKeeps(s[k..], p);
    }
  }

  /** Whitespace is already single ASCII spaces. */
  predicate SingleSpaced(s: string) {
    (forall i :: 0 <= i < |s| && IsSpace(s[i]) ==> s[i] == ' ')
    && (forall i :: 0 <= i < |s| - 1 ==> !(IsSpace(s[i]) && IsSpace(s[i + 1])))
  }

  /** A single-spaced string is its own collapse. */
  lemma {:induction false} CollapseSpacesFixed(s: string)
    requires SingleSpaced(s)
    ensures CollapseSpaces(s) == s
    decreases |s|, 1
  {
    if |s| == 0 {
    } else if IsSpace(s[0]) {
      CollapseFixedSpace(s);
    } else {
      CollapseFixedToken(s);
    }
  }

  lemma {:induction false} CollapseFixedSpace(s: string)
    requires SingleSpaced(s) && |s| > 0 && IsSpace(s[0])
    ensures CollapseSpaces(s) == s
    decreases |s|, 0
  {
    SingleSpacedDrop(s, 1);
    var t := s[1..];
    if |t| > 0 {
      assert t[0] == s[1];
    }
    assert TrimStart(t) == t;
    assert TrimStart(s) == t;
    CollapseSpacesFixed(t);
    assert s[0] == ' ';
    HeadTail(s);
  }

  lemma HeadTail(s: string)
    requires |s| > 0
    ensures s == [s[0]] + s[1..]
  {
  }

  lemma {:induction false} CollapseFixedToken(s: string)
    requires SingleSpaced(s) && |s| > 0 && !IsSpace(s[0])
    ensures CollapseSpaces(s) == s
    decreases |s|, 0
  {
    var k := TokenEnd(s);
    SingleSpacedDrop(s, k);
    CollapseSpacesFixed(s[k..]);
    assert s == s[..k] + s[k..];
  }

  /** A string with no whitespace at either end is its own strip. */
  lemma StripFixed(s: string)
    requires |s| > 0 ==> !IsSpace(s[0]) && !IsSpace(s[|s| - 1])
    ensures Strip(s) == s
  {
  }

  /** The strip of `s` is the slice of `s` starting at the returned index. */
  lemma StripSlice(s: string) returns (i: nat)
    ensures i + |Strip(s)| <= |s| && Strip(s) == s[i..i + |Strip(s)|]
  {
    var t := TrimStart(s);
    i := |s| - |t|;
    assert Strip(s) == t[..|Strip(s)|];
  }

  /** Every character of the strip is a character of the input. */
  lemma StripKeeps(s: string, p: char -> bool)
    requires forall i :: 0 <= i < |s| ==> p(s[i])
    ensures forall i :: 0 <= i < |Strip(s)| ==> p(Strip(s)[i])
  {
    var k := StripSlice(s);
    assert forall j :: 0 <= j < |Strip(s)| ==> Strip(s)[j] == s[k + j];
  }

  /** Stripping keeps a string single-spaced. */
  lemma StripSingleSpaced(s: string)
    requires SingleSpaced(s)
    ensures SingleSpaced(Strip(s))
  {
    var i := StripSlice(s);
    SingleSpacedSlice(s, i, i + |Strip(s)|, Strip(s));
  }

  lemma SingleSpacedDrop(s: string, i: nat)
    requires SingleSpaced(s) && i <= |s|
    ensures SingleSpaced(s[i..])
  {
    var u := s[i..];
    assert forall k :: 0 <= k < |u| ==> u[k] == s[i + k];
  }

  lemma SingleSpacedSlice(s: string, i: nat, j: nat, u: string)
    requires SingleSpaced(s) && i <= j <= |s| && u == s[i..j]
    ensures SingleSpaced(u)
  {
    assert forall k :: 0 <= k < |u| ==> u[k] == s[i + k];
  }

  /** Two strings that differ only where both have whitespace. */
  predicate SameUpToSpaces(s: string, t: string) {
    |s| == |t| && forall i :: 0 <= i < |s| ==> s[i] == t[i] || (IsSpace(s[i]) && IsSpace(t[i]))
  }

  lemma {:induction false} TrimStartUpToSpaces(s: string, t: string)
    requires SameUpToSpaces(s, t)
    ensures SameUpToSpaces(TrimStart(s), TrimStart(t))
    decreases |s|
  {
    if |s| > 0 && IsSpace(s[0]) {
      assert SameUpToSpaces(s[1..], t[1..]) by {
        assert forall i :: 0 <= i < |s| - 1 ==> s[1..][i] == s[i + 1] && t[1..][i] == t[i + 1];
      }
      TrimStartUpToSpaces(s[1..], t[1..]);
    }
  }

  lemma {:induction false} TokenEndUpToSpaces(s: string, t: string)
    requires SameUpToSpaces(s, t)
    ensures TokenEnd(s) == TokenEnd(t)
    ensures s[..TokenEnd(s)] == t[..TokenEnd(t)]
    decreases |s|
  {
    if |s| > 0 && !IsSpace(s[0]) {
      assert SameUpToSpaces(s[1..], t[1..]) by {
        assert forall i :: 0 <= i < |s| - 1 ==> s[1..][i] == s[i + 1] && t[1..][i] == t[i + 1];
      }
      TokenEndUpToSpaces(s[1..], t[1..]);
      assert s[..TokenEnd(s)] == [s[0]] + s[1..][..TokenEnd(s[1..])];
      assert t[..TokenEnd(t)] == [t[0]] + t[1..][..TokenEnd(t[1..])];
    }
  }

  /** Which whitespace characters a run is made of does not matter to the
      collapse. */
  lemma {:induction false} CollapseUpToSpaces(s: string, t: string)
    requires SameUpToSpaces(s, t)
    ensures CollapseSpaces(s) == CollapseSpaces(t)
    decreases |s|
  {
    if |s| == 0 {
    } else if IsSpace(s[0]) {
      TrimStartUpToSpaces(s, t);
      CollapseUpToSpaces(TrimStart(s), TrimStart(t));
    } else {
      TokenEndUpToSpaces(s, t);
      var k := TokenEnd(s);
      assert SameUpToSpaces(s[k..], t[k..]) by {
        assert forall i :: 0 <= i < |s| - k ==> s[k..][i] == s[k + i] && t[k..][i] == t[k + i];
      }
      CollapseUpToSpaces(s[k..], t[k..]);
    }
  }

  // ---------------------------------------------------------------------
  // Locating and skipping occurrences
  // ---------------------------------------------------------------------

  /** A pattern with a character the text lacks does not occur in it. */
  lemma {:induction false} MissingChar(s: string, p: string, j: nat)
    requires j < |p| && p[j] !in s
    ensures !Contains(s, p)
    decreases |s|
  {
    assert !StartsWith(s, p) by {
      if |p| <= |s| {
        assert s[..|p|][j] == s[j];
      }
    }
    if |s| > 0 {
      assert p[j] !in s[1..] by {
        assert forall i :: 0 <= i < |s| - 1 ==> s[1..][i] == s[i + 1];
      }
      MissingChar(s[1..], p, j);
    }
  }

  /** No occurrence can start before the first position holding the
      pattern's first character. */
  lemma {:induction false} ReplaceSkip(s: string, p: string, rep: string, i: nat)
    requires |p| > 0 && i <= |s| && p[0] !in s[..i]
    ensures Replace(s, p, rep) == s[..i] + Replace(s[i..], p, rep)
    decreases i
  {
    if i > 0 {
      assert s[..i][0] == s[0];
      assert s[1..][..i - 1] == s[..i][1..];
      ReplaceSkip(s[1..], p, rep, i - 1);
      if |s| >= |p| {
        assert s[..|p|][0] != p[0];
      }
      assert s[1..][i - 1..] == s[i..];
      assert s[..i] == [s[0]] + s[1..][..i - 1];
    }
  }

  lemma ReplaceFront(s: string, p: string, rep: string)
    requires |p| > 0 && StartsWith(s, p)
    ensures Replace(s, p, rep) == rep + Replace(s[|p|..], p, rep)
  {
  }

  /** `p` occurs in any text that holds it between two others. */
  lemma ContainsAfter(a: string, p: string, b: string)
    ensures Contains(a + p + b, p)
  {
    assert (a + p + b)[|a|..|a| + |p|] == p;
    ContainsAt(a + p + b, p, |a|);
  }

  /** Replacing in `a + b`, where `a` lacks the pattern's first character,
      leaves `a` alone. */
  lemma ReplaceAfter(a: string, b: string, p: string, rep: string)
    requires |p| > 0 && p[0] !in a
    ensures Replace(a + b, p, rep) == a + Replace(b, p, rep)
  {
    assert (a + b)[..|a|] == a;
    assert (a + b)[|a|..] == b;
    ReplaceSkip(a + b, p, rep, |a|);
  }

  /** Replacing a key that ends the text and whose first character the
      text before it lacks. */
  lemma ReplaceLast(a: string, p: string, rep: string)
    requires |p| > 0 && p[0] !in a
    ensures Replace(a + p, p, rep) == a + rep
  {
    ReplaceAfter(a, p, p, rep);
    ReplaceFront(p, p, rep);
    assert p[|p|..] == [];
  }

  /** A text made of the pattern followed by a rest that lacks it. */
  lemma ReplaceOnce(p: string, b: string, rep: string)
    requires |p| > 0 && !Contains(b, p)
    ensures Replace(p + b, p, rep) == rep + b
  {
    assert (p + b)[..|p|] == p;
    assert (p + b)[|p|..] == b;
    ReplaceAbsent(b, p, rep);
  }

  lemma ConcatAssoc(a: string, b: string, c: string)
    ensures a + b + c == a + (b + c)
  {
  }

  // ---------------------------------------------------------------------
  // Case mapping and words
  // ---------------------------------------------------------------------

  /** `[w.lower() for w in ws]` */
  function LowerAll(ws: seq<string>): (r: seq<string>)
    ensures |r| == |ws| && forall i :: 0 <= i < |ws| ==> r[i] == Lower(ws[i])
  {
    seq(|ws|, i requires 0 <= i < |ws| => Lower(ws[i]))
  }

  lemma LowerIdempotent(s: string)
    ensures Lower(Lower(s)) == Lower(s)
  {
  }

  /** Lower-casing neither makes nor removes whitespace, so a word ends
      where it ended before. */
  lemma {:induction false} TokenEndLower(s: string)
    ensures TokenEnd(Lower(s)) == TokenEnd(s)
    decreases |s|
  {
    if |s| > 0 && !IsSpace(s[0]) {
      assert Lower(s)[1..] == Lower(s[1..]);
      TokenEndLower(s[1..]);
    }
  }

  /** The words of `s.lower()` are the lower-cased words of `s`. */
  lemma {:induction false} SplitLower(s: string)
    ensures Split(Lower(s)) == LowerAll(Split(s))
    decreases |s|
  {
    if |s| > 0 {
      var t := Lower(s);
      assert t[0] == LowerChar(s[0]);
      if IsSpace(s[0]) {
        assert t[1..] == Lower(s[1..]);
        assert Split(t) == Split(t[1..]);
        SplitLower(s[1..]);
      } else {
        var k := TokenEnd(s);
        TokenEndLower(s);
        assert t[..k] == Lower(s[..k]);
        assert t[k..] == Lower(s[k..]);
        assert Split(t) == [t[..k]] + Split(t[k..]);
        SplitLower(s[k..]);
        LowerAllCons(s[..k], Split(s[k..]));
      }
    }
  }

  lemma LowerAllCons(w: string, ws: seq<string>)
    ensures LowerAll([w] + ws) == [Lower(w)] + LowerAll(ws)
  {
  }

  /** `' '.join(ws).lower()` is the join of the lower-cased words. */
  lemma {:induction false} LowerJoin(ws: seq<string>)
    ensures Lower(Join(" ", ws)) == Join(" ", LowerAll(ws))
    decreases |ws|
  {
    if |ws| > 1 {
      LowerJoin(ws[1..]);
      assert LowerAll(ws)[1..] == LowerAll(ws[1..]);
      assert Lower(ws[0] + " " + Join(" ", ws[1..])) == Lower(ws[0]) + " " + Lower(Join(" ", ws[1..]));
    }
  }

  /** A string that does not begin with whitespace keeps its first
      character when stripped. */
  lemma {:induction false} StripHead(s: string)
    requires |s| > 0 && !IsSpace(s[0])
    ensures |Strip(s)| > 0 && Strip(s)[0] == s[0]
    decreases |s|
  {
    assert TrimStart(s) == s;
    if IsSpace(s[|s| - 1]) {
      var u := s[..|s| - 1];
      assert |u| > 0 && u[0] == s[0];
      StripHead(u);
      assert TrimStart(u) == u;
      assert TrimEnd(s) == TrimEnd(u);
    }
  }

  lemma {:induction false} TrimStartSpacePrefix(a: string, g: string)
    requires AllSpace(a)
    ensures TrimStart(a + g) == TrimStart(g)
    decreases |a|
  {
    if |a| == 0 {
      assert a + g == g;
    } else {
      assert (a + g)[0] == a[0];
      assert (a + g)[1..] == a[1..] + g;
      assert AllSpace(a[1..]) by {
        assert forall i :: 0 <= i < |a| - 1 ==> a[1..][i] == a[i + 1];
      }
      TrimStartSpacePrefix(a[1..], g);
    }
  }

  /** Whitespace in front does not survive `strip()`. */
  lemma StripSpacePrefix(a: string, g: string)
    requires AllSpace(a)
    ensures Strip(a + g) == Strip(g)
  {
    TrimStartSpacePrefix(a, g);
  }

  lemma {:induction false} TrimEndSpaceSuffix(x: string, w: string)
    requires AllSpace(w)
    ensures TrimEnd(x + w) == TrimEnd(x)
    decreases |w|
  {
    if |w| == 0 {
      assert x + w == x;
    } else {
      var w' := w[..|w| - 1];
      assert (x + w)[|x + w| - 1] == w[|w| - 1];
      assert (x + w)[..|x + w| - 1] == x + w';
      assert AllSpace(w') by {
        assert forall i :: 0 <= i < |w'| ==> w'[i] == w[i];
      }
      TrimEndSpaceSuffix(x, w');
    }
  }

  lemma {:induction false} TrimStartSuffix(g: string, w: string)
    requires !AllSpace(g)
    ensures TrimStart(g + w) == TrimStart(g) + w
    decreases |g|
  {
    assert |g| > 0;
    assert (g + w)[0] == g[0];
    if IsSpace(g[0]) {
      assert (g + w)[1..] == g[1..] + w;
      assert !AllSpace(g[1..]) by {
        var i :| 0 <= i < |g| && !IsSpace(g[i]);
        assert g[1..][i - 1] == g[i];
      }
      TrimStartSuffix(g[1..], w);
    }
  }

  /** Whitespace behind does not survive `strip()` either. */
  lemma StripSpaceSuffix(g: string, w: string)
    requires AllSpace(w)
    ensures Strip(g + w) == Strip(g)
  {
    if AllSpace(g) {
      assert AllSpace(g + w) by {
        assert forall i :: 0 <= i < |g + w| ==> (g + w)[i] == if i < |g| then g[i] else w[i - |g|];
      }
      StripEmpty(g);
      StripEmpty(g + w);
    } else {
      TrimStartSuffix(g, w);
      TrimEndSpaceSuffix(TrimStart(g), w);
    }
  }

  /** `sep.join(a + b)` for two non-empty lists. */
  lemma {:induction false} JoinConcat(sep: string, a: seq<string>, b: seq<string>)
    requires |a| > 0 && |b| > 0
    ensures Join(sep, a + b) == Join(sep, a) + sep + Join(sep, b)
    decreases |a|
  {
    if |a| == 1 {
      assert (a + b)[1..] == b;
    } else {
      assert (a + b)[1..] == a[1..] + b;
      JoinConcat(sep, a[1..], b);
    }
  }
}
