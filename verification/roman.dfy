/** Roman numerals as the reconciliation scripts read and write them:
    `convert_roman_to_int` (the subtractive-pair loop, identical in
    fix_json_intelligent.py, fix_json_final.py, fix_json_sequential.py and
    fix_json_structure_v2.py), `convert_int_to_roman` (greedy over thirteen
    value/symbol pairs) and `extract_chapter_number`. */
module Roman {
  import opened Wrappers
  import Text

  predicate IsNumeral(c: char) {
    c == 'I' || c == 'V' || c == 'X' || c == 'L' || c == 'C' || c == 'D' || c == 'M'
  }

  predicate AllNumerals(s: string) {
    forall i :: 0 <= i < |s| ==> IsNumeral(s[i])
  }

  /** The `roman_values` table. */
  function Val(c: char): (v: nat)
    requires IsNumeral(c)
    ensures v >= 1
  {
    match c
    case 'I' => 1
    case 'V' => 5
    case 'X' => 10
    case 'L' => 50
    case 'C' => 100
    case 'D' => 500
    case 'M' => 1000
  }

  /** The while loop of `convert_roman_to_int` on an upper-case numeral
      string: a smaller value before a larger one counts as their
      difference and both are consumed, otherwise one value is added. */
  function Parse(s: string): nat
    requires AllNumerals(s)
    decreases |s|
  {
    if |s| == 0 then 0
    else if |s| >= 2 && Val(s[0]) < Val(s[1]) then Val(s[1]) - Val(s[0]) + Parse(s[2..])
    else Val(s[0]) + Parse(s[1..])
  }

  /** `convert_roman_to_int(roman)`: `None` stands for the `KeyError` the
      table lookup raises on a character that is not a numeral after
      `upper()`. */
  function RomanToInt(roman: string): (r: Option<nat>)
    ensures r.Some? <==> AllNumerals(Text.Upper(roman))
  {
    var u := Text.Upper(roman);
    if AllNumerals(u) then Some(Parse(u)) else None
  }

  /** The loop itself, index by index, against the recursive reading. */
  method RomanToIntLoop(roman: string) returns (ok: bool, result: nat)
    ensures ok <==> AllNumerals(Text.Upper(roman))
    ensures ok ==> RomanToInt(roman) == Some(result)
  {
    var u := Text.Upper(roman);
    result := 0;
    var i := 0;
    while i < |u|
      invariant 0 <= i <= |u|
      invariant AllNumerals(u[..i])
      invariant AllNumerals(u) ==> result + Parse(u[i..]) == Parse(u)
    {
      if !IsNumeral(u[i]) {
        return false, 0;
      }
      if i + 1 < |u| && !IsNumeral(u[i + 1]) {
        return false, 0;
      }
      NumeralsAt(u, i);
      if AllNumerals(u) {
        ParseAt(u, i);
      }
      if i + 1 < |u| && Val(u[i]) < Val(u[i + 1]) {
        result := result + Val(u[i + 1]) - Val(u[i]);
        i := i + 2;
      } else {
        result := result + Val(u[i]);
        i := i + 1;
      }
    }
    assert u[..i] == u;
    ok := true;
  }

  /** The loop's two steps extend the checked prefix. */
  lemma NumeralsAt(u: string, i: nat)
    requires i < |u| && AllNumerals(u[..i]) && IsNumeral(u[i])
    requires i + 1 < |u| ==> IsNumeral(u[i + 1])
    ensures AllNumerals(u[..i + 1])
    ensures i + 1 < |u| ==> AllNumerals(u[..i + 2])
  {
    assert u[..i + 1] == u[..i] + [u[i]];
    if i + 1 < |u| {
      assert u[..i + 2] == u[..i] + [u[i], u[i + 1]];
    }
  }

  /** `Parse` of a suffix, unfolded once. */
  lemma ParseAt(u: string, i: nat)
    requires AllNumerals(u) && i < |u|
    ensures i + 1 < |u| && Val(u[i]) < Val(u[i + 1]) ==>
              Parse(u[i..]) == Val(u[i + 1]) - Val(u[i]) + Parse(u[i + 2..])
    ensures !(i + 1 < |u| && Val(u[i]) < Val(u[i + 1])) ==>
              Parse(u[i..]) == Val(u[i]) + Parse(u[i + 1..])
  {
    assert u[i..][1..] == u[i + 1..];
    if i + 1 < |u| {
      assert u[i..][2..] == u[i + 2..];
    }
  }

  /** A non-empty numeral is worth at least one, so the scripts' `if num:`
      never discards a parsed chapter number. */
  lemma {:induction false} ParsePositive(s: string)
    requires AllNumerals(s) && |s| > 0
    ensures Parse(s) >= 1
  {
  }

  /** Parsing splits at a boundary where the value does not rise. */
  lemma {:induction false} ParseConcat(a: string, b: string)
    requires AllNumerals(a) && AllNumerals(b)
    requires |a| == 0 || |b| == 0 || Val(a[|a| - 1]) >= Val(b[0])
    ensures AllNumerals(a + b)
    ensures Parse(a + b) == Parse(a) + Parse(b)
    decreases |a|
  {
    var ab := a + b;
    if |a| == 0 {
      assert ab == b;
    } else if |a| == 1 {
      assert ab[1..] == b;
    } else if Val(a[0]) < Val(a[1]) {
      assert ab[2..] == a[2..] + b;
      ParseConcat(a[2..], b);
    } else {
      assert ab[1..] == a[1..] + b;
      ParseConcat(a[1..], b);
    }
  }

  // ---------------------------------------------------------------------
  // convert_int_to_roman
  // ---------------------------------------------------------------------

  /** `values[i]` */
  function Value(i: nat): (v: nat)
    requires i < 13
    ensures v >= 1
  {
    if i == 0 then 1000
    else if i == 1 then 900
    else if i == 2 then 500
    else if i == 3 then 400
    else if i == 4 then 100
    else if i == 5 then 90
    else if i == 6 then 50
    else if i == 7 then 40
    else if i == 8 then 10
    else if i == 9 then 9
    else if i == 10 then 5
    else if i == 11 then 4
    else 1
  }

  /** `symbols[i]` */
  function Symbol(i: nat): (r: string)
    requires i < 13
    ensures |r| > 0 && AllNumerals(r)
  {
    if i == 0 then "M"
    else if i == 1 then "CM"
    else if i == 2 then "D"
    else if i == 3 then "CD"
    else if i == 4 then "C"
    else if i == 5 then "XC"
    else if i == 6 then "L"
    else if i == 7 then "XL"
    else if i == 8 then "X"
    else if i == 9 then "IX"
    else if i == 10 then "V"
    else if i == 11 then "IV"
    else "I"
  }

  /** `symbol * count` */
  function Repeat(s: string, count: nat): (r: string)
    ensures AllNumerals(s) ==> AllNumerals(r)
    ensures |s| > 0 && count > 0 ==> |r| > 0 && r[0] == s[0] && r[|r| - 1] == s[|s| - 1]
  {
    if count == 0 then "" else s + Repeat(s, count - 1)
  }

  /** `count = num // values[i]` */
  function Count(num: nat, i: nat): nat
    requires i < 13
  {
    num / Value(i)
  }

  /** What `num -= values[i] * count` leaves. */
  function Left(num: nat, i: nat): nat
    requires i < 13
  {
    num % Value(i)
  }

  /** Euclid's division by the table value. */
  lemma Euclid(num: nat, i: nat)
    requires i < 13
    ensures num == Count(num, i) * Value(i) + Left(num, i)
    ensures Left(num, i) < Value(i)
    ensures Count(num, i) == 0 ==> Left(num, i) == num
  {
  }

  /** The loop of `convert_int_to_roman` from position `i` of the tables. */
  function Greedy(num: nat, i: nat): (r: string)
    requires i <= 13
    ensures AllNumerals(r)
    decreases 13 - i
  {
    if i == 13 then ""
    else Repeat(Symbol(i), Count(num, i)) + Greedy(Left(num, i), i + 1)
  }

  /** `convert_int_to_roman(num)` for a non-negative `num`. */
  function IntToRoman(num: nat): (r: string)
    ensures AllNumerals(r)
    ensures num == 0 <==> r == ""
  {
    GreedyEmpty(num, 0);
    Greedy(num, 0)
  }

  lemma {:induction false} GreedyEmpty(num: nat, i: nat)
    requires i <= 13
    ensures Greedy(num, i) == "" <==> num == 0 || i == 13
    decreases 13 - i
  {
    if i < 13 {
      ValuesFacts(i);
      var q := Count(num, i);
      var head := Repeat(Symbol(i), q);
      assert Greedy(num, i) == head + Greedy(Left(num, i), i + 1);
      if q == 0 {
        Euclid(num, i);
        GreedyEmpty(num, i + 1);
      } else {
        SymbolFacts(i);
      }
    }
  }

  /** The table values are positive, strictly decreasing and end at one. */
  lemma ValuesFacts(i: nat)
    requires i < 13
    ensures Value(i) >= 1
    ensures i < 12 ==> Value(i + 1) < Value(i)
    ensures i == 12 ==> Value(i) == 1
  {
  }

  lemma SymbolFacts(i: nat)
    requires i < 13
    ensures AllNumerals(Symbol(i)) && |Symbol(i)| > 0
    ensures Parse(Symbol(i)) == Value(i)
    ensures Val(Symbol(i)[0]) <= Value(i)
    ensures Val(Symbol(i)[|Symbol(i)| - 1]) >= Val(Symbol(i)[0])
    ensures i < 12 ==> Val(Symbol(i)[|Symbol(i)| - 1]) >= Value(i + 1)
  {
    if i < 4 {
      SymbolsHigh(i);
    } else if i < 9 {
      SymbolsMiddle(i);
    } else {
      SymbolsLow(i);
    }
  }

  lemma SymbolsHigh(i: nat)
    requires 0 <= i <= 3
    ensures AllNumerals(Symbol(i)) && |Symbol(i)| > 0
    ensures Parse(Symbol(i)) == Value(i)
    ensures Val(Symbol(i)[0]) <= Value(i)
    ensures Val(Symbol(i)[|Symbol(i)| - 1]) >= Val(Symbol(i)[0])
    ensures i < 12 ==> Val(Symbol(i)[|Symbol(i)| - 1]) >= Value(i + 1)
  {
    if i == 0 {
      SymbolCase(i, "M", 1000);
    } else if i == 1 {
      SymbolCase(i, "CM", 900);
    } else if i == 2 {
      SymbolCase(i, "D", 500);
    } else {
      SymbolCase(i, "CD", 400);
    }
  }

  lemma SymbolsMiddle(i: nat)
    requires 4 <= i <= 8
    ensures AllNumerals(Symbol(i)) && |Symbol(i)| > 0
    ensures Parse(Symbol(i)) == Value(i)
    ensures Val(Symbol(i)[0]) <= Value(i)
    ensures Val(Symbol(i)[|Symbol(i)| - 1]) >= Val(Symbol(i)[0])
    ensures i < 12 ==> Val(Symbol(i)[|Symbol(i)| - 1]) >= Value(i + 1)
  {
    if i == 4 {
      SymbolCase(i, "C", 100);
    } else if i == 5 {
      SymbolCase(i, "XC", 90);
    } else if i == 6 {
      SymbolCase(i, "L", 50);
    } else if i == 7 {
      SymbolCase(i, "XL", 40);
    } else {
      SymbolCase(i, "X", 10);
    }
  }

  lemma SymbolsLow(i: nat)
    requires 9 <= i <= 12
    ensures AllNumerals(Symbol(i)) && |Symbol(i)| > 0
    ensures Parse(Symbol(i)) == Value(i)
    ensures Val(Symbol(i)[0]) <= Value(i)
    ensures Val(Symbol(i)[|Symbol(i)| - 1]) >= Val(Symbol(i)[0])
    ensures i < 12 ==> Val(Symbol(i)[|Symbol(i)| - 1]) >= Value(i + 1)
  {
    if i == 9 {
      SymbolCase(i, "IX", 9);
    } else if i == 10 {
      SymbolCase(i, "V", 5);
    } else if i == 11 {
      SymbolCase(i, "IV", 4);
    } else {
      SymbolCase(i, "I", 1);
    }
  }

  lemma SymbolCase(i: nat, sym: string, v: nat)
    requires i < 13 && Symbol(i) == sym && Value(i) == v
    requires AllNumerals(sym) && |sym| > 0 && Parse(sym) == v
    requires Val(sym[0]) <= v && Val(sym[|sym| - 1]) >= Val(sym[0])
    requires i < 12 ==> Val(sym[|sym| - 1]) >= Value(i + 1)
    ensures AllNumerals(Symbol(i)) && |Symbol(i)| > 0
    ensures Parse(Symbol(i)) == Value(i)
    ensures Val(Symbol(i)[0]) <= Value(i)
    ensures Val(Symbol(i)[|Symbol(i)| - 1]) >= Val(Symbol(i)[0])
    ensures i < 12 ==> Val(Symbol(i)[|Symbol(i)| - 1]) >= Value(i + 1)
  {
  }

  lemma {:induction false} ParseRepeat(sym: string, count: nat)
    requires AllNumerals(sym) && |sym| > 0 && Val(sym[|sym| - 1]) >= Val(sym[0])
    ensures Parse(Repeat(sym, count)) == count * Parse(sym)
    decreases count
  {
    if count > 0 {
      ParseRepeat(sym, count - 1);
      ParseConcat(sym, Repeat(sym, count - 1));
      assert count * Parse(sym) == Parse(sym) + (count - 1) * Parse(sym);
    }
  }

  /** The first numeral `Greedy` writes is worth at most the current table
      value. */
  lemma {:induction false} GreedyFirst(num: nat, i: nat)
    requires i <= 13
    ensures |Greedy(num, i)| > 0 ==> i < 13 && Val(Greedy(num, i)[0]) <= Value(i)
    decreases 13 - i
  {
    if i < 13 {
      var v := Value(i);
      ValuesFacts(i);
      var q := Count(num, i);
      var head := Repeat(Symbol(i), q);
      var rest := Greedy(Left(num, i), i + 1);
      assert Greedy(num, i) == head + rest;
      if q == 0 {
        GreedyFirst(Left(num, i), i + 1);
        assert head == "";
        assert i < 12 ==> Value(i + 1) <= v;
      } else {
        SymbolFacts(i);
        assert |head| > 0 && head[0] == Symbol(i)[0];
        assert (head + rest)[0] == head[0];
      }
    }
  }

  /** One step of the greedy loop: the symbols written for the current
      table entry do not pair with what the later entries write. */
  lemma GreedyStep(num: nat, i: nat)
    requires i < 13
    ensures Parse(Greedy(num, i)) == Parse(Repeat(Symbol(i), Count(num, i))) + Parse(Greedy(Left(num, i), i + 1))
  {
    SymbolFacts(i);
    ValuesFacts(i);
    var head := Repeat(Symbol(i), Count(num, i));
    var tail := Greedy(Left(num, i), i + 1);
    assert Greedy(num, i) == head + tail;
    GreedyFirst(Left(num, i), i + 1);
    if |head| > 0 && |tail| > 0 {
      assert Val(head[|head| - 1]) >= Val(tail[0]);
    }
    ParseConcat(head, tail);
  }

  /** The symbols written for one table entry are worth that many times its
      value. */
  lemma RepeatValue(i: nat, q: nat)
    requires i < 13
    ensures Parse(Repeat(Symbol(i), q)) == q * Value(i)
  {
    SymbolFacts(i);
    ParseRepeat(Symbol(i), q);
  }

  lemma {:induction false} ParseGreedy(num: nat, i: nat)
    requires i <= 13
    requires i == 13 ==> num == 0
    ensures Parse(Greedy(num, i)) == num
    decreases 13 - i
  {
    if i < 13 {
      ValuesFacts(i);
      Euclid(num, i);
      GreedyStep(num, i);
      RepeatValue(i, Count(num, i));
      ParseGreedy(Left(num, i), i + 1);
    }
  }

  /** `convert_roman_to_int(convert_int_to_roman(n)) == n` for every
      non-negative `n`. */
  lemma RomanRoundTrip(n: nat)
    ensures AllNumerals(IntToRoman(n))
    ensures RomanToInt(IntToRoman(n)) == Some(n)
  {
    ParseGreedy(n, 0);
    UpperNumerals(IntToRoman(n));
  }

  /** Upper-casing leaves a numeral string alone. */
  lemma UpperNumerals(s: string)
    requires AllNumerals(s)
    ensures Text.Upper(s) == s
  {
  }

  /** Distinct numbers print as distinct numerals. */
  lemma IntToRomanInjective(a: nat, b: nat)
    ensures IntToRoman(a) == IntToRoman(b) <==> a == b
  {
    RomanRoundTrip(a);
    RomanRoundTrip(b);
  }

  // ---------------------------------------------------------------------
  // extract_chapter_number
  // ---------------------------------------------------------------------

  /** Length of the run of numerals at the start of `s`. */
  function NumeralRun(s: string): (k: nat)
    ensures k <= |s| && AllNumerals(s[..k])
    ensures k < |s| ==> !IsNumeral(s[k])
  {
    if |s| == 0 || !IsNumeral(s[0]) then 0
    else
      var k := 1 + NumeralRun(s[1..]);
      assert s[..k] == [s[0]] + s[1..][..k - 1];
      k
  }

  /** What `\s+([IVXLCDM]+)` captures at the start of `s`, if it matches:
      at least one whitespace character, then the longest numeral run. */
  function NumeralAfterSpace(s: string): (r: Option<string>)
    ensures r.Some? ==> |r.value| > 0 && AllNumerals(r.value)
  {
    var t := Text.TrimStart(s);
    if |t| == |s| then None
    else
      var k := NumeralRun(t);
      if k == 0 then None else Some(t[..k])
  }

  /** The capture of `re.search(r'CHAPTER\s+([IVXLCDM]+)', u)`: the leftmost
      position where the whole pattern matches. */
  function SearchChapterNumeral(u: string): (r: Option<string>)
    ensures r.Some? ==> |r.value| > 0 && AllNumerals(r.value)
    decreases |u|
  {
    if |u| == 0 then None
    else if Text.StartsWith(u, "CHAPTER") && NumeralAfterSpace(u[7..]).Some? then NumeralAfterSpace(u[7..])
    else SearchChapterNumeral(u[1..])
  }

  /** `extract_chapter_number(title)`: the value of the first numeral after
      `CHAPTER` in the upper-cased title, `None` when there is none.  The
      `except` branch is unreachable because the capture is all numerals. */
  function ExtractChapterNumber(title: string): (r: Option<nat>)
    ensures r.Some? ==> r.value >= 1
    ensures r.None? <==> SearchChapterNumeral(Text.Upper(title)).None?
  {
    match SearchChapterNumeral(Text.Upper(title))
    case None => None
    case Some(g) =>
      ParsePositive(g);
      UpperNumerals(g);
      assert RomanToInt(g) == Some(Parse(g));
      RomanToInt(g)
  }

  /** A title with no `CHAPTER` in its upper-cased form has no number. */
  lemma {:induction false} NoChapterNoNumber(u: string)
    requires !Text.Contains(u, "CHAPTER")
    ensures SearchChapterNumeral(u) == None
    decreases |u|
  {
    if |u| > 0 {
      NoChapterNoNumber(u[1..]);
    }
  }

  lemma UpperConcat(a: string, b: string)
    ensures Text.Upper(a + b) == Text.Upper(a) + Text.Upper(b)
  {
  }

  /** `\s+([IVXLCDM]+)` after one space captures the whole numeral when
      a non-numeral follows it. */
  lemma NumeralAfterOneSpace(r: string, rest: string)
    requires |r| > 0 && AllNumerals(r) && (|rest| == 0 || !IsNumeral(rest[0]))
    ensures NumeralAfterSpace(" " + r + rest) == Some(r)
  {
    var s := " " + r + rest;
    assert s[1..] == r + rest;
    assert !Text.IsSpace(s[1]);
    assert Text.TrimStart(s[1..]) == s[1..];
    NumeralRunPrefix(r, rest);
    assert (r + rest)[..|r|] == r;
  }

  lemma UpperChapterTitle(r: string, rest: string)
    requires AllNumerals(r)
    ensures Text.Upper("CHAPTER " + r + ". " + rest) == "CHAPTER " + r + ". " + Text.Upper(rest)
  {
    UpperNumerals(r);
    UpperConcat("CHAPTER " + r, ". " + rest);
    UpperConcat("CHAPTER ", r);
    UpperConcat(". ", rest);
    assert Text.Upper("CHAPTER ") == "CHAPTER ";
    assert Text.Upper(". ") == ". ";
  }

  lemma SearchAtStart(r: string, tail: string)
    requires |r| > 0 && AllNumerals(r) && |tail| > 0 && !IsNumeral(tail[0])
    ensures SearchChapterNumeral("CHAPTER " + r + tail) == Some(r)
  {
    var u := "CHAPTER " + r + tail;
    ChapterPrefix(u, " " + r + tail);
    NumeralAfterOneSpace(r, tail);
  }

  lemma ChapterPrefix(u: string, after: string)
    requires u == "CHAPTER" + after
    ensures |u| > 0 && Text.StartsWith(u, "CHAPTER") && u[7..] == after
  {
    assert u[..7] == "CHAPTER";
  }

  /** The titles the scripts write, `CHAPTER <numeral>. <title>`, give the
      number back. */
  lemma ChapterTitleNumber(n: nat, rest: string)
    requires n >= 1
    ensures ExtractChapterNumber("CHAPTER " + IntToRoman(n) + ". " + rest) == Some(n)
  {
    var r := IntToRoman(n);
    var title := "CHAPTER " + r + ". " + rest;
    var tail := ". " + Text.Upper(rest);
    assert Text.Upper(title) == "CHAPTER " + r + tail by {
      UpperChapterTitle(r, rest);
    }
    assert SearchChapterNumeral(Text.Upper(title)) == Some(r) by {
      SearchAtStart(r, tail);
    }
    assert RomanToInt(r) == Some(n) by {
      RomanRoundTrip(n);
    }
  }

  lemma {:induction false} NumeralRunPrefix(a: string, b: string)
    requires AllNumerals(a) && (|b| == 0 || !IsNumeral(b[0]))
    ensures NumeralRun(a + b) == |a|
    decreases |a|
  {
    if |a| > 0 {
      assert (a + b)[1..] == a[1..] + b;
      NumeralRunPrefix(a[1..], b);
    } else {
      assert a + b == b;
    }
  }
}
