/** `_normalize_label` and `clean_repeated_chapter_title`: a chapter whose
    title reads `CHAPTER <numeral>. <label>` loses the label when the first
    paragraph repeats it.  scripts/json_processing/reorganize_final.py and
    scripts/ocr_fixes/fix_ocr_manual.py carry the same cleanup; they differ
    only in the normaliser, which in the second one also deletes zero-width
    characters and maps no-break spaces to spaces. */
module Labels {
  import opened Wrappers
  import opened Text
  import Roman
  import opened Book

  // ---------------------------------------------------------------------
  // _normalize_label
  // ---------------------------------------------------------------------

  /** The em dash, the en dash and the hyphen. */
  predicate IsDash(c: char) {
    c == '\U{2014}' || c == '\U{2013}' || c == '-'
  }

  /** `.replace('—', ' ').replace('–', ' ').replace('-', ' ')` */
  function DashesToSpaces(s: string): (r: string)
    ensures |r| == |s|
    ensures forall i :: 0 <= i < |s| ==> r[i] == (if IsDash(s[i]) then ' ' else s[i])
  {
    seq(|s|, i requires 0 <= i < |s| => if IsDash(s[i]) then ' ' else s[i])
  }

  /** `re.sub(r"[^\w\s]", " ", t)` */
  function PunctuationToSpaces(s: string): (r: string)
    ensures |r| == |s|
    ensures forall i :: 0 <= i < |s| ==> r[i] == (if IsWordChar(s[i]) || IsSpace(s[i]) then s[i] else ' ')
  {
    seq(|s|, i requires 0 <= i < |s| => if IsWordChar(s[i]) || IsSpace(s[i]) then s[i] else ' ')
  }

  /** What a normalised label looks like: lower-case word characters and
      single spaces, nothing at either end. */
  predicate Normalized(r: string) {
    (forall i :: 0 <= i < |r| ==> r[i] == ' ' || LowerWordChar(r[i]))
    && (forall i :: 0 <= i < |r| - 1 ==> !(r[i] == ' ' && r[i + 1] == ' '))
    && (|r| > 0 ==> r[0] != ' ' && r[|r| - 1] != ' ')
  }

  predicate LowerWordChar(c: char) {
    IsWordChar(c) && !IsUpperLetter(c)
  }

  lemma LowerCharNotUpper(c: char)
    ensures !IsUpperLetter(LowerChar(c))
    ensures IsWordChar(c) || IsUpperLetter(c) ==> IsWordChar(LowerChar(c)) || LowerChar(c) == c
  {
  }

  /** The text after dash mapping and lower-casing, with punctuation
      removed: only lower-case word characters and whitespace remain. */
  function Cleaned(t: string): (u: string)
    ensures forall i :: 0 <= i < |u| && !IsSpace(u[i]) ==> LowerWordChar(u[i])
  {
    var l := Lower(DashesToSpaces(t));
    forall i | 0 <= i < |l| ensures !IsUpperLetter(l[i]) {
      LowerCharNotUpper(DashesToSpaces(t)[i]);
    }
    PunctuationToSpaces(l)
  }

  /** Collapse whitespace and strip, the last line of `_normalize_label`. */
  function Squeeze(u: string): (r: string)
    requires forall i :: 0 <= i < |u| && !IsSpace(u[i]) ==> LowerWordChar(u[i])
    ensures Normalized(r)
  {
    var c := CollapseSpaces(u);
    CollapseSpacesKeeps(u, LowerWordChar);
    assert SingleSpaced(c);
    StripNormalized(c);
    Strip(c)
  }

  /** Stripping a single-spaced string of lower-case word characters and
      spaces normalises it. */
  lemma StripNormalized(c: string)
    requires SingleSpaced(c)
    requires forall i :: 0 <= i < |c| && !IsSpace(c[i]) ==> LowerWordChar(c[i])
    ensures Normalized(Strip(c))
  {
    var p := ch => ch == ' ' || LowerWordChar(ch);
    forall i | 0 <= i < |c| ensures p(c[i]) {
      if IsSpace(c[i]) {
        assert c[i] == ' ';
      }
    }
    StripSingleSpaced(c);
    StripKeeps(c, p);
  }

  /** `_normalize_label` of scripts/json_processing/reorganize_final.py. */
  function NormalizeLabel(text: Option<string>): (r: string)
    ensures Normalized(r)
    ensures text.None? ==> r == ""
  {
    match text
    case None => ""
    case Some(t) => Squeeze(Cleaned(t))
  }

  /** Every step of the normaliser leaves a normalised string alone. */
  lemma NormalizedFixed(r: string)
    requires Normalized(r)
    ensures NormalizeLabel(Some(r)) == r
  {
    assert DashesToSpaces(r) == r;
    assert Lower(r) == r;
    assert Cleaned(r) == r;
    assert forall i :: 0 <= i < |r| && IsSpace(r[i]) ==> r[i] == ' ';
    assert SingleSpaced(r);
    CollapseSpacesFixed(r);
    StripFixed(r);
  }

  /** Normalising twice is normalising once. */
  lemma NormalizeIdempotent(text: Option<string>)
    ensures NormalizeLabel(Some(NormalizeLabel(text))) == NormalizeLabel(text)
  {
    NormalizedFixed(NormalizeLabel(text));
  }

  /** The zero-width characters the second normaliser deletes. */
  predicate IsZeroWidth(c: char) {
    c == '\U{200B}' || c == '\U{200C}' || c == '\U{200D}' || c == '\U{FEFF}'
  }

  /** The no-break and thin spaces it maps to spaces. */
  predicate IsNoBreakSpace(c: char) {
    c == '\U{A0}' || c == '\U{202F}' || c == '\U{2009}' || c == '\U{200A}'
  }

  /** `for ch in ZW_CHARS: t = t.replace(ch, '')` */
  function DeleteZeroWidth(s: string): (r: string)
    ensures |r| <= |s|
    ensures forall i :: 0 <= i < |r| ==> !IsZeroWidth(r[i])
    decreases |s|
  {
    if |s| == 0 then ""
    else (if IsZeroWidth(s[0]) then "" else [s[0]]) + DeleteZeroWidth(s[1..])
  }

  /** `for ch in NBSP_CHARS: t = t.replace(ch, ' ')` */
  function NoBreakToSpaces(s: string): (r: string)
    ensures |r| == |s|
    ensures forall i :: 0 <= i < |s| ==> r[i] == (if IsNoBreakSpace(s[i]) then ' ' else s[i])
  {
    seq(|s|, i requires 0 <= i < |s| => if IsNoBreakSpace(s[i]) then ' ' else s[i])
  }

  /** `_normalize_label` of scripts/ocr_fixes/fix_ocr_manual.py. */
  function NormalizeLabelManual(text: Option<string>): (r: string)
    ensures Normalized(r)
    ensures text.None? ==> r == ""
  {
    match text
    case None => ""
    case Some(t) => Squeeze(Cleaned(NoBreakToSpaces(DeleteZeroWidth(t))))
  }

  /** The two normalisers agree once zero-width characters are gone: the
      no-break-space mapping changes nothing, because those characters
      are whitespace to `\s+` anyway. */
  lemma ManualIsPlainWithoutZeroWidth(t: string)
    ensures NormalizeLabelManual(Some(t)) == NormalizeLabel(Some(DeleteZeroWidth(t)))
  {
    var d := DeleteZeroWidth(t);
    var a := Cleaned(NoBreakToSpaces(d));
    var b := Cleaned(d);
    assert SameUpToSpaces(a, b);
    CollapseUpToSpaces(a, b);
  }

  /** Where the two normalisers part: a zero-width space inside a word
      splits it in the first normaliser ... */
  lemma ZeroWidthSplitsWord()
    ensures NormalizeLabel(Some("a\U{200B}b")) == "a b"
  {
    assert Cleaned("a\U{200B}b") == "a b";
    assert "a" + " " + "b" == "a b";
    SqueezeSingle("a", "b");
  }

  /** ... and vanishes in the second. */
  lemma ZeroWidthVanishes()
    ensures NormalizeLabelManual(Some("a\U{200B}b")) == "ab"
  {
    assert DeleteZeroWidth("a\U{200B}b") == "ab" by {
      assert DeleteZeroWidth("b") == "b" + DeleteZeroWidth("");
    }
    assert Cleaned(NoBreakToSpaces("ab")) == "ab";
    SqueezeWord("ab");
  }

  lemma SqueezeWord(w: string)
    requires IsToken(w) && forall i :: 0 <= i < |w| ==> LowerWordChar(w[i])
    ensures Squeeze(w) == w
  {
    assert SingleSpaced(w);
    CollapseSpacesFixed(w);
    StripFixed(w);
  }

  lemma SqueezeSingle(a: string, b: string)
    requires IsToken(a) && IsToken(b)
    requires forall i :: 0 <= i < |a| ==> LowerWordChar(a[i])
    requires forall i :: 0 <= i < |b| ==> LowerWordChar(b[i])
    ensures Squeeze(a + " " + b) == a + " " + b
  {
    var s := a + " " + b;
    assert forall i :: 0 <= i < |s| ==> s[i] == ' ' || !IsSpace(s[i]);
    assert SingleSpaced(s) by {
      forall i | 0 <= i < |s| - 1 ensures !(IsSpace(s[i]) && IsSpace(s[i + 1])) {
        if i < |a| - 1 {
          assert s[i] == a[i];
        } else if i == |a| - 1 {
          assert s[i] == a[i];
        } else if i == |a| {
          assert s[i + 1] == b[0];
        } else {
          assert s[i] == b[i - |a| - 1];
        }
      }
    }
    CollapseSpacesFixed(s);
    StripFixed(s);
  }

  /** The normaliser a copy of the cleanup uses. */
  datatype Normalizer = Plain | Manual

  function Normalize(n: Normalizer, text: Option<string>): (r: string)
    ensures Normalized(r)
  {
    match n
    case Plain => NormalizeLabel(text)
    case Manual => NormalizeLabelManual(text)
  }

  // ---------------------------------------------------------------------
  // The title pattern ^\s*CHAPTER\s+([IVXLCDM]+)\.\s*(.+)$, ignoring case
  // ---------------------------------------------------------------------

  /** No line break before the last character: what `(.+)$` accepts. */
  predicate OneLine(s: string) {
    forall i :: 0 <= i < |s| - 1 ==> s[i] != '\n'
  }

  /** The stripped label of a `CHAPTER <numeral>. <label>` title, or `None`
      when the title does not match.  A match whose label strips to nothing
      gives `Some("")`, which the cleanup skips like a miss. */
  function TitleLabel(title: string): (r: Option<string>)
    ensures r.Some? ==> Strip(r.value) == r.value
  {
    match AfterKeyword(title)
    case None => None
    case Some(c) =>
      match AfterNumeral(c)
      case None => None
      case Some(d) =>
        var rest := TrimStart(d);
        if !OneLine(rest) then None
        else
          var lbl := Strip(rest);
          StripFixed(lbl);
          Some(lbl)
  }

  /** `^\s*CHAPTER\s+`: the text after it, or `None`. */
  function AfterKeyword(title: string): (r: Option<string>)
    ensures r.Some? ==> |r.value| < |title|
  {
    var a := TrimStart(title);
    if !StartsWith(Upper(a), "CHAPTER") then None
    else
      var b := a[7..];
      var c := TrimStart(b);
      if |c| == |b| then None else Some(c)
  }

  /** `([IVXLCDM]+)\.`: the text after the dot, or `None`. */
  function AfterNumeral(c: string): (r: Option<string>)
    ensures r.Some? ==> |r.value| < |c|
  {
    var k := Roman.NumeralRun(Upper(c));
    if k == 0 || k >= |c| || c[k] != '.' then None else Some(c[k + 1..])
  }

  lemma UpperPrefix(a: string, b: string)
    ensures Upper(a + b) == Upper(a) + Upper(b)
  {
  }

  lemma AfterKeywordOf(c: string)
    requires |c| > 0 && !IsSpace(c[0])
    ensures AfterKeyword("CHAPTER " + c) == Some(c)
  {
    var title := "CHAPTER " + c;
    assert TrimStart(title) == title by {
      assert title[0] == 'C';
    }
    assert StartsWith(Upper(title), "CHAPTER") by {
      UpperPrefix("CHAPTER", " " + c);
      assert Upper("CHAPTER") == "CHAPTER";
      assert title == "CHAPTER" + (" " + c);
    }
    assert title[7..] == " " + c;
    assert TrimStart(" " + c) == c by {
      assert (" " + c)[1..] == c;
    }
  }

  lemma AfterNumeralOf(numeral: string, rest: string)
    requires |numeral| > 0 && Roman.AllNumerals(numeral)
    ensures AfterNumeral(numeral + "." + rest) == Some(rest)
  {
    var c := numeral + "." + rest;
    UpperPrefix(numeral, "." + rest);
    Roman.UpperNumerals(numeral);
    Roman.NumeralRunPrefix(numeral, Upper("." + rest));
    assert c[|numeral|] == '.';
    assert c[|numeral| + 1..] == rest;
  }

  /** The title every assembly writes gives its label back. */
  lemma TitleLabelOf(numeral: string, lbl: string)
    requires |numeral| > 0 && Roman.AllNumerals(numeral)
    requires |lbl| > 0 && !IsSpace(lbl[0]) && !IsSpace(lbl[|lbl| - 1]) && OneLine(lbl)
    ensures TitleLabel("CHAPTER " + numeral + ". " + lbl) == Some(lbl)
  {
    KeywordStep(numeral, lbl);
    NumeralStep(numeral, lbl);
    SpaceStep(lbl);
    TitleLabelFrom("CHAPTER " + numeral + ". " + lbl, numeral + ". " + lbl, " " + lbl);
  }

  lemma KeywordStep(numeral: string, lbl: string)
    requires |numeral| > 0 && Roman.AllNumerals(numeral)
    ensures AfterKeyword("CHAPTER " + numeral + ". " + lbl) == Some(numeral + ". " + lbl)
  {
    var c := numeral + ". " + lbl;
    assert "CHAPTER " + numeral + ". " + lbl == "CHAPTER " + c;
    AfterKeywordOf(c);
  }

  lemma NumeralStep(numeral: string, lbl: string)
    requires |numeral| > 0 && Roman.AllNumerals(numeral)
    ensures AfterNumeral(numeral + ". " + lbl) == Some(" " + lbl)
  {
    assert numeral + ". " + lbl == numeral + "." + (" " + lbl);
    AfterNumeralOf(numeral, " " + lbl);
  }

  lemma SpaceStep(lbl: string)
    requires |lbl| > 0 && !IsSpace(lbl[0]) && !IsSpace(lbl[|lbl| - 1])
    ensures TrimStart(" " + lbl) == lbl && Strip(lbl) == lbl
  {
    assert (" " + lbl)[1..] == lbl;
    StripFixed(lbl);
  }

  lemma TitleLabelFrom(title: string, c: string, d: string)
    requires AfterKeyword(title) == Some(c) && AfterNumeral(c) == Some(d) && OneLine(TrimStart(d))
    ensures TitleLabel(title) == Some(Strip(TrimStart(d)))
  {
  }

  // ---------------------------------------------------------------------
  // clean_repeated_chapter_title
  // ---------------------------------------------------------------------

  /** The first item that is a `p` with non-empty `content`. */
  function FirstP(items: seq<Item>): (r: Option<nat>)
    ensures r.Some? ==> r.value < |items| && items[r.value].IsP() && items[r.value].Content() != ""
    ensures r.Some? ==> forall j :: 0 <= j < r.value ==> !(items[j].IsP() && items[j].Content() != "")
    ensures r.None? ==> forall j :: 0 <= j < |items| ==> !(items[j].IsP() && items[j].Content() != "")
    decreases |items|
  {
    if |items| == 0 then None
    else if items[0].IsP() && items[0].Content() != "" then Some(0)
    else
      match FirstP(items[1..])
      case None => None
      case Some(j) => Some(j + 1)
  }

  /** `s.lower().startswith(p.lower())`, the case-insensitive prefix test. */
  predicate CiStartsWith(s: string, p: string) {
    StartsWith(Lower(s), Lower(p))
  }

  /** `[\s\.:;,_\-—]` */
  predicate IsSeparator(c: char) {
    IsSpace(c) || c in {'.', ':', ';', ',', '_', '-', '\U{2014}'}
  }

  /** The number of leading separator characters. */
  function SeparatorRun(s: string): (k: nat)
    ensures k <= |s|
    ensures forall i :: 0 <= i < k ==> IsSeparator(s[i])
    ensures k < |s| ==> !IsSeparator(s[k])
    decreases |s|
  {
    if |s| > 0 && IsSeparator(s[0]) then 1 + SeparatorRun(s[1..]) else 0
  }

  /** `re.compile(r"^\s*" + re.escape(label) + r"[\s\.:;,_\-—]*", re.IGNORECASE).match(para)`:
      the end of the match, or `None`. */
  function PrefixEnd(para: string, lbl: string): (r: Option<nat>)
    ensures r.Some? ==> |lbl| <= r.value <= |para|
  {
    var a := TrimStart(para);
    if CiStartsWith(a, lbl) then
      Some(|para| - |a| + |lbl| + SeparatorRun(a[|lbl|..]))
    else None
  }

  /** The characters of `lstrip(" .,:;-—_")`. */
  const Punctuation: set<char> := {' ', '.', ',', ':', ';', '-', '\U{2014}', '_'}

  /** `s[n:]` with Python's clamping. */
  function Drop(s: string, n: nat): (r: string)
    ensures |r| == if n < |s| then |s| - n else 0
    ensures r == s[|s| - |r|..]
  {
    if n < |s| then s[n..] else ""
  }

  /** What the cleanup did to one chapter. */
  datatype Effect = Untouched | Removed | Trimmed

  /** The text that remains after the label, or `None` when neither the
      pattern prefix nor the normalised prefix finds it. */
  function Remainder(n: Normalizer, para: string, lbl: string): Option<string> {
    match PrefixEnd(para, lbl)
    case Some(e) => Some(PatternRest(para, e))
    case None => NormalizedRemainder(n, para, lbl)
  }

  /** `para_text[m2.end():].lstrip(" .,:;-—_")` */
  function PatternRest(para: string, e: nat): (rest: string)
    requires e <= |para|
    ensures EndsWith(para, rest) && |rest| <= |para| - e
  {
    var rest := TrimStartSet(para[e..], Punctuation);
    SuffixOfTail(para, e, rest);
    rest
  }

  /** A suffix of a tail of `s` is a suffix of `s`. */
  lemma SuffixOfTail(s: string, e: nat, r: string)
    requires e <= |s| && |r| <= |s| - e && r == s[e..][|s| - e - |r|..]
    ensures EndsWith(s, r)
  {
    assert s[e..][|s| - e - |r|..] == s[|s| - |r|..];
  }

  /** `" ".join(para_text.split()[k:])` */
  function WordsAfter(para: string, k: nat): (rest: string)
    ensures Split(rest) == if k < |Split(para)| then Split(para)[k..] else []
  {
    var words := Split(para);
    var tail := if k < |words| then words[k..] else [];
    SplitOfJoin(tail);
    Join(" ", tail)
  }

  /** The fallback on normalised text, for a paragraph the pattern missed. */
  function NormalizedRemainder(n: Normalizer, para: string, lbl: string): Option<string> {
    var np := Normalize(n, Some(para));
    var nl := Normalize(n, Some(lbl));
    if StartsWith(np, nl + " ") || StartsWith(np, nl + ":") then
      if Lower(Take(para, |lbl|)) == Lower(lbl) then
        Some(TrimStartSet(Drop(para, |lbl|), Punctuation))
      else
        Some(WordsAfter(para, |Split(lbl)|))
    else None
  }

  /** A normalised text never has a colon, so the second prefix test of
      the fallback never succeeds on its own. */
  lemma NoColonAfter(np: string, nl: string)
    requires Normalized(np)
    ensures !StartsWith(np, nl + ":")
  {
    if |nl| + 1 <= |np| {
      assert np[|nl|] != ':';
      assert (nl + ":")[|nl|] == ':';
    }
  }

  /** The tail property, as `RemainderIsTail` states it. */
  predicate IsTail(para: string, lbl: string, rest: string) {
    || (EndsWith(para, rest) && |rest| < |para|)
    || (|Split(lbl)| < |Split(para)| && Split(rest) == Split(para)[|Split(lbl)|..])
    || Split(rest) == []
  }

  lemma DropIsTail(para: string, lbl: string)
    requires lbl != ""
    ensures IsTail(para, lbl, TrimStartSet(Drop(para, |lbl|), Punctuation))
  {
    var rest := TrimStartSet(Drop(para, |lbl|), Punctuation);
    if |para| == 0 {
      assert rest == "";
      SplitOfSpaces(rest);
    } else {
      assert EndsWith(para, rest);
    }
  }

  lemma WordsAfterIsTail(para: string, lbl: string)
    ensures IsTail(para, lbl, WordsAfter(para, |Split(lbl)|))
  {
  }

  lemma NormalizedRemainderIsTail(n: Normalizer, para: string, lbl: string)
    requires lbl != ""
    ensures NormalizedRemainder(n, para, lbl).Some? ==> IsTail(para, lbl, NormalizedRemainder(n, para, lbl).value)
  {
    if Lower(Take(para, |lbl|)) == Lower(lbl) {
      DropIsTail(para, lbl);
    } else {
      WordsAfterIsTail(para, lbl);
    }
  }

  /** What remains is a strictly shorter tail of the paragraph, or the
      paragraph's words after as many words as the label has. */
  lemma RemainderIsTail(n: Normalizer, para: string, lbl: string)
    requires lbl != ""
    ensures Remainder(n, para, lbl).Some? ==> IsTail(para, lbl, Remainder(n, para, lbl).value)
  {
    match PrefixEnd(para, lbl)
    case Some(e) =>
    case None => NormalizedRemainderIsTail(n, para, lbl);
  }

  /** How many paragraphs an effect removed and trimmed. */
  function Counts(e: Effect): (nat, nat) {
    match e
    case Untouched => (0, 0)
    case Removed => (1, 0)
    case Trimmed => (0, 1)
  }

  /** Removing or trimming the paragraph at `p`, depending on whether
      anything is left. */
  function Apply(items: seq<Item>, p: nat, rest: string): (r: (seq<Item>, Effect))
    requires p < |items|
    ensures r.1 != Untouched
    ensures r.1 == Removed <==> IsBlank(rest)
    ensures r.1 == Removed ==> r.0 == items[..p] + items[p + 1..]
    ensures r.1 == Trimmed ==>
              && |r.0| == |items|
              && (forall j :: 0 <= j < |items| && j != p ==> r.0[j] == items[j])
              && r.0[p].kind == items[p].kind && r.0[p].text == Some(rest)
              && (r.0[p].wordCount.Some? <==> items[p].wordCount.Some?)
              && (r.0[p].wordCount.Some? ==> r.0[p].wordCount.value == WordCount(rest))
  {
    if IsBlank(rest) then (items[..p] + items[p + 1..], Removed)
    else
      var para := items[p];
      var wc := if para.wordCount.Some? then Some(WordCount(rest)) else None;
      (items[p := para.(text := Some(rest), wordCount := wc)], Trimmed)
  }

  /** The paragraph at `p`, given the chapter's label: removed when it
      normalises to the label, trimmed or removed when the label is its
      prefix, left alone otherwise. */
  function CleanParagraph(n: Normalizer, items: seq<Item>, p: nat, lbl: string): (r: (seq<Item>, Effect))
    requires p < |items|
    ensures |r.0| + Counts(r.1).0 == |items|
    ensures r.1 == Untouched ==> r.0 == items
    ensures r.1 == Removed ==> r.0 == items[..p] + items[p + 1..]
    ensures r.1 == Trimmed ==>
              && |r.0| == |items|
              && (forall j :: 0 <= j < |items| && j != p ==> r.0[j] == items[j])
              && r.0[p].kind == items[p].kind
              && r.0[p].text.Some? && !IsBlank(r.0[p].text.value)
    ensures Normalize(n, Some(items[p].Content())) == Normalize(n, Some(lbl)) ==> r.1 == Removed
  {
    var para := items[p].Content();
    if Normalize(n, Some(para)) == Normalize(n, Some(lbl)) then (items[..p] + items[p + 1..], Removed)
    else
      match Remainder(n, para, lbl)
      case None => (items, Untouched)
      case Some(rest) => Apply(items, p, rest)
  }

  /** The body of the loop for one chapter. */
  function CleanChapter(n: Normalizer, ch: Chapter): (r: (Chapter, Effect))
    ensures r.0.title == ch.title
    ensures |r.0.content| + Counts(r.1).0 == |ch.content|
    ensures r.1 == Untouched ==> r.0 == ch
  {
    match TitleLabel(ch.Title())
    case None => (ch, Untouched)
    case Some(lbl) =>
      if lbl == "" then (ch, Untouched)
      else
        match FirstP(ch.content)
        case None => (ch, Untouched)
        case Some(p) =>
          if IsBlank(ch.content[p].Content()) then (ch, Untouched)
          else
            var a := CleanParagraph(n, ch.content, p, lbl);
            (ch.(content := a.0), a.1)
  }

  /** Only a chapter with a non-empty label and a non-blank first
      paragraph is touched, and then only that paragraph. */
  lemma CleanChapterTouches(n: Normalizer, ch: Chapter)
    ensures var r := CleanChapter(n, ch);
            r.1 != Untouched ==>
              && TitleLabel(ch.Title()).Some? && TitleLabel(ch.Title()).value != ""
              && FirstP(ch.content).Some?
              && !IsBlank(ch.content[FirstP(ch.content).value].Content())
              && (r.0.content, r.1) == CleanParagraph(n, ch.content, FirstP(ch.content).value, TitleLabel(ch.Title()).value)
  {
  }

  /** A first paragraph that only repeats the label is removed, and with
      it nothing else. */
  lemma RepeatedLabelRemoved(n: Normalizer, ch: Chapter, lbl: string, p: nat)
    requires TitleLabel(ch.Title()) == Some(lbl) && lbl != ""
    requires FirstP(ch.content) == Some(p) && ch.content[p].Content() == lbl
    ensures CleanChapter(n, ch) == (ch.(content := ch.content[..p] + ch.content[p + 1..]), Removed)
  {
    assert !IsBlank(lbl) by {
      StripFixed(lbl);
    }
    CleanChapterWhen(n, ch, lbl, p);
  }

  /** The chapter-level dispatch once the label and the paragraph are
      known. */
  lemma CleanChapterWhen(n: Normalizer, ch: Chapter, lbl: string, p: nat)
    requires TitleLabel(ch.Title()) == Some(lbl) && lbl != ""
    requires FirstP(ch.content) == Some(p) && !IsBlank(ch.content[p].Content())
    ensures CleanChapter(n, ch) == (ch.(content := CleanParagraph(n, ch.content, p, lbl).0), CleanParagraph(n, ch.content, p, lbl).1)
  {
  }

  /** A per-chapter cleaner that keeps the title and shortens the content
      by one item exactly when it reports a removal. */
  ghost predicate Cleaner(clean: Chapter -> (Chapter, Effect)) {
    forall ch :: clean(ch).0.title == ch.title && |clean(ch).0.content| + Counts(clean(ch).1).0 == |ch.content|
  }

  lemma CleanChapterIsCleaner(n: Normalizer)
    ensures Cleaner(ch => CleanChapter(n, ch))
  {
  }

  /** The chapters of one section, with the removed and trimmed counts. */
  function CleanChapters(clean: Chapter -> (Chapter, Effect), cs: seq<Chapter>): (r: (seq<Chapter>, nat, nat))
    requires Cleaner(clean)
    ensures |r.0| == |cs|
    ensures forall i :: 0 <= i < |cs| ==> r.0[i] == clean(cs[i]).0
    ensures r.1 + r.2 <= |cs|
    ensures |ChapterItems(r.0)| + r.1 == |ChapterItems(cs)|
    decreases |cs|
  {
    if |cs| == 0 then ([], 0, 0)
    else
      var head := clean(cs[0]);
      var tail := CleanChapters(clean, cs[1..]);
      var c := Counts(head.1);
      var r := [head.0] + tail.0;
      assert r[1..] == tail.0;
      (r, c.0 + tail.1, c.1 + tail.2)
  }

  /** Every part's chapters through `CleanChapters`, with the counts
      summed. */
  function CleanParts(clean: Chapter -> (Chapter, Effect), ps: seq<Part>): (r: (seq<Part>, nat, nat))
    requires Cleaner(clean)
    ensures |r.0| == |ps|
    ensures forall i :: 0 <= i < |ps| ==>
              r.0[i].title == ps[i].title && r.0[i].subtitle == ps[i].subtitle
              && r.0[i].chapters == CleanChapters(clean, ps[i].chapters).0
    ensures r.1 + r.2 <= |AllChapters(ps)|
    ensures |AllItems(r.0)| + r.1 == |AllItems(ps)|
    decreases |ps|
  {
    if |ps| == 0 then ([], 0, 0)
    else
      var head := CleanChapters(clean, ps[0].chapters);
      var tail := CleanParts(clean, ps[1..]);
      var p := ps[0].(chapters := head.0);
      assert ([p] + tail.0)[1..] == tail.0;
      ([p] + tail.0, head.1 + tail.1, head.2 + tail.2)
  }

  function ChapterCleaner(n: Normalizer): (clean: Chapter -> (Chapter, Effect))
    ensures Cleaner(clean)
    ensures forall ch :: clean(ch) == CleanChapter(n, ch)
  {
    CleanChapterIsCleaner(n);
    ch => CleanChapter(n, ch)
  }

  /** `clean_repeated_chapter_title(structure)`: the cleaned book and
      `(removed, trimmed)`. */
  function CleanRepeatedChapterTitle(n: Normalizer, ps: seq<Part>): (r: (seq<Part>, nat, nat))
    ensures |r.0| == |ps|
    ensures forall i :: 0 <= i < |ps| ==>
              r.0[i].title == ps[i].title && r.0[i].subtitle == ps[i].subtitle
              && r.0[i].chapters == CleanChapters(ChapterCleaner(n), ps[i].chapters).0
    ensures r.1 + r.2 <= |AllChapters(ps)|
    ensures |AllItems(r.0)| + r.1 == |AllItems(ps)|
  {
    CleanParts(ChapterCleaner(n), ps)
  }
}
