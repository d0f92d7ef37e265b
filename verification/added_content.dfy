/** analyze_added_content.py: the sentences of the generated English text
    that bring in words the original does not have, and the kind of
    addition each one is.  Extracting the texts from the EPUBs (with the
    same file filter as `TextStats.IsTextFile`) is outside this model. */
module AddedContent {
  import opened Wrappers
  import opened Text

  // ---------------------------------------------------------------------
  // normalize_text
  // ---------------------------------------------------------------------

  /** The first index of `c` in `s`, or `|s|` when there is none. */
  function IndexOf(s: string, c: char): (r: nat)
    ensures r <= |s| && (r < |s| ==> s[r] == c)
    ensures forall i :: 0 <= i < r ==> s[i] != c
    decreases |s|
  {
    if |s| == 0 || s[0] == c then 0 else 1 + IndexOf(s[1..], c)
  }

  /** `re.sub(r'\{[^}]*\}', ' ', text)`: from each `{` that a `}` follows,
      up to the first such `}`, becomes one space. */
  function DropBraced(s: string): string
    decreases |s|
  {
    if |s| == 0 then ""
    else if s[0] == '{' && IndexOf(s, '}') < |s| then " " + DropBraced(s[IndexOf(s, '}') + 1..])
    else [s[0]] + DropBraced(s[1..])
  }

  /** No `{` has a `}` anywhere after it. */
  predicate NoBracePair(s: string) {
    forall i, j :: 0 <= i < j < |s| && s[i] == '{' ==> s[j] != '}'
  }

  /** `[a-zA-Z_-]` */
  predicate IsNameChar(c: char) {
    ('a' <= c <= 'z') || ('A' <= c <= 'Z') || c == '_' || c == '-'
  }

  /** The length of the longest prefix of `s` whose characters satisfy
      `p`. */
  function Span(s: string, p: char -> bool): (r: nat)
    ensures r <= |s| && (forall i :: 0 <= i < r ==> p(s[i])) && (r < |s| ==> !p(s[r]))
    decreases |s|
  {
    if |s| == 0 || !p(s[0]) then 0 else 1 + Span(s[1..], p)
  }

  /** The end of a match of `[.#][a-zA-Z_-]+\s*\{[^}]*\}` at the start of
      `s`, if there is one.  The name, the whitespace and the `{` are
      disjoint classes, so the greedy runs are the only way to match. */
  function RuleEnd(s: string): (r: Option<nat>)
    ensures r.Some? ==> 0 < r.value <= |s|
  {
    if |s| == 0 || !(s[0] == '.' || s[0] == '#') then None
    else
      var n := Span(s[1..], IsNameChar);
      if n == 0 then None
      else
        var b := 1 + n + Span(s[1 + n..], IsSpace);
        if b < |s| && s[b] == '{' && IndexOf(s[b..], '}') < |s| - b then Some(b + IndexOf(s[b..], '}') + 1)
        else None
  }

  /** `re.sub(r'[.#][a-zA-Z_-]+\s*\{[^}]*\}', ' ', text)` */
  function DropRules(s: string): string
    decreases |s|
  {
    if |s| == 0 then ""
    else match RuleEnd(s)
      case Some(k) => " " + DropRules(s[k..])
      case None => [s[0]] + DropRules(s[1..])
  }

  /** The characters `[^\w\s.,;:!?()"-]` does not replace. */
  predicate Allowed(c: char) {
    IsWordChar(c) || IsSpace(c) || c in ".,;:!?()\"-"
  }

  /** `re.sub(r'[^\w\s.,;:!?()"-]', ' ', text)` */
  function Sanitize(s: string): (r: string)
    ensures |r| == |s| && forall i :: 0 <= i < |s| ==> r[i] == if Allowed(s[i]) then s[i] else ' '
  {
    seq(|s|, i requires 0 <= i < |s| => if Allowed(s[i]) then s[i] else ' ')
  }

  /** `normalize_text`: braced blocks and CSS rules out, whitespace
      collapsed, other punctuation blanked, stripped and lower-cased. */
  function Normalize(text: string): string {
    if text == "" then ""
    else Lower(Strip(Sanitize(CollapseSpaces(DropRules(DropBraced(text))))))
  }

  /** Without a `}` in the input there is none in the output. */
  lemma {:induction false} DropBracedNoClose(s: string)
    requires forall i :: 0 <= i < |s| ==> s[i] != '}'
    ensures forall i :: 0 <= i < |DropBraced(s)| ==> DropBraced(s)[i] != '}'
    decreases |s|
  {
    if |s| > 0 {
      assert IndexOf(s, '}') == |s|;
      assert forall i :: 0 <= i < |s| - 1 ==> s[1..][i] == s[i + 1];
      DropBracedNoClose(s[1..]);
      assert DropBraced(s) == [s[0]] + DropBraced(s[1..]);
    }
  }

  lemma NoPairCons(c: char, t: string)
    requires NoBracePair(t)
    requires c == '{' ==> forall j :: 0 <= j < |t| ==> t[j] != '}'
    ensures NoBracePair([c] + t)
  {
    var r := [c] + t;
    forall i, j | 0 <= i < j < |r| && r[i] == '{' ensures r[j] != '}' {
      assert r[j] == t[j - 1];
      if i > 0 {
        assert r[i] == t[i - 1];
      }
    }
  }

  lemma {:induction false} DropBracedNoPair(s: string)
    ensures NoBracePair(DropBraced(s))
    decreases |s|
  {
    if |s| > 0 {
      if s[0] == '{' && IndexOf(s, '}') < |s| {
        var rest := s[IndexOf(s, '}') + 1..];
        DropBracedNoPair(rest);
        NoPairCons(' ', DropBraced(rest));
      } else {
        DropBracedNoPair(s[1..]);
        if s[0] == '{' {
          assert forall i :: 0 <= i < |s| - 1 ==> s[1..][i] == s[i + 1];
          DropBracedNoClose(s[1..]);
        }
        NoPairCons(s[0], DropBraced(s[1..]));
      }
    }
  }

  /** A CSS rule needs a `{` with a `}` after it. */
  lemma RuleNeedsPair(s: string)
    requires NoBracePair(s)
    ensures RuleEnd(s).None?
  {
    if |s| > 0 && (s[0] == '.' || s[0] == '#') {
      var n := Span(s[1..], IsNameChar);
      var b := 1 + n + Span(s[1 + n..], IsSpace);
      if b < |s| && s[b] == '{' {
        forall k | 0 <= k < |s| - b ensures s[b..][k] != '}' {
          assert s[b..][k] == s[b + k];
        }
      }
    }
  }

  lemma {:induction false} DropRulesIdle(s: string)
    requires NoBracePair(s)
    ensures DropRules(s) == s
    decreases |s|
  {
    if |s| > 0 {
      RuleNeedsPair(s);
      assert NoBracePair(s[1..]) by {
        assert forall i :: 0 <= i < |s| - 1 ==> s[1..][i] == s[i + 1];
      }
      DropRulesIdle(s[1..]);
      assert s == [s[0]] + s[1..];
    }
  }

  /** The CSS-rule substitution never changes anything: the braced-block
      substitution before it has already removed every `{` that a `}`
      follows. */
  lemma RulesAlreadyGone(text: string)
    ensures DropRules(DropBraced(text)) == DropBraced(text)
  {
    DropBracedNoPair(text);
    DropRulesIdle(DropBraced(text));
  }

  /** A character `normalize_text` can leave: one the punctuation filter
      keeps, not an upper-case letter, and whitespace only as `' '`. */
  predicate Normal(c: char) {
    Allowed(c) && !IsUpperLetter(c) && (IsSpace(c) ==> c == ' ')
  }

  predicate SanitizedChar(c: char) {
    Allowed(c) && (IsSpace(c) ==> c == ' ')
  }

  /** The normalised text holds only characters the filter keeps, in lower
      case, with `' '` as its only whitespace and none at either end; in
      particular no `{` or `}` survives. */
  lemma NormalizeFacts(text: string)
    ensures var r := Normalize(text);
            && (forall i :: 0 <= i < |r| ==> Normal(r[i]))
            && (|r| > 0 ==> r[0] != ' ' && r[|r| - 1] != ' ')
  {
    if text != "" {
      var c := CollapseSpaces(DropRules(DropBraced(text)));
      SanitizeSpaces(c);
      LowerStrip(Sanitize(c));
    }
  }

  lemma SanitizeSpaces(c: string)
    requires forall i :: 0 <= i < |c| && IsSpace(c[i]) ==> c[i] == ' '
    ensures forall i :: 0 <= i < |c| ==> SanitizedChar(Sanitize(c)[i])
  {
  }

  lemma LowerNormal(c: char)
    requires SanitizedChar(c)
    ensures Normal(LowerChar(c)) && (LowerChar(c) == ' ' <==> c == ' ')
  {
  }

  lemma LowerStrip(z: string)
    requires forall i :: 0 <= i < |z| ==> SanitizedChar(z[i])
    ensures var r := Lower(Strip(z));
            && (forall i :: 0 <= i < |r| ==> Normal(r[i]))
            && (|r| > 0 ==> r[0] != ' ' && r[|r| - 1] != ' ')
  {
    StripKeeps(z, SanitizedChar);
    LowerSanitized(Strip(z));
  }

  lemma LowerSanitized(t: string)
    requires forall i :: 0 <= i < |t| ==> SanitizedChar(t[i])
    requires |t| > 0 ==> !IsSpace(t[0]) && !IsSpace(t[|t| - 1])
    ensures forall i :: 0 <= i < |Lower(t)| ==> Normal(Lower(t)[i])
    ensures |t| > 0 ==> Lower(t)[0] != ' ' && Lower(t)[|t| - 1] != ' '
  {
    forall i | 0 <= i < |t| ensures Normal(Lower(t)[i]) && (Lower(t)[i] == ' ' <==> t[i] == ' ') {
      LowerNormal(t[i]);
    }
  }

  // ---------------------------------------------------------------------
  // Sentences
  // ---------------------------------------------------------------------

  predicate IsEnd(c: char) {
    c == '.' || c == '!' || c == '?'
  }

  /** The index of the first terminator, or `|s|`. */
  function ToEnd(s: string): (r: nat)
    ensures r <= |s| && (forall i :: 0 <= i < r ==> !IsEnd(s[i])) && (r < |s| ==> IsEnd(s[r]))
    decreases |s|
  {
    if |s| == 0 || IsEnd(s[0]) then 0 else 1 + ToEnd(s[1..])
  }

  /** The length of the run of terminators `s` starts with. */
  function EndRun(s: string): (r: nat)
    ensures r <= |s| && (forall i :: 0 <= i < r ==> IsEnd(s[i])) && (r < |s| ==> !IsEnd(s[r]))
    decreases |s|
  {
    if |s| == 0 || !IsEnd(s[0]) then 0 else 1 + EndRun(s[1..])
  }

  /** `re.split(r'[.!?]+', text)`: the pieces between runs of `.`, `!`
      and `?`, with an empty piece before a leading run and after a
      trailing one. */
  function Sentences(s: string): (r: seq<string>)
    ensures |r| >= 1
    decreases |s|
  {
    var i := ToEnd(s);
    if i == |s| then [s]
    else
      var j := i + EndRun(s[i..]);
      [s[..i]] + Sentences(s[j..])
  }

  function Flat(ws: seq<string>): string
    decreases |ws|
  {
    if |ws| == 0 then "" else ws[0] + Flat(ws[1..])
  }

  /** `s` without its `.`, `!` and `?`. */
  function Keep(s: string): string
    decreases |s|
  {
    if |s| == 0 then "" else (if IsEnd(s[0]) then "" else [s[0]]) + Keep(s[1..])
  }

  /** A prefix without terminators is kept whole. */
  lemma {:induction false} KeepPrefix(s: string, i: nat)
    requires i <= |s| && forall t :: 0 <= t < i ==> !IsEnd(s[t])
    ensures Keep(s) == s[..i] + Keep(s[i..])
    decreases i
  {
    if i > 0 {
      KeepPrefix(s[1..], i - 1);
      assert s[1..][i - 1..] == s[i..];
      assert [s[0]] + s[1..][..i - 1] == s[..i];
    }
  }

  /** A prefix of terminators is dropped. */
  lemma {:induction false} KeepSkip(s: string, k: nat)
    requires k <= |s| && forall t :: 0 <= t < k ==> IsEnd(s[t])
    ensures Keep(s) == Keep(s[k..])
    decreases k
  {
    if k > 0 {
      KeepSkip(s[1..], k - 1);
      assert s[1..][k - 1..] == s[k..];
    }
  }

  lemma SentencesLast(s: string)
    requires ToEnd(s) == |s|
    ensures Sentences(s) == [s]
  {
  }

  lemma SentencesCons(s: string) returns (j: nat)
    requires ToEnd(s) < |s|
    ensures ToEnd(s) < j <= |s| && (forall t :: ToEnd(s) <= t < j ==> IsEnd(s[t]))
    ensures Sentences(s) == [s[..ToEnd(s)]] + Sentences(s[j..])
  {
    var i := ToEnd(s);
    j := i + EndRun(s[i..]);
    RunShift(s, i);
  }

  lemma RunShift(s: string, i: nat)
    requires i <= |s|
    ensures forall t :: i <= t < i + EndRun(s[i..]) ==> IsEnd(s[t])
  {
    assert forall t :: i <= t < i + EndRun(s[i..]) ==> s[t] == s[i..][t - i];
  }

  /** No sentence holds a `.`, `!` or `?`. */
  lemma {:induction false} SentencesNoEnd(s: string, k: nat, i: nat)
    requires k < |Sentences(s)| && i < |Sentences(s)[k]|
    ensures !IsEnd(Sentences(s)[k][i])
    decreases |s|
  {
    if ToEnd(s) == |s| {
      SentencesLast(s);
    } else {
      var j := SentencesCons(s);
      if k == 0 {
        assert Sentences(s)[0] == s[..ToEnd(s)];
      } else {
        assert Sentences(s)[k] == Sentences(s[j..])[k - 1];
        SentencesNoEnd(s[j..], k - 1, i);
      }
    }
  }

  /** Removing the terminators from a sentence, a run of terminators and
      the rest. */
  lemma KeepSplit(s: string, i: nat, j: nat)
    requires i <= j <= |s|
    requires forall t :: 0 <= t < i ==> !IsEnd(s[t])
    requires forall t :: i <= t < j ==> IsEnd(s[t])
    ensures Keep(s) == s[..i] + Keep(s[j..])
  {
    KeepPrefix(s, i);
    KeepTail(s, i, j);
  }

  lemma KeepTail(s: string, i: nat, j: nat)
    requires i <= j <= |s|
    requires forall t :: i <= t < j ==> IsEnd(s[t])
    ensures Keep(s[i..]) == Keep(s[j..])
  {
    assert forall t :: 0 <= t < j - i ==> s[i..][t] == s[i + t];
    KeepSkip(s[i..], j - i);
    assert s[i..][j - i..] == s[j..];
  }

  /** The sentences put together in order are the text without its `.`,
      `!` and `?`. */
  lemma {:induction false} SentencesFlat(s: string)
    ensures Flat(Sentences(s)) == Keep(s)
    decreases |s|
  {
    var i := ToEnd(s);
    if i == |s| {
      KeepPrefix(s, i);
      SentencesLast(s);
      assert Flat([s]) == s + Flat([]);
    } else {
      var j := SentencesCons(s);
      SentencesFlat(s[j..]);
      KeepSplit(s, i, j);
      FlatCons(s[..i], Sentences(s[j..]));
    }
  }

  lemma FlatCons(w: string, ws: seq<string>)
    ensures Flat([w] + ws) == w + Flat(ws)
  {
    assert ([w] + ws)[1..] == ws;
  }

  // ---------------------------------------------------------------------
  // find_segments_in_english_not_in_original
  // ---------------------------------------------------------------------

  /** `set(text.split())` */
  function WordSet(s: string): (r: set<string>)
    ensures forall w :: w in r <==> w in Split(s)
  {
    set w | w in Split(s)
  }

  datatype Segment = Segment(text: string, length: nat, uniqueWords: nat)

  /** A sentence is reported when its normalised form is longer than 20
      characters, has a word the original lacks, and is not a substring of
      the normalised original. */
  predicate Added(sentence: string, originalNorm: string, unique: set<string>) {
    var n := Normalize(sentence);
    |WordSet(n) * unique| > 0 && |n| > 20 && !Contains(originalNorm, n)
  }

  /** The record made for a reported sentence. */
  function SegmentOf(sentence: string, unique: set<string>): Segment {
    Segment(Strip(sentence), |Strip(sentence)|, |WordSet(Normalize(sentence)) * unique|)
  }

  /** The loop over the sentences: a record `make(s)` for each sentence `s`
      that `keep` accepts, in order. */
  function Select(sentences: seq<string>, keep: string -> bool, make: string -> Segment): seq<Segment>
    decreases |sentences|
  {
    if |sentences| == 0 then []
    else (if keep(sentences[0]) then [make(sentences[0])] else []) + Select(sentences[1..], keep, make)
  }

  datatype Findings = Findings(segments: seq<Segment>, unique: set<string>)

  /** `find_segments_in_english_not_in_original` */
  function FindSegments(original: string, english: string): Findings {
    var originalNorm := Normalize(original);
    var unique := WordSet(Normalize(english)) - WordSet(originalNorm);
    Findings(Select(Sentences(english), s => Added(s, originalNorm, unique), s => SegmentOf(s, unique)), unique)
  }

  lemma {:induction false} SelectLength(sentences: seq<string>, keep: string -> bool, make: string -> Segment)
    ensures |Select(sentences, keep, make)| <= |sentences|
    decreases |sentences|
  {
    if |sentences| > 0 {
      SelectLength(sentences[1..], keep, make);
    }
  }

  lemma {:induction false} SelectComplete(sentences: seq<string>, keep: string -> bool, make: string -> Segment, i: nat)
    requires i < |sentences| && keep(sentences[i])
    ensures make(sentences[i]) in Select(sentences, keep, make)
    decreases |sentences|
  {
    if i > 0 {
      SelectComplete(sentences[1..], keep, make, i - 1);
    }
  }

  lemma {:induction false} SelectSound(sentences: seq<string>, keep: string -> bool, make: string -> Segment, g: Segment)
    requires g in Select(sentences, keep, make)
    ensures exists i :: 0 <= i < |sentences| && keep(sentences[i]) && g == make(sentences[i])
    decreases |sentences|
  {
    if !(keep(sentences[0]) && g == make(sentences[0])) {
      SelectSound(sentences[1..], keep, make, g);
      var i :| 0 <= i < |sentences[1..]| && keep(sentences[1..][i]) && g == make(sentences[1..][i]);
      assert sentences[1..][i] == sentences[i + 1];
    }
  }

  /** There is at most one segment per sentence. */
  lemma SegmentsCount(original: string, english: string)
    ensures |FindSegments(original, english).segments| <= |Sentences(english)|
  {
    var f := FindSegments(original, english);
    var on := Normalize(original);
    SelectLength(Sentences(english), s => Added(s, on, f.unique), s => SegmentOf(s, f.unique));
  }

  /** The new words are those of the normalised English text that the
      normalised original lacks. */
  lemma UniqueWords(original: string, english: string)
    ensures forall w :: w in FindSegments(original, english).unique <==>
              w in Split(Normalize(english)) && w !in Split(Normalize(original))
  {
    var ne, no := Normalize(english), Normalize(original);
    assert FindSegments(original, english).unique == WordSet(ne) - WordSet(no);
  }

  /** `g` is what sentence `s` gives: its normalised form is longer than
      20 characters, has a new word and is not part of the normalised
      original, and `g` carries the stripped sentence, that text's length
      and the sentence's number of new words. */
  predicate Reports(g: Segment, s: string, originalNorm: string, unique: set<string>) {
    && g.text == Strip(s) && g.length == |g.text|
    && |Normalize(s)| > 20
    && !Contains(originalNorm, Normalize(s))
    && g.uniqueWords == |WordSet(Normalize(s)) * unique| > 0
  }

  /** Each segment is what some sentence gives. */
  lemma SegmentsSound(original: string, english: string, g: Segment)
    requires g in FindSegments(original, english).segments
    ensures exists i :: 0 <= i < |Sentences(english)|
              && Reports(g, Sentences(english)[i], Normalize(original), FindSegments(original, english).unique)
  {
    var f := FindSegments(original, english);
    var on := Normalize(original);
    var keep := s => Added(s, on, f.unique);
    var make := s => SegmentOf(s, f.unique);
    var sents := Sentences(english);
    SelectSound(sents, keep, make, g);
    var i :| 0 <= i < |sents| && keep(sents[i]) && g == make(sents[i]);
    assert Added(sents[i], on, f.unique) && g == SegmentOf(sents[i], f.unique);
    assert Reports(g, sents[i], on, f.unique);
  }

  /** Every sentence that qualifies gives its segment. */
  lemma SegmentsComplete(original: string, english: string, i: nat)
    requires i < |Sentences(english)|
    requires Added(Sentences(english)[i], Normalize(original), FindSegments(original, english).unique)
    ensures SegmentOf(Sentences(english)[i], FindSegments(original, english).unique) in FindSegments(original, english).segments
  {
    var f := FindSegments(original, english);
    var on := Normalize(original);
    SelectComplete(Sentences(english), s => Added(s, on, f.unique), s => SegmentOf(s, f.unique), i);
  }

  // ---------------------------------------------------------------------
  // identify_added_content_types
  // ---------------------------------------------------------------------

  datatype Category = License | Metadata | Navigation | Formatting | OtherKind

  /** `any(word in text for word in words)` */
  predicate AnyIn(text: string, words: seq<string>)
    decreases |words|
  {
    |words| > 0 && (Contains(text, words[0]) || AnyIn(text, words[1..]))
  }

  const LicenseWords := ["licença", "license", "copyright", "creative commons", "domínio público"]
  const MetadataWords := ["google books", "digitalizada", "scanned", "edition", "tradução"]
  const NavigationWords := ["part", "chapter", "título", "title page", "página"]
  const FormattingWords := ["font-family", "margin", "padding", "text-align", "css"]

  /** The first list, in this order, with a word in the lower-cased text. */
  function CategoryOf(g: Segment): Category {
    var t := Lower(g.text);
    if AnyIn(t, LicenseWords) then License
    else if AnyIn(t, MetadataWords) then Metadata
    else if AnyIn(t, NavigationWords) then Navigation
    else if AnyIn(t, FormattingWords) then Formatting
    else OtherKind
  }

  /** The `types` dictionary. */
  datatype Types = Types(license: seq<Segment>, metadata: seq<Segment>, navigation: seq<Segment>,
                         formatting: seq<Segment>, other: seq<Segment>)
  {
    function Bucket(c: Category): seq<Segment> {
      match c
      case License => license
      case Metadata => metadata
      case Navigation => navigation
      case Formatting => formatting
      case OtherKind => other
    }

    function Size(): nat {
      |license| + |metadata| + |navigation| + |formatting| + |other|
    }
  }

  /** `types[c].append(segment)` */
  function Append(t: Types, c: Category, g: Segment): (r: Types)
    ensures forall d :: r.Bucket(d) == t.Bucket(d) + (if d == c then [g] else [])
    ensures r.Size() == t.Size() + 1
  {
    match c
    case License => t.(license := t.license + [g])
    case Metadata => t.(metadata := t.metadata + [g])
    case Navigation => t.(navigation := t.navigation + [g])
    case Formatting => t.(formatting := t.formatting + [g])
    case OtherKind => t.(other := t.other + [g])
  }

  /** The loop, for any way `category` of placing a segment. */
  function Classify(segments: seq<Segment>, t: Types, category: Segment -> Category): Types
    decreases |segments|
  {
    if |segments| == 0 then t
    else Classify(segments[1..], Append(t, category(segments[0]), segments[0]), category)
  }

  /** `identify_added_content_types` */
  function IdentifyTypes(segments: seq<Segment>): Types {
    Classify(segments, Types([], [], [], [], []), CategoryOf)
  }

  /** The segments of one category, in input order. */
  function OfCategory(segments: seq<Segment>, c: Category, category: Segment -> Category): seq<Segment>
    decreases |segments|
  {
    if |segments| == 0 then []
    else (if category(segments[0]) == c then [segments[0]] else []) + OfCategory(segments[1..], c, category)
  }

  lemma {:induction false} ClassifyBucket(segments: seq<Segment>, t: Types, category: Segment -> Category, c: Category)
    ensures Classify(segments, t, category).Bucket(c) == t.Bucket(c) + OfCategory(segments, c, category)
    decreases |segments|
  {
    if |segments| > 0 {
      var g := segments[0];
      var t' := Append(t, category(g), g);
      var here: seq<Segment> := if category(g) == c then [g] else [];
      ClassifyBucket(segments[1..], t', category, c);
      assert t'.Bucket(c) == t.Bucket(c) + here;
      assert OfCategory(segments, c, category) == here + OfCategory(segments[1..], c, category);
      AppendAssoc(t.Bucket(c), here, OfCategory(segments[1..], c, category));
    }
  }

  lemma AppendAssoc(a: seq<Segment>, b: seq<Segment>, c: seq<Segment>)
    ensures a + b + c == a + (b + c)
  {
  }

  lemma {:induction false} ClassifySize(segments: seq<Segment>, t: Types, category: Segment -> Category)
    ensures Classify(segments, t, category).Size() == t.Size() + |segments|
    decreases |segments|
  {
    if |segments| > 0 {
      ClassifySize(segments[1..], Append(t, category(segments[0]), segments[0]), category);
    }
  }

  /** Each category holds, in input order, exactly the segments placed in
      it by the first-match order of `CategoryOf`. */
  lemma IdentifyTypesBuckets(segments: seq<Segment>, c: Category)
    ensures IdentifyTypes(segments).Bucket(c) == OfCategory(segments, c, CategoryOf)
  {
    ClassifyBucket(segments, Types([], [], [], [], []), CategoryOf, c);
  }

  /** Every segment lands in exactly one category: the sizes add up to the
      number of segments. */
  lemma IdentifyTypesSize(segments: seq<Segment>)
    ensures IdentifyTypes(segments).Size() == |segments|
  {
    ClassifySize(segments, Types([], [], [], [], []), CategoryOf);
  }
}
