/** Dictionary-driven text corrections and the pass that applies one to
    every title and paragraph of a book: `fix_ocr_manual_only` in
    scripts/ocr_fixes/fix_ocr_manual.py, `fix_ocr_conservative` and
    `fix_json_conservative` in scripts/ocr_fixes/fix_ocr_conservative.py;
    the pass is shared with the ad hoc fixes. */
module Corrections {
  import opened Wrappers
  import opened Text
  import opened Book
  import WordCounts

  /** One dictionary entry `(wrong, correct)`.  Every entry of every
      dictionary in the repository has a non-empty key and a replacement
      of a different length (each one inserts a blank, drops a letter or
      deletes the key), which is what makes "the key was found" and "the
      text changed" the same event. */
  type Correction = c: (string, string) | |c.0| > 0 && |c.0| != |c.1| witness ("a", "")

  /** A correction dictionary in insertion order. */
  type Table = seq<Correction>

  // ---------------------------------------------------------------------
  // The dictionary pass
  // ---------------------------------------------------------------------

  /** The text after the pass, the number of keys found in the text at
      their turn, and the number of keys whose replacement changed it. */
  datatype Pass = Pass(text: string, present: nat, changed: nat)

  /** `for wrong, correct in fixes.items(): if wrong in text: text =
      text.replace(wrong, correct)`, each key applied to the result of the
      previous ones. */
  function DictionaryPass(s: string, table: Table): (r: Pass)
    ensures r.changed == r.present <= |table|
    ensures r.present == 0 ==> r.text == s
    decreases |table|
  {
    if |table| == 0 then Pass(s, 0, 0)
    else
      var wrong := table[0].0;
      var right := table[0].1;
      if Contains(s, wrong) then
        var t := Replace(s, wrong, right);
        var rest := DictionaryPass(t, table[1..]);
        ReplaceChanges(s, wrong, right);
        Pass(rest.text, rest.present + 1, rest.changed + if t != s then 1 else 0)
      else
        DictionaryPass(s, table[1..])
  }

  /** Every replacement applied in turn, with no `in` test. */
  function ReplaceAll(s: string, table: Table): string
    decreases |table|
  {
    if |table| == 0 then s else ReplaceAll(Replace(s, table[0].0, table[0].1), table[1..])
  }

  /** The `in` guard changes nothing but the counts: the text is that of
      applying every replacement in turn. */
  lemma {:induction false} DictionaryPassText(s: string, table: Table)
    ensures DictionaryPass(s, table).text == ReplaceAll(s, table)
    decreases |table|
  {
    if |table| > 0 {
      var wrong := table[0].0;
      if Contains(s, wrong) {
        DictionaryPassText(Replace(s, wrong, table[0].1), table[1..]);
      } else {
        ReplaceAbsent(s, wrong, table[0].1);
        DictionaryPassText(s, table[1..]);
      }
    }
  }

  lemma ReplaceAllStep(s: string, table: Table)
    requires |table| > 0
    ensures ReplaceAll(s, table) == ReplaceAll(Replace(s, table[0].0, table[0].1), table[1..])
    ensures !Contains(s, table[0].0) ==> ReplaceAll(s, table) == ReplaceAll(s, table[1..])
  {
    assert forall k :: 0 <= k < |table| - 1 ==> table[1..][k] == table[k + 1];
    ReplaceAbsentIf(s, table[0].0, table[0].1);
  }

  lemma ReplaceAbsentIf(s: string, p: string, rep: string)
    requires |p| > 0
    ensures !Contains(s, p) ==> Replace(s, p, rep) == s
  {
    if !Contains(s, p) {
      ReplaceAbsent(s, p, rep);
    }
  }

  /** Applying `a + b` is applying `a`, then `b`. */
  lemma {:induction false} ReplaceAllConcat(s: string, a: Table, b: Table)
    ensures ReplaceAll(s, a + b) == ReplaceAll(ReplaceAll(s, a), b)
    decreases |a|
  {
    if |a| == 0 {
      assert a + b == b;
    } else {
      assert (a + b)[0] == a[0];
      assert (a + b)[1..] == a[1..] + b;
      ReplaceAllConcat(Replace(s, a[0].0, a[0].1), a[1..], b);
    }
  }

  /** A text shorter than every key is left as it is. */
  lemma {:induction false} ReplaceAllShort(s: string, table: Table)
    requires forall k :: 0 <= k < |table| ==> |s| < |table[k].0|
    ensures ReplaceAll(s, table) == s
    decreases |table|
  {
    if |table| > 0 {
      NotContainsShort(s, table[0].0);
      ReplaceAbsent(s, table[0].0, table[0].1);
      assert forall k :: 0 <= k < |table| - 1 ==> table[1..][k] == table[k + 1];
      ReplaceAllShort(s, table[1..]);
    }
  }

  /** A text holding none of the keys is left as it is. */
  lemma {:induction false} ReplaceAllAbsent(s: string, table: Table)
    requires forall k :: 0 <= k < |table| ==> !Contains(s, table[k].0)
    ensures ReplaceAll(s, table) == s
    decreases |table|
  {
    if |table| > 0 {
      ReplaceAbsent(s, table[0].0, table[0].1);
      assert forall k :: 0 <= k < |table| - 1 ==> table[1..][k] == table[k + 1];
      ReplaceAllAbsent(s, table[1..]);
    }
  }

  // ---------------------------------------------------------------------
  // Visible characters, and the final cleanup
  // ---------------------------------------------------------------------

  /** The characters of `s` that are not whitespace, in order. */
  function Visible(s: string): string
    decreases |s|
  {
    if |s| == 0 then "" else if IsSpace(s[0]) then Visible(s[1..]) else [s[0]] + Visible(s[1..])
  }

  lemma {:induction false} VisibleConcat(a: string, b: string)
    ensures Visible(a + b) == Visible(a) + Visible(b)
    decreases |a|
  {
    if |a| == 0 {
      assert a + b == b;
    } else {
      assert (a + b)[1..] == a[1..] + b;
      VisibleConcat(a[1..], b);
    }
  }

  lemma {:induction false} VisibleOfSpaces(s: string)
    requires AllSpace(s)
    ensures Visible(s) == ""
    decreases |s|
  {
    if |s| > 0 {
      assert AllSpace(s[1..]) by {
        assert forall i :: 0 <= i < |s| - 1 ==> s[1..][i] == s[i + 1];
      }
      VisibleOfSpaces(s[1..]);
    }
  }

  /** Stripping removes whitespace only. */
  lemma VisibleStrip(s: string)
    ensures Visible(Strip(s)) == Visible(s)
  {
    VisibleTrimStart(s);
    VisibleTrimEnd(TrimStart(s));
  }

  lemma VisibleTrimStart(s: string)
    ensures Visible(TrimStart(s)) == Visible(s)
  {
    var t := TrimStart(s);
    var k := |s| - |t|;
    CutAt(s, k);
    VisibleConcat(s[..k], s[k..]);
    VisibleOfSpaces(s[..k]);
  }

  lemma VisibleTrimEnd(t: string)
    ensures Visible(TrimEnd(t)) == Visible(t)
  {
    var u := TrimEnd(t);
    CutAt(t, |u|);
    VisibleConcat(t[..|u|], t[|u|..]);
    VisibleOfSpaces(t[|u|..]);
  }

  lemma CutAt(s: string, k: nat)
    requires k <= |s|
    ensures s[..k] + s[k..] == s
  {
  }

  /** `re.sub(r'  +', ' ', s)`: every run of two or more blanks becomes
      one blank. */
  function SqueezeSpaces(s: string): (r: string)
    ensures NoDoubleBlank(r)
    ensures Visible(r) == Visible(s)
    ensures |s| > 0 ==> |r| > 0 && r[0] == s[0]
    decreases |s|
  {
    if |s| <= 1 then s
    else if s[0] == ' ' && s[1] == ' ' then SqueezeSpaces(s[1..])
    else
      var rest := SqueezeSpaces(s[1..]);
      assert ([s[0]] + rest)[1..] == rest;
      [s[0]] + rest
  }

  /** A string without double blanks is left alone. */
  lemma {:induction false} SqueezeFixed(s: string)
    requires NoDoubleBlank(s)
    ensures SqueezeSpaces(s) == s
    decreases |s|
  {
    if |s| > 1 {
      assert NoDoubleBlank(s[1..]) by {
        assert forall i :: 0 <= i < |s| - 1 ==> s[1..][i] == s[i + 1];
      }
      SqueezeFixed(s[1..]);
      assert s == [s[0]] + s[1..];
    }
  }

  /** `re.sub(r'  +', ' ', text).strip()` */
  function Cleanup(s: string): (r: string)
    ensures NoDoubleBlank(r)
    ensures |r| > 0 ==> !IsSpace(r[0]) && !IsSpace(r[|r| - 1])
    ensures Visible(r) == Visible(s)
  {
    var q := SqueezeSpaces(s);
    NoDoubleBlankStrip(q);
    VisibleStrip(q);
    Strip(q)
  }

  /** Cleaning up twice is cleaning up once. */
  lemma CleanupIdempotent(s: string)
    ensures Cleanup(Cleanup(s)) == Cleanup(s)
  {
    var c := Cleanup(s);
    SqueezeFixed(c);
    StripFixed(c);
  }

  // ---------------------------------------------------------------------
  // The dictionaries
  // ---------------------------------------------------------------------

  // `specific_fixes` of `fix_ocr_conservative`, in the groups of the
  // source; `manual_fixes` of `fix_ocr_manual_only` is the same list
  // followed by `ManualExtras`.

  const DivineNames: Table := [
    ("beforeGod", "before God"), ("toGod", "to God"), ("ofGod", "of God"),
    ("withGod", "with God"), ("fromGod", "from God"), ("forGod", "for God"),
    ("inGod", "in God")
  ]

  const DivineTitles: Table := [
    ("ourLord", "our Lord"), ("ourSaviour", "our Saviour"), ("ourSavior", "our Savior"),
    ("JesusChrist", "Jesus Christ"), ("HolyGhost", "Holy Ghost"), ("HolySpirit", "Holy Spirit"),
    ("BlessedVirgin", "Blessed Virgin"), ("DivineMajesty", "Divine Majesty"),
    ("DivineGoodness", "Divine Goodness")
  ]

  const SpiritualLife: Table := [
    ("eternallife", "eternal life"), ("spirituallife", "spiritual life"), ("devoutlife", "devout life")
  ]

  const CompoundWords: Table := [
    ("morethan", "more than"), ("lessthan", "less than"), ("ratherthan", "rather than"),
    ("otherthan", "other than"), ("everday", "every day"), ("somethimes", "sometimes"),
    ("sometmes", "sometimes")
  ]

  const Church: Table := [
    ("theChurch", "the Church"), ("theGospel", "the Gospel"), ("theBible", "the Bible"),
    ("theScripture", "the Scripture"), ("theScriptures", "the Scriptures"),
    ("theSacrament", "the Sacrament"), ("theSacraments", "the Sacraments")
  ]

  const Prepositions: Table := [
    ("prayerto", "prayer to"), ("devotedto", "devoted to"), ("unitedto", "united to"),
    ("attachedto", "attached to"), ("subjectedto", "subjected to"), ("dedicatedto", "dedicated to")
  ]

  const Latin: Table := [
    ("PaterNoster", "Pater Noster"), ("AveMaria", "Ave Maria"),
    ("TeDeumLaudamus", "Te Deum Laudamus"), ("VeniCreator", "Veni Creator")
  ]

  const Punctuation: Table := [
    (".\U{2014}", ". \U{2014}"), (",\U{2014}", ", \U{2014}"),
    (";\U{2014}", "; \U{2014}"), (":\U{2014}", ": \U{2014}")
  ]

  const ChapterHeadings: Table := [
    ("ChapterI", "Chapter I"), ("ChapterII", "Chapter II"), ("ChapterIII", "Chapter III"),
    ("ChapterIV", "Chapter IV"), ("ChapterV", "Chapter V"), ("ChapterVI", "Chapter VI"),
    ("ChapterVII", "Chapter VII"), ("ChapterVIII", "Chapter VIII"),
    ("ChapterIX", "Chapter IX"), ("ChapterX", "Chapter X")
  ]

  const ConservativeFixes: Table :=
    DivineNames + DivineTitles + SpiritualLife + CompoundWords + Church + Prepositions
    + Latin + Punctuation + ChapterHeadings

  // The entries `fix_ocr_manual_only` adds, in its order: whole phrases,
  // then a noun or verb run into its preposition.

  const ManualPhrases: Table := [
    ("andCredoin", "and Credo in"), ("MeeknesstowardsOurselves", "Meekness towards Ourselves"),
    ("plantsoftheChurch", "plants of the Church"), ("loveofthe", "love of the")
  ]

  const ManualPrepositions: Table := [
    ("loveof", "love of"), ("fearof", "fear of"), ("desireof", "desire of"),
    ("hopeof", "hope of"), ("faithin", "faith in"), ("trustin", "trust in"),
    ("believein", "believe in"), ("confidencein", "confidence in")
  ]

  const ManualExtras: Table := ManualPhrases + ManualPrepositions

  const ManualFixes: Table := ConservativeFixes + ManualExtras

  // ---------------------------------------------------------------------
  // fix_ocr_manual_only
  // ---------------------------------------------------------------------

  /** `fix_ocr_manual_only(text)`: the corrected text and the number of
      corrections whose replacement changed the text. */
  function FixOcrManualOnly(text: string): (r: (string, nat))
    ensures NoDoubleBlank(r.0)
    ensures |r.0| > 0 ==> !IsSpace(r.0[0]) && !IsSpace(r.0[|r.0| - 1])
    ensures r.1 <= |ManualFixes|
  {
    var p := DictionaryPass(text, ManualFixes);
    (Cleanup(p.text), p.changed)
  }

  /** The count is the number of keys present at their turn, and with
      none present only the blanks are touched. */
  lemma ManualCountsPresent(text: string)
    ensures FixOcrManualOnly(text).1 == DictionaryPass(text, ManualFixes).present
    ensures FixOcrManualOnly(text).1 == 0 ==> FixOcrManualOnly(text).0 == Cleanup(text)
  {
  }

  // ---------------------------------------------------------------------
  // The tiny-word pass of fix_ocr_conservative
  // ---------------------------------------------------------------------

  const TinyWords: seq<string> :=
    ["to", "of", "in", "by", "at", "on", "is", "as", "be", "he", "we", "me", "my", "no", "so", "up", "or"]

  /** `(\s|$|[.,;:!?])` past the tiny word. */
  predicate Delim(c: char) {
    IsSpace(c) || c == '.' || c == ',' || c == ';' || c == ':' || c == '!' || c == '?'
  }

  /** The length of the run of `[a-z]` that starts `s`. */
  function LowerRun(s: string): (k: nat)
    ensures k <= |s|
    ensures forall i :: 0 <= i < k ==> IsAsciiLower(s[i])
    ensures k < |s| ==> !IsAsciiLower(s[k])
    decreases |s|
  {
    if |s| == 0 || !IsAsciiLower(s[0]) then 0 else 1 + LowerRun(s[1..])
  }

  /** The run `s[..e]` ends in the tiny word with four letters before it,
      and a delimiter or the end of the text follows. */
  predicate RunMatches(s: string, w: string, e: nat) {
    |w| + 4 <= e <= |s| && s[e - |w|..e] == w && (e == |s| || Delim(s[e]))
  }

  /** A place the pattern `([a-z]{4,})(w)(\s|$|[.,;:!?])` matches, named by
      the end of the tiny word. */
  predicate Site(s: string, w: string, e: int) {
    |w| + 4 <= e <= |s|
    && (forall i :: e - |w| - 4 <= i < e ==> IsAsciiLower(s[i]))
    && s[e - |w|..e] == w && (e == |s| || Delim(s[e]))
  }

  /** `re.sub(r'([a-z]{4,})(' + w + r')(\s|$|[.,;:!?])', r'\1 \2\3', s)`.
      A match has to end its run of lower-case letters (the delimiter is
      not one), so the scan looks at each run once: at its start, where
      the greedy letter class reaches furthest.  The delimiter the match
      consumes is not a lower-case letter, so resuming the scan at it
      passes it through unchanged, as resuming after it would. */
  function TinySub(s: string, w: string): (r: string)
    ensures |r| >= |s|
    ensures |r| == |s| ==> r == s
    decreases |s|
  {
    if |s| == 0 then ""
    else if !IsAsciiLower(s[0]) then
      var rest := TinySub(s[1..], w);
      assert [s[0]] + s[1..] == s;
      [s[0]] + rest
    else
      var e := LowerRun(s);
      var rest := TinySub(s[e..], w);
      assert s[..e] + s[e..] == s;
      if RunMatches(s, w, e) then s[..e - |w|] + " " + s[e - |w|..e] + rest
      else s[..e] + rest
  }

  /** The substitution only inserts blanks. */
  lemma {:induction false} TinySubVisible(s: string, w: string)
    ensures Visible(TinySub(s, w)) == Visible(s)
    decreases |s|
  {
    if |s| == 0 {
    } else if !IsAsciiLower(s[0]) {
      TinySubVisible(s[1..], w);
      assert ([s[0]] + TinySub(s[1..], w))[1..] == TinySub(s[1..], w);
    } else {
      var e := LowerRun(s);
      TinySubVisible(s[e..], w);
      TinySubRunVisible(s, w, e);
    }
  }

  lemma TinySubRunVisible(s: string, w: string, e: nat)
    requires 0 < e == LowerRun(s)
    requires Visible(TinySub(s[e..], w)) == Visible(s[e..])
    ensures Visible(TinySub(s, w)) == Visible(s)
  {
    TinySubRun(s, w, e);
    if RunMatches(s, w, e) {
      SplitRunKeepsVisible(s, e, |w|, TinySub(s[e..], w), TinySub(s, w));
    } else {
      RunKeepsVisible(s, e, TinySub(s[e..], w), TinySub(s, w));
    }
  }

  /** The run kept whole, followed by a rest with the same visible text. */
  lemma RunKeepsVisible(s: string, e: nat, rest: string, t: string)
    requires e <= |s| && t == s[..e] + rest
    requires Visible(rest) == Visible(s[e..])
    ensures Visible(t) == Visible(s)
  {
    CutAt(s, e);
    VisibleConcat(s[..e], s[e..]);
    VisibleConcat(s[..e], rest);
  }

  /** The run split `n` characters before its end, followed by a rest with
      the same visible text. */
  lemma SplitRunKeepsVisible(s: string, e: nat, n: nat, rest: string, t: string)
    requires n <= e <= |s| && t == s[..e - n] + " " + s[e - n..e] + rest
    requires Visible(rest) == Visible(s[e..])
    ensures Visible(t) == Visible(s)
  {
    CutAt(s, e);
    VisibleConcat(s[..e], s[e..]);
    SplitRunVisible(s, e, n, rest);
  }

  /** A text starting with a run of lower-case letters: the run, split if
      the tiny word ends it, then the substitution of the rest. */
  lemma TinySubRun(s: string, w: string, e: nat)
    requires 0 < e == LowerRun(s)
    ensures TinySub(s, w) == if RunMatches(s, w, e) then s[..e - |w|] + " " + s[e - |w|..e] + TinySub(s[e..], w)
                             else s[..e] + TinySub(s[e..], w)
  {
  }

  /** A blank inserted `n` characters before the end of the run. */
  lemma SplitRunVisible(s: string, e: nat, n: nat, rest: string)
    requires n <= e <= |s|
    ensures Visible(s[..e - n] + " " + s[e - n..e] + rest) == Visible(s[..e]) + Visible(rest)
  {
    var a := s[..e - n];
    var b := s[e - n..e];
    VisibleConcat(a + " " + b, rest);
    VisibleBlank(a, b);
    assert s[..e] == a + b;
  }

  lemma VisibleBlank(a: string, b: string)
    ensures Visible(a + " " + b) == Visible(a + b)
  {
    assert a + " " + b == a + (" " + b);
    VisibleConcat(a, " " + b);
    VisibleConcat(a, b);
    assert (" " + b)[1..] == b;
  }

  lemma SiteShift(s: string, w: string, k: nat, e: int)
    requires k <= |s|
    ensures Site(s[k..], w, e) <==> Site(s, w, e + k) && e + k - |w| - 4 >= k
  {
    var t := s[k..];
    if |w| + 4 <= e <= |t| {
      assert t[e - |w|..e] == s[e + k - |w|..e + k];
      assert (forall i :: e - |w| - 4 <= i < e ==> IsAsciiLower(t[i]))
             <==> (forall i :: e + k - |w| - 4 <= i < e + k ==> IsAsciiLower(s[i])) by {
        assert forall i :: e - |w| - 4 <= i < e ==> t[i] == s[i + k];
        assert forall j :: e + k - |w| - 4 <= j < e + k ==> s[j] == t[j - k];
      }
      assert e < |t| ==> t[e] == s[e + k];
    }
  }

  /** When no site starts before `k`, the sites of `s` are those of
      `s[k..]`, shifted. */
  lemma SitesFrom(s: string, w: string, k: nat)
    requires k <= |s|
    requires forall e :: Site(s, w, e) ==> e - |w| - 4 >= k
    ensures (exists e :: Site(s, w, e)) <==> (exists e :: Site(s[k..], w, e))
  {
    forall e | Site(s, w, e) ensures Site(s[k..], w, e - k) {
      SiteShift(s, w, k, e - k);
    }
    forall e | Site(s[k..], w, e) ensures Site(s, w, e + k) {
      SiteShift(s, w, k, e);
    }
  }

  /** The substitution changes the text exactly when the pattern matches
      somewhere. */
  lemma {:induction false} TinySubChanges(s: string, w: string)
    ensures TinySub(s, w) != s <==> exists e :: Site(s, w, e)
    decreases |s|
  {
    if |s| == 0 {
    } else if !IsAsciiLower(s[0]) {
      TinySubChanges(s[1..], w);
      assert s == [s[0]] + s[1..];
      SitesFrom(s, w, 1);
    } else {
      var e0 := LowerRun(s);
      TinySubChanges(s[e0..], w);
      TinySubRunChanges(s, w, e0);
    }
  }

  lemma TinySubRunChanges(s: string, w: string, e0: nat)
    requires 0 < e0 == LowerRun(s)
    requires TinySub(s[e0..], w) != s[e0..] <==> exists e :: Site(s[e0..], w, e)
    ensures TinySub(s, w) != s <==> exists e :: Site(s, w, e)
  {
    TinySubRun(s, w, e0);
    if RunMatches(s, w, e0) {
      assert Site(s, w, e0);
      assert |TinySub(s, w)| > |s|;
    } else {
      RunUnmatchedSites(s, w, e0);
      SitesFrom(s, w, e0);
      CutAt(s, e0);
      PrefixChanges(s[..e0], s[e0..], TinySub(s[e0..], w));
    }
  }

  /** When the tiny word does not end the leading run, every site lies
      after the run. */
  lemma RunUnmatchedSites(s: string, w: string, e0: nat)
    requires 0 < e0 == LowerRun(s) && !RunMatches(s, w, e0)
    ensures forall e :: Site(s, w, e) ==> e - |w| - 4 >= e0
  {
    assert forall i :: 0 <= i < e0 ==> !Delim(s[i]);
  }

  /** A common prefix does not decide whether two texts differ. */
  lemma PrefixChanges(a: string, b: string, c: string)
    ensures a + c != a + b <==> c != b
  {
    if a + c == a + b {
      assert c == (a + c)[|a|..] && b == (a + b)[|a|..];
    }
  }

  /** The tiny-word loop: each word substituted in turn, counting the words
      whose substitution changed the text. */
  function TinyPass(s: string, words: seq<string>): (r: (string, nat))
    ensures Visible(r.0) == Visible(s)
    ensures r.1 <= |words|
    ensures r.1 == 0 ==> r.0 == s
    decreases |words|
  {
    if |words| == 0 then (s, 0)
    else
      var t := TinySub(s, words[0]);
      TinySubVisible(s, words[0]);
      var rest := TinyPass(t, words[1..]);
      (rest.0, rest.1 + if t != s then 1 else 0)
  }

  /** A word adds to the count exactly when its pattern matched the text
      left by the words before it. */
  lemma TinyPassCount(s: string, words: seq<string>)
    requires |words| > 0
    ensures TinyPass(s, words).1
            == TinyPass(TinySub(s, words[0]), words[1..]).1
               + if exists e :: Site(s, words[0], e) then 1 else 0
  {
    TinySubChanges(s, words[0]);
  }

  // ---------------------------------------------------------------------
  // fix_ocr_conservative
  // ---------------------------------------------------------------------

  /** The three stages of `fix_ocr_conservative` for any dictionary and
      list of tiny words: the dictionary pass counting keys present, the
      tiny-word pass counting words that changed the text, and the
      cleanup. */
  function FixOcrWith(text: string, table: Table, words: seq<string>): (r: (string, nat))
    ensures NoDoubleBlank(r.0)
    ensures |r.0| > 0 ==> !IsSpace(r.0[0]) && !IsSpace(r.0[|r.0| - 1])
    ensures Visible(r.0) == Visible(DictionaryPass(text, table).text)
    ensures r.1 <= |table| + |words|
    ensures r.1 == 0 ==> r.0 == Cleanup(text)
  {
    var d := DictionaryPass(text, table);
    var tiny := TinyPass(d.text, words);
    (Cleanup(tiny.0), d.present + tiny.1)
  }

  /** `fix_ocr_conservative(text)`: the stages with `specific_fixes` and
      the seventeen tiny words. */
  function FixOcrConservative(text: string): (r: (string, nat))
    ensures NoDoubleBlank(r.0)
    ensures |r.0| > 0 ==> !IsSpace(r.0[0]) && !IsSpace(r.0[|r.0| - 1])
    ensures Visible(r.0) == Visible(DictionaryPass(text, ConservativeFixes).text)
    ensures r.1 <= |ConservativeFixes| + |TinyWords|
    ensures r.1 == 0 ==> r.0 == Cleanup(text)
  {
    FixOcrWith(text, ConservativeFixes, TinyWords)
  }

  // ---------------------------------------------------------------------
  // Applying a correction to every field of a book
  // ---------------------------------------------------------------------

  /** A field corrector: the new text and how many corrections it made. */
  type Fixer = string -> (string, nat)

  /** A title is replaced only when its corrector reports a correction. */
  function FixTitle(fix: Fixer, t: Option<string>): Option<string> {
    if t.Some? && fix(t.value).1 > 0 then Some(fix(t.value).0) else t
  }

  /** A paragraph is replaced only when its corrector reports a correction,
      and then its `word_count` is recomputed. */
  function FixItem(fix: Fixer, it: Item): (r: Item)
    ensures r.kind == it.kind
    ensures it.text.Some? && fix(it.text.value).1 > 0 ==>
              r.text == Some(fix(it.text.value).0) && r.wordCount == Some(WordCount(r.text.value))
    ensures it.text.None? || fix(it.text.value).1 == 0 ==> r == it
  {
    if it.text.Some? && fix(it.text.value).1 > 0 then
      var c := fix(it.text.value).0;
      it.(text := Some(c), wordCount := Some(WordCount(c)))
    else it
  }

  function FieldRewrite(fix: Fixer): Rewrite {
    Rewrite(t => FixTitle(fix, t), t => FixTitle(fix, t), it => FixItem(fix, it))
  }

  function FieldCount(fix: Fixer, t: Option<string>): nat {
    if t.Some? then fix(t.value).1 else 0
  }

  function Present(t: Option<string>): nat {
    if t.Some? then 1 else 0
  }

  /** Corrections counted over every present field. */
  function Corrections(fix: Fixer): Tally {
    Tally((p: Part) => FieldCount(fix, p.title), (c: Chapter) => FieldCount(fix, c.title), (it: Item) => FieldCount(fix, it.text))
  }

  /** Present fields: `part_title`, `chapter_title` and item `content`. */
  const Fields := Tally((p: Part) => Present(p.title), (c: Chapter) => Present(c.title), (it: Item) => Present(it.text))

  /** The book, the corrections made and the fields looked at. */
  datatype Outcome = Outcome(book: seq<Part>, corrections: nat, items: nat)

  /** The loop of `fix_json_conservative` and of `apply_ad_hoc_fixes`. */
  function FixBook(ps: seq<Part>, fix: Fixer): (r: Outcome)
    ensures SameShape(ps, r.book)
    ensures AllItems(r.book) == MapItems(AllItems(ps), it => FixItem(fix, it))
    ensures r.corrections == SumBook(ps, Corrections(fix))
    ensures r.items == SumBook(ps, Fields)
  {
    MapBookShape(ps, FieldRewrite(fix));
    MapBookItems(ps, FieldRewrite(fix));
    Outcome(MapBook(ps, FieldRewrite(fix)), SumBook(ps, Corrections(fix)), SumBook(ps, Fields))
  }

  lemma {:induction false} NoCorrectionItems(items: seq<Item>, fix: Fixer)
    requires SumItems(items, Corrections(fix).item) == 0
    ensures MapItems(items, it => FixItem(fix, it)) == items
    decreases |items|
  {
    if |items| > 0 {
      NoCorrectionItems(items[1..], fix);
      assert MapItems(items, it => FixItem(fix, it))[1..] == MapItems(items[1..], it => FixItem(fix, it));
    }
  }

  lemma {:induction false} NoCorrectionChapters(cs: seq<Chapter>, fix: Fixer)
    requires SumChapters(cs, Corrections(fix)) == 0
    ensures MapChapters(cs, FieldRewrite(fix)) == cs
    decreases |cs|
  {
    if |cs| > 0 {
      NoCorrectionChapters(cs[1..], fix);
      NoCorrectionItems(cs[0].content, fix);
      assert MapChapters(cs, FieldRewrite(fix))[1..] == MapChapters(cs[1..], FieldRewrite(fix));
    }
  }

  lemma {:induction false} NoCorrectionParts(ps: seq<Part>, fix: Fixer)
    requires SumBook(ps, Corrections(fix)) == 0
    ensures MapBook(ps, FieldRewrite(fix)) == ps
    decreases |ps|
  {
    if |ps| > 0 {
      NoCorrectionParts(ps[1..], fix);
      NoCorrectionChapters(ps[0].chapters, fix);
      assert MapBook(ps, FieldRewrite(fix))[1..] == MapBook(ps[1..], FieldRewrite(fix));
    }
  }

  /** With no correction reported anywhere, the book comes back unchanged. */
  lemma FixBookUnchanged(ps: seq<Part>, fix: Fixer)
    ensures FixBook(ps, fix).corrections == 0 ==> FixBook(ps, fix).book == ps
  {
    if FixBook(ps, fix).corrections == 0 {
      NoCorrectionParts(ps, fix);
    }
  }

  /** Part and chapter titles go through the corrector one by one; the
      subtitles are not looked at. */
  lemma FixBookTitles(ps: seq<Part>, fix: Fixer)
    ensures var out := FixBook(ps, fix).book;
            |out| == |ps|
            && (forall i :: 0 <= i < |ps| ==>
                  out[i].title == FixTitle(fix, ps[i].title) && out[i].subtitle == ps[i].subtitle
                  && |out[i].chapters| == |ps[i].chapters|)
            && (forall i, j :: 0 <= i < |ps| && 0 <= j < |ps[i].chapters| ==>
                  out[i].chapters[j].title == FixTitle(fix, ps[i].chapters[j].title))
  {
    var rw := FieldRewrite(fix);
    forall i, j | 0 <= i < |ps| && 0 <= j < |ps[i].chapters|
      ensures MapBook(ps, rw)[i].chapters[j].title == FixTitle(fix, ps[i].chapters[j].title)
    {
      assert MapBook(ps, rw)[i].chapters == MapChapters(ps[i].chapters, rw);
    }
  }

  // ---------------------------------------------------------------------
  // The fields a pass looks at, in reading order
  // ---------------------------------------------------------------------

  /** The texts of the items that have `content`. */
  function ItemTexts(items: seq<Item>): seq<string>
    decreases |items|
  {
    if |items| == 0 then []
    else (if items[0].text.Some? then [items[0].text.value] else []) + ItemTexts(items[1..])
  }

  /** Each chapter's title, if present, then its item texts. */
  function ChapterTexts(cs: seq<Chapter>): seq<string>
    decreases |cs|
  {
    if |cs| == 0 then []
    else (if cs[0].title.Some? then [cs[0].title.value] else []) + ItemTexts(cs[0].content) + ChapterTexts(cs[1..])
  }

  /** Every present `part_title`, `chapter_title` and item `content`, in
      the order the loops of the passes visit them. */
  function FieldTexts(ps: seq<Part>): seq<string>
    decreases |ps|
  {
    if |ps| == 0 then []
    else (if ps[0].title.Some? then [ps[0].title.value] else []) + ChapterTexts(ps[0].chapters) + FieldTexts(ps[1..])
  }

  /** The corrections a fixer reports over a list of texts. */
  function SumTexts(ts: seq<string>, fix: Fixer): nat
    decreases |ts|
  {
    if |ts| == 0 then 0 else fix(ts[0]).1 + SumTexts(ts[1..], fix)
  }

  lemma {:induction false} SumTextsConcat(a: seq<string>, b: seq<string>, fix: Fixer)
    ensures SumTexts(a + b, fix) == SumTexts(a, fix) + SumTexts(b, fix)
    decreases |a|
  {
    if |a| == 0 {
      assert a + b == b;
    } else {
      assert (a + b)[1..] == a[1..] + b;
      SumTextsConcat(a[1..], b, fix);
    }
  }

  /** No correction in total exactly when no text reports one. */
  lemma {:induction false} SumTextsZero(ts: seq<string>, fix: Fixer)
    ensures SumTexts(ts, fix) == 0 <==> forall i :: 0 <= i < |ts| ==> fix(ts[i]).1 == 0
    decreases |ts|
  {
    if |ts| > 0 {
      SumTextsZero(ts[1..], fix);
      assert forall i :: 1 <= i < |ts| ==> ts[1..][i - 1] == ts[i];
    }
  }

  lemma {:induction false} ItemsTally(items: seq<Item>, fix: Fixer)
    ensures SumItems(items, Corrections(fix).item) == SumTexts(ItemTexts(items), fix)
    ensures SumItems(items, Fields.item) == |ItemTexts(items)|
    decreases |items|
  {
    if |items| > 0 {
      ItemsTally(items[1..], fix);
      var head := if items[0].text.Some? then [items[0].text.value] else [];
      SumTextsConcat(head, ItemTexts(items[1..]), fix);
    }
  }

  lemma {:induction false} ChaptersTally(cs: seq<Chapter>, fix: Fixer)
    ensures SumChapters(cs, Corrections(fix)) == SumTexts(ChapterTexts(cs), fix)
    ensures SumChapters(cs, Fields) == |ChapterTexts(cs)|
    decreases |cs|
  {
    if |cs| > 0 {
      ChaptersTally(cs[1..], fix);
      ItemsTally(cs[0].content, fix);
      var head := if cs[0].title.Some? then [cs[0].title.value] else [];
      SumTextsConcat(head, ItemTexts(cs[0].content), fix);
      SumTextsConcat(head + ItemTexts(cs[0].content), ChapterTexts(cs[1..]), fix);
    }
  }

  /** A book's tallies are sums over its present fields: the corrections
      the fixer reports on each, and one per field. */
  lemma {:induction false} BookTally(ps: seq<Part>, fix: Fixer)
    ensures SumBook(ps, Corrections(fix)) == SumTexts(FieldTexts(ps), fix)
    ensures SumBook(ps, Fields) == |FieldTexts(ps)|
    decreases |ps|
  {
    if |ps| > 0 {
      BookTally(ps[1..], fix);
      ChaptersTally(ps[0].chapters, fix);
      var head := if ps[0].title.Some? then [ps[0].title.value] else [];
      SumTextsConcat(head, ChapterTexts(ps[0].chapters), fix);
      SumTextsConcat(head + ChapterTexts(ps[0].chapters), FieldTexts(ps[1..]), fix);
    }
  }

  /** A pass counts no correction exactly when its fixer reports none on
      any present field, and it looks at every present field once. */
  lemma FixBookCounts(ps: seq<Part>, fix: Fixer)
    ensures FixBook(ps, fix).corrections == 0 <==>
              forall i :: 0 <= i < |FieldTexts(ps)| ==> fix(FieldTexts(ps)[i]).1 == 0
    ensures FixBook(ps, fix).items == |FieldTexts(ps)|
  {
    BookTally(ps, fix);
    SumTextsZero(FieldTexts(ps), fix);
  }

  /** `fix_json_conservative(data)`: the corrected book and the total. */
  function FixJsonConservative(ps: seq<Part>): (r: Outcome)
    ensures SameShape(ps, r.book)
    ensures r.corrections == 0 ==> r.book == ps
  {
    FixBookUnchanged(ps, FixOcrConservative);
    FixBook(ps, FixOcrConservative)
  }
}
