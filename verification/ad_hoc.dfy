/** `apply_ad_hoc_fixes` of scripts/json_processing/fix_ad_hoc.py: a
    small table of corrections applied to every title and paragraph,
    written back (with recomputed word counts) only when something was
    found. */
module AdHoc {
  import opened Wrappers
  import opened Text
  import opened Book
  import WordCounts
  import opened Corrections

  /** `corrections` of `apply_ad_hoc_fixes`: three sentence repairs, then
      five of the word joins also found in the OCR dictionaries. */
  const Purify := "We must purify ourselves from our natural imper"
  const Choice := "The choice we ought to make as to the practice"

  /** Two truncated headings completed, and the book title repeated in
      the preface deleted. */
  const AdHocSentences: Table := [
    (Purify, Purify + "fections."),
    ("Introduction to the Devout Life.", ""),
    (Choice, Choice + " of the Virtues.")
  ]

  const AdHocWords: Table := [
    ("theChurch", "the Church"), ("theGospel", "the Gospel"), ("beforeGod", "before God"),
    ("toGod", "to God"), ("JesusChrist", "Jesus Christ")
  ]

  const AdHocTable: Table := AdHocSentences + AdHocWords

  /** The number of keys found in `original`. */
  function Matching(original: string, table: Table): (n: nat)
    ensures n <= |table|
    ensures n == 0 <==> forall k :: 0 <= k < |table| ==> !Contains(original, table[k].0)
    decreases |table|
  {
    if |table| == 0 then 0
    else (if Contains(original, table[0].0) then 1 else 0) + Matching(original, table[1..])
  }

  /** A field's loop as written: every matching key rewrites
      `original.replace(wrong, correct)`, so each assignment starts again
      from the original text and the last one stands. */
  function AdHocFieldAsWritten(original: string, table: Table): (r: (string, nat))
    ensures r.1 == Matching(original, table)
    ensures r.1 == 0 ==> r.0 == original
    ensures r.1 > 0 ==> exists k :: 0 <= k < |table| && Contains(original, table[k].0)
                                  && r.0 == Replace(original, table[k].0, table[k].1)
                                  && forall j :: k < j < |table| ==> !Contains(original, table[j].0)
    decreases |table|
  {
    if |table| == 0 then (original, 0)
    else
      var rest := AdHocFieldAsWritten(original, table[1..]);
      assert forall j :: 0 <= j < |table| - 1 ==> table[1..][j] == table[j + 1];
      assert rest.1 > 0 ==> exists k :: 1 <= k < |table| && Contains(original, table[k].0)
                                  && rest.0 == Replace(original, table[k].0, table[k].1)
                                  && forall j :: k < j < |table| ==> !Contains(original, table[j].0) by {
        if rest.1 > 0 {
          var k :| 0 <= k < |table| - 1 && Contains(original, table[1..][k].0)
                   && rest.0 == Replace(original, table[1..][k].0, table[1..][k].1)
                   && forall j :: k < j < |table| - 1 ==> !Contains(original, table[1..][j].0);
          assert forall j :: k + 1 < j < |table| ==> !Contains(original, table[j].0) by {
            forall j | k + 1 < j < |table| ensures !Contains(original, table[j].0) {
              assert table[j] == table[1..][j - 1];
            }
          }
        }
      }
      if Contains(original, table[0].0) then
        (if rest.1 > 0 then rest.0 else Replace(original, table[0].0, table[0].1), rest.1 + 1)
      else rest
  }

  /** The two word joins of the example paragraph. */
  const ChurchJoin := "theChurch"
  const ChristJoin := "JesusChrist"

  /** Two keys in one paragraph: as written, the earlier correction is
      lost and only the last key's stands. */
  lemma AdHocAsWrittenLosesFix()
    ensures var s := ChurchJoin + " " + ChristJoin;
            && Contains(s, ChurchJoin) && Contains(s, ChristJoin)
            && AdHocFieldAsWritten(s, AdHocTable).0 == ChurchJoin + " " + "Jesus Christ"
  {
    var s := ChurchJoin + " " + ChristJoin;
    ExampleContains();
    AdHocTableWords();
    assert Replace(s, ChristJoin, "Jesus Christ") == ChurchJoin + " " + "Jesus Christ" by {
      ReplaceLast(ChurchJoin + " ", ChristJoin, "Jesus Christ");
    }
  }

  /** The ad hoc table ends with the five word joins. */
  lemma AdHocTableWords()
    ensures |AdHocTable| == 8 && AdHocTable[3..] == AdHocWords
    ensures AdHocTable[3] == (ChurchJoin, "the Church") && AdHocTable[7] == (ChristJoin, "Jesus Christ")
  {
    assert |AdHocSentences| == 3;
  }

  lemma ExampleContains()
    ensures Contains(ChurchJoin + " " + ChristJoin, ChurchJoin)
    ensures Contains(ChurchJoin + " " + ChristJoin, ChristJoin)
  {
    ContainsAfter([], ChurchJoin, " " + ChristJoin);
    assert [] + ChurchJoin + (" " + ChristJoin) == ChurchJoin + " " + ChristJoin;
    ContainsAfter(ChurchJoin + " ", ChristJoin, []);
    assert ChurchJoin + " " + ChristJoin + [] == ChurchJoin + " " + ChristJoin;
  }

  /** The corrected loop: each matching key rewrites the text left by the
      previous ones, so every correction found is kept. */
  function AdHocField(original: string, table: Table): (r: (string, nat))
    ensures r.1 <= |table|
    ensures r.1 == 0 ==> r.0 == original
    ensures r.0 == ReplaceAll(original, table)
  {
    DictionaryPassText(original, table);
    var p := DictionaryPass(original, table);
    (p.text, p.present)
  }

  /** With the corrected loop the example keeps both corrections. */
  lemma AdHocCorrectedKeepsBoth()
    ensures AdHocField(ChurchJoin + " " + ChristJoin, AdHocTable).0 == "the Church" + " " + "Jesus Christ"
  {
    var s := ChurchJoin + " " + ChristJoin;
    var s1 := "the Church" + " " + ChristJoin;
    AdHocTableWords();
    SentencesAbsent(s);
    ReplaceAllStep(s, AdHocWords);
    ChurchStep();
    LaterWordsAbsent(s1);
    assert AdHocWords[4..] == [(ChristJoin, "Jesus Christ")];
    ReplaceAllStep(s1, AdHocWords[4..]);
    ReplaceLast("the Church" + " ", ChristJoin, "Jesus Christ");
    assert AdHocWords[4..][1..] == [];
  }

  /** Every sentence key is at least 32 characters long. */
  lemma SentenceKeysLong()
    ensures forall k :: 0 <= k < |AdHocSentences| ==> |AdHocSentences[k].0| >= 32
  {
  }

  /** The example paragraph is too short for the three sentence keys. */
  lemma SentencesAbsent(s: string)
    requires |s| < 32
    ensures ReplaceAll(s, AdHocTable) == ReplaceAll(s, AdHocWords)
  {
    SentenceKeysLong();
    ReplaceAllShort(s, AdHocSentences);
    ReplaceAllConcat(s, AdHocSentences, AdHocWords);
  }

  lemma ChurchStep()
    ensures Replace(ChurchJoin + " " + ChristJoin, ChurchJoin, "the Church") == "the Church" + " " + ChristJoin
  {
    MissingChar(" " + ChristJoin, ChurchJoin, 7);
    ReplaceOnce(ChurchJoin, " " + ChristJoin, "the Church");
    ConcatAssoc(ChurchJoin, " ", ChristJoin);
    ConcatAssoc("the Church", " ", ChristJoin);
  }

  /** After the first join is fixed, the next three keys are absent. */
  lemma LaterWordsAbsent(s1: string)
    requires s1 == "the Church" + " " + ChristJoin
    ensures ReplaceAll(s1, AdHocWords[1..]) == ReplaceAll(s1, AdHocWords[4..])
  {
    var t := AdHocWords[1..];
    MissingChar(s1, "theGospel", 6);
    ReplaceAllStep(s1, t);
    assert t[1..] == AdHocWords[2..];
    MissingChar(s1, "beforeGod", 0);
    ReplaceAllStep(s1, AdHocWords[2..]);
    assert AdHocWords[2..][1..] == AdHocWords[3..];
    MissingChar(s1, "toGod", 1);
    ReplaceAllStep(s1, AdHocWords[3..]);
    assert AdHocWords[3..][1..] == AdHocWords[4..];
  }

  /** The field loop of the script, on its table. */
  function AdHocFix(original: string): (r: (string, nat))
    ensures r.1 == Matching(original, AdHocTable)
    ensures r.1 == 0 ==> r.0 == original
    ensures r.1 > 0 ==> exists k :: 0 <= k < |AdHocTable| && Contains(original, AdHocTable[k].0)
                                  && r.0 == Replace(original, AdHocTable[k].0, AdHocTable[k].1)
                                  && forall j :: k < j < |AdHocTable| ==> !Contains(original, AdHocTable[j].0)
  {
    AdHocFieldAsWritten(original, AdHocTable)
  }

  /** The corrected field loop, on the same table. */
  function AdHocFixCorrected(original: string): (r: (string, nat))
    ensures r.0 == ReplaceAll(original, AdHocTable)
    ensures r.1 == 0 ==> r.0 == original
  {
    AdHocField(original, AdHocTable)
  }

  /** Some title or paragraph of the book contains a key of the table. */
  predicate KeyFound(ps: seq<Part>) {
    exists i, k :: 0 <= i < |FieldTexts(ps)| && 0 <= k < |AdHocTable| && Contains(FieldTexts(ps)[i], AdHocTable[k].0)
  }

  /** A field after the loop of the script: absent stays absent. */
  function FixedText(t: Option<string>): Option<string> {
    if t.Some? then Some(AdHocFix(t.value).0) else None
  }

  /** Every part and chapter title of `out` is the one of `ps` after the
      field loop; part subtitles are kept. */
  predicate TitlesFixed(ps: seq<Part>, out: seq<Part>)
    requires SameShape(ps, out)
  {
    (forall i :: 0 <= i < |ps| ==> out[i].title == FixedText(ps[i].title) && out[i].subtitle == ps[i].subtitle)
    && (forall i, j :: 0 <= i < |ps| && 0 <= j < |ps[i].chapters| ==>
          out[i].chapters[j].title == FixedText(ps[i].chapters[j].title))
  }

  /** Item `out` is item `it` after the pass: its `content` through the
      field loop, its `word_count` recomputed only when a key was found. */
  predicate ItemFixed(it: Item, out: Item) {
    out.kind == it.kind && out.text == FixedText(it.text)
    && if it.text.Some? && Matching(it.text.value, AdHocTable) > 0
       then out.wordCount == Some(WordCount(out.text.value))
       else out.wordCount == it.wordCount
  }

  lemma FixTitleIsFixed(t: Option<string>)
    ensures FixTitle(AdHocFix, t) == FixedText(t)
  {
  }

  /** The pass counts no correction exactly when no field holds a key. */
  lemma AdHocCounts(ps: seq<Part>)
    ensures FixBook(ps, AdHocFix).corrections == 0 <==> !KeyFound(ps)
  {
    FixBookCounts(ps, AdHocFix);
    var ts := FieldTexts(ps);
    if KeyFound(ps) {
      var i, k :| 0 <= i < |ts| && 0 <= k < |AdHocTable| && Contains(ts[i], AdHocTable[k].0);
      assert AdHocFix(ts[i]).1 != 0;
    }
  }

  /** `apply_ad_hoc_fixes(data)`: every title and paragraph through the
      field loop as written. */
  function ApplyAdHocFixes(ps: seq<Part>): (r: Outcome)
    ensures SameShape(ps, r.book) && TitlesFixed(ps, r.book)
    ensures |AllItems(r.book)| == |AllItems(ps)|
    ensures forall k :: 0 <= k < |AllItems(ps)| ==> ItemFixed(AllItems(ps)[k], AllItems(r.book)[k])
    ensures r.corrections == 0 <==> !KeyFound(ps)
    ensures r.items == |FieldTexts(ps)|
    ensures r.corrections == 0 ==> r.book == ps
  {
    FixBookUnchanged(ps, AdHocFix);
    FixBookCounts(ps, AdHocFix);
    AdHocCounts(ps);
    FixBookTitles(ps, AdHocFix);
    AdHocTitles(ps);
    AdHocItems(ps);
    FixBook(ps, AdHocFix)
  }

  lemma AdHocTitles(ps: seq<Part>)
    ensures SameShape(ps, FixBook(ps, AdHocFix).book)
    ensures TitlesFixed(ps, FixBook(ps, AdHocFix).book)
  {
    FixBookTitles(ps, AdHocFix);
    forall t: Option<string> ensures FixTitle(AdHocFix, t) == FixedText(t) {
      FixTitleIsFixed(t);
    }
  }

  lemma AdHocItems(ps: seq<Part>)
    ensures |AllItems(FixBook(ps, AdHocFix).book)| == |AllItems(ps)|
    ensures forall k :: 0 <= k < |AllItems(ps)| ==>
              ItemFixed(AllItems(ps)[k], AllItems(FixBook(ps, AdHocFix).book)[k])
  {
    var out := AllItems(FixBook(ps, AdHocFix).book);
    forall k | 0 <= k < |AllItems(ps)| ensures ItemFixed(AllItems(ps)[k], out[k]) {
      assert out[k] == FixItem(AdHocFix, AllItems(ps)[k]);
    }
  }

  /** `apply_ad_hoc_fixes(data)` with the corrected field loop. */
  function ApplyAdHocFixesCorrected(ps: seq<Part>): (r: Outcome)
    ensures SameShape(ps, r.book)
    ensures AllItems(r.book) == MapItems(AllItems(ps), it => FixItem(AdHocFixCorrected, it))
    ensures r.corrections == 0 ==> r.book == ps
  {
    FixBookUnchanged(ps, AdHocFixCorrected);
    FixBook(ps, AdHocFixCorrected)
  }

  /** `main`: the book is written back, with every word count recomputed,
      exactly when some title or paragraph contains a key; `None` when the
      file is left as it was. */
  function AdHocMain(ps: seq<Part>): (r: Option<seq<Part>>)
    ensures r.Some? <==> KeyFound(ps)
    ensures r.Some? ==> SameShape(ps, r.value) && TitlesFixed(ps, r.value)
    ensures r.Some? ==> |AllItems(r.value)| == |AllItems(ps)|
    ensures r.Some? ==> forall k :: 0 <= k < |AllItems(ps)| ==>
              AllItems(r.value)[k].kind == AllItems(ps)[k].kind
              && AllItems(r.value)[k].text == FixedText(AllItems(ps)[k].text)
    ensures r.Some? ==> forall k :: 0 <= k < |AllItems(r.value)| && AllItems(r.value)[k].text.Some? ==>
              AllItems(r.value)[k].wordCount == Some(WordCount(AllItems(r.value)[k].text.value))
  {
    var out := ApplyAdHocFixes(ps);
    if out.corrections > 0 then
      var w := WordCounts.RecomputeWordCounts(out.book).0;
      AdHocRecounted(ps, out.book, w);
      Some(w)
    else None
  }

  /** Recounting keeps what the pass wrote. */
  lemma AdHocRecounted(ps: seq<Part>, fixed: seq<Part>, w: seq<Part>)
    requires fixed == ApplyAdHocFixes(ps).book && w == WordCounts.RecomputeWordCounts(fixed).0
    ensures SameShape(ps, w) && TitlesFixed(ps, w)
    ensures |AllItems(w)| == |AllItems(ps)|
    ensures forall k :: 0 <= k < |AllItems(ps)| ==>
              AllItems(w)[k].kind == AllItems(ps)[k].kind && AllItems(w)[k].text == FixedText(AllItems(ps)[k].text)
  {
    TitlesKept(ps, fixed, w);
    ItemsKept(AllItems(ps), AllItems(fixed), AllItems(w));
  }

  lemma TitlesKept(ps: seq<Part>, fixed: seq<Part>, w: seq<Part>)
    requires SameShape(ps, fixed) && TitlesFixed(ps, fixed)
    requires SameShape(fixed, w) && WordCounts.SameTitles(fixed, w)
    ensures SameShape(ps, w) && TitlesFixed(ps, w)
  {
  }

  lemma ItemsKept(items: seq<Item>, fixed: seq<Item>, w: seq<Item>)
    requires |fixed| == |items| && forall k :: 0 <= k < |items| ==> ItemFixed(items[k], fixed[k])
    requires |w| == |fixed| && forall k :: 0 <= k < |fixed| ==> w[k].kind == fixed[k].kind && w[k].text == fixed[k].text
    ensures forall k :: 0 <= k < |items| ==> w[k].kind == items[k].kind && w[k].text == FixedText(items[k].text)
  {
  }

  /** Not writing loses nothing: without a key in the book the pass left
      it as it was. */
  lemma AdHocNothingLost(ps: seq<Part>)
    ensures AdHocMain(ps).None? ==> ApplyAdHocFixes(ps).book == ps
  {
  }
}
