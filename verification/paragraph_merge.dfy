/** Rejoining paragraphs that OCR broke in two: `is_paragraph_continuation`
    and `merge_broken_paragraphs` of scripts/ocr_fixes/fix_ocr_manual.py,
    and `fix_json_manual_only`, which merges, removes repeated chapter
    titles, applies the manual corrections and recounts. */
module ParagraphMerge {
  import opened Wrappers
  import opened Text
  import opened Book
  import Labels
  import Corrections
  import WordCounts

  // ---------------------------------------------------------------------
  // is_paragraph_continuation
  // ---------------------------------------------------------------------

  /** Words after which a sentence cannot have ended. */
  const MidSentence: set<string> := {
    "though", "although", "while", "when", "where", "which", "that", "who", "whom",
    "whose", "if", "unless", "until", "since", "because", "as", "before", "after"
  }

  /** Capitalised words that usually carry a sentence on. */
  const ContinuationWords: set<string> := {
    "And", "But", "For", "Or", "Nor", "So", "Yet", "However", "Therefore",
    "Thus", "Hence", "Moreover", "Furthermore", "Nevertheless", "Nonetheless",
    "Another", "Others", "These", "Those", "Such", "Many", "Some", "All",
    "Both", "Either", "Neither", "Each", "Every", "Any", "No", "None"
  }

  const Terminal: set<char> := {'.', '!', '?', ':'}
  const Joining: set<char> := {',', ';', '-'}

  predicate EndsIn(t: string, chars: set<char>) {
    |t| > 0 && t[|t| - 1] in chars
  }

  /** `t[0].islower()` on a non-empty `t`. */
  predicate LowerStart(t: string) {
    |t| > 0 && IsLowerLetter(t[0])
  }

  /** `t.split()[-1].lower()`, or `""` when `t` has no words. */
  function LastWordLower(t: string): string {
    var ws := Split(t);
    if |ws| == 0 then "" else Lower(ws[|ws| - 1])
  }

  /** `t.split()[0]`, or `""` when `t` has no words. */
  function FirstWord(t: string): string {
    var ws := Split(t);
    if |ws| == 0 then "" else ws[0]
  }

  /** The pair gets past every early `return False`: both texts non-empty,
      at least four words in the first (eight, unless the second starts in
      lower case or the first ends on a mid-sentence word), and no final
      punctuation on the first. */
  predicate Admitted(text1: string, text2: string) {
    && text1 != "" && text2 != ""
    && 4 <= WordCount(text1)
    && (8 <= WordCount(text1) || LowerStart(Strip(text2)) || LastWordLower(text1) in MidSentence)
    && !EndsIn(Strip(text1), Terminal)
  }

  /** `is_paragraph_continuation(text1, text2)`; `None` where the script
      indexes the first character of a second text that is only
      whitespace (an `IndexError`). */
  function IsParagraphContinuation(text1: string, text2: string): (r: Option<bool>)
    ensures text1 == "" || text2 == "" ==> r == Some(false)
  {
    if text1 == "" || text2 == "" then Some(false)
    else
      var t1 := Strip(text1);
      var t2 := Strip(text2);
      var n := |Split(t1)|;
      if n < 4 then Some(false)
      else if n < 8 && !LowerStart(t2) && LastWordLower(t1) !in MidSentence then Some(false)
      else if t1[|t1| - 1] in Terminal then Some(false)
      else if t2 == "" then None
      else if IsLowerLetter(t2[0]) then Some(true)
      else if FirstWord(t2) in ContinuationWords then Some(true)
      else if t1[|t1| - 1] in Joining then Some(true)
      else Some(LastWordLower(t1) in MidSentence)
  }

  /** The test in terms of the original texts: `False` for every pair that
      is not admitted, an error exactly when an admitted second text is
      blank, and otherwise `True` exactly when one of the four continuation
      signs is present. */
  lemma ContinuationSpec(text1: string, text2: string)
    ensures var r := IsParagraphContinuation(text1, text2);
            && (text1 == "" || text2 == "" || WordCount(text1) < 4 || EndsIn(Strip(text1), Terminal)
                ==> r == Some(false))
            && (!Admitted(text1, text2) ==> r == Some(false))
            && (r.None? <==> Admitted(text1, text2) && IsBlank(text2))
            && (Admitted(text1, text2) && !IsBlank(text2) ==>
                  (r == Some(true) <==>
                     || LowerStart(Strip(text2)) || FirstWord(text2) in ContinuationWords
                     || EndsIn(Strip(text1), Joining) || LastWordLower(text1) in MidSentence))
  {
    SplitStrip(text1);
    SplitStrip(text2);
  }

  /** A second paragraph with a word in it never makes the test raise. */
  lemma ContinuationDefined(text1: string, text2: string)
    requires Split(text2) != []
    ensures IsParagraphContinuation(text1, text2).Some?
  {
    ContinuationSpec(text1, text2);
    StripEmpty(text2);
  }

  // ---------------------------------------------------------------------
  // merge_broken_paragraphs
  // ---------------------------------------------------------------------

  /** A `p` item with a `content` key: the only items the loop looks at. */
  predicate Mergeable(it: Item) {
    it.IsP() && it.text.Some?
  }

  /** `previous` with `current` appended after one space, recounted. */
  function Merged(prev: Item, curr: Item): (r: Item)
    requires Mergeable(prev) && Mergeable(curr)
    ensures Mergeable(r) && r.kind == prev.kind
    ensures r.text == Some(prev.text.value + " " + curr.text.value)
    ensures Split(r.text.value) == Split(prev.text.value) + Split(curr.text.value)
    ensures r.wordCount == Some(WordCount(r.text.value))
  {
    var m := prev.text.value + " " + curr.text.value;
    SplitJoinSpace(prev.text.value, curr.text.value);
    Item(prev.kind, Some(m), Some(|Split(m)|))
  }

  /** `content` after item `j` was merged into item `j - 1` and popped. */
  function Splice(c: seq<Item>, j: nat): (r: seq<Item>)
    requires 0 < j < |c| && Mergeable(c[j - 1]) && Mergeable(c[j])
    ensures |r| == |c| - 1
  {
    c[..j - 1] + [Merged(c[j - 1], c[j])] + c[j + 1..]
  }

  /** The `while i > 0` loop from position `i` with `n` merges so far,
      comparing neighbours with `test`; `None` when a comparison raises.
      `i` may equal `|c|` right after the last item was popped, and is then
      moved back, as the script does at the top of the loop. */
  function MergeWith(test: (string, string) -> Option<bool>, c: seq<Item>, i: nat, n: nat): (r: Option<(seq<Item>, nat)>)
    requires i <= |c|
    decreases i + |c|
  {
    if i == 0 then Some((c, n))
    else
      var j := if i == |c| then |c| - 1 else i;
      if j == 0 then Some((c, n))
      else if Mergeable(c[j - 1]) && Mergeable(c[j]) then
        match test(c[j - 1].text.value, c[j].text.value)
        case None => None
        case Some(true) => MergeWith(test, Splice(c, j), j, n + 1)
        case Some(false) => MergeWith(test, c, j - 1, n)
      else MergeWith(test, c, j - 1, n)
  }

  /** The loop of `merge_broken_paragraphs` over one chapter's items. */
  function MergeFrom(c: seq<Item>, i: nat, n: nat): Option<(seq<Item>, nat)>
    requires i <= |c|
  {
    MergeWith(IsParagraphContinuation, c, i, n)
  }

  /** The words of every item, in order (`content.split()` of each). */
  function Tokens(c: seq<Item>): seq<string>
    decreases |c|
  {
    if |c| == 0 then [] else Split(c[0].Content()) + Tokens(c[1..])
  }

  /** The texts of the paragraphs the loop may merge. */
  function Texts(c: seq<Item>): seq<string>
    decreases |c|
  {
    if |c| == 0 then []
    else (if Mergeable(c[0]) then [c[0].text.value] else []) + Texts(c[1..])
  }

  /** Every other item, in order. */
  function Others(c: seq<Item>): seq<Item>
    decreases |c|
  {
    if |c| == 0 then []
    else (if Mergeable(c[0]) then [] else [c[0]]) + Others(c[1..])
  }

  lemma {:induction false} TokensConcat(a: seq<Item>, b: seq<Item>)
    ensures Tokens(a + b) == Tokens(a) + Tokens(b)
    decreases |a|
  {
    if |a| == 0 {
      assert a + b == b;
    } else {
      assert (a + b)[1..] == a[1..] + b;
      TokensConcat(a[1..], b);
    }
  }

  lemma {:induction false} TextsConcat(a: seq<Item>, b: seq<Item>)
    ensures Texts(a + b) == Texts(a) + Texts(b)
    decreases |a|
  {
    if |a| == 0 {
      assert a + b == b;
    } else {
      assert (a + b)[1..] == a[1..] + b;
      TextsConcat(a[1..], b);
    }
  }

  lemma {:induction false} OthersConcat(a: seq<Item>, b: seq<Item>)
    ensures Others(a + b) == Others(a) + Others(b)
    decreases |a|
  {
    if |a| == 0 {
      assert a + b == b;
    } else {
      assert (a + b)[1..] == a[1..] + b;
      OthersConcat(a[1..], b);
    }
  }

  /** Joining with `sep` does not see whether two neighbours were already
      glued with `sep`. */
  lemma {:induction false} JoinSplice(sep: string, xs: seq<string>, p: string, q: string, ys: seq<string>)
    ensures Join(sep, xs + [p + sep + q] + ys) == Join(sep, xs + [p, q] + ys)
    decreases |xs|
  {
    if |xs| == 0 {
      assert xs + [p + sep + q] + ys == [p + sep + q] + ys;
      assert xs + [p, q] + ys == [p, q] + ys;
      assert ([p, q] + ys)[1..] == [q] + ys;
      if |ys| == 0 {
        assert Join(sep, [q]) == q;
      } else {
        assert ([p + sep + q] + ys)[1..] == ys;
        assert ([q] + ys)[1..] == ys;
        assert p + sep + q + sep + Join(sep, ys) == p + sep + (q + sep + Join(sep, ys));
      }
    } else {
      JoinSplice(sep, xs[1..], p, q, ys);
      assert (xs + [p + sep + q] + ys)[1..] == xs[1..] + [p + sep + q] + ys;
      assert (xs + [p, q] + ys)[1..] == xs[1..] + [p, q] + ys;
    }
  }

  /** One merge keeps the words, the paragraph text read with single
      spaces, and every other item. */
  lemma SpliceKeeps(c: seq<Item>, j: nat)
    requires 0 < j < |c| && Mergeable(c[j - 1]) && Mergeable(c[j])
    ensures Tokens(Splice(c, j)) == Tokens(c)
    ensures Join(" ", Texts(Splice(c, j))) == Join(" ", Texts(c))
    ensures Others(Splice(c, j)) == Others(c)
  {
    var a, x, y, b := c[..j - 1], c[j - 1], c[j], c[j + 1..];
    assert c == a + [x, y] + b;
    SpliceTokens(a, x, y, b);
    SpliceTexts(a, x, y, b);
    SpliceOthers(a, x, y, b);
  }

  lemma SpliceTokens(a: seq<Item>, x: Item, y: Item, b: seq<Item>)
    requires Mergeable(x) && Mergeable(y)
    ensures Tokens(a + [Merged(x, y)] + b) == Tokens(a + [x, y] + b)
  {
    var m := Merged(x, y);
    TokensConcat(a + [m], b);
    TokensConcat(a, [m]);
    TokensConcat(a + [x, y], b);
    TokensConcat(a, [x, y]);
    assert [x, y] == [x] + [y];
    TokensConcat([x], [y]);
    assert Tokens([m]) == Split(m.text.value);
    assert Tokens([x]) == Split(x.text.value) && Tokens([y]) == Split(y.text.value);
  }

  lemma SpliceTexts(a: seq<Item>, x: Item, y: Item, b: seq<Item>)
    requires Mergeable(x) && Mergeable(y)
    ensures Join(" ", Texts(a + [Merged(x, y)] + b)) == Join(" ", Texts(a + [x, y] + b))
  {
    var m := Merged(x, y);
    TextsConcat(a + [m], b);
    TextsConcat(a, [m]);
    TextsConcat(a + [x, y], b);
    TextsConcat(a, [x, y]);
    assert [x, y] == [x] + [y];
    TextsConcat([x], [y]);
    assert Texts([m]) == [x.text.value + " " + y.text.value];
    assert Texts([x]) + Texts([y]) == [x.text.value, y.text.value];
    JoinSplice(" ", Texts(a), x.text.value, y.text.value, Texts(b));
  }

  lemma SpliceOthers(a: seq<Item>, x: Item, y: Item, b: seq<Item>)
    requires Mergeable(x) && Mergeable(y)
    ensures Others(a + [Merged(x, y)] + b) == Others(a + [x, y] + b)
  {
    var m := Merged(x, y);
    OthersConcat(a + [m], b);
    OthersConcat(a, [m]);
    OthersConcat(a + [x, y], b);
    OthersConcat(a, [x, y]);
    assert [x, y] == [x] + [y];
    OthersConcat([x], [y]);
    assert Others([m]) == [] && Others([x]) == [] && Others([y]) == [];
  }

  /** The loop stops at the front of the chapter. */
  lemma StopStep(test: (string, string) -> Option<bool>, c: seq<Item>, i: nat, n: nat)
    requires i <= |c| && (i == 0 || (if i == |c| then |c| - 1 else i) == 0)
    ensures MergeWith(test, c, i, n) == Some((c, n))
  {
  }

  lemma StopCases(test: (string, string) -> Option<bool>, c: seq<Item>, i: nat, n: nat)
    requires i <= |c|
    ensures i == 0 || (if i == |c| then |c| - 1 else i) == 0 ==> MergeWith(test, c, i, n) == Some((c, n))
  {
    if i == 0 || (if i == |c| then |c| - 1 else i) == 0 {
      StopStep(test, c, i, n);
    }
  }

  /** The loop merges at `j` when the test says so. */
  lemma MergeStep(test: (string, string) -> Option<bool>, c: seq<Item>, i: nat, n: nat, j: nat)
    requires 0 < i <= |c| && j == (if i == |c| then |c| - 1 else i) && 0 < j
    requires Mergeable(c[j - 1]) && Mergeable(c[j])
    requires test(c[j - 1].text.value, c[j].text.value) == Some(true)
    ensures MergeWith(test, c, i, n) == MergeWith(test, Splice(c, j), j, n + 1)
  {
  }

  /** The loop raises when the test does. */
  lemma FailStep(test: (string, string) -> Option<bool>, c: seq<Item>, i: nat, n: nat, j: nat)
    requires 0 < i <= |c| && j == (if i == |c| then |c| - 1 else i) && 0 < j
    requires Mergeable(c[j - 1]) && Mergeable(c[j])
    requires test(c[j - 1].text.value, c[j].text.value) == None
    ensures MergeWith(test, c, i, n) == None
  {
  }

  /** The loop steps back past `j` when the pair is not compared or the
      test says no. */
  lemma SkipStep(test: (string, string) -> Option<bool>, c: seq<Item>, i: nat, n: nat, j: nat)
    requires 0 < i <= |c| && j == (if i == |c| then |c| - 1 else i) && 0 < j
    requires !(Mergeable(c[j - 1]) && Mergeable(c[j]))
             || (test(c[j - 1].text.value, c[j].text.value) != Some(true)
                 && test(c[j - 1].text.value, c[j].text.value) != None)
    ensures MergeWith(test, c, i, n) == MergeWith(test, c, j - 1, n)
  {
  }

  /** What the loop keeps: the item count drops by exactly the merges made,
      and the words, the joined paragraph text and all other items are
      unchanged. */
  lemma {:induction false} MergeWithKeeps(test: (string, string) -> Option<bool>, c: seq<Item>, i: nat, n: nat)
    requires i <= |c|
    ensures MergeWith(test, c, i, n).Some? ==>
            var r := MergeWith(test, c, i, n).value;
            && |r.0| + r.1 == |c| + n
            && Tokens(r.0) == Tokens(c)
            && Join(" ", Texts(r.0)) == Join(" ", Texts(c))
            && Others(r.0) == Others(c)
    decreases i + |c|
  {
    StopCases(test, c, i, n);
    if i > 0 {
      var j := if i == |c| then |c| - 1 else i;
      if j > 0 {
        if Mergeable(c[j - 1]) && Mergeable(c[j]) {
          if test(c[j - 1].text.value, c[j].text.value) == Some(true) {
            SpliceKeeps(c, j);
            MergeWithKeeps(test, Splice(c, j), j, n + 1);
            MergeStep(test, c, i, n, j);
          } else if test(c[j - 1].text.value, c[j].text.value) == None {
            FailStep(test, c, i, n, j);
          } else {
            MergeWithKeeps(test, c, j - 1, n);
            SkipStep(test, c, i, n, j);
          }
        } else {
          MergeWithKeeps(test, c, j - 1, n);
          SkipStep(test, c, i, n, j);
        }
      }
    }
  }

  /** No paragraph the loop may compare is only whitespace. */
  predicate NoBlankParagraph(c: seq<Item>) {
    forall k :: 0 <= k < |c| && Mergeable(c[k]) ==> Split(c[k].text.value) != []
  }

  lemma SpliceNoBlank(c: seq<Item>, j: nat)
    requires 0 < j < |c| && Mergeable(c[j - 1]) && Mergeable(c[j]) && NoBlankParagraph(c)
    ensures NoBlankParagraph(Splice(c, j))
  {
    var r := Splice(c, j);
    forall k | 0 <= k < |r| && Mergeable(r[k]) ensures Split(r[k].text.value) != [] {
      if k < j - 1 {
        assert r[k] == c[k];
      } else if k > j - 1 {
        assert r[k] == c[k + 1];
      }
    }
  }

  /** The loop only raises on a paragraph that is only whitespace. */
  lemma {:induction false} MergeWithSucceeds(test: (string, string) -> Option<bool>, c: seq<Item>, i: nat, n: nat)
    requires i <= |c| && NoBlankParagraph(c)
    requires forall a, b :: Split(b) != [] ==> test(a, b).Some?
    ensures MergeWith(test, c, i, n).Some?
    decreases i + |c|
  {
    StopCases(test, c, i, n);
    if i > 0 {
      var j := if i == |c| then |c| - 1 else i;
      if j > 0 {
        if Mergeable(c[j - 1]) && Mergeable(c[j]) {
          if test(c[j - 1].text.value, c[j].text.value) == Some(true) {
            SpliceNoBlank(c, j);
            MergeWithSucceeds(test, Splice(c, j), j, n + 1);
            MergeStep(test, c, i, n, j);
          } else {
            assert Split(c[j].text.value) != [];
            MergeWithSucceeds(test, c, j - 1, n);
            SkipStep(test, c, i, n, j);
          }
        } else {
          MergeWithSucceeds(test, c, j - 1, n);
          SkipStep(test, c, i, n, j);
        }
      }
    }
  }

  /** One chapter of `merge_broken_paragraphs`: chapters with fewer than
      two items are skipped, the others scanned from the back. */
  function MergeChapter(ch: Chapter): (r: Option<(Chapter, nat)>)
    ensures |ch.content| < 2 ==> r == Some((ch, 0))
    ensures NoBlankParagraph(ch.content) ==> r.Some?
    ensures r.Some? ==>
              && r.value.0.title == ch.title
              && |r.value.0.content| + r.value.1 == |ch.content|
              && Tokens(r.value.0.content) == Tokens(ch.content)
              && Join(" ", Texts(r.value.0.content)) == Join(" ", Texts(ch.content))
              && Others(r.value.0.content) == Others(ch.content)
  {
    if |ch.content| < 2 then Some((ch, 0))
    else
      var c := ch.content;
      assert NoBlankParagraph(c) ==> MergeFrom(c, |c| - 1, 0).Some? by {
        if NoBlankParagraph(c) {
          forall a, b | Split(b) != [] ensures IsParagraphContinuation(a, b).Some? {
            ContinuationDefined(a, b);
          }
          MergeWithSucceeds(IsParagraphContinuation, c, |c| - 1, 0);
        }
      }
      match MergeFrom(c, |c| - 1, 0)
      case None => None
      case Some(res) =>
        MergeWithKeeps(IsParagraphContinuation, c, |c| - 1, 0);
        Some((ch.(content := res.0), res.1))
  }

  /** `merge_broken_paragraphs(chapters)`: every chapter in turn, with the
      total number of merges; `None` as soon as one raises. */
  function MergeBrokenParagraphs(cs: seq<Chapter>): (r: Option<(seq<Chapter>, nat)>)
    ensures r.Some? ==> |r.value.0| == |cs|
    ensures r.Some? ==> forall k :: 0 <= k < |cs| ==> MergeChapter(cs[k]).Some? && r.value.0[k] == MergeChapter(cs[k]).value.0
    ensures r.None? ==> exists k :: 0 <= k < |cs| && MergeChapter(cs[k]).None?
    decreases |cs|
  {
    if |cs| == 0 then Some(([], 0))
    else
      match MergeChapter(cs[0])
      case None => None
      case Some(first) =>
        match MergeBrokenParagraphs(cs[1..])
        case None =>
          assert forall k :: 0 <= k < |cs| - 1 ==> cs[1..][k] == cs[k + 1];
          None
        case Some(rest) =>
          assert forall k :: 1 <= k < |cs| ==> cs[k] == cs[1..][k - 1];
          Some(([first.0] + rest.0, first.1 + rest.1))
  }

  /** The merge count over a list of chapters is the sum of the chapters'
      own counts, and the items drop by exactly that many. */
  lemma {:induction false} MergeCounts(cs: seq<Chapter>)
    requires MergeBrokenParagraphs(cs).Some?
    ensures |ChapterItems(MergeBrokenParagraphs(cs).value.0)| + MergeBrokenParagraphs(cs).value.1
            == |ChapterItems(cs)|
    decreases |cs|
  {
    if |cs| > 0 {
      MergeCounts(cs[1..]);
      var r := MergeBrokenParagraphs(cs).value.0;
      assert r[1..] == MergeBrokenParagraphs(cs[1..]).value.0;
    }
  }

  /** The book after merging: each part's chapters through
      `MergeBrokenParagraphs`, which is the script's loop over all the
      book's chapters taken part by part. */
  function MergeBook(ps: seq<Part>): (r: Option<(seq<Part>, nat)>)
    ensures r.Some? ==> |r.value.0| == |ps|
    ensures r.Some? ==> forall k :: 0 <= k < |ps| ==>
              && MergeBrokenParagraphs(ps[k].chapters).Some?
              && r.value.0[k] == ps[k].(chapters := MergeBrokenParagraphs(ps[k].chapters).value.0)
    decreases |ps|
  {
    if |ps| == 0 then Some(([], 0))
    else
      match MergeBrokenParagraphs(ps[0].chapters)
      case None => None
      case Some(first) =>
        match MergeBook(ps[1..])
        case None => None
        case Some(rest) =>
          assert forall k :: 1 <= k < |ps| ==> ps[k] == ps[1..][k - 1];
          Some(([ps[0].(chapters := first.0)] + rest.0, first.1 + rest.1))
  }

  // ---------------------------------------------------------------------
  // fix_json_manual_only
  // ---------------------------------------------------------------------

  /** `fix_json_manual_only`: merge broken paragraphs, remove chapter titles
      repeated in the first paragraph, apply the manual corrections, and
      recount before saving; `None` when the merge raises. */
  function FixJsonManualOnly(ps: seq<Part>): (r: Option<seq<Part>>)
    ensures r.Some? <==> MergeBook(ps).Some?
    ensures r.Some? ==> |r.value| == |ps|
    ensures r.Some? ==> forall i :: 0 <= i < |AllItems(r.value)| && AllItems(r.value)[i].text.Some? ==>
              AllItems(r.value)[i].wordCount == Some(WordCount(AllItems(r.value)[i].text.value))
  {
    match MergeBook(ps)
    case None => None
    case Some(merged) =>
      var cleaned := Labels.CleanRepeatedChapterTitle(Labels.Manual, merged.0).0;
      var fixed := Corrections.FixBook(cleaned, Corrections.FixOcrManualOnly).book;
      Some(WordCounts.RecomputeWordCounts(fixed).0)
  }
}
