/** Word counting and the `word_count` recomputation pass that runs before
    every save: `_recompute_all_word_counts` in
    scripts/json_processing/reorganize_final.py, the `_recompute_counts`
    helpers of scripts/ocr_fixes/fix_ocr_manual.py and
    scripts/json_processing/fix_ad_hoc.py (the same loop), and
    `add_word_counts_to_json` in add_word_count.py. */
module WordCounts {
  import opened Wrappers
  import Text
  import opened Book

  /** `count_words` (add_word_count.py and epub_to_json_processor.py): the
      text is first normalised with `' '.join(text.strip().split())`, then
      split again. */
  function CountWords(text: string): (n: nat)
    ensures n == Text.WordCount(text)
    ensures n == 0 <==> Text.IsBlank(text)
  {
    var words := Text.Split(Text.Strip(text));
    var cleaned := Text.Join(" ", words);
    Text.SplitStrip(text);
    Text.SplitOfJoin(words);
    Text.StripEmpty(text);
    if cleaned != "" then |Text.Split(cleaned)| else 0
  }

  /** One item of the pass: an item with a `content` key gets
      `word_count = len(content.split())`; any other item is left alone. */
  function RecountItem(it: Item): (r: Item)
    ensures r.kind == it.kind && r.text == it.text
    ensures it.text.Some? ==> r.wordCount == Some(Text.WordCount(it.text.value))
    ensures it.text.None? ==> r == it
  {
    match it.text
    case Some(t) => it.(wordCount := Some(Text.WordCount(t)))
    case None => it
  }

  function Counted(it: Item): nat {
    if it.text.Some? then 1 else 0
  }

  function AssignedWords(it: Item): nat {
    if it.text.Some? then Text.WordCount(it.text.value) else 0
  }

  const Recount := Rewrite(t => t, t => t, RecountItem)

  /** Titles and subtitles of both books agree everywhere. */
  predicate SameTitles(a: seq<Part>, b: seq<Part>)
    requires SameShape(a, b)
  {
    (forall i :: 0 <= i < |a| ==> a[i].title == b[i].title && a[i].subtitle == b[i].subtitle)
    && (forall i, j :: 0 <= i < |a| && 0 <= j < |a[i].chapters| ==>
          a[i].chapters[j].title == b[i].chapters[j].title)
  }

  /** `_recompute_all_word_counts(structure)`: the book with every content
      item recounted, and the number of items recounted. */
  function RecomputeWordCounts(ps: seq<Part>): (r: (seq<Part>, nat))
    ensures SameShape(ps, r.0) && SameTitles(ps, r.0)
    ensures |AllItems(r.0)| == |AllItems(ps)|
    ensures forall i :: 0 <= i < |AllItems(ps)| ==>
              AllItems(r.0)[i].kind == AllItems(ps)[i].kind
              && AllItems(r.0)[i].text == AllItems(ps)[i].text
    ensures forall i :: 0 <= i < |AllItems(r.0)| && AllItems(r.0)[i].text.Some? ==>
              AllItems(r.0)[i].wordCount == Some(Text.WordCount(AllItems(r.0)[i].text.value))
    ensures forall i :: 0 <= i < |AllItems(ps)| && AllItems(ps)[i].text.None? ==>
              AllItems(r.0)[i] == AllItems(ps)[i]
    ensures r.1 == SumItems(AllItems(ps), Counted)
  {
    MapBookShape(ps, Recount);
    MapBookItems(ps, Recount);
    SumBookItems(ps, Counted);
    RecountedItems(AllItems(ps), AllItems(MapBook(ps, Recount)));
    (MapBook(ps, Recount), SumBook(ps, Tally(_ => 0, _ => 0, Counted)))
  }

  /** Item by item, a recounted list keeps kinds and texts and counts the
      words of every text. */
  lemma RecountedItems(items: seq<Item>, out: seq<Item>)
    requires out == MapItems(items, RecountItem)
    ensures |out| == |items|
    ensures forall i :: 0 <= i < |items| ==> out[i].kind == items[i].kind && out[i].text == items[i].text
    ensures forall i :: 0 <= i < |out| && out[i].text.Some? ==>
              out[i].wordCount == Some(Text.WordCount(out[i].text.value))
    ensures forall i :: 0 <= i < |items| && items[i].text.None? ==> out[i] == items[i]
  {
  }

  /** Recounting twice changes nothing further. */
  lemma RecomputeIdempotent(ps: seq<Part>)
    ensures RecomputeWordCounts(RecomputeWordCounts(ps).0).0 == RecomputeWordCounts(ps).0
  {
    var once := RecomputeWordCounts(ps).0;
    var twice := RecomputeWordCounts(once).0;
    forall i | 0 <= i < |once|
      ensures twice[i] == once[i]
    {
      forall j | 0 <= j < |once[i].chapters|
        ensures twice[i].chapters[j] == once[i].chapters[j]
      {
        forall k | 0 <= k < |once[i].chapters[j].content|
          ensures twice[i].chapters[j].content[k] == once[i].chapters[j].content[k]
        {
          var it := ps[i].chapters[j].content[k];
          assert once[i].chapters[j].content[k] == RecountItem(it);
          assert RecountItem(RecountItem(it)) == RecountItem(it);
        }
      }
    }
  }

  /** The item update of `add_word_counts_to_json`, which uses
      `count_words`; it agrees with `RecountItem`. */
  function CountItem(it: Item): (r: Item)
    ensures r == RecountItem(it)
  {
    if it.text.Some? then it.(wordCount := Some(CountWords(it.text.value))) else it
  }

  /** `add_word_counts_to_json`: the same pass, with `count_words`, also
      reporting the total words assigned.  Returns the book, the number of
      items updated and the total. */
  function AddWordCounts(ps: seq<Part>): (r: (seq<Part>, nat, nat))
    ensures (r.0, r.1) == RecomputeWordCounts(ps)
    ensures r.2 == SumItems(AllItems(ps), AssignedWords)
  {
    var counts := Rewrite(t => t, t => t, CountItem);
    MapBookAgree(ps, counts, Recount);
    SumBookItems(ps, AssignedWords);
    (MapBook(ps, counts), SumBook(ps, Tally(_ => 0, _ => 0, Counted)), SumBook(ps, Tally(_ => 0, _ => 0, AssignedWords)))
  }
}
