/** fix_json_structure.py: the first reconciliation script.  The special
    sections are cut by three independent scans of the first chapter;
    each row of the table of contents is looked up in the book by text
    search; parts are looked up in the table under the keys `Part I` to
    `Part V`. */
module FixStructure {
  import opened Wrappers
  import opened Text
  import opened Book
  import KeepFirst
  import FrontMatter
  import opened Assembly
  import FixFinal

  const FullGreeting := "Dear reader, I pray you to read this Preface"
  const PartOne := "PART THE FIRST"

  /** `pattern in para.get('content', '')` */
  predicate Has(item: Item, pattern: string) {
    Contains(item.Content(), pattern)
  }

  /** The first position at or after `from` whose paragraph contains
      `pattern`, or `|items|` when there is none. */
  function Find(items: seq<Item>, pattern: string, from: nat): (i: nat)
    requires from <= |items|
    ensures from <= i <= |items|
    ensures i < |items| ==> Has(items[i], pattern)
    ensures forall k :: from <= k < i ==> !Has(items[k], pattern)
    decreases |items| - from
  {
    if from == |items| || Has(items[from], pattern) then from else Find(items, pattern, from + 1)
  }

  // ---------------------------------------------------------------------
  // The dedicatory prayer
  // ---------------------------------------------------------------------

  /** The collecting loop once `start_collecting` is set: markers are
      skipped, the first `St. Francis de Sales` paragraph is taken and
      ends it. */
  function PrayerRun(items: seq<Item>): (r: seq<Item>)
    ensures forall k :: 0 <= k < |r| ==> !Has(r[k], FrontMatter.Marker)
    ensures forall k :: 0 <= k < |r| - 1 ==> !Has(r[k], FrontMatter.Closing)
    ensures KeepFirst.IsSubseq(r, items)
    decreases |items|
  {
    if |items| == 0 then []
    else if Has(items[0], FrontMatter.Marker) then PrayerRun(items[1..])
    else if Has(items[0], FrontMatter.Closing) then [items[0]]
    else [items[0]] + PrayerRun(items[1..])
  }

  /** `sections['dedicatory_prayer']`: `None` without a marker, otherwise
      the run after the first marker. */
  function Prayer(content: seq<Item>): (r: Option<seq<Item>>)
    ensures r.None? <==> forall i :: 0 <= i < |content| ==> !Has(content[i], FrontMatter.Marker)
  {
    var m := Find(content, FrontMatter.Marker, 0);
    if m == |content| then None else Some(PrayerRun(content[m + 1..]))
  }

  /** When a `St. Francis de Sales` paragraph that is not a marker follows,
      the prayer ends with the first such paragraph. */
  lemma {:induction false} PrayerRunClosed(items: seq<Item>, j: nat)
    requires j < |items| && Has(items[j], FrontMatter.Closing) && !Has(items[j], FrontMatter.Marker)
    ensures |PrayerRun(items)| > 0 && Has(PrayerRun(items)[|PrayerRun(items)| - 1], FrontMatter.Closing)
    decreases |items|
  {
    if !Has(items[0], FrontMatter.Closing) || Has(items[0], FrontMatter.Marker) {
      assert items[1..][j - 1] == items[j];
      PrayerRunClosed(items[1..], j - 1);
    }
  }

  /** Without any closing paragraph, every paragraph that is not a marker
      is taken, to the end of the chapter. */
  lemma {:induction false} PrayerRunUnclosed(items: seq<Item>, x: Item)
    requires forall i :: 0 <= i < |items| ==> !Has(items[i], FrontMatter.Closing)
    requires x in items && !Has(x, FrontMatter.Marker)
    ensures x in PrayerRun(items)
    decreases |items|
  {
    if items[0] != x {
      assert forall i :: 0 <= i < |items[1..]| ==> items[1..][i] == items[i + 1];
      PrayerRunUnclosed(items[1..], x);
    }
  }

  // ---------------------------------------------------------------------
  // The preface
  // ---------------------------------------------------------------------

  /** The preface loop with `collecting_preface` as the flag. */
  function PrefaceScan(items: seq<Item>, collecting: bool): (r: seq<Item>)
    ensures forall k :: 0 <= k < |r| ==> !Has(r[k], PartOne)
    decreases |items|
  {
    if |items| == 0 then []
    else
      var c := collecting || Has(items[0], FullGreeting);
      if c && !Has(items[0], PartOne) then [items[0]] + PrefaceScan(items[1..], c)
      else if Has(items[0], PartOne) then []
      else PrefaceScan(items[1..], c)
  }

  function Preface(content: seq<Item>): seq<Item> {
    PrefaceScan(content, false)
  }

  /** Once collecting, the scan takes everything up to the first
      `PART THE FIRST`. */
  lemma {:induction false} PrefaceCollecting(items: seq<Item>, from: nat)
    requires from <= |items|
    ensures PrefaceScan(items[from..], true) == items[from..Find(items, PartOne, from)]
    decreases |items| - from
  {
    if from < |items| && !Has(items[from], PartOne) {
      assert items[from..][1..] == items[from + 1..];
      PrefaceCollecting(items, from + 1);
    }
  }

  /** Before collecting, the scan waits for the greeting; a `PART THE
      FIRST` seen first ends it with nothing. */
  lemma {:induction false} PrefaceWaiting(items: seq<Item>, from: nat)
    requires from <= |items|
    ensures var g := Find(items, FullGreeting, from);
            var p := Find(items, PartOne, from);
            PrefaceScan(items[from..], false) == if p < g then [] else items[g..p]
    decreases |items| - from
  {
    if from < |items| {
      assert items[from..][1..] == items[from + 1..];
      if Has(items[from], FullGreeting) {
        PrefaceCollecting(items, from + 1);
      } else if !Has(items[from], PartOne) {
        PrefaceWaiting(items, from + 1);
      }
    }
  }

  /** The preface is the slice from the first greeting to the first `PART
      THE FIRST`, and empty when that heading comes first. */
  lemma PrefaceSlice(content: seq<Item>)
    ensures var g := Find(content, FullGreeting, 0);
            var p := Find(content, PartOne, 0);
            Preface(content) == if p < g then [] else content[g..p]
  {
    PrefaceWaiting(content, 0);
    assert content[0..] == content;
  }

  // ---------------------------------------------------------------------
  // The title page
  // ---------------------------------------------------------------------

  /** The title loop: notice paragraphs, stopping at the first marker. */
  function TitleScan(items: seq<Item>): (r: seq<Item>)
    decreases |items|
  {
    if |items| == 0 || Has(items[0], FrontMatter.Marker) then []
    else if Has(items[0], FrontMatter.Notice) then [items[0]] + TitleScan(items[1..])
    else TitleScan(items[1..])
  }

  /** Reference definition: the notice paragraphs among `items`. */
  function Notices(items: seq<Item>): (r: seq<Item>)
    ensures forall k :: 0 <= k < |r| ==> Has(r[k], FrontMatter.Notice)
    decreases |items|
  {
    if |items| == 0 then []
    else if Has(items[0], FrontMatter.Notice) then [items[0]] + Notices(items[1..])
    else Notices(items[1..])
  }

  /** The title page is the notice paragraphs before the first marker. */
  lemma {:induction false} TitleBeforeMarker(items: seq<Item>, from: nat)
    requires from <= |items|
    ensures TitleScan(items[from..]) == Notices(items[from..Find(items, FrontMatter.Marker, from)])
    decreases |items| - from
  {
    if from < |items| && !Has(items[from], FrontMatter.Marker) {
      var m := Find(items, FrontMatter.Marker, from);
      assert items[from..][1..] == items[from + 1..];
      assert items[from..m][1..] == items[from + 1..m];
      TitleBeforeMarker(items, from + 1);
    }
  }

  // ---------------------------------------------------------------------
  // extract_special_sections and the sections written first
  // ---------------------------------------------------------------------

  /** `sections`: title page and preface always, the prayer when a marker
      was seen. */
  datatype Specials = Specials(titlePage: seq<Item>, prayer: Option<seq<Item>>, preface: seq<Item>)

  function ExtractSpecialSections(content: seq<Item>): Specials {
    Specials(TitleScan(content), Prayer(content), Preface(content))
  }

  /** The sections of `create_new_json_structure`: a non-`None` section is
      written even when it has no paragraphs, so the title page and the
      preface always are. */
  function SpecialParts(s: Specials): (r: seq<Part>)
    ensures |r| == (if s.prayer.Some? then 3 else 2)
    ensures r[0] == Section(TitlePage, s.titlePage) && r[|r| - 1] == Section(PrefaceTitle, s.preface)
    ensures s.prayer.Some? ==> r[1] == Section(FrontMatter.Marker, s.prayer.value)
  {
    [Section(TitlePage, s.titlePage)]
    + (if s.prayer.Some? then [Section(FrontMatter.Marker, s.prayer.value)] else [])
    + [Section(PrefaceTitle, s.preface)]
  }

  // ---------------------------------------------------------------------
  // find_chapter_content
  // ---------------------------------------------------------------------

  /** `pattern.upper() in chapter['chapter_title'].upper()` */
  predicate Matches(c: Chapter, pattern: string) {
    Contains(Upper(c.Title()), Upper(pattern))
  }

  /** The first chapter of `cs` whose title contains the pattern, ignoring
      case. */
  function FindChapter(cs: seq<Chapter>, pattern: string): (r: Option<Chapter>)
    ensures r.None? <==> forall i :: 0 <= i < |cs| ==> !Matches(cs[i], pattern)
    ensures r.Some? ==> exists i :: 0 <= i < |cs| && r.value == cs[i] && Matches(cs[i], pattern)
                                    && forall j :: 0 <= j < i ==> !Matches(cs[j], pattern)
    decreases |cs|
  {
    if |cs| == 0 then None
    else if Matches(cs[0], pattern) then Some(cs[0])
    else
      var r := FindChapter(cs[1..], pattern);
      assert forall i :: 0 <= i < |cs[1..]| ==> cs[1..][i] == cs[i + 1];
      r
  }

  /** `find_chapter_content(current_data, pattern)`, in part-then-chapter
      order. */
  function FindChapterContent(ps: seq<Part>, pattern: string): Option<Chapter> {
    FindChapter(AllChapters(ps), pattern)
  }

  // ---------------------------------------------------------------------
  // Looking up one row
  // ---------------------------------------------------------------------

  /** `search_patterns`, tried in order. */
  function Patterns(row: Row): seq<string> {
    ["CHAPTER " + row.chapter, "Chapter " + row.chapter, Take(row.title, 30)]
  }

  /** The chapter found for a row: the hit of the first pattern that has
      one. */
  function FindRow(cs: seq<Chapter>, row: Row): Option<Chapter> {
    var p := Patterns(row);
    if FindChapter(cs, p[0]).Some? then FindChapter(cs, p[0])
    else if FindChapter(cs, p[1]).Some? then FindChapter(cs, p[1])
    else FindChapter(cs, p[2])
  }

  lemma UpperChapterWord()
    ensures Upper("Chapter ") == "CHAPTER "
  {
  }

  /** The second pattern adds nothing: after upper-casing it is the
      first. */
  lemma SecondPatternRedundant(cs: seq<Chapter>, chapter: string)
    ensures FindChapter(cs, "Chapter " + chapter) == FindChapter(cs, "CHAPTER " + chapter)
  {
    calc {
      Upper("Chapter " + chapter);
      { UpperConcatenation("Chapter ", chapter); }
      Upper("Chapter ") + Upper(chapter);
      { UpperChapterWord(); }
      "CHAPTER " + Upper(chapter);
      { UpperConcatenation("CHAPTER ", chapter); }
      Upper("CHAPTER " + chapter);
    }
    SameUpperSameFind(cs, "Chapter " + chapter, "CHAPTER " + chapter);
  }

  lemma UpperConcatenation(a: string, b: string)
    ensures Upper(a + b) == Upper(a) + Upper(b)
  {
  }

  lemma {:induction false} SameUpperSameFind(cs: seq<Chapter>, a: string, b: string)
    requires Upper(a) == Upper(b)
    ensures FindChapter(cs, a) == FindChapter(cs, b)
    decreases |cs|
  {
    if |cs| > 0 {
      SameUpperSameFind(cs[1..], a, b);
    }
  }

  /** The chapter a row produces when its lookup hits. */
  function RowChapter(row: Row, found: Chapter): Chapter {
    Chapter(Some(ChapterTitle(row)), found.content)
  }

  /** The chapters of one part: one per row whose lookup hits, in row
      order; rows with no hit are skipped.  The same book chapter may serve
      several rows. */
  function PartChapters(cs: seq<Chapter>, group: seq<Row>): (r: seq<Chapter>)
    ensures |r| <= |group|
    decreases |group|
  {
    if |group| == 0 then []
    else
      match FindRow(cs, group[0])
      case None => PartChapters(cs, group[1..])
      case Some(found) => [RowChapter(group[0], found)] + PartChapters(cs, group[1..])
  }

  lemma {:induction false} PartChaptersHas(cs: seq<Chapter>, group: seq<Row>, i: nat)
    requires i < |group| && FindRow(cs, group[i]).Some?
    ensures RowChapter(group[i], FindRow(cs, group[i]).value) in PartChapters(cs, group)
    decreases |group|
  {
    if i > 0 {
      assert group[1..][i - 1] == group[i];
      PartChaptersHas(cs, group[1..], i - 1);
    }
  }

  // ---------------------------------------------------------------------
  // organize_chapters_by_parts
  // ---------------------------------------------------------------------

  /** The key a part is looked up under in the table: `Part I` as written,
      the bare `I` that the table actually has in the corrected version. */
  function LookupKey(bare: bool, k: nat): string
    requires k < Parts
  {
    if bare then PartKeys[k] else "Part " + PartKeys[k]
  }

  /** The parts from `k` on: each one whose key the table has, with its
      title and its chapters, even when none was found. */
  function PartsFrom(cs: seq<Chapter>, rows: seq<Row>, bare: bool, titles: seq<string>, k: nat): (r: seq<Part>)
    requires |titles| == Parts && k <= Parts
    ensures |r| <= Parts - k
    decreases Parts - k
  {
    if k == Parts then []
    else
      var key := LookupKey(bare, k);
      if key in FixFinal.PartOrder(rows) then
        [Part(Some(titles[k]), None, PartChapters(cs, FixFinal.RowsOf(rows, key)))]
        + PartsFrom(cs, rows, bare, titles, k + 1)
      else PartsFrom(cs, rows, bare, titles, k + 1)
  }

  /** `organize_chapters_by_parts(current_data, parts_structure)` as
      written: parts looked up under `Part I` to `Part V`. */
  function OrganizeChaptersByParts(ps: seq<Part>, rows: seq<Row>): seq<Part> {
    PartsFrom(AllChapters(ps), rows, false, PartTitles, 0)
  }

  /** The same with the parts looked up under the keys the table has. */
  function OrganizeCorrected(ps: seq<Part>, rows: seq<Row>): seq<Part> {
    PartsFrom(AllChapters(ps), rows, true, PartTitles, 0)
  }

  /** A key of the `parts` dictionary is the part of some row. */
  lemma PartOrderFrom(rows: seq<Row>, key: string)
    ensures key in FixFinal.PartOrder(rows) ==> exists i :: 0 <= i < |rows| && rows[i].part == key
  {
    if key in FixFinal.PartOrder(rows) {
      var f := KeepFirst.FirstOccurrences(rows, FixFinal.PartOf);
      KeepFirst.FirstOccurrencesSubseq(rows, FixFinal.PartOf);
      KeepFirst.SubseqMembers(f, rows);
      var k :| 0 <= k < |f| && FixFinal.PartOrder(rows)[k] == key;
      var i :| 0 <= i < |rows| && f[k] == rows[i];
    }
  }

  /** A table whose part column holds only `I` to `V`. */
  predicate BareKeys(rows: seq<Row>) {
    forall i :: 0 <= i < |rows| ==> rows[i].part in PartKeys
  }

  lemma {:induction false} PartsFromNone(cs: seq<Chapter>, rows: seq<Row>, titles: seq<string>, k: nat)
    requires |titles| == Parts && k <= Parts && BareKeys(rows)
    ensures PartsFrom(cs, rows, false, titles, k) == []
    decreases Parts - k
  {
    if k < Parts {
      var key := LookupKey(false, k);
      forall i | 0 <= i < |rows| ensures rows[i].part != key {
        assert |rows[i].part| <= 3;
      }
      PartOrderFrom(rows, key);
      PartsFromNone(cs, rows, titles, k + 1);
    }
  }

  /** As written, a table keyed `I` to `V` (the keys every other script
      indexes its parts with) yields no part at all. */
  lemma AsWrittenNoParts(ps: seq<Part>, rows: seq<Row>)
    requires BareKeys(rows)
    ensures OrganizeChaptersByParts(ps, rows) == []
  {
    PartsFromNone(AllChapters(ps), rows, PartTitles, 0);
  }

  /** One concrete table row and an empty book: nothing is organized. */
  lemma AsWrittenExample()
    ensures OrganizeChaptersByParts([], [Row("I", "I", "What Devotion Is")]) == []
  {
    AsWrittenNoParts([], [Row("I", "I", "What Devotion Is")]);
  }

  lemma {:induction false} PartsFromHas(cs: seq<Chapter>, rows: seq<Row>, bare: bool, titles: seq<string>, k0: nat, k: nat)
    requires |titles| == Parts && k0 <= k < Parts
    requires LookupKey(bare, k) in FixFinal.PartOrder(rows)
    ensures Part(Some(titles[k]), None, PartChapters(cs, FixFinal.RowsOf(rows, LookupKey(bare, k))))
            in PartsFrom(cs, rows, bare, titles, k0)
    decreases k - k0
  {
    if k0 < k {
      PartsFromHas(cs, rows, bare, titles, k0 + 1, k);
    }
  }

  /** A key of the table is a key of the `parts` dictionary. */
  lemma PartOrderHas(rows: seq<Row>, i: nat)
    requires i < |rows|
    ensures rows[i].part in FixFinal.PartOrder(rows)
  {
    var f := KeepFirst.FirstOccurrences(rows, FixFinal.PartOf);
    KeepFirst.FirstOccurrencesKeys(rows, FixFinal.PartOf);
    assert FixFinal.PartOf(rows[i]) in KeepFirst.Keys(rows, FixFinal.PartOf);
    var k :| 0 <= k < |f| && FixFinal.PartOf(f[k]) == rows[i].part;
    assert FixFinal.PartOrder(rows)[k] == rows[i].part;
  }

  /** Corrected, every row naming one of the five parts gets that part
      written, and its chapter written into it when the lookup hits. */
  lemma CorrectedPlacesRow(ps: seq<Part>, rows: seq<Row>, i: nat)
    requires i < |rows| && KeyIndex(rows[i].part).Some?
    ensures var k := KeyIndex(rows[i].part).value;
            var part := Part(Some(PartTitles[k]), None, PartChapters(AllChapters(ps), FixFinal.RowsOf(rows, rows[i].part)));
            && part in OrganizeCorrected(ps, rows)
            && (FindRow(AllChapters(ps), rows[i]).Some? ==>
                  RowChapter(rows[i], FindRow(AllChapters(ps), rows[i]).value) in part.chapters)
  {
    var k := KeyIndex(rows[i].part).value;
    var cs := AllChapters(ps);
    PartOrderHas(rows, i);
    PartsFromHas(cs, rows, true, PartTitles, 0, k);
    if FindRow(cs, rows[i]).Some? {
      var group := FixFinal.RowsOf(rows, rows[i].part);
      FixFinal.RowsOfHas(rows, rows[i].part, rows[i]);
      var j :| 0 <= j < |group| && group[j] == rows[i];
      PartChaptersHas(cs, group, j);
    }
  }

  // ---------------------------------------------------------------------
  // create_new_json_structure
  // ---------------------------------------------------------------------

  /** The sections written before the parts: title page, prayer when
      found, preface. */
  function FrontSections(first: seq<Item>): seq<Part> {
    SpecialParts(ExtractSpecialSections(first))
  }

  /** The part written for row `i` once its key is looked up correctly. */
  function RowPart(ps: seq<Part>, rows: seq<Row>, i: nat): Part
    requires i < |rows| && KeyIndex(rows[i].part).Some?
  {
    Part(Some(PartTitles[KeyIndex(rows[i].part).value]), None,
         PartChapters(AllChapters(ps), FixFinal.RowsOf(rows, rows[i].part)))
  }

  /** `create_new_json_structure()` with the corrected part lookup; `None`
      where the script stops with an error (no first chapter).  The book
      opens with the special sections of the first chapter, and every row
      naming one of the five parts has its part written after them, with
      the row's chapter in it when the lookup hits. */
  function Run(ps: seq<Part>, rows: seq<Row>): (r: Option<seq<Part>>)
    ensures r.Some? <==> FrontMatter.FirstChapterContent(ps).Some?
    ensures r.Some? ==> var s := FrontSections(FrontMatter.FirstChapterContent(ps).value);
                        |s| >= 2 && |r.value| >= |s| && r.value[..|s|] == s
    ensures r.Some? ==> forall i :: 0 <= i < |rows| && KeyIndex(rows[i].part).Some? ==>
              && RowPart(ps, rows, i) in r.value[|FrontSections(FrontMatter.FirstChapterContent(ps).value)|..]
              && (FindRow(AllChapters(ps), rows[i]).Some? ==>
                    RowChapter(rows[i], FindRow(AllChapters(ps), rows[i]).value) in RowPart(ps, rows, i).chapters)
  {
    match FrontMatter.FirstChapterContent(ps)
    case None => None
    case Some(first) =>
      var s := FrontSections(first);
      var body := OrganizeCorrected(ps, rows);
      assert (s + body)[..|s|] == s && (s + body)[|s|..] == body;
      forall i | 0 <= i < |rows| && KeyIndex(rows[i].part).Some?
        ensures RowPart(ps, rows, i) in body
        ensures FindRow(AllChapters(ps), rows[i]).Some? ==>
                  RowChapter(rows[i], FindRow(AllChapters(ps), rows[i]).value) in RowPart(ps, rows, i).chapters
      {
        CorrectedPlacesRow(ps, rows, i);
      }
      Some(s + body)
  }

  /** `create_new_json_structure()` as written, parts looked up under
      `Part I` to `Part V`: the special sections come first, and with a
      table keyed `I` to `V` they are all that is written. */
  function RunAsWritten(ps: seq<Part>, rows: seq<Row>): (r: Option<seq<Part>>)
    ensures r.Some? <==> FrontMatter.FirstChapterContent(ps).Some?
    ensures r.Some? ==> var s := FrontSections(FrontMatter.FirstChapterContent(ps).value);
                        |r.value| >= |s| && r.value[..|s|] == s
    ensures r.Some? && BareKeys(rows) ==> r.value == FrontSections(FrontMatter.FirstChapterContent(ps).value)
  {
    match FrontMatter.FirstChapterContent(ps)
    case None => None
    case Some(first) =>
      var s := FrontSections(first);
      var body := OrganizeChaptersByParts(ps, rows);
      assert (s + body)[..|s|] == s;
      if BareKeys(rows) then AsWrittenNoParts(ps, rows); Some(s + body)
      else Some(s + body)
  }

  /** As written, with a table keyed `I` to `V`, the script writes the
      special sections and nothing else. */
  lemma AsWrittenOnlySpecials(ps: seq<Part>, rows: seq<Row>)
    requires FrontMatter.FirstChapterContent(ps).Some? && BareKeys(rows)
    ensures var s := SpecialParts(ExtractSpecialSections(FrontMatter.FirstChapterContent(ps).value));
            s + OrganizeChaptersByParts(ps, rows) == s
  {
    AsWrittenNoParts(ps, rows);
  }
}
