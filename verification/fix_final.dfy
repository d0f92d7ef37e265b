/** fix_json_final.py: chapters are deduplicated on their title and the
    opening of their first paragraph, looked up by number in the table of
    contents, retitled with the canonical numeral and the table's title,
    and placed in the part the table gives. */
module FixFinal {
  import opened Wrappers
  import opened Text
  import opened Book
  import KeepFirst
  import Roman
  import FrontMatter
  import opened Assembly

  // ---------------------------------------------------------------------
  // load_csv_structure
  // ---------------------------------------------------------------------

  function PartOf(row: Row): string { row.part }

  /** The rows of one part, in file order. */
  function RowsOf(rows: seq<Row>, key: string): (r: seq<Row>)
    ensures forall k :: 0 <= k < |r| ==> r[k].part == key
    ensures KeepFirst.IsSubseq(r, rows)
    decreases |rows|
  {
    if |rows| == 0 then []
    else if rows[0].part == key then [rows[0]] + RowsOf(rows[1..], key)
    else RowsOf(rows[1..], key)
  }

  /** The keys of the `parts` dictionary, in insertion order: each part
      key where it first occurs. */
  function PartOrder(rows: seq<Row>): (r: seq<string>)
    ensures |r| == |KeepFirst.FirstOccurrences(rows, PartOf)|
    ensures forall k :: 0 <= k < |r| ==> r[k] == KeepFirst.FirstOccurrences(rows, PartOf)[k].part
  {
    var f := KeepFirst.FirstOccurrences(rows, PartOf);
    seq(|f|, k requires 0 <= k < |f| => f[k].part)
  }

  /** The groups of `keys`, one after the other. */
  function Groups(keys: seq<string>, rows: seq<Row>): seq<Row>
    decreases |keys|
  {
    if |keys| == 0 then [] else RowsOf(rows, keys[0]) + Groups(keys[1..], rows)
  }

  /** `load_csv_structure()` flattened in the order `organize_by_csv_structure`
      walks it: part by part in insertion order, each part's rows in file
      order. */
  function LoadCsvStructure(rows: seq<Row>): seq<Row> {
    Groups(PartOrder(rows), rows)
  }

  lemma {:induction false} RowsOfHas(rows: seq<Row>, key: string, x: Row)
    requires x in rows && x.part == key
    ensures x in RowsOf(rows, key)
    decreases |rows|
  {
    if rows[0] != x {
      RowsOfHas(rows[1..], key, x);
    }
  }

  lemma {:induction false} GroupsHas(keys: seq<string>, rows: seq<Row>, x: Row)
    requires x in rows && x.part in keys
    ensures x in Groups(keys, rows)
    decreases |keys|
  {
    if keys[0] == x.part {
      RowsOfHas(rows, x.part, x);
    } else {
      GroupsHas(keys[1..], rows, x);
    }
  }

  lemma {:induction false} GroupsFrom(keys: seq<string>, rows: seq<Row>, x: Row)
    requires x in Groups(keys, rows)
    ensures x in rows
    decreases |keys|
  {
    if x in RowsOf(rows, keys[0]) {
      KeepFirst.SubseqMembers(RowsOf(rows, keys[0]), rows);
    } else {
      GroupsFrom(keys[1..], rows, x);
    }
  }

  /** Grouping by part loses no row and invents none. */
  lemma LoadCsvStructureRows(rows: seq<Row>, x: Row)
    ensures x in LoadCsvStructure(rows) <==> x in rows
  {
    if x in rows {
      var i :| 0 <= i < |rows| && rows[i] == x;
      var f := KeepFirst.FirstOccurrences(rows, PartOf);
      KeepFirst.FirstOccurrencesKeys(rows, PartOf);
      assert x.part in KeepFirst.Keys(rows, PartOf) by {
        assert PartOf(rows[i]) == x.part;
      }
      var k :| 0 <= k < |f| && PartOf(f[k]) == x.part;
      assert PartOrder(rows)[k] == x.part;
      GroupsHas(PartOrder(rows), rows, x);
    }
    if x in LoadCsvStructure(rows) {
      GroupsFrom(PartOrder(rows), rows, x);
    }
  }

  // ---------------------------------------------------------------------
  // The chapter map of organize_by_csv_structure
  // ---------------------------------------------------------------------

  /** The number a row's `chapter` field converts to; `None` where the
      conversion raises and the row is skipped. */
  function RowNumber(row: Row): Option<nat> {
    Roman.RomanToInt(row.chapter)
  }

  /** `chapter_map`, built row by row: a later row with the same number
      overwrites the earlier one. */
  function ChapterMap(rows: seq<Row>): (m: map<nat, Row>)
    ensures forall n :: n in m ==> RowNumber(m[n]) == Some(n) && m[n] in rows
  {
    NumberMap(rows, RowNumber)
  }

  /** The map built with any numbering of the rows. */
  function NumberMap(rows: seq<Row>, num: Row -> Option<nat>): (m: map<nat, Row>)
    ensures forall n :: n in m ==> num(m[n]) == Some(n) && m[n] in rows
    decreases |rows|
  {
    if |rows| == 0 then map[]
    else
      var init := rows[..|rows| - 1];
      var last := rows[|rows| - 1];
      var m := NumberMap(init, num);
      assert forall n :: n in m ==> m[n] in rows by {
        assert forall x :: x in init ==> x in rows;
      }
      if num(last).None? then m else m[num(last).value := last]
  }

  /** The map holds a number exactly when some row converts to it. */
  lemma {:induction false} ChapterMapDomain(rows: seq<Row>, num: Row -> Option<nat>, n: nat)
    ensures n in NumberMap(rows, num) <==> exists i :: 0 <= i < |rows| && num(rows[i]) == Some(n)
    decreases |rows|
  {
    if |rows| > 0 {
      var init := rows[..|rows| - 1];
      ChapterMapDomain(init, num, n);
      if num(rows[|rows| - 1]) != Some(n) {
        if exists i :: 0 <= i < |rows| && num(rows[i]) == Some(n) {
          var i :| 0 <= i < |rows| && num(rows[i]) == Some(n);
          assert init[i] == rows[i];
        }
        if exists i :: 0 <= i < |init| && num(init[i]) == Some(n) {
          var i :| 0 <= i < |init| && num(init[i]) == Some(n);
          assert init[i] == rows[i];
        }
      }
    }
  }

  /** The last row converting to a number is the one the map holds. */
  lemma {:induction false} ChapterMapLastWins(rows: seq<Row>, num: Row -> Option<nat>, n: nat, i: nat)
    requires i < |rows| && num(rows[i]) == Some(n)
    requires forall j :: i < j < |rows| ==> num(rows[j]) != Some(n)
    ensures n in NumberMap(rows, num) && NumberMap(rows, num)[n] == rows[i]
    decreases |rows|
  {
    if i < |rows| - 1 {
      var init := rows[..|rows| - 1];
      assert init[i] == rows[i];
      assert forall j :: i < j < |init| ==> init[j] == rows[j];
      ChapterMapLastWins(init, num, n, i);
    }
  }

  // ---------------------------------------------------------------------
  // deduplicate_chapters
  // ---------------------------------------------------------------------

  /** The chapters that are not `Content` dividers, in order. */
  function NonContent(cs: seq<Chapter>): (r: seq<Chapter>)
    ensures forall k :: 0 <= k < |r| ==> r[k].Title() != "Content"
    ensures KeepFirst.IsSubseq(r, cs)
    decreases |cs|
  {
    if |cs| == 0 then []
    else if cs[0].Title() == "Content" then NonContent(cs[1..])
    else [cs[0]] + NonContent(cs[1..])
  }

  lemma {:induction false} NonContentHas(cs: seq<Chapter>, c: Chapter)
    requires c in cs && c.Title() != "Content"
    ensures c in NonContent(cs)
    decreases |cs|
  {
    if cs[0] != c {
      NonContentHas(cs[1..], c);
    }
  }

  /** Every chapter that is not a divider is kept as often as it occurs
      (duplicates included); dividers not at all. */
  lemma {:induction false} NonContentCounts(cs: seq<Chapter>, c: Chapter)
    ensures multiset(NonContent(cs))[c] == if c.Title() == "Content" then 0 else multiset(cs)[c]
    decreases |cs|
  {
    if |cs| > 0 {
      NonContentCounts(cs[1..], c);
      assert cs == [cs[0]] + cs[1..];
      assert multiset(cs) == multiset{cs[0]} + multiset(cs[1..]);
      if cs[0].Title() != "Content" {
        assert multiset(NonContent(cs)) == multiset{cs[0]} + multiset(NonContent(cs[1..]));
      }
    }
  }

  /** The first 100 characters of the first item, `""` for a chapter
      without items. */
  function Preview(content: seq<Item>): (r: string)
    ensures |r| <= 100
  {
    if |content| == 0 then "" else Take(content[0].Content(), 100)
  }

  /** `f"{title}|{content_preview}"` */
  function DedupKey(c: Chapter): string {
    c.Title() + "|" + Preview(c.content)
  }

  /** `deduplicate_chapters(current_data)`: every chapter that is not a
      `Content` divider, in reading order, keeping the first of each key. */
  function DeduplicateChapters(ps: seq<Part>): (r: seq<Chapter>)
    ensures KeepFirst.DistinctKeys(r, DedupKey)
    ensures KeepFirst.IsSubseq(r, AllChapters(ps))
    ensures forall k :: 0 <= k < |r| ==> r[k].Title() != "Content"
    ensures KeepFirst.Keys(r, DedupKey) == KeepFirst.Keys(NonContent(AllChapters(ps)), DedupKey)
  {
    var cs := NonContent(AllChapters(ps));
    var r := KeepFirst.FirstOccurrences(cs, DedupKey);
    KeepFirst.FirstOccurrencesKeys(cs, DedupKey);
    KeepFirst.FirstOccurrencesSubseq(cs, DedupKey);
    KeepFirst.SubseqTrans(r, cs, AllChapters(ps));
    KeepFirst.SubseqMembers(r, cs);
    r
  }

  /** Two chapters with the same title whose first items agree on their
      first 100 characters are duplicates, whatever else they hold. */
  lemma SameKey(a: Chapter, b: Chapter)
    requires a.Title() == b.Title() && |a.content| > 0 && |b.content| > 0
    requires Take(a.content[0].Content(), 100) == Take(b.content[0].Content(), 100)
    ensures DedupKey(a) == DedupKey(b)
  {
  }

  /** Every chapter that is not a divider is represented: it is kept
      unless an earlier chapter has its key. */
  lemma DeduplicateKeepsFirst(ps: seq<Part>, c: Chapter)
    requires c in AllChapters(ps) && c.Title() != "Content"
    ensures exists k :: 0 <= k < |DeduplicateChapters(ps)| && DedupKey(DeduplicateChapters(ps)[k]) == DedupKey(c)
  {
    var cs := NonContent(AllChapters(ps));
    NonContentHas(AllChapters(ps), c);
    var i :| 0 <= i < |cs| && cs[i] == c;
    assert DedupKey(c) in KeepFirst.Keys(cs, DedupKey);
    var r := DeduplicateChapters(ps);
    assert DedupKey(c) in KeepFirst.Keys(r, DedupKey);
  }

  // ---------------------------------------------------------------------
  // organize_by_csv_structure
  // ---------------------------------------------------------------------

  /** The number under which a chapter is found in the map, if any. */
  function MatchOf(c: Chapter, m: map<nat, Row>): (r: Option<nat>)
    ensures r.Some? <==> Roman.ExtractChapterNumber(c.Title()).Some? && Roman.ExtractChapterNumber(c.Title()).value in m
    ensures r.Some? ==> r == Roman.ExtractChapterNumber(c.Title())
  {
    var n := Roman.ExtractChapterNumber(c.Title());
    if n.Some? && n.value in m then n else None
  }

  /** `f"CHAPTER {convert_int_to_roman(chapter_num)}. {csv_title}"` */
  function NumberedTitle(n: nat, title: string): string {
    "CHAPTER " + Roman.IntToRoman(n) + ". " + title
  }

  /** How a script files and retitles a matched chapter: `slot` finds the
      position of the map entry's part key among the five (`None` where
      the dictionary lookup raises), `retitle` writes the new title from
      the chapter number and the entry's title. */
  datatype Filing = Filing(slot: string -> Option<nat>, retitle: (nat, string) -> string)

  /** Every slot is one of the five parts. */
  ghost predicate Bounded(f: Filing) {
    forall key :: f.slot(key).Some? ==> f.slot(key).value < Parts
  }

  /** `organize_by_csv_structure`: parts keyed `I` to `V`, canonical
      numerals. */
  function Canonical(): (f: Filing)
    ensures Bounded(f)
  {
    Filing(KeyIndex, NumberedTitle)
  }

  /** Every matched chapter's entry names one of the five parts (the
      dictionary lookup raises otherwise). */
  predicate MatchedKnown(cs: seq<Chapter>, m: map<nat, Row>, f: Filing) {
    forall i :: 0 <= i < |cs| && MatchOf(cs[i], m).Some? ==> f.slot(m[MatchOf(cs[i], m).value].part).Some?
  }

  /** The chapter appended for a matched one. */
  function Place(c: Chapter, m: map<nat, Row>, f: Filing): Placed
    requires MatchOf(c, m).Some? && f.slot(m[MatchOf(c, m).value].part).Some?
  {
    var n := MatchOf(c, m).value;
    Placed(f.slot(m[n].part).value, Chapter(Some(f.retitle(n, m[n].title)), c.content))
  }

  /** The matched chapters, in order, filed and retitled; the unmatched
      ones are dropped. */
  function Organize(cs: seq<Chapter>, m: map<nat, Row>, f: Filing): (r: seq<Placed>)
    requires MatchedKnown(cs, m, f)
    ensures |r| <= |cs|
    ensures Bounded(f) ==> KnownParts(r)
    decreases |cs|
  {
    if |cs| == 0 then []
    else
      assert MatchedKnown(cs[1..], m, f) by {
        forall i | 0 <= i < |cs[1..]| && MatchOf(cs[1..][i], m).Some?
          ensures f.slot(m[MatchOf(cs[1..][i], m).value].part).Some? {
          assert cs[1..][i] == cs[i + 1];
        }
      }
      if MatchOf(cs[0], m).None? then Organize(cs[1..], m, f)
      else [Place(cs[0], m, f)] + Organize(cs[1..], m, f)
  }

  /** Each output chapter is a matched input chapter, content unchanged. */
  lemma {:induction false} OrganizeFrom(cs: seq<Chapter>, m: map<nat, Row>, f: Filing, k: nat)
    requires MatchedKnown(cs, m, f) && k < |Organize(cs, m, f)|
    ensures exists i :: 0 <= i < |cs| && MatchOf(cs[i], m).Some? && Organize(cs, m, f)[k] == Place(cs[i], m, f)
    decreases |cs|, 1
  {
    if MatchOf(cs[0], m).Some? && k == 0 {
      assert Organize(cs, m, f)[0] == Place(cs[0], m, f);
    } else {
      OrganizeFromLater(cs, m, f, k);
    }
  }

  /** An output chapter past the first chapter's own comes from the tail. */
  lemma {:induction false} OrganizeFromLater(cs: seq<Chapter>, m: map<nat, Row>, f: Filing, k: nat)
    requires MatchedKnown(cs, m, f) && k < |Organize(cs, m, f)|
    requires |cs| > 0 && !(MatchOf(cs[0], m).Some? && k == 0)
    ensures exists i :: 0 <= i < |cs| && MatchOf(cs[i], m).Some? && Organize(cs, m, f)[k] == Place(cs[i], m, f)
    decreases |cs|, 0
  {
    MatchedKnownTail(cs, m, f);
    var rest := Organize(cs[1..], m, f);
    var k' := if MatchOf(cs[0], m).Some? then k - 1 else k;
    assert Organize(cs, m, f)[k] == rest[k'];
    OrganizeFrom(cs[1..], m, f, k');
    var i :| 0 <= i < |cs[1..]| && MatchOf(cs[1..][i], m).Some? && rest[k'] == Place(cs[1..][i], m, f);
    assert cs[1..][i] == cs[i + 1];
  }

  /** Every matched input chapter is placed. */
  lemma {:induction false} OrganizeHas(cs: seq<Chapter>, m: map<nat, Row>, f: Filing, i: nat)
    requires MatchedKnown(cs, m, f) && i < |cs| && MatchOf(cs[i], m).Some?
    ensures Place(cs[i], m, f) in Organize(cs, m, f)
    decreases |cs|
  {
    MatchedKnownTail(cs, m, f);
    if i > 0 {
      assert cs[1..][i - 1] == cs[i];
      OrganizeHas(cs[1..], m, f, i - 1);
      if MatchOf(cs[0], m).Some? {
        assert Organize(cs, m, f) == [Place(cs[0], m, f)] + Organize(cs[1..], m, f);
      }
    } else {
      assert Organize(cs, m, f)[0] == Place(cs[0], m, f);
    }
  }

  /** The matched chapters of the tail have known parts too. */
  lemma MatchedKnownTail(cs: seq<Chapter>, m: map<nat, Row>, f: Filing)
    requires |cs| > 0 && MatchedKnown(cs, m, f)
    ensures MatchedKnown(cs[1..], m, f)
  {
    forall i | 0 <= i < |cs[1..]| && MatchOf(cs[1..][i], m).Some?
      ensures f.slot(m[MatchOf(cs[1..][i], m).value].part).Some? {
      assert cs[1..][i] == cs[i + 1];
    }
  }

  /** As many chapters come out as went in matched: two matched copies of
      a chapter are both placed. */
  function CountMatched(cs: seq<Chapter>, m: map<nat, Row>): nat
    decreases |cs|
  {
    if |cs| == 0 then 0 else (if MatchOf(cs[0], m).Some? then 1 else 0) + CountMatched(cs[1..], m)
  }

  lemma {:induction false} OrganizeCount(cs: seq<Chapter>, m: map<nat, Row>, f: Filing)
    requires MatchedKnown(cs, m, f)
    ensures |Organize(cs, m, f)| == CountMatched(cs, m)
    decreases |cs|
  {
    if |cs| > 0 {
      OrganizeCount(cs[1..], m, f);
    }
  }

  /** The chapter this script writes carries the number it was looked up
      by, in the part the table gives, with its content unchanged. */
  lemma PlacedTitleNumber(c: Chapter, m: map<nat, Row>)
    requires MatchOf(c, m).Some? && KeyIndex(m[MatchOf(c, m).value].part).Some?
    ensures var p := Place(c, m, Canonical());
            && Roman.ExtractChapterNumber(p.chapter.Title()) == Roman.ExtractChapterNumber(c.Title())
            && PartKeys[p.part] == m[MatchOf(c, m).value].part
            && p.chapter.content == c.content
  {
    var n := MatchOf(c, m).value;
    Roman.ChapterTitleNumber(n, m[n].title);
  }

  // ---------------------------------------------------------------------
  // main
  // ---------------------------------------------------------------------

  /** `main`: special sections, deduplication, the chapter map over the
      grouped table, placement and assembly; `None` where the script stops
      with an error (no first chapter, or a matched row naming an unknown
      part). */
  function Run(ps: seq<Part>, rows: seq<Row>): (r: Option<seq<Part>>)
    ensures r.Some? <==>
              FrontMatter.FirstChapterContent(ps).Some?
              && MatchedKnown(DeduplicateChapters(ps), ChapterMap(LoadCsvStructure(rows)), Canonical())
  {
    match FrontMatter.FirstChapterContent(ps)
    case None => None
    case Some(first) =>
      var unique := DeduplicateChapters(ps);
      var m := ChapterMap(LoadCsvStructure(rows));
      if MatchedKnown(unique, m, Canonical()) then Some(Assemble(FrontMatter.SpecialSections(first), Organize(unique, m, Canonical())))
      else None
  }

  /** A successful run writes the special sections and then exactly the
      placed chapters, each once. */
  lemma RunChapters(ps: seq<Part>, rows: seq<Row>)
    requires Run(ps, rows).Some?
    ensures var placed := Organize(DeduplicateChapters(ps), ChapterMap(LoadCsvStructure(rows)), Canonical());
            var s := FrontMatter.SpecialSections(FrontMatter.FirstChapterContent(ps).value);
            multiset(AllChapters(Run(ps, rows).value))
            == multiset(AllChapters(SpecialParts(s))) + multiset(Chapters(placed))
  {
    var s := FrontMatter.SpecialSections(FrontMatter.FirstChapterContent(ps).value);
    var placed := Organize(DeduplicateChapters(ps), ChapterMap(LoadCsvStructure(rows)), Canonical());
    assert Run(ps, rows).value == Assemble(s, placed);
    AssembleChapters(s, placed);
  }
}
