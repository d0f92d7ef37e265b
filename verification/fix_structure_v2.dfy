/** fix_json_structure_v2.py: every chapter that is not a `Content`
    divider is looked up by number in the table of contents, under part
    keys written `Part I` to `Part V`, and retitled from the table's title
    split at its first full stop.  Duplicates are not removed. */
module FixStructureV2 {
  import opened Wrappers
  import opened Text
  import opened Book
  import Roman
  import FrontMatter
  import opened Assembly
  import FixFinal

  // ---------------------------------------------------------------------
  // collect_all_chapters
  // ---------------------------------------------------------------------

  /** `collect_all_chapters(current_data)` */
  function CollectAll(ps: seq<Part>): (r: seq<Chapter>)
    ensures forall k :: 0 <= k < |r| ==> r[k].Title() != "Content"
  {
    FixFinal.NonContent(AllChapters(ps))
  }

  /** Each chapter that is not a divider is collected as often as the book
      holds it, so duplicates stay. */
  lemma CollectAllCounts(ps: seq<Part>, c: Chapter)
    requires c.Title() != "Content"
    ensures multiset(CollectAll(ps))[c] == multiset(AllChapters(ps))[c]
  {
    FixFinal.NonContentCounts(AllChapters(ps), c);
  }

  // ---------------------------------------------------------------------
  // The chapter map of map_chapters_to_parts
  // ---------------------------------------------------------------------

  /** `{'part': f'Part {part_key}', 'title': ...}` */
  function Prefixed(row: Row): Row {
    row.(part := "Part " + row.part)
  }

  /** `chapter_to_part`: the chapter map of the grouped table, with each
      entry's part key prefixed. */
  function ChapterToPart(rows: seq<Row>): (m: map<nat, Row>)
    ensures m.Keys == FixFinal.ChapterMap(FixFinal.LoadCsvStructure(rows)).Keys
  {
    var m := FixFinal.ChapterMap(FixFinal.LoadCsvStructure(rows));
    map n | n in m :: Prefixed(m[n])
  }

  /** The entry for a number comes from the last row of the grouped table
      converting to it, with the key prefixed. */
  lemma ChapterToPartLastWins(rows: seq<Row>, n: nat, i: nat)
    requires var g := FixFinal.LoadCsvStructure(rows);
             && i < |g| && FixFinal.RowNumber(g[i]) == Some(n)
             && forall j :: i < j < |g| ==> FixFinal.RowNumber(g[j]) != Some(n)
    ensures n in ChapterToPart(rows)
    ensures ChapterToPart(rows)[n] == Prefixed(FixFinal.LoadCsvStructure(rows)[i])
    ensures ChapterToPart(rows)[n].part == "Part " + FixFinal.LoadCsvStructure(rows)[i].part
  {
    FixFinal.ChapterMapLastWins(FixFinal.LoadCsvStructure(rows), FixFinal.RowNumber, n, i);
  }

  /** The position of a key of `organized_parts` among the five. */
  function PartSlot(key: string): (r: Option<nat>)
    ensures r.Some? ==> r.value < Parts
  {
    if key == "Part I" then Some(0)
    else if key == "Part II" then Some(1)
    else if key == "Part III" then Some(2)
    else if key == "Part IV" then Some(3)
    else if key == "Part V" then Some(4)
    else None
  }

  /** A prefixed key finds the part its bare key names, and nothing else. */
  lemma PartSlotPrefixed(key: string)
    ensures PartSlot("Part " + key) == KeyIndex(key)
  {
    var p := "Part " + key;
    assert p[5..] == key;
    if PartSlot(p).Some? {
      assert key == PartKeys[PartSlot(p).value];
    }
  }

  // ---------------------------------------------------------------------
  // The new chapter title
  // ---------------------------------------------------------------------

  /** Position of the first full stop. */
  function DotIndex(t: string): (r: Option<nat>)
    ensures r.None? <==> '.' !in t
    ensures r.Some? ==> r.value < |t| && t[r.value] == '.' && '.' !in t[..r.value]
    decreases |t|
  {
    if |t| == 0 then None
    else if t[0] == '.' then Some(0)
    else
      match DotIndex(t[1..])
      case None => None
      case Some(i) =>
        assert t[..i + 1] == [t[0]] + t[1..][..i];
        Some(i + 1)
  }

  /** The title written at line 168: the text before the first full stop,
      then what follows it, stripped; a title without a full stop is
      written twice. */
  function NewTitle(t: string): string {
    match DotIndex(t)
    case None => "CHAPTER " + t + ". " + t
    case Some(i) => "CHAPTER " + t[..i] + ". " + Strip(t[i + 1..])
  }

  /** A table title without a full stop comes out doubled. */
  lemma NewTitleWithoutDot(t: string)
    requires '.' !in t
    ensures NewTitle(t) == "CHAPTER " + t + ". " + t
  {
  }

  lemma StripAfterSpace(rest: string)
    requires |rest| > 0 ==> !IsSpace(rest[0]) && !IsSpace(rest[|rest| - 1])
    ensures Strip(" " + rest) == rest
  {
    assert (" " + rest)[1..] == rest;
    StripFixed(rest);
  }

  /** The first full stop is the one with none before it. */
  lemma DotIndexAt(t: string, i: nat)
    requires i < |t| && t[i] == '.' && '.' !in t[..i]
    ensures DotIndex(t) == Some(i)
  {
    var j := DotIndex(t).value;
    forall k | 0 <= k < i ensures t[k] != '.' {
      assert t[..i][k] == t[k];
    }
    forall k | 0 <= k < j ensures t[k] != '.' {
      assert t[..j][k] == t[k];
    }
  }

  lemma NoDotInNumeral(r: string)
    requires Roman.AllNumerals(r)
    ensures '.' !in r
  {
    forall k | 0 <= k < |r| ensures r[k] != '.' {
      assert Roman.IsNumeral(r[k]);
    }
  }

  /** The split of `<r>. <rest>` at its first full stop. */
  lemma NewTitleSplit(r: string, rest: string)
    requires '.' !in r
    requires |rest| > 0 ==> !IsSpace(rest[0]) && !IsSpace(rest[|rest| - 1])
    ensures NewTitle(r + ". " + rest) == "CHAPTER " + r + ". " + rest
  {
    var t := r + ". " + rest;
    assert t[..|r|] == r && t[|r|] == '.';
    DotIndexAt(t, |r|);
    assert t[|r| + 1..] == " " + rest;
    StripAfterSpace(rest);
  }

  /** A table title of the form `<numeral>. <title>` gives the usual
      `CHAPTER <numeral>. <title>`, and the chapter number reads back. */
  lemma NewTitleNumbered(n: nat, rest: string)
    requires n >= 1
    requires |rest| > 0 ==> !IsSpace(rest[0]) && !IsSpace(rest[|rest| - 1])
    ensures NewTitle(Roman.IntToRoman(n) + ". " + rest) == "CHAPTER " + Roman.IntToRoman(n) + ". " + rest
    ensures Roman.ExtractChapterNumber(NewTitle(Roman.IntToRoman(n) + ". " + rest)) == Some(n)
  {
    NoDotInNumeral(Roman.IntToRoman(n));
    NewTitleSplit(Roman.IntToRoman(n), rest);
    Roman.ChapterTitleNumber(n, rest);
  }

  // ---------------------------------------------------------------------
  // map_chapters_to_parts and the pipeline
  // ---------------------------------------------------------------------

  function Retitle(n: nat, t: string): string { NewTitle(t) }

  /** Parts keyed `Part I` to `Part V`, titles split at the full stop. */
  function Split(): (f: FixFinal.Filing)
    ensures FixFinal.Bounded(f)
  {
    FixFinal.Filing(PartSlot, Retitle)
  }

  /** `map_chapters_to_parts(all_chapters, parts_structure)` */
  function MapChaptersToParts(all: seq<Chapter>, m: map<nat, Row>): (r: seq<Placed>)
    requires FixFinal.MatchedKnown(all, m, Split())
    ensures KnownParts(r)
  {
    FixFinal.Organize(all, m, Split())
  }

  /** A matched chapter goes to the part its row names, under the split
      title, with its content. */
  lemma PlacedInRowPart(c: Chapter, rows: seq<Row>)
    requires var m := ChapterToPart(rows);
             FixFinal.MatchOf(c, m).Some? && PartSlot(m[FixFinal.MatchOf(c, m).value].part).Some?
    ensures var m := ChapterToPart(rows);
            var n := FixFinal.MatchOf(c, m).value;
            var g := FixFinal.ChapterMap(FixFinal.LoadCsvStructure(rows))[n];
            var p := FixFinal.Place(c, m, Split());
            && Some(p.part) == KeyIndex(g.part)
            && p.chapter == Chapter(Some(NewTitle(g.title)), c.content)
  {
    var m := ChapterToPart(rows);
    var n := FixFinal.MatchOf(c, m).value;
    var g := FixFinal.ChapterMap(FixFinal.LoadCsvStructure(rows))[n];
    PartSlotPrefixed(g.part);
  }

  /** `create_new_json_structure()`, as `main` runs it; `None` where it
      stops with an error (no first chapter, or a matched row naming an
      unknown part). */
  function Run(ps: seq<Part>, rows: seq<Row>): (r: Option<seq<Part>>)
    ensures r.Some? <==>
              FrontMatter.FirstChapterContent(ps).Some?
              && FixFinal.MatchedKnown(CollectAll(ps), ChapterToPart(rows), Split())
  {
    match FrontMatter.FirstChapterContent(ps)
    case None => None
    case Some(first) =>
      var all := CollectAll(ps);
      var m := ChapterToPart(rows);
      if FixFinal.MatchedKnown(all, m, Split()) then
        Some(Assemble(FrontMatter.SpecialSections(first), MapChaptersToParts(all, m)))
      else None
  }

  /** A successful run writes the special sections and then every matched
      chapter, duplicates included. */
  lemma RunChapters(ps: seq<Part>, rows: seq<Row>)
    requires Run(ps, rows).Some?
    ensures var placed := MapChaptersToParts(CollectAll(ps), ChapterToPart(rows));
            var s := FrontMatter.SpecialSections(FrontMatter.FirstChapterContent(ps).value);
            && |placed| == FixFinal.CountMatched(CollectAll(ps), ChapterToPart(rows))
            && multiset(AllChapters(Run(ps, rows).value))
               == multiset(AllChapters(SpecialParts(s))) + multiset(Chapters(placed))
  {
    var s := FrontMatter.SpecialSections(FrontMatter.FirstChapterContent(ps).value);
    var placed := MapChaptersToParts(CollectAll(ps), ChapterToPart(rows));
    assert Run(ps, rows).value == Assemble(s, placed);
    AssembleChapters(s, placed);
    FixFinal.OrganizeCount(CollectAll(ps), ChapterToPart(rows), Split());
  }
}
