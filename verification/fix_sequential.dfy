/** fix_json_sequential.py: one chapter per chapter number, the first in
    reading order, sorted by number, then paired one by one with the rows
    of the table of contents in file order. */
module FixSequential {
  import opened Wrappers
  import opened Book
  import KeepFirst
  import Roman
  import FrontMatter
  import opened Assembly

  // ---------------------------------------------------------------------
  // deduplicate_chapters
  // ---------------------------------------------------------------------

  /** The number a chapter is collected under: `None` for a `Content`
      divider and for a title without a chapter numeral. */
  function Number(c: Chapter): (r: Option<nat>)
    ensures r.Some? <==> c.Title() != "Content" && Roman.ExtractChapterNumber(c.Title()).Some?
    ensures r.Some? ==> r == Roman.ExtractChapterNumber(c.Title())
  {
    if c.Title() == "Content" then None else Roman.ExtractChapterNumber(c.Title())
  }

  /** `(chapter_num, chapter)` */
  datatype Numbered = Numbered(number: nat, chapter: Chapter)

  function NumberOf(x: Numbered): nat { x.number }

  /** The sort key `lambda x: x[0]`, as a pair for the shared sort. */
  function ByNumber(x: Numbered): (int, int) { (x.number, 0) }

  /** The numbered chapters of `cs`, in order. */
  function Collect(cs: seq<Chapter>): (r: seq<Numbered>)
    ensures forall k :: 0 <= k < |r| ==> Number(r[k].chapter) == Some(r[k].number) && r[k].chapter in cs
    decreases |cs|
  {
    if |cs| == 0 then []
    else
      var rest := Collect(cs[1..]);
      assert forall k :: 0 <= k < |rest| ==> rest[k].chapter in cs;
      if Number(cs[0]).None? then rest else [Numbered(Number(cs[0]).value, cs[0])] + rest
  }

  /** The first record of each number, in order (the `seen_chapters`
      loop). */
  function FirstByNumber(cs: seq<Numbered>): (f: seq<Numbered>)
    ensures KeepFirst.DistinctKeys(f, NumberOf)
    ensures KeepFirst.Keys(f, NumberOf) == KeepFirst.Keys(cs, NumberOf)
    ensures forall k :: 0 <= k < |f| ==> f[k] in cs
    ensures f == KeepFirst.FirstOccurrences(cs, NumberOf)
  {
    var f := KeepFirst.FirstOccurrences(cs, NumberOf);
    KeepFirst.FirstOccurrencesKeys(cs, NumberOf);
    KeepFirst.FirstOccurrencesSubseq(cs, NumberOf);
    KeepFirst.SubseqMembers(f, cs);
    f
  }

  /** `unique_chapters.sort(key=lambda x: x[0])` on records with distinct
      numbers: strictly ascending. */
  function SortByNumber(f: seq<Numbered>): (r: seq<Numbered>)
    requires KeepFirst.DistinctKeys(f, NumberOf)
    ensures forall i, j :: 0 <= i < j < |r| ==> r[i].number < r[j].number
    ensures multiset(r) == multiset(f)
    ensures KeepFirst.Keys(r, NumberOf) == KeepFirst.Keys(f, NumberOf)
  {
    var r := KeepFirst.Sort(f, ByNumber);
    KeepFirst.SortSorted(f, ByNumber);
    KeepFirst.PermutationDistinctKeys(r, f, NumberOf);
    KeepFirst.KeysOfPermutation(r, f, NumberOf);
    r
  }

  /** The first record of each number, sorted by number. */
  function UniqueSorted(cs: seq<Numbered>): (r: seq<Numbered>)
    ensures forall i, j :: 0 <= i < j < |r| ==> r[i].number < r[j].number
    ensures forall k :: 0 <= k < |r| ==> r[k] in cs
    ensures KeepFirst.Keys(r, NumberOf) == KeepFirst.Keys(cs, NumberOf)
    ensures multiset(r) == multiset(FirstByNumber(cs))
  {
    var f := FirstByNumber(cs);
    var r := SortByNumber(f);
    forall k | 0 <= k < |r| ensures r[k] in cs {
      assert r[k] in multiset(f);
    }
    r
  }

  /** `deduplicate_chapters(current_data)`: the first chapter of each
      number, in ascending order of number. */
  function DeduplicateChapters(ps: seq<Part>): (r: seq<Numbered>)
    ensures forall i, j :: 0 <= i < j < |r| ==> r[i].number < r[j].number
    ensures KeepFirst.Keys(r, NumberOf) == KeepFirst.Keys(Collect(AllChapters(ps)), NumberOf)
  {
    UniqueSorted(Collect(AllChapters(ps)))
  }

  /** Every kept record is a numbered chapter of the book, under its own
      number. */
  lemma DeduplicateFrom(ps: seq<Part>, k: nat)
    requires k < |DeduplicateChapters(ps)|
    ensures var x := DeduplicateChapters(ps)[k];
            Number(x.chapter) == Some(x.number) && x.chapter in AllChapters(ps)
  {
    var x := DeduplicateChapters(ps)[k];
    assert x in Collect(AllChapters(ps));
  }

  /** The first position in `cs` holding number `n`. */
  function FirstWith(cs: seq<Numbered>, n: nat): (i: nat)
    requires n in KeepFirst.Keys(cs, NumberOf)
    ensures i < |cs| && cs[i].number == n
    ensures forall j :: 0 <= j < i ==> cs[j].number != n
    decreases |cs|
  {
    if cs[0].number == n then 0
    else
      assert n in KeepFirst.Keys(cs[1..], NumberOf) by {
        var k :| 0 <= k < |cs| && NumberOf(cs[k]) == n;
        assert cs[1..][k - 1] == cs[k];
      }
      1 + FirstWith(cs[1..], n)
  }

  /** A record whose number has not occurred before is kept. */
  lemma FirstKept(cs: seq<Numbered>, i: nat)
    requires i < |cs| && forall j :: 0 <= j < i ==> cs[j].number != cs[i].number
    ensures cs[i] in FirstByNumber(cs)
  {
    assert NumberOf(cs[i]) !in KeepFirst.Keys(cs[..i], NumberOf) by {
      forall j | 0 <= j < i ensures NumberOf(cs[..i][j]) != cs[i].number {
        assert cs[..i][j] == cs[j];
      }
    }
    KeepFirst.FirstOccurrencesKeepFirst(cs, NumberOf, i);
  }

  lemma UniqueSortedKeepsFirst(cs: seq<Numbered>, k: nat)
    requires k < |UniqueSorted(cs)|
    ensures var x := UniqueSorted(cs)[k];
            x.number in KeepFirst.Keys(cs, NumberOf) && x == cs[FirstWith(cs, x.number)]
  {
    var r := UniqueSorted(cs);
    assert NumberOf(r[k]) in KeepFirst.Keys(r, NumberOf);
    var i := FirstWith(cs, r[k].number);
    FirstKept(cs, i);
    var k' := IndexIn(r, FirstByNumber(cs), cs[i]);
    AscendingUnique(r, k, k');
  }

  /** A position of `x` in a permutation of a sequence holding it. */
  lemma IndexIn(r: seq<Numbered>, f: seq<Numbered>, x: Numbered) returns (k: nat)
    requires multiset(r) == multiset(f) && x in f
    ensures k < |r| && r[k] == x
  {
    assert x in multiset(f);
    assert x in multiset(r);
    k :| 0 <= k < |r| && r[k] == x;
  }

  /** In a strictly ascending sequence a number occurs once. */
  lemma AscendingUnique(r: seq<Numbered>, a: nat, b: nat)
    requires forall i, j :: 0 <= i < j < |r| ==> r[i].number < r[j].number
    requires a < |r| && b < |r| && r[a].number == r[b].number
    ensures a == b
  {
  }

  /** Each kept chapter is the first of its number in reading order (so
      the first of every number is the one kept). */
  lemma DeduplicateKeepsFirst(ps: seq<Part>, k: nat)
    requires k < |DeduplicateChapters(ps)|
    ensures var cs := Collect(AllChapters(ps));
            var x := DeduplicateChapters(ps)[k];
            x.number in KeepFirst.Keys(cs, NumberOf) && x == cs[FirstWith(cs, x.number)]
  {
    UniqueSortedKeepsFirst(Collect(AllChapters(ps)), k);
  }

  /** Every chapter with a number is represented by some kept chapter of
      that number. */
  lemma DeduplicateCovers(ps: seq<Part>, c: Chapter)
    requires c in AllChapters(ps) && Number(c).Some?
    ensures exists k :: 0 <= k < |DeduplicateChapters(ps)| && DeduplicateChapters(ps)[k].number == Number(c).value
  {
    var cs := Collect(AllChapters(ps));
    CollectHas(AllChapters(ps), c);
    var i :| 0 <= i < |cs| && cs[i] == Numbered(Number(c).value, c);
    assert NumberOf(cs[i]) in KeepFirst.Keys(cs, NumberOf);
    var r := DeduplicateChapters(ps);
    var k :| 0 <= k < |r| && NumberOf(r[k]) == Number(c).value;
  }

  lemma {:induction false} CollectHas(cs: seq<Chapter>, c: Chapter)
    requires c in cs && Number(c).Some?
    ensures Numbered(Number(c).value, c) in Collect(cs)
    decreases |cs|
  {
    if cs[0] != c {
      CollectHas(cs[1..], c);
    }
  }

  // ---------------------------------------------------------------------
  // map_chapters_sequentially and the pipeline
  // ---------------------------------------------------------------------

  function Contents(xs: seq<Numbered>): (r: seq<seq<Item>>)
    ensures |r| == |xs| && forall i :: 0 <= i < |xs| ==> r[i] == xs[i].chapter.content
  {
    seq(|xs|, i requires 0 <= i < |xs| => xs[i].chapter.content)
  }

  /** `map_chapters_sequentially(unique_chapters, sequential_chapters)`:
      the i-th chapter's content under the i-th row's title, in the i-th
      row's part; the chapters past the last row are the extras. */
  function MapChaptersSequentially(unique: seq<Numbered>, rows: seq<Row>): (r: seq<Placed>)
    requires RowsKnown(rows, |unique|)
    ensures |r| == Min(|unique|, |rows|) && KnownParts(r)
    ensures forall i :: 0 <= i < |r| ==>
              && PartKeys[r[i].part] == rows[i].part
              && r[i].chapter == Chapter(Some(ChapterTitle(rows[i])), unique[i].chapter.content)
  {
    Positional(rows, Contents(unique))
  }

  /** `main`; `None` where the script stops with an error (no first
      chapter, or a row naming an unknown part). */
  function Run(ps: seq<Part>, rows: seq<Row>): (r: Option<seq<Part>>)
    ensures r.Some? <==>
              FrontMatter.FirstChapterContent(ps).Some? && RowsKnown(rows, |DeduplicateChapters(ps)|)
  {
    match FrontMatter.FirstChapterContent(ps)
    case None => None
    case Some(first) =>
      var unique := DeduplicateChapters(ps);
      if RowsKnown(rows, |unique|) then
        Some(Assemble(FrontMatter.SpecialSections(first), MapChaptersSequentially(unique, rows)))
      else None
  }

  /** A successful run writes the special sections and then one chapter
      per row, up to the number of distinct chapter numbers. */
  lemma RunChapters(ps: seq<Part>, rows: seq<Row>)
    requires Run(ps, rows).Some?
    ensures var unique := DeduplicateChapters(ps);
            var placed := MapChaptersSequentially(unique, rows);
            var s := FrontMatter.SpecialSections(FrontMatter.FirstChapterContent(ps).value);
            && |placed| == Min(|unique|, |rows|)
            && multiset(AllChapters(Run(ps, rows).value))
               == multiset(AllChapters(SpecialParts(s))) + multiset(Chapters(placed))
  {
    AssembleChapters(FrontMatter.SpecialSections(FrontMatter.FirstChapterContent(ps).value),
                     MapChaptersSequentially(DeduplicateChapters(ps), rows));
  }
}
