/** Reconciliation of the extracted chapters with the table of contents:
    `collect_all_chapters`, `deduplicate_by_content`,
    `match_content_to_chapters`, `create_organized_structure` and the
    `TITLE PAGE` removal of `main`, as they appear in
    scripts/json_processing/reorganize_final.py (scoring on normalised
    text) and in reorganize_final.py (scoring on raw lowercased text).
    The two files differ only in the scoring, which is a `Scoring`
    argument here. */
module Reorganize {
  import opened Wrappers
  import opened Text
  import opened Book
  import KeepFirst
  import Labels
  import FrontMatter
  import opened Assembly

  /** `{'title', 'content', 'hash'}` as `collect_all_chapters` builds it;
      `H` is the type of the digest. */
  datatype Record<H> = Record(title: string, content: seq<Item>, hash: H)

  function HashOf<H>(r: Record<H>): H { r.hash }

  // ---------------------------------------------------------------------
  // collect_all_chapters
  // ---------------------------------------------------------------------

  /** Every chapter has a `chapter_title` key; the scripts index it
      directly. */
  predicate Titled(cs: seq<Chapter>) {
    forall i :: 0 <= i < |cs| ==> cs[i].title.Some?
  }

  /** A chapter survives collection: not the `Content` placeholder and
      with at least one item. */
  predicate Collected(c: Chapter) {
    c.Title() != "Content" && |c.content| > 0
  }

  /** The record of a chapter; `digest` stands for md5 of the printed
      first two items. */
  function ToRecord<H>(c: Chapter, digest: seq<Item> -> H): Record<H> {
    Record(c.Title(), c.content, digest(Take(c.content, 2)))
  }

  function Collect<H>(cs: seq<Chapter>, digest: seq<Item> -> H): (r: seq<Record<H>>)
    requires Titled(cs)
    ensures |r| <= |cs|
    ensures forall k :: 0 <= k < |r| ==>
              r[k].title != "Content" && |r[k].content| > 0 && r[k].hash == digest(Take(r[k].content, 2))
    decreases |cs|
  {
    if |cs| == 0 then []
    else (if Collected(cs[0]) then [ToRecord(cs[0], digest)] else []) + Collect(cs[1..], digest)
  }

  /** `collect_all_chapters(data)` over every chapter of every part. */
  function CollectAllChapters<H>(ps: seq<Part>, digest: seq<Item> -> H): (r: seq<Record<H>>)
    requires Titled(AllChapters(ps))
    ensures |r| <= |AllChapters(ps)|
    ensures forall k :: 0 <= k < |r| ==> r[k].title != "Content" && |r[k].content| > 0
  {
    Collect(AllChapters(ps), digest)
  }

  /** Collection works chapter by chapter: collecting two runs of
      chapters is collecting each and concatenating, so document order is
      kept. */
  lemma {:induction false} CollectConcat<H>(a: seq<Chapter>, b: seq<Chapter>, digest: seq<Item> -> H)
    requires Titled(a) && Titled(b)
    ensures Titled(a + b)
    ensures Collect(a + b, digest) == Collect(a, digest) + Collect(b, digest)
    decreases |a|
  {
    if |a| == 0 {
      assert a + b == b;
    } else {
      assert (a + b)[1..] == a[1..] + b;
      CollectConcat(a[1..], b, digest);
    }
  }

  /** A chapter is collected exactly when it is not `Content` and not
      empty: every record comes from such a chapter, and every such
      chapter gives a record. */
  lemma {:induction false} CollectMembers<H>(cs: seq<Chapter>, digest: seq<Item> -> H)
    requires Titled(cs)
    ensures forall i :: 0 <= i < |cs| && Collected(cs[i]) ==> ToRecord(cs[i], digest) in Collect(cs, digest)
    ensures forall k :: 0 <= k < |Collect(cs, digest)| ==>
              exists i :: 0 <= i < |cs| && Collected(cs[i]) && Collect(cs, digest)[k] == ToRecord(cs[i], digest)
    decreases |cs|
  {
    CollectComplete(cs, digest);
    if |cs| > 0 {
      CollectMembers(cs[1..], digest);
      var head := if Collected(cs[0]) then [ToRecord(cs[0], digest)] else [];
      var r := Collect(cs, digest);
      var tail := Collect(cs[1..], digest);
      assert r == head + tail;
      forall k | 0 <= k < |r|
        ensures exists i :: 0 <= i < |cs| && Collected(cs[i]) && r[k] == ToRecord(cs[i], digest)
      {
        if k >= |head| {
          assert r[k] == tail[k - |head|];
          var i :| 0 <= i < |cs[1..]| && Collected(cs[1..][i]) && tail[k - |head|] == ToRecord(cs[1..][i], digest);
          assert cs[i + 1] == cs[1..][i];
          assert r[k] == ToRecord(cs[i + 1], digest);
        } else {
          assert r[k] == ToRecord(cs[0], digest);
        }
      }
    } else {
      assert Collect(cs, digest) == [];
    }
  }

  /** Every chapter that is not `Content` and not empty gives a record. */
  lemma {:induction false} CollectComplete<H>(cs: seq<Chapter>, digest: seq<Item> -> H)
    requires Titled(cs)
    ensures forall i :: 0 <= i < |cs| && Collected(cs[i]) ==> ToRecord(cs[i], digest) in Collect(cs, digest)
    decreases |cs|
  {
    if |cs| > 0 {
      CollectComplete(cs[1..], digest);
      var head := if Collected(cs[0]) then [ToRecord(cs[0], digest)] else [];
      var r := Collect(cs, digest);
      assert r == head + Collect(cs[1..], digest);
      forall i | 0 <= i < |cs| && Collected(cs[i]) ensures ToRecord(cs[i], digest) in r {
        if i > 0 {
          assert cs[i] == cs[1..][i - 1];
        }
      }
    }
  }

  // ---------------------------------------------------------------------
  // deduplicate_by_content
  // ---------------------------------------------------------------------

  /** `deduplicate_by_content`: the first record for each hash. */
  function DeduplicateByContent<H(==)>(rs: seq<Record<H>>): (r: seq<Record<H>>)
    ensures KeepFirst.DistinctKeys(r, HashOf) && KeepFirst.Distinct(r)
    ensures KeepFirst.Keys(r, HashOf) == KeepFirst.Keys(rs, HashOf)
    ensures KeepFirst.IsSubseq(r, rs)
  {
    var r := KeepFirst.FirstOccurrences(rs, HashOf);
    KeepFirst.FirstOccurrencesKeys(rs, HashOf);
    KeepFirst.FirstOccurrencesSubseq(rs, HashOf);
    KeepFirst.DistinctKeysDistinct(r, HashOf);
    r
  }

  /** A record whose hash has not occurred earlier is kept. */
  lemma DeduplicateKeepsFirst<H>(rs: seq<Record<H>>, i: nat)
    requires i < |rs| && rs[i].hash !in KeepFirst.Keys(rs[..i], HashOf)
    ensures rs[i] in DeduplicateByContent(rs)
  {
    KeepFirst.FirstOccurrencesKeepFirst(rs, HashOf, i);
  }

  /** Deduplicating again removes nothing. */
  lemma DeduplicateIdempotent<H>(rs: seq<Record<H>>)
    ensures DeduplicateByContent(DeduplicateByContent(rs)) == DeduplicateByContent(rs)
  {
    KeepFirst.FirstOccurrencesIdempotent(rs, HashOf);
  }

  // ---------------------------------------------------------------------
  // Scoring a chapter against a row
  // ---------------------------------------------------------------------

  /** `json_ch['content'][0].get('content', '')[:100].lower()`, or `""`
      for a chapter without items. */
  function FirstContent(content: seq<Item>): string {
    if |content| > 0 then Lower(Take(content[0].Content(), 100)) else ""
  }

  /** How many of `words` are longer than three characters. */
  function LongCount(words: seq<string>): (r: nat)
    ensures r <= |words|
  {
    if |words| == 0 then 0 else (if |words[0]| > 3 then 1 else 0) + LongCount(words[1..])
  }

  /** How many of `words` are longer than three characters and occur in
      `text`: the `score += 1` loop. */
  function Hits(words: seq<string>, text: string): (r: nat)
    ensures r <= LongCount(words)
  {
    if |words| == 0 then 0
    else (if |words[0]| > 3 && Contains(text, words[0]) then 1 else 0) + Hits(words[1..], text)
  }

  /** The `+2` when the first 20 characters of the title occur in the text. */
  function Bonus(key: string, text: string): nat {
    if Contains(text, key) then 2 else 0
  }

  /** The two scorings. */
  datatype Scoring = Normalized | Raw

  /** The score of a chapter for a row, scripts/json_processing variant:
      both sides normalised, the first four title words. */
  function ScoreNormalized<H>(row: Row, rec: Record<H>): (r: nat)
    ensures r <= 6
  {
    var text := Labels.NormalizeLabel(Some(FirstContent(rec.content)));
    var t := Labels.NormalizeLabel(Some(row.title));
    Hits(Take(Split(t), 4), text) + Bonus(Take(t, 20), text)
  }

  /** The score in reorganize_final.py: raw lowercased text, the first
      three title words. */
  function ScoreRaw<H>(row: Row, rec: Record<H>): (r: nat)
    ensures r <= 5
  {
    var text := FirstContent(rec.content);
    var t := Lower(row.title);
    Hits(Take(Split(t), 3), text) + Bonus(Take(t, 20), text)
  }

  function Score<H>(s: Scoring, row: Row, rec: Record<H>): nat {
    match s
    case Normalized => ScoreNormalized(row, rec)
    case Raw => ScoreRaw(row, rec)
  }

  function Scorer<H>(s: Scoring): (Row, Record<H>) -> nat {
    (row, rec) => Score(s, row, rec)
  }

  lemma {:induction false} SplitContained(s: string)
    ensures forall i :: 0 <= i < |Split(s)| ==> Contains(s, Split(s)[i])
    decreases |s|
  {
    if |s| > 0 {
      SplitContained(s[1..]);
      if IsSpace(s[0]) {
        forall i | 0 <= i < |Split(s)| ensures Contains(s, Split(s)[i]) {
          assert Contains(s[1..], Split(s[1..])[i]);
        }
      } else {
        var k := TokenEnd(s);
        SplitContained(s[k..]);
        forall i | 0 <= i < |Split(s)| ensures Contains(s, Split(s)[i]) {
          if i == 0 {
            assert StartsWith(s, s[..k]);
          } else {
            var w := Split(s[k..])[i - 1];
            assert Split(s)[i] == w;
            var j := ContainsWitness(s[k..], w);
            assert s[k + j..k + j + |w|] == s[k..][j..j + |w|];
            ContainsAt(s, w, k + j);
          }
        }
      }
    }
  }

  lemma {:induction false} HitsAll(words: seq<string>, text: string)
    requires forall i :: 0 <= i < |words| ==> Contains(text, words[i])
    ensures Hits(words, text) == LongCount(words)
    decreases |words|
  {
    if |words| > 0 {
      HitsAll(words[1..], text);
    }
  }

  /** A chapter whose text starts with the title scores the bonus and a
      hit for every long title word counted. */
  lemma TitleAtStart(t: string, text: string, n: nat)
    requires StartsWith(text, t)
    ensures Hits(Take(Split(t), n), text) + Bonus(Take(t, 20), text) == LongCount(Take(Split(t), n)) + 2
  {
    SplitContained(t);
    var words := Take(Split(t), n);
    assert text[..|t|] == t;
    forall i | 0 <= i < |words| ensures Contains(text, words[i]) {
      assert words[i] == Split(t)[i];
      ContainsPrefix(text, words[i], |t|);
    }
    HitsAll(words, text);
    var key := Take(t, 20);
    assert text[0..|key|] == key;
    ContainsAt(text, key, 0);
  }

  /** Raw scoring: a chapter whose first paragraph starts with the
      lowercased title gets the bonus plus one for each long word among
      the first three. */
  lemma ScoreRawTitleAtStart<H>(row: Row, rec: Record<H>)
    requires StartsWith(FirstContent(rec.content), Lower(row.title))
    ensures ScoreRaw(row, rec) == 2 + LongCount(Take(Split(Lower(row.title)), 3))
  {
    TitleAtStart(Lower(row.title), FirstContent(rec.content), 3);
  }

  /** Normalised scoring: the same, on normalised text and four words. */
  lemma ScoreNormalizedTitleAtStart<H>(row: Row, rec: Record<H>)
    requires StartsWith(Labels.NormalizeLabel(Some(FirstContent(rec.content))), Labels.NormalizeLabel(Some(row.title)))
    ensures ScoreNormalized(row, rec) == 2 + LongCount(Take(Split(Labels.NormalizeLabel(Some(row.title))), 4))
  {
    TitleAtStart(Labels.NormalizeLabel(Some(row.title)), Labels.NormalizeLabel(Some(FirstContent(rec.content))), 4);
  }

  /** A row with an empty title scores at least the bonus against every
      chapter, so it never falls back to "the next available". */
  lemma EmptyTitleScores<H>(s: Scoring, row: Row, rec: Record<H>)
    requires row.title == ""
    ensures Score(s, row, rec) >= 2
  {
    match s
    case Raw =>
      ScoreRawTitleAtStart(row, rec);
    case Normalized =>
      assert Labels.NormalizeLabel(Some(row.title)) == "";
      ScoreNormalizedTitleAtStart(row, rec);
  }

  // ---------------------------------------------------------------------
  // match_content_to_chapters
  // ---------------------------------------------------------------------

  /** The inner loop: the earliest index with the strictly greatest
      positive score, or `None` when every score is 0. */
  function ArgMax(s: seq<nat>): (r: Option<nat>)
    ensures r.None? <==> forall j :: 0 <= j < |s| ==> s[j] == 0
    ensures r.Some? ==>
              && r.value < |s| && s[r.value] > 0
              && (forall j :: 0 <= j < |s| ==> s[j] <= s[r.value])
              && (forall j :: 0 <= j < r.value ==> s[j] < s[r.value])
    decreases |s|
  {
    if |s| == 0 then None
    else
      var a := ArgMax(s[..|s| - 1]);
      var top := if a.Some? then s[a.value] else 0;
      if s[|s| - 1] > top then Some(|s| - 1) else a
  }

  /** The scores of the pool for one row; a chapter without items is
      skipped (`continue`), which is the same as scoring 0. */
  function Scores<H>(score: (Row, Record<H>) -> nat, row: Row, pool: seq<Record<H>>): (s: seq<nat>)
    ensures |s| == |pool|
    ensures forall j :: 0 <= j < |pool| ==> s[j] == if |pool[j].content| == 0 then 0 else score(row, pool[j])
  {
    seq(|pool|, j requires 0 <= j < |pool| => if |pool[j].content| == 0 then 0 else score(row, pool[j]))
  }

  /** `[ch for ch in xs if ch != x]` */
  function Without<T(==)>(xs: seq<T>, x: T): (r: seq<T>)
    ensures forall i :: 0 <= i < |r| ==> r[i] in xs && r[i] != x
    ensures forall i :: 0 <= i < |xs| && xs[i] != x ==> xs[i] in r
    ensures |r| <= |xs| && (x in xs ==> |r| < |xs|)
    ensures KeepFirst.IsSubseq(r, xs)
    decreases |xs|
  {
    if |xs| == 0 then []
    else
      var rest := Without(xs[1..], x);
      if xs[0] == x then rest else [xs[0]] + rest
  }

  /** In a list without repetition, only the one copy goes. */
  lemma {:induction false} WithoutDistinct<T>(xs: seq<T>, x: T)
    requires KeepFirst.Distinct(xs) && x in xs
    ensures |Without(xs, x)| == |xs| - 1 && KeepFirst.Distinct(Without(xs, x))
    decreases |xs|
  {
    if xs[0] == x {
      assert x !in xs[1..];
      WithoutAbsent(xs[1..], x);
    } else {
      WithoutDistinct(xs[1..], x);
    }
    var r := Without(xs, x);
    forall i, j | 0 <= i < j < |r| ensures r[i] != r[j] {
      if xs[0] != x && i == 0 {
        assert r[j] in Without(xs[1..], x);
        assert r[j] in xs[1..];
      }
    }
  }

  lemma {:induction false} WithoutAbsent<T>(xs: seq<T>, x: T)
    requires x !in xs
    ensures Without(xs, x) == xs
    decreases |xs|
  {
    if |xs| > 0 {
      WithoutAbsent(xs[1..], x);
      assert xs == [xs[0]] + xs[1..];
    }
  }

  /** `match_content_to_chapters(json_chapters, csv_chapters)`. */
  function Match<H(==)>(score: (Row, Record<H>) -> nat, rows: seq<Row>, pool: seq<Record<H>>): (r: seq<Record<H>>)
    ensures |r| <= |rows|
    ensures forall i :: 0 <= i < |r| ==> r[i] in pool
    decreases |rows|
  {
    if |rows| == 0 then []
    else
      match ArgMax(Scores(score, rows[0], pool))
      case Some(j) => [pool[j]] + Match(score, rows[1..], Without(pool, pool[j]))
      case None =>
        if |pool| > 0 then [pool[0]] + Match(score, rows[1..], pool[1..])
        else Match(score, rows[1..], [])
  }

  /** The first row takes the chapter with the strictly highest positive
      score, the earliest on a tie, and that chapter leaves the pool; when
      nothing scores, it takes the first chapter. */
  lemma MatchFirst<H>(score: (Row, Record<H>) -> nat, rows: seq<Row>, pool: seq<Record<H>>)
    requires |rows| > 0 && |pool| > 0
    ensures var r := Match(score, rows, pool);
            var s := Scores(score, rows[0], pool);
            |r| > 0 &&
            if exists j :: 0 <= j < |pool| && s[j] > 0 then
              exists j :: 0 <= j < |pool| && r[0] == pool[j] && s[j] > 0
                          && (forall k :: 0 <= k < |pool| ==> s[k] <= s[j])
                          && (forall k :: 0 <= k < j ==> s[k] < s[j])
                          && r[1..] == Match(score, rows[1..], Without(pool, pool[j]))
            else
              r[0] == pool[0] && r[1..] == Match(score, rows[1..], pool[1..])
  {
  }

  /** With nothing left to match, no row gets a chapter. */
  lemma {:induction false} MatchEmptyPool<H>(score: (Row, Record<H>) -> nat, rows: seq<Row>)
    ensures Match<H>(score, rows, []) == []
    decreases |rows|
  {
    if |rows| > 0 {
      var empty: seq<Record<H>> := [];
      assert ArgMax(Scores(score, rows[0], empty)) == None;
      MatchEmptyPool<H>(score, rows[1..]);
    }
  }

  /** On a pool without repetitions no chapter is used twice, and every
      row gets a chapter until the pool runs out. */
  lemma {:induction false} MatchDistinct<H>(score: (Row, Record<H>) -> nat, rows: seq<Row>, pool: seq<Record<H>>)
    requires KeepFirst.Distinct(pool)
    ensures KeepFirst.Distinct(Match(score, rows, pool))
    ensures |Match(score, rows, pool)| == if |rows| < |pool| then |rows| else |pool|
    decreases |rows|, 1
  {
    if |rows| > 0 {
      match ArgMax(Scores(score, rows[0], pool))
      case Some(j) =>
        MatchPickDistinct(score, rows, pool, j);
      case None =>
        if |pool| > 0 {
          MatchFirstDistinct(score, rows, pool);
        } else {
          MatchEmptyPool<H>(score, rows[1..]);
        }
    }
  }

  /** The step of `MatchDistinct` where the first row picks a chapter by
      score. */
  lemma {:induction false} MatchPickDistinct<H>(score: (Row, Record<H>) -> nat, rows: seq<Row>, pool: seq<Record<H>>, j: nat)
    requires KeepFirst.Distinct(pool) && |rows| > 0
    requires ArgMax(Scores(score, rows[0], pool)) == Some(j)
    ensures KeepFirst.Distinct(Match(score, rows, pool))
    ensures |Match(score, rows, pool)| == if |rows| < |pool| then |rows| else |pool|
    decreases |rows|, 0
  {
    var rest := Without(pool, pool[j]);
    WithoutDistinct(pool, pool[j]);
    MatchDistinct(score, rows[1..], rest);
    assert Match(score, rows, pool) == [pool[j]] + Match(score, rows[1..], rest);
    ConsDistinct(pool[j], Match(score, rows[1..], rest), rest);
  }

  /** The step of `MatchDistinct` where nothing scores and the first row
      takes the first chapter. */
  lemma {:induction false} MatchFirstDistinct<H>(score: (Row, Record<H>) -> nat, rows: seq<Row>, pool: seq<Record<H>>)
    requires KeepFirst.Distinct(pool) && |rows| > 0 && |pool| > 0
    requires ArgMax(Scores(score, rows[0], pool)).None?
    ensures KeepFirst.Distinct(Match(score, rows, pool))
    ensures |Match(score, rows, pool)| == if |rows| < |pool| then |rows| else |pool|
    decreases |rows|, 0
  {
    var rest := pool[1..];
    MatchDistinct(score, rows[1..], rest);
    assert Match(score, rows, pool) == [pool[0]] + Match(score, rows[1..], rest);
    forall k | 0 <= k < |rest| ensures rest[k] != pool[0] {
      assert rest[k] == pool[k + 1];
    }
    ConsDistinct(pool[0], Match(score, rows[1..], rest), rest);
  }

  /** Putting in front an element the list draws none of its elements
      from keeps it free of repetitions. */
  lemma ConsDistinct<T>(x: T, m: seq<T>, from: seq<T>)
    requires KeepFirst.Distinct(m) && x !in from
    requires forall i :: 0 <= i < |m| ==> m[i] in from
    ensures KeepFirst.Distinct([x] + m)
  {
    var r := [x] + m;
    forall a, b | 0 <= a < b < |r| ensures r[a] != r[b] {
      assert r[b] == m[b - 1];
      if a > 0 {
        assert r[a] == m[a - 1];
      }
    }
  }

  // ---------------------------------------------------------------------
  // create_organized_structure
  // ---------------------------------------------------------------------

  function Contents<H>(rs: seq<Record<H>>): (r: seq<seq<Item>>)
    ensures |r| == |rs| && forall i :: 0 <= i < |rs| ==> r[i] == rs[i].content
  {
    seq(|rs|, i requires 0 <= i < |rs| => rs[i].content)
  }

  /** `create_organized_structure(csv_chapters, json_chapters, special_sections)`:
      the i-th matched chapter goes, under the i-th row's title, to the
      i-th row's part. */
  function CreateOrganizedStructure<H(==)>(sc: Scoring, rows: seq<Row>, pool: seq<Record<H>>, s: FrontMatter.Sections): (r: seq<Part>)
    requires RowsKnown(rows, |Match(Scorer(sc), rows, pool)|)
    ensures |r| >= |SpecialParts(s)| && r[..|SpecialParts(s)|] == SpecialParts(s)
  {
    Assemble(s, Positional(rows, Contents(Match(Scorer(sc), rows, pool))))
  }

  /** With a pool of distinct records, one chapter is placed per row
      that gets a match: as many as there are rows or records, whichever
      is fewer. */
  lemma OrganizedLength<H>(sc: Scoring, rows: seq<Row>, pool: seq<Record<H>>)
    requires KeepFirst.Distinct(pool)
    requires RowsKnown(rows, |Match(Scorer(sc), rows, pool)|)
    ensures |Positional(rows, Contents(Match(Scorer(sc), rows, pool)))| == Min(|rows|, |pool|)
  {
    MatchDistinct(Scorer(sc), rows, pool);
  }

  /** The organised book holds each placed chapter exactly once, next to
      the special sections. */
  lemma OrganizedChapters<H>(sc: Scoring, rows: seq<Row>, pool: seq<Record<H>>, s: FrontMatter.Sections)
    requires RowsKnown(rows, |Match(Scorer(sc), rows, pool)|)
    ensures multiset(AllChapters(CreateOrganizedStructure(sc, rows, pool, s)))
            == multiset(AllChapters(SpecialParts(s)))
               + multiset(Chapters(Positional(rows, Contents(Match(Scorer(sc), rows, pool)))))
  {
    AssembleChapters(s, Positional(rows, Contents(Match(Scorer(sc), rows, pool))));
  }
}
