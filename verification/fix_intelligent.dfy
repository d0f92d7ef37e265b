/** fix_json_intelligent.py: chapters are collected with their position
    and a digest of their opening text, sorted back into document order,
    deduplicated by digest, and paired one by one with the rows of the
    table of contents. */
module FixIntelligent {
  import opened Wrappers
  import opened Text
  import opened Book
  import KeepFirst
  import Roman
  import FrontMatter
  import opened Assembly

  // ---------------------------------------------------------------------
  // create_chapter_hash
  // ---------------------------------------------------------------------

  /** The first 200 characters of each item, concatenated. */
  function Prefixes(items: seq<Item>): (r: string)
    ensures |r| <= 200 * |items|
    decreases |items|
  {
    if |items| == 0 then "" else Take(items[0].Content(), 200) + Prefixes(items[1..])
  }

  /** The text the digest is taken of: the prefixes of the first three
      items (`""` for a chapter without items). */
  function HashInput(content: seq<Item>): (r: string)
    ensures |r| <= 600
  {
    Prefixes(Take(content, 3))
  }

  /** `create_chapter_hash(chapter)`; `digest` stands for the first ten hex
      digits of md5. */
  function ChapterHash<H>(content: seq<Item>, digest: string -> H): H {
    digest(HashInput(content))
  }

  /** Two item lists of the same length whose items agree on their first
      200 characters. */
  predicate SamePrefixes(a: seq<Item>, b: seq<Item>) {
    |a| == |b| && forall i :: 0 <= i < |a| ==> Take(a[i].Content(), 200) == Take(b[i].Content(), 200)
  }

  lemma {:induction false} PrefixesAgree(a: seq<Item>, b: seq<Item>)
    requires SamePrefixes(a, b)
    ensures Prefixes(a) == Prefixes(b)
    decreases |a|
  {
    if |a| > 0 {
      assert SamePrefixes(a[1..], b[1..]) by {
        forall i | 0 <= i < |a[1..]| ensures Take(a[1..][i].Content(), 200) == Take(b[1..][i].Content(), 200) {
          assert a[1..][i] == a[i + 1] && b[1..][i] == b[i + 1];
        }
      }
      PrefixesAgree(a[1..], b[1..]);
    }
  }

  /** The digest sees only the first 200 characters of each of the first
      three items: chapters that agree there get the same hash, whatever
      follows. */
  lemma HashSeesPrefixes<H>(a: seq<Item>, b: seq<Item>, digest: string -> H)
    requires SamePrefixes(Take(a, 3), Take(b, 3))
    ensures ChapterHash(a, digest) == ChapterHash(b, digest)
  {
    PrefixesAgree(Take(a, 3), Take(b, 3));
  }

  // ---------------------------------------------------------------------
  // collect_all_chapters_with_metadata
  // ---------------------------------------------------------------------

  /** `{'chapter', 'number', 'part_idx', 'chapter_idx', 'hash', 'title'}` */
  datatype Meta<H> = Meta(chapter: Chapter, number: nat, partIdx: nat, chapterIdx: nat, hash: H, title: string)

  /** The record of chapter `ci` of part `pi`; `None` for a `Content`
      divider or a title without a chapter numeral. */
  function MetaOf<H>(c: Chapter, pi: nat, ci: nat, digest: string -> H): (r: Option<Meta<H>>)
    ensures r.Some? <==> c.Title() != "Content" && Roman.ExtractChapterNumber(c.Title()).Some?
    ensures r.Some? ==> r.value.chapter == c && r.value.title == c.Title() && r.value.partIdx == pi
                        && r.value.chapterIdx == ci && r.value.hash == ChapterHash(c.content, digest)
                        && Some(r.value.number) == Roman.ExtractChapterNumber(c.Title())
  {
    if c.Title() == "Content" then None
    else
      match Roman.ExtractChapterNumber(c.Title())
      case None => None
      case Some(n) => Some(Meta(c, n, pi, ci, ChapterHash(c.content, digest), c.Title()))
  }

  /** `MetaOf` with the digest fixed, as a function value: collection is
      written over any such describer that records the position it is
      given. */
  function Describer<H>(digest: string -> H): (Chapter, nat, nat) -> Option<Meta<H>> {
    (c: Chapter, pi: nat, ci: nat) => MetaOf(c, pi, ci, digest)
  }

  ghost predicate Locates<H>(meta: (Chapter, nat, nat) -> Option<Meta<H>>) {
    forall c, pi, ci :: meta(c, pi, ci).Some? ==> meta(c, pi, ci).value.partIdx == pi && meta(c, pi, ci).value.chapterIdx == ci
  }

  lemma DescriberLocates<H>(digest: string -> H)
    ensures Locates(Describer(digest))
  {
  }

  /** Strictly increasing in (part index, chapter index). */
  predicate InDocumentOrder<H>(ms: seq<Meta<H>>) {
    forall a, b :: 0 <= a < b < |ms| ==>
      ms[a].partIdx < ms[b].partIdx || (ms[a].partIdx == ms[b].partIdx && ms[a].chapterIdx < ms[b].chapterIdx)
  }

  /** The records of the chapters `cs` of part `pi`, the first of them
      being chapter `ci`. */
  function CollectChapters<H>(cs: seq<Chapter>, pi: nat, ci: nat, meta: (Chapter, nat, nat) -> Option<Meta<H>>): (r: seq<Meta<H>>)
    requires Locates(meta)
    ensures |r| <= |cs|
    ensures forall k :: 0 <= k < |r| ==>
              r[k].partIdx == pi && ci <= r[k].chapterIdx < ci + |cs|
              && meta(cs[r[k].chapterIdx - ci], pi, r[k].chapterIdx) == Some(r[k])
    ensures InDocumentOrder(r)
    decreases |cs|
  {
    if |cs| == 0 then []
    else if meta(cs[0], pi, ci).None? then
      Shifted(cs, pi, ci, meta)
    else
      [meta(cs[0], pi, ci).value] + Shifted(cs, pi, ci, meta)
  }

  /** The records of `cs[1..]`, restated with indices into `cs`. */
  function Shifted<H>(cs: seq<Chapter>, pi: nat, ci: nat, meta: (Chapter, nat, nat) -> Option<Meta<H>>): (r: seq<Meta<H>>)
    requires Locates(meta) && |cs| > 0
    ensures |r| < |cs|
    ensures forall k :: 0 <= k < |r| ==>
              r[k].partIdx == pi && ci + 1 <= r[k].chapterIdx < ci + |cs|
              && meta(cs[r[k].chapterIdx - ci], pi, r[k].chapterIdx) == Some(r[k])
    ensures InDocumentOrder(r)
    decreases |cs|, 0
  {
    var r := CollectChapters(cs[1..], pi, ci + 1, meta);
    assert forall k :: 0 <= k < |r| ==> cs[1..][r[k].chapterIdx - (ci + 1)] == cs[r[k].chapterIdx - ci];
    r
  }

  /** The records of the parts `ps`, the first of them being part `pi`. */
  function CollectParts<H>(ps: seq<Part>, pi: nat, meta: (Chapter, nat, nat) -> Option<Meta<H>>): (r: seq<Meta<H>>)
    requires Locates(meta)
    ensures forall k :: 0 <= k < |r| ==>
              && pi <= r[k].partIdx < pi + |ps|
              && r[k].chapterIdx < |ps[r[k].partIdx - pi].chapters|
              && meta(ps[r[k].partIdx - pi].chapters[r[k].chapterIdx], r[k].partIdx, r[k].chapterIdx) == Some(r[k])
    ensures InDocumentOrder(r)
    decreases |ps|
  {
    if |ps| == 0 then []
    else CollectChapters(ps[0].chapters, pi, 0, meta) + LaterParts(ps, pi, meta)
  }

  /** The records of `ps[1..]`, restated with indices into `ps`. */
  function LaterParts<H>(ps: seq<Part>, pi: nat, meta: (Chapter, nat, nat) -> Option<Meta<H>>): (r: seq<Meta<H>>)
    requires Locates(meta) && |ps| > 0
    ensures forall k :: 0 <= k < |r| ==>
              && pi + 1 <= r[k].partIdx < pi + |ps|
              && r[k].chapterIdx < |ps[r[k].partIdx - pi].chapters|
              && meta(ps[r[k].partIdx - pi].chapters[r[k].chapterIdx], r[k].partIdx, r[k].chapterIdx) == Some(r[k])
    ensures InDocumentOrder(r)
    decreases |ps|, 0
  {
    var r := CollectParts(ps[1..], pi + 1, meta);
    assert forall k :: 0 <= k < |r| ==> ps[1..][r[k].partIdx - (pi + 1)] == ps[r[k].partIdx - pi];
    r
  }

  /** `collect_all_chapters_with_metadata(current_data)` */
  function CollectWithMetadata<H>(ps: seq<Part>, digest: string -> H): (r: seq<Meta<H>>)
    ensures forall k :: 0 <= k < |r| ==>
              && r[k].partIdx < |ps| && r[k].chapterIdx < |ps[r[k].partIdx].chapters|
              && MetaOf(ps[r[k].partIdx].chapters[r[k].chapterIdx], r[k].partIdx, r[k].chapterIdx, digest) == Some(r[k])
    ensures InDocumentOrder(r)
  {
    DescriberLocates(digest);
    CollectParts(ps, 0, Describer(digest))
  }

  /** What a collected record holds: a numbered chapter that is not a
      `Content` divider, found at the record's position, with its number,
      title and digest. */
  lemma CollectedRecord<H>(ps: seq<Part>, digest: string -> H, k: nat)
    requires k < |CollectWithMetadata(ps, digest)|
    ensures var m := CollectWithMetadata(ps, digest)[k];
            && m.partIdx < |ps| && m.chapterIdx < |ps[m.partIdx].chapters|
            && m.chapter == ps[m.partIdx].chapters[m.chapterIdx]
            && m.title == m.chapter.Title() && m.title != "Content"
            && Roman.ExtractChapterNumber(m.title) == Some(m.number)
            && m.hash == ChapterHash(m.chapter.content, digest)
  {
  }

  lemma {:induction false} CollectChaptersHas<H>(cs: seq<Chapter>, pi: nat, ci: nat, meta: (Chapter, nat, nat) -> Option<Meta<H>>, j: nat)
    requires Locates(meta)
    requires j < |cs| && meta(cs[j], pi, ci + j).Some?
    ensures meta(cs[j], pi, ci + j).value in CollectChapters(cs, pi, ci, meta)
    decreases j
  {
    if j > 0 {
      CollectChaptersHas(cs[1..], pi, ci + 1, meta, j - 1);
      assert cs[1..][j - 1] == cs[j];
    }
  }

  lemma {:induction false} CollectPartsHas<H>(ps: seq<Part>, pi: nat, meta: (Chapter, nat, nat) -> Option<Meta<H>>, p: nat, c: nat)
    requires Locates(meta)
    requires p < |ps| && c < |ps[p].chapters| && meta(ps[p].chapters[c], pi + p, c).Some?
    ensures meta(ps[p].chapters[c], pi + p, c).value in CollectParts(ps, pi, meta)
    decreases p
  {
    if p > 0 {
      CollectPartsHas(ps[1..], pi + 1, meta, p - 1, c);
      assert ps[1..][p - 1] == ps[p];
    } else {
      CollectChaptersHas(ps[0].chapters, pi, 0, meta, c);
    }
  }

  /** Every numbered chapter that is not a `Content` divider is collected,
      with its position. */
  lemma CollectedIfNumbered<H>(ps: seq<Part>, digest: string -> H, p: nat, c: nat)
    requires p < |ps| && c < |ps[p].chapters|
    requires ps[p].chapters[c].Title() != "Content"
    requires Roman.ExtractChapterNumber(ps[p].chapters[c].Title()).Some?
    ensures exists k :: 0 <= k < |CollectWithMetadata(ps, digest)|
              && CollectWithMetadata(ps, digest)[k].partIdx == p
              && CollectWithMetadata(ps, digest)[k].chapterIdx == c
  {
    DescriberLocates(digest);
    var meta := Describer(digest);
    assert meta(ps[p].chapters[c], p, c) == MetaOf(ps[p].chapters[c], p, c, digest);
    CollectPartsHas(ps, 0, meta, p, c);
    var m := meta(ps[p].chapters[c], p, c).value;
    var r := CollectWithMetadata(ps, digest);
    var k :| 0 <= k < |r| && r[k] == m;
    assert r[k].partIdx == p && r[k].chapterIdx == c;
  }

  // ---------------------------------------------------------------------
  // deduplicate_intelligently
  // ---------------------------------------------------------------------

  function Position<H>(m: Meta<H>): (int, int) { (m.partIdx, m.chapterIdx) }

  function HashOf<H>(m: Meta<H>): H { m.hash }

  /** Sort by (part index, chapter index), then keep the first record of
      each hash. */
  function DeduplicateIntelligently<H(==)>(ms: seq<Meta<H>>): (r: seq<Meta<H>>)
    ensures KeepFirst.DistinctKeys(r, HashOf)
    ensures KeepFirst.Sorted(r, Position)
    ensures KeepFirst.Keys(r, HashOf) == KeepFirst.Keys(ms, HashOf)
    ensures KeepFirst.IsSubseq(r, KeepFirst.Sort(ms, Position))
  {
    var sorted := KeepFirst.Sort(ms, Position);
    var r := KeepFirst.FirstOccurrences(sorted, HashOf);
    KeepFirst.SortSorted(ms, Position);
    KeepFirst.FirstOccurrencesKeys(sorted, HashOf);
    KeepFirst.FirstOccurrencesSubseq(sorted, HashOf);
    KeepFirst.SubseqSorted(r, sorted, Position);
    KeepFirst.KeysOfPermutation(sorted, ms, HashOf);
    r
  }

  lemma InDocumentOrderSorted<H>(ms: seq<Meta<H>>)
    requires InDocumentOrder(ms)
    ensures KeepFirst.Sorted(ms, Position)
  {
  }

  /** The records come out of collection already in document order, so the
      sort changes nothing: deduplication keeps the first chapter of each
      hash in reading order. */
  lemma DeduplicateCollected<H>(ps: seq<Part>, digest: string -> H)
    ensures DeduplicateIntelligently(CollectWithMetadata(ps, digest))
            == KeepFirst.FirstOccurrences(CollectWithMetadata(ps, digest), HashOf)
  {
    var ms := CollectWithMetadata(ps, digest);
    InDocumentOrderSorted(ms);
    KeepFirst.SortOfSorted(ms, Position);
  }

  // ---------------------------------------------------------------------
  // map_chapters_sequentially and the pipeline
  // ---------------------------------------------------------------------

  function Contents<H>(ms: seq<Meta<H>>): (r: seq<seq<Item>>)
    ensures |r| == |ms| && forall i :: 0 <= i < |ms| ==> r[i] == ms[i].chapter.content
  {
    seq(|ms|, i requires 0 <= i < |ms| => ms[i].chapter.content)
  }

  /** `map_chapters_sequentially(unique_chapters, csv_rows)`: the i-th
      unique chapter's content under the i-th row's title, in the i-th
      row's part. */
  function MapChaptersSequentially<H>(unique: seq<Meta<H>>, rows: seq<Row>): (r: seq<Placed>)
    requires RowsKnown(rows, |unique|)
    ensures |r| == Min(|unique|, |rows|) && KnownParts(r)
    ensures forall i :: 0 <= i < |r| ==>
              && PartKeys[r[i].part] == rows[i].part
              && r[i].chapter == Chapter(Some(ChapterTitle(rows[i])), unique[i].chapter.content)
  {
    Positional(rows, Contents(unique))
  }

  /** `main`: the special sections of the first chapter, then collection,
      deduplication, mapping and assembly; `None` where the script stops
      with an error (no first chapter, or a row naming an unknown part). */
  function Run<H(==)>(ps: seq<Part>, rows: seq<Row>, digest: string -> H): (r: Option<seq<Part>>)
    ensures r.Some? <==>
              FrontMatter.FirstChapterContent(ps).Some?
              && RowsKnown(rows, |DeduplicateIntelligently(CollectWithMetadata(ps, digest))|)
  {
    match FrontMatter.FirstChapterContent(ps)
    case None => None
    case Some(first) =>
      var unique := DeduplicateIntelligently(CollectWithMetadata(ps, digest));
      if RowsKnown(rows, |unique|) then
        Some(Assemble(FrontMatter.SpecialSections(first), MapChaptersSequentially(unique, rows)))
      else None
  }

  /** A successful run writes the special sections and then every mapped
      chapter exactly once: as many as there are unique chapters or rows,
      whichever is fewer. */
  lemma RunChapters<H>(ps: seq<Part>, rows: seq<Row>, digest: string -> H)
    requires Run(ps, rows, digest).Some?
    ensures var unique := DeduplicateIntelligently(CollectWithMetadata(ps, digest));
            var placed := MapChaptersSequentially(unique, rows);
            var s := FrontMatter.SpecialSections(FrontMatter.FirstChapterContent(ps).value);
            && |placed| == Min(|unique|, |rows|)
            && multiset(AllChapters(Run(ps, rows, digest).value))
               == multiset(AllChapters(SpecialParts(s))) + multiset(Chapters(placed))
  {
    var unique := DeduplicateIntelligently(CollectWithMetadata(ps, digest));
    AssembleChapters(FrontMatter.SpecialSections(FrontMatter.FirstChapterContent(ps).value), MapChaptersSequentially(unique, rows));
  }
}
