/** The final shape every reconciliation script writes: the title page,
    dedicatory prayer and preface sections, each only when it has
    paragraphs, followed by the five parts of the book in the order I to
    V, each only when some chapter was placed in it.  The scripts differ in
    how they decide which chapter goes to which part; they all end in the
    `part_titles` table and the same emission loop, modelled here once
    over a list of placed chapters. */
module Assembly {
  import opened Wrappers
  import opened Book
  import KeepFirst
  import FrontMatter

  /** A row of the table of contents (`data/summary.csv`), with its three
      fields already stripped: `{'part', 'chapter', 'title'}`. */
  datatype Row = Row(part: string, chapter: string, title: string)

  /** The keys of the five parts, in emission order; a part is named by
      its position here. */
  const PartKeys: seq<string> := ["I", "II", "III", "IV", "V"]
  const Parts := 5

  /** The `part_titles` table, in key order. */
  const PartTitles: seq<string> := [
    "PART THE FIRST - INSTRUCTIONS AND EXERCISES FOR CONDUCTING THE SOUL FROM HER FIRST DESIRE FOR A DEVOUT LIFE TILL SHE IS BROUGHT TO A FULL RESOLUTION OF EMBRACING IT",
    "PART THE SECOND - INSTRUCTIONS FOR ELEVATING THE SOUL TO GOD BY PRAYER AND BY THE SACRAMENTS",
    "PART THE THIRD - INSTRUCTIONS CONCERNING THE PRACTICE OF THE VIRTUES",
    "PART THE FOURTH - NECESSARY ADVICE AGAINST THE MOST ORDINARY TEMPTATIONS",
    "PART THE FIFTH - INSTRUCTIONS AND EXERCISES NECESSARY FOR RENEWING THE SOUL, AND CONFIRMING HER IN DEVOTION"
  ]

  /** A title table for the five parts, none of them the title page.  The
      emission is stated over any such table, so that proofs about it do
      not carry the long literal titles around. */
  predicate Titles(titles: seq<string>) {
    |titles| == Parts && forall i :: 0 <= i < |titles| ==> titles[i] != TitlePage
  }

  lemma PartTitlesOk()
    ensures Titles(PartTitles)
  {
  }

  /** The position of a CSV part key among the five, `None` for a key the
      dictionaries do not have. */
  function KeyIndex(key: string): (r: Option<nat>)
    ensures r.Some? <==> key in PartKeys
    ensures r.Some? ==> r.value < Parts && PartKeys[r.value] == key
  {
    if key == "I" then Some(0)
    else if key == "II" then Some(1)
    else if key == "III" then Some(2)
    else if key == "IV" then Some(3)
    else if key == "V" then Some(4)
    else None
  }

  const TitlePage := "TITLE PAGE"
  const PrefaceTitle := "PREFACE"

  function Min(a: nat, b: nat): nat { if a < b then a else b }

  /** `f"CHAPTER {csv['chapter']}. {csv['title']}"` */
  function ChapterTitle(row: Row): string {
    "CHAPTER " + row.chapter + ". " + row.title
  }

  /** A chapter appended to `organized[PartKeys[part]]`. */
  datatype Placed = Placed(part: nat, chapter: Chapter)

  /** Every placement names one of the five parts. */
  predicate KnownParts(placed: seq<Placed>) {
    forall i :: 0 <= i < |placed| ==> placed[i].part < Parts
  }

  function Chapters(placed: seq<Placed>): (r: seq<Chapter>)
    ensures |r| == |placed|
    decreases |placed|
  {
    if |placed| == 0 then [] else [placed[0].chapter] + Chapters(placed[1..])
  }

  // ---------------------------------------------------------------------
  // The special sections
  // ---------------------------------------------------------------------

  /** A one-chapter section, only when it has paragraphs. */
  function SectionIf(title: string, content: seq<Item>): seq<Part> {
    if |content| > 0 then [Section(title, content)] else []
  }

  /** The prayer and preface sections. */
  function OtherSpecials(s: FrontMatter.Sections): seq<Part> {
    SectionIf(FrontMatter.Marker, s.prayer) + SectionIf(PrefaceTitle, s.preface)
  }

  /** The title page, prayer and preface sections, each only when it has
      paragraphs. */
  function SpecialParts(s: FrontMatter.Sections): seq<Part> {
    SectionIf(TitlePage, s.titlePage) + OtherSpecials(s)
  }

  // ---------------------------------------------------------------------
  // The five parts
  // ---------------------------------------------------------------------

  /** `organized[PartKeys[key]]`: the chapters placed in that part, in
      placement order. */
  function Bucket(key: nat, placed: seq<Placed>): (r: seq<Chapter>)
    ensures |r| <= |placed|
    decreases |placed|
  {
    if |placed| == 0 then []
    else if placed[0].part == key then [placed[0].chapter] + Bucket(key, placed[1..])
    else Bucket(key, placed[1..])
  }

  /** The parts from key `k` on, each only when its bucket is non-empty. */
  function KeyedParts(titles: seq<string>, placed: seq<Placed>, k: nat): (r: seq<Part>)
    requires Titles(titles) && k <= Parts
    decreases Parts - k
  {
    if k == Parts then []
    else
      var b := Bucket(k, placed);
      if |b| > 0 then [Part(Some(titles[k]), None, b)] + KeyedParts(titles, placed, k + 1)
      else KeyedParts(titles, placed, k + 1)
  }

  /** A part the loop emits: it has chapters and a title, which is not the
      title page. */
  predicate Emitted(p: Part) {
    |p.chapters| > 0 && p.title.Some? && p.title.value != TitlePage
  }

  /** Every part of the list is one the loop emits. */
  predicate AllEmitted(ps: seq<Part>) {
    forall i :: 0 <= i < |ps| ==> Emitted(ps[i])
  }

  /** Every emitted part has chapters and a title from the table, never
      the title page. */
  lemma {:induction false} KeyedPartsShape(titles: seq<string>, placed: seq<Placed>, k: nat)
    requires Titles(titles) && k <= Parts
    ensures AllEmitted(KeyedParts(titles, placed, k))
    decreases Parts - k
  {
    if k < Parts {
      KeyedPartsShape(titles, placed, k + 1);
      KeyedPartsStep(titles, placed, k);
      EmittedConcat(KeyedHead(titles, placed, k), KeyedParts(titles, placed, k + 1));
    }
  }

  lemma EmittedConcat(a: seq<Part>, b: seq<Part>)
    requires AllEmitted(a) && AllEmitted(b)
    ensures AllEmitted(a + b)
  {
    forall i | 0 <= i < |a + b| ensures Emitted((a + b)[i]) {
      if i >= |a| {
        assert (a + b)[i] == b[i - |a|];
      }
    }
  }

  /** `create_final_structure`: the special sections, then the parts. */
  function Assemble(s: FrontMatter.Sections, placed: seq<Placed>): (r: seq<Part>)
    ensures |r| >= |SpecialParts(s)| && r[..|SpecialParts(s)|] == SpecialParts(s)
    ensures forall i :: |SpecialParts(s)| <= i < |r| ==> Emitted(r[i])
  {
    PartTitlesOk();
    AssembleWith(PartTitles, s, placed)
  }

  /** The same over any title table. */
  function AssembleWith(titles: seq<string>, s: FrontMatter.Sections, placed: seq<Placed>): (r: seq<Part>)
    requires Titles(titles)
    ensures |r| >= |SpecialParts(s)| && r[..|SpecialParts(s)|] == SpecialParts(s)
    ensures forall i :: |SpecialParts(s)| <= i < |r| ==> Emitted(r[i])
  {
    var sp, keyed := SpecialParts(s), KeyedParts(titles, placed, 0);
    KeyedPartsShape(titles, placed, 0);
    AfterPrefix(sp, keyed);
    sp + keyed
  }

  lemma AfterPrefix(sp: seq<Part>, keyed: seq<Part>)
    requires AllEmitted(keyed)
    ensures |sp + keyed| >= |sp| && (sp + keyed)[..|sp|] == sp
    ensures forall i :: |sp| <= i < |sp + keyed| ==> Emitted((sp + keyed)[i])
  {
    forall i | |sp| <= i < |sp + keyed| ensures Emitted((sp + keyed)[i]) {
      assert (sp + keyed)[i] == keyed[i - |sp|];
    }
  }

  /** How many of the first `k` buckets are non-empty. */
  function Present(placed: seq<Placed>, k: nat): nat
    requires k <= Parts
  {
    if k == 0 then 0
    else Present(placed, k - 1) + (if |Bucket(k - 1, placed)| > 0 then 1 else 0)
  }

  lemma {:induction false} KeyedPartsLength(titles: seq<string>, placed: seq<Placed>, k0: nat)
    requires Titles(titles) && k0 <= Parts
    ensures |KeyedParts(titles, placed, k0)| == Present(placed, Parts) - Present(placed, k0)
    ensures Present(placed, k0) <= Present(placed, Parts)
    decreases Parts - k0
  {
    if k0 < Parts {
      KeyedPartsLength(titles, placed, k0 + 1);
    }
  }

  lemma {:induction false} PresentMono(placed: seq<Placed>, a: nat, b: nat)
    requires a <= b <= Parts
    ensures Present(placed, a) <= Present(placed, b)
    decreases b - a
  {
    if a < b {
      PresentMono(placed, a, b - 1);
    }
  }

  /** The part for key `k` comes after exactly the non-empty parts of the
      earlier keys: parts are emitted in the order I to V, each when it
      has chapters. */
  lemma {:induction false} KeyedPartsAt(titles: seq<string>, placed: seq<Placed>, k0: nat, k: nat)
    requires Titles(titles) && k0 <= k < Parts
    ensures |KeyedParts(titles, placed, k0)| == Present(placed, Parts) - Present(placed, k0)
    ensures var b := Bucket(k, placed);
            |b| > 0 ==>
              && Present(placed, k0) <= Present(placed, k)
              && Present(placed, k) - Present(placed, k0) < |KeyedParts(titles, placed, k0)|
              && KeyedParts(titles, placed, k0)[Present(placed, k) - Present(placed, k0)]
                 == Part(Some(titles[k]), None, b)
    decreases Parts - k0, 1
  {
    KeyedPartsLength(titles, placed, k0);
    if |Bucket(k, placed)| > 0 {
      if k0 < k {
        KeyedPartsAtLater(titles, placed, k0, k);
      } else {
        KeyedPartsAtHere(titles, placed, k);
      }
    }
  }

  /** The part for key `k` heads the parts from `k` on. */
  lemma KeyedPartsAtHere(titles: seq<string>, placed: seq<Placed>, k: nat)
    requires Titles(titles) && k < Parts && |Bucket(k, placed)| > 0
    ensures 0 < |KeyedParts(titles, placed, k)|
            && KeyedParts(titles, placed, k)[0] == Part(Some(titles[k]), None, Bucket(k, placed))
  {
  }

  /** The step of `KeyedPartsAt` for a key after `k0`: the part sits in
      the rest, shifted by the part emitted for `k0`, if any. */
  lemma {:induction false} KeyedPartsAtLater(titles: seq<string>, placed: seq<Placed>, k0: nat, k: nat)
    requires Titles(titles) && k0 < k < Parts && |Bucket(k, placed)| > 0
    ensures && Present(placed, k0) <= Present(placed, k)
            && Present(placed, k) - Present(placed, k0) < |KeyedParts(titles, placed, k0)|
            && KeyedParts(titles, placed, k0)[Present(placed, k) - Present(placed, k0)]
               == Part(Some(titles[k]), None, Bucket(k, placed))
    decreases Parts - k0, 0
  {
    KeyedPartsAt(titles, placed, k0 + 1, k);
    KeyedPartsStep(titles, placed, k0);
    var h := KeyedHead(titles, placed, k0);
    var rest := KeyedParts(titles, placed, k0 + 1);
    IndexShift(KeyedParts(titles, placed, k0), h, rest, Present(placed, k) - Present(placed, k0 + 1));
  }

  /** In `h + rest`, the `j`-th element of `rest` is at `|h| + j`. */
  lemma IndexShift(whole: seq<Part>, h: seq<Part>, rest: seq<Part>, j: nat)
    requires whole == h + rest && j < |rest|
    ensures |h| + j < |whole| && whole[|h| + j] == rest[j]
  {
  }

  /** The part emitted for key `k`, if its bucket is not empty. */
  function KeyedHead(titles: seq<string>, placed: seq<Placed>, k: nat): seq<Part>
    requires Titles(titles) && k < Parts
  {
    var b := Bucket(k, placed);
    if |b| > 0 then [Part(Some(titles[k]), None, b)] else []
  }

  lemma KeyedPartsStep(titles: seq<string>, placed: seq<Placed>, k: nat)
    requires Titles(titles) && k < Parts
    ensures KeyedParts(titles, placed, k) == KeyedHead(titles, placed, k) + KeyedParts(titles, placed, k + 1)
    ensures Present(placed, k + 1) == Present(placed, k) + |KeyedHead(titles, placed, k)|
  {
  }

  /** The buckets of the keys from `k` on, one after the other. */
  function BucketsFrom(placed: seq<Placed>, k: nat): seq<Chapter>
    requires k <= Parts
    decreases Parts - k
  {
    if k == Parts then [] else Bucket(k, placed) + BucketsFrom(placed, k + 1)
  }

  /** The chapters of the emitted parts are the buckets in key order. */
  lemma {:induction false} KeyedPartsChapters(titles: seq<string>, placed: seq<Placed>, k: nat)
    requires Titles(titles) && k <= Parts
    ensures AllChapters(KeyedParts(titles, placed, k)) == BucketsFrom(placed, k)
    decreases Parts - k
  {
    if k < Parts {
      KeyedPartsChapters(titles, placed, k + 1);
      var b := Bucket(k, placed);
      var head := if |b| > 0 then [Part(Some(titles[k]), None, b)] else [];
      AllChaptersConcat(head, KeyedParts(titles, placed, k + 1));
      if |b| > 0 {
        assert AllChapters(head) == b + AllChapters(head[1..]);
      }
    }
  }

  /** How many times `x` occurs in `s`. */
  function Occ<T(==)>(x: T, s: seq<T>): nat
    decreases |s|
  {
    if |s| == 0 then 0 else (if s[0] == x then 1 else 0) + Occ(x, s[1..])
  }

  lemma {:induction false} OccMultiset<T>(x: T, s: seq<T>)
    ensures Occ(x, s) == multiset(s)[x]
    decreases |s|
  {
    if |s| > 0 {
      OccMultiset(x, s[1..]);
      assert s == [s[0]] + s[1..];
    }
  }

  lemma {:induction false} OccConcat<T>(x: T, a: seq<T>, b: seq<T>)
    ensures Occ(x, a + b) == Occ(x, a) + Occ(x, b)
    decreases |a|
  {
    if |a| == 0 {
      assert a + b == b;
    } else {
      assert (a + b)[0] == a[0] && (a + b)[1..] == a[1..] + b;
      OccConcat(x, a[1..], b);
    }
  }

  /** One placement, seen from the buckets of the keys from `k` on: its
      chapter shows up once more if its key is among them, and no more
      otherwise. */
  lemma {:induction false} BucketsFromCons(p: Placed, rest: seq<Placed>, k: nat, x: Chapter)
    requires k <= Parts
    ensures Occ(x, BucketsFrom([p] + rest, k))
            == Occ(x, BucketsFrom(rest, k)) + (if k <= p.part < Parts && p.chapter == x then 1 else 0)
    decreases Parts - k
  {
    if k < Parts {
      BucketsFromCons(p, rest, k + 1, x);
      var placed := [p] + rest;
      assert placed[0] == p && placed[1..] == rest;
      OccConcat(x, Bucket(k, placed), BucketsFrom(placed, k + 1));
      OccConcat(x, Bucket(k, rest), BucketsFrom(rest, k + 1));
      if p.part == k {
        OccConcat(x, [p.chapter], Bucket(k, rest));
      }
    }
  }

  /** Every placed chapter of a known part is in exactly one bucket. */
  lemma {:induction false} BucketsFromPlaced(placed: seq<Placed>, x: Chapter)
    requires KnownParts(placed)
    ensures Occ(x, BucketsFrom(placed, 0)) == Occ(x, Chapters(placed))
    decreases |placed|
  {
    if |placed| > 0 {
      var p, rest := placed[0], placed[1..];
      assert KnownParts(rest) by {
        forall i | 0 <= i < |rest| ensures rest[i].part < Parts {
          assert rest[i] == placed[i + 1];
        }
      }
      BucketsFromPlaced(rest, x);
      assert placed == [p] + rest;
      BucketsFromCons(p, rest, 0, x);
      assert p.part < Parts;
    } else {
      BucketsFromEmpty(placed, 0);
    }
  }

  lemma {:induction false} BucketsFromEmpty(placed: seq<Placed>, k: nat)
    requires |placed| == 0 && k <= Parts
    ensures BucketsFrom(placed, k) == []
    decreases Parts - k
  {
    if k < Parts {
      BucketsFromEmpty(placed, k + 1);
    }
  }

  /** Every placed chapter lands in exactly one emitted part, and nothing
      else does: the chapters of the five parts are the placed chapters,
      regrouped by part. */
  lemma ChaptersPreserved(titles: seq<string>, placed: seq<Placed>)
    requires Titles(titles) && KnownParts(placed)
    ensures multiset(AllChapters(KeyedParts(titles, placed, 0))) == multiset(Chapters(placed))
  {
    KeyedPartsChapters(titles, placed, 0);
    forall x: Chapter
      ensures multiset(AllChapters(KeyedParts(titles, placed, 0)))[x] == multiset(Chapters(placed))[x]
    {
      BucketsFromPlaced(placed, x);
      OccMultiset(x, BucketsFrom(placed, 0));
      OccMultiset(x, Chapters(placed));
    }
  }

  /** The assembled book holds the special sections' chapters and every
      placed chapter, each exactly once. */
  lemma AssembleChapters(s: FrontMatter.Sections, placed: seq<Placed>)
    requires KnownParts(placed)
    ensures multiset(AllChapters(Assemble(s, placed)))
            == multiset(AllChapters(SpecialParts(s))) + multiset(Chapters(placed))
  {
    PartTitlesOk();
    ChaptersPreserved(PartTitles, placed);
    AllChaptersConcat(SpecialParts(s), KeyedParts(PartTitles, placed, 0));
  }

  /** Every placed chapter is counted once by the five buckets. */
  lemma BucketsCover(placed: seq<Placed>)
    requires KnownParts(placed)
    ensures |Bucket(0, placed)| + |Bucket(1, placed)| + |Bucket(2, placed)|
            + |Bucket(3, placed)| + |Bucket(4, placed)| == |placed|
  {
    PartTitlesOk();
    ChaptersPreserved(PartTitles, placed);
    KeyedPartsChapters(PartTitles, placed, 0);
    assert |multiset(BucketsFrom(placed, 0))| == |placed|;
  }

  /** Placing two runs of chapters fills each bucket with the first run's
      chapters followed by the second's: each part keeps placement order. */
  lemma {:induction false} BucketConcat(key: nat, a: seq<Placed>, b: seq<Placed>)
    ensures Bucket(key, a + b) == Bucket(key, a) + Bucket(key, b)
    decreases |a|
  {
    if |a| == 0 {
      assert a + b == b;
    } else {
      assert (a + b)[0] == a[0];
      assert (a + b)[1..] == a[1..] + b;
      BucketConcat(key, a[1..], b);
    }
  }

  /** Buckets keep placement order: the chapter placed at position `i`
      sits in its part right after the chapters placed in that part
      before it. */
  lemma BucketPosition(placed: seq<Placed>, i: nat)
    requires i < |placed|
    ensures |Bucket(placed[i].part, placed[..i])| < |Bucket(placed[i].part, placed)|
    ensures Bucket(placed[i].part, placed)[|Bucket(placed[i].part, placed[..i])|] == placed[i].chapter
  {
    var key := placed[i].part;
    assert placed == placed[..i] + ([placed[i]] + placed[i + 1..]);
    BucketConcat(key, placed[..i], [placed[i]] + placed[i + 1..]);
    assert ([placed[i]] + placed[i + 1..])[0] == placed[i];
    assert ([placed[i]] + placed[i + 1..])[1..] == placed[i + 1..];
  }

  /** Every chapter placed under a key is in that key's bucket. */
  lemma {:induction false} BucketHas(key: nat, placed: seq<Placed>, i: nat)
    requires i < |placed| && placed[i].part == key
    ensures placed[i].chapter in Bucket(key, placed)
    decreases i
  {
    if i > 0 {
      BucketHas(key, placed[1..], i - 1);
      assert placed[1..][i - 1] == placed[i];
    }
  }

  /** Every chapter of a bucket was placed under its key. */
  lemma {:induction false} BucketFrom(key: nat, placed: seq<Placed>, j: nat)
    requires j < |Bucket(key, placed)|
    ensures exists i :: 0 <= i < |placed| && placed[i].part == key && Bucket(key, placed)[j] == placed[i].chapter
    decreases |placed|
  {
    var rest := placed[1..];
    if placed[0].part == key && j == 0 {
      assert Bucket(key, placed)[0] == placed[0].chapter;
    } else {
      var j' := if placed[0].part == key then j - 1 else j;
      assert Bucket(key, placed)[j] == Bucket(key, rest)[j'];
      BucketFrom(key, rest, j');
      var i :| 0 <= i < |rest| && rest[i].part == key && Bucket(key, rest)[j'] == rest[i].chapter;
      assert placed[i + 1] == rest[i];
    }
  }

  // ---------------------------------------------------------------------
  // Positional placement
  // ---------------------------------------------------------------------

  /** Every row that the positional loop looks up names one of the five
      parts (`organized[csv['part']]` fails otherwise). */
  predicate RowsKnown(rows: seq<Row>, n: nat) {
    forall i :: 0 <= i < |rows| && i < n ==> KeyIndex(rows[i].part).Some?
  }

  /** The chapter a row places, with the row's title. */
  function PlaceRow(row: Row, content: seq<Item>): Placed
    requires KeyIndex(row.part).Some?
  {
    Placed(KeyIndex(row.part).value, Chapter(Some(ChapterTitle(row)), content))
  }

  /** The loop that gives the i-th chapter the i-th row's part and title,
      for as many rows and chapters as both lists have; the rest of the
      longer list is left out. */
  function Positional(rows: seq<Row>, contents: seq<seq<Item>>): (r: seq<Placed>)
    requires RowsKnown(rows, |contents|)
    ensures |r| == Min(|rows|, |contents|)
    ensures KnownParts(r)
    ensures forall i :: 0 <= i < |r| ==>
              KeyIndex(rows[i].part).Some? && r[i] == PlaceRow(rows[i], contents[i])
              && PartKeys[r[i].part] == rows[i].part
    decreases |rows|
  {
    if |rows| == 0 || |contents| == 0 then []
    else
      assert RowsKnown(rows[1..], |contents[1..]|) by {
        forall i | 0 <= i < |rows[1..]| && i < |contents[1..]| ensures KeyIndex(rows[1..][i].part).Some? {
          assert rows[1..][i] == rows[i + 1];
        }
      }
      [PlaceRow(rows[0], contents[0])] + Positional(rows[1..], contents[1..])
  }

  // ---------------------------------------------------------------------
  // Removing the title page
  // ---------------------------------------------------------------------

  /** `[s for s in structure if s.get('part_title') != 'TITLE PAGE']` */
  function RemoveTitlePage(ps: seq<Part>): (r: seq<Part>)
    ensures forall i :: 0 <= i < |r| ==> r[i].title != Some(TitlePage)
    ensures KeepFirst.IsSubseq(r, ps)
    decreases |ps|
  {
    if |ps| == 0 then []
    else if ps[0].title == Some(TitlePage) then RemoveTitlePage(ps[1..])
    else [ps[0]] + RemoveTitlePage(ps[1..])
  }

  lemma {:induction false} RemoveTitlePageConcat(a: seq<Part>, b: seq<Part>)
    ensures RemoveTitlePage(a + b) == RemoveTitlePage(a) + RemoveTitlePage(b)
    decreases |a|
  {
    if |a| == 0 {
      assert a + b == b;
    } else {
      assert (a + b)[1..] == a[1..] + b;
      RemoveTitlePageConcat(a[1..], b);
    }
  }

  lemma {:induction false} RemoveTitlePageNone(ps: seq<Part>)
    requires forall i :: 0 <= i < |ps| ==> ps[i].title != Some(TitlePage)
    ensures RemoveTitlePage(ps) == ps
    decreases |ps|
  {
    if |ps| > 0 {
      RemoveTitlePageNone(ps[1..]);
    }
  }

  lemma DropLeadingTitlePage(t: seq<Part>, others: seq<Part>)
    requires |t| == 0 || (|t| == 1 && t[0].title == Some(TitlePage))
    requires forall i :: 0 <= i < |others| ==> others[i].title != Some(TitlePage)
    ensures RemoveTitlePage(t + others) == others
  {
    RemoveTitlePageConcat(t, others);
    RemoveTitlePageNone(others);
    if |t| == 1 {
      assert RemoveTitlePage(t) == RemoveTitlePage(t[1..]) == [];
    }
  }

  lemma OtherSpecialsNoTitlePage(s: FrontMatter.Sections, keyed: seq<Part>)
    requires AllEmitted(keyed)
    ensures forall i :: 0 <= i < |OtherSpecials(s) + keyed| ==> (OtherSpecials(s) + keyed)[i].title != Some(TitlePage)
  {
  }

  /** Removing the title page from the assembled structure gives the
      structure assembled without a title page: nothing else goes. */
  lemma RemoveTitlePageOnlyFront(s: FrontMatter.Sections, placed: seq<Placed>)
    ensures RemoveTitlePage(Assemble(s, placed)) == Assemble(s.(titlePage := []), placed)
  {
    PartTitlesOk();
    RemoveTitlePageWith(PartTitles, s, placed);
  }

  lemma RemoveTitlePageWith(titles: seq<string>, s: FrontMatter.Sections, placed: seq<Placed>)
    requires Titles(titles)
    ensures RemoveTitlePage(AssembleWith(titles, s, placed)) == AssembleWith(titles, s.(titlePage := []), placed)
  {
    var keyed := KeyedParts(titles, placed, 0);
    KeyedPartsShape(titles, placed, 0);
    OtherSpecialsNoTitlePage(s, keyed);
    AssembleWithIs(titles, s, placed);
    AssembleWithIs(titles, s.(titlePage := []), placed);
    NoTitlePageSpecials(s);
    DropLeadingTitlePage(SectionIf(TitlePage, s.titlePage), OtherSpecials(s) + keyed);
  }

  /** The assembled structure, split into the title page, the other
      special sections and the parts. */
  lemma AssembleWithIs(titles: seq<string>, s: FrontMatter.Sections, placed: seq<Placed>)
    requires Titles(titles)
    ensures AssembleWith(titles, s, placed)
            == SectionIf(TitlePage, s.titlePage) + (OtherSpecials(s) + KeyedParts(titles, placed, 0))
  {
    PartsAssoc(SectionIf(TitlePage, s.titlePage), OtherSpecials(s), KeyedParts(titles, placed, 0));
  }

  lemma PartsAssoc(a: seq<Part>, b: seq<Part>, c: seq<Part>)
    ensures a + b + c == a + (b + c)
  {
  }

  /** Without a title page the special sections are the other two. */
  lemma NoTitlePageSpecials(s: FrontMatter.Sections)
    ensures SpecialParts(s.(titlePage := [])) == OtherSpecials(s)
  {
  }
}
