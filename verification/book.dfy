/** The in-memory book every script reads and writes: a list of parts, each
    with a `part_title`, an optional `part_subtitle` and `chapters`; each
    chapter with a `chapter_title` and a `content` list; each content item a
    dict with `type`, `content` and an optional `word_count`.  A key that may
    be absent is an `Option`. */
module Book {
  import opened Wrappers
  import Text

  datatype Item = Item(kind: Option<string>, text: Option<string>, wordCount: Option<int>) {
    /** `item.get('content', '')` */
    function Content(): string { text.GetOr("") }

    /** `item.get('type') == 'p'` */
    predicate IsP() { kind == Some("p") }
  }

  datatype Chapter = Chapter(title: Option<string>, content: seq<Item>) {
    /** `chapter.get('chapter_title', '')` */
    function Title(): string { title.GetOr("") }
  }

  datatype Part = Part(title: Option<string>, subtitle: Option<string>, chapters: seq<Chapter>) {
    /** `part.get('part_title', '')` */
    function Title(): string { title.GetOr("") }
  }

  /** A `{"type": "p", "content": text}` paragraph. */
  function Paragraph(text: string): Item {
    Item(Some("p"), Some(text), None)
  }

  /** A section with one chapter, the shape every assembly writes:
      `{"part_title": t, "chapters": [{"chapter_title": t, "content": c}]}`. */
  function Section(title: string, content: seq<Item>): Part {
    Part(Some(title), None, [Chapter(Some(title), content)])
  }

  // ---------------------------------------------------------------------
  // Flattening, part -> chapter -> item order
  // ---------------------------------------------------------------------

  function ChapterItems(cs: seq<Chapter>): seq<Item>
    decreases |cs|
  {
    if |cs| == 0 then [] else cs[0].content + ChapterItems(cs[1..])
  }

  function AllChapters(ps: seq<Part>): seq<Chapter>
    decreases |ps|
  {
    if |ps| == 0 then [] else ps[0].chapters + AllChapters(ps[1..])
  }

  /** Every content item of the book, in reading order. */
  function AllItems(ps: seq<Part>): seq<Item>
    decreases |ps|
  {
    if |ps| == 0 then [] else ChapterItems(ps[0].chapters) + AllItems(ps[1..])
  }

  lemma {:induction false} AllItemsViaChapters(ps: seq<Part>)
    ensures AllItems(ps) == ChapterItems(AllChapters(ps))
    decreases |ps|
  {
    if |ps| > 0 {
      AllItemsViaChapters(ps[1..]);
      ChapterItemsConcat(ps[0].chapters, AllChapters(ps[1..]));
    }
  }

  lemma {:induction false} ChapterItemsConcat(a: seq<Chapter>, b: seq<Chapter>)
    ensures ChapterItems(a + b) == ChapterItems(a) + ChapterItems(b)
    decreases |a|
  {
    if |a| == 0 {
      assert a + b == b;
    } else {
      assert (a + b)[1..] == a[1..] + b;
      ChapterItemsConcat(a[1..], b);
    }
  }

  lemma {:induction false} AllChaptersConcat(a: seq<Part>, b: seq<Part>)
    ensures AllChapters(a + b) == AllChapters(a) + AllChapters(b)
    decreases |a|
  {
    if |a| == 0 {
      assert a + b == b;
    } else {
      assert (a + b)[1..] == a[1..] + b;
      AllChaptersConcat(a[1..], b);
    }
  }

  // ---------------------------------------------------------------------
  // Field-wise rewriting of a whole book
  // ---------------------------------------------------------------------

  /** A pass that rewrites every part title, chapter title and item on its
      own, leaving the nesting alone. */
  datatype Rewrite = Rewrite(partTitle: Option<string> -> Option<string>,
                             chapterTitle: Option<string> -> Option<string>,
                             item: Item -> Item)

  function MapItems(items: seq<Item>, f: Item -> Item): (r: seq<Item>)
    ensures |r| == |items|
    ensures forall i :: 0 <= i < |items| ==> r[i] == f(items[i])
  {
    seq(|items|, i requires 0 <= i < |items| => f(items[i]))
  }

  function MapChapter(c: Chapter, rw: Rewrite): Chapter {
    Chapter(rw.chapterTitle(c.title), MapItems(c.content, rw.item))
  }

  function MapChapters(cs: seq<Chapter>, rw: Rewrite): (r: seq<Chapter>)
    ensures |r| == |cs|
    ensures forall i :: 0 <= i < |cs| ==> r[i] == MapChapter(cs[i], rw)
  {
    seq(|cs|, i requires 0 <= i < |cs| => MapChapter(cs[i], rw))
  }

  function MapPart(p: Part, rw: Rewrite): Part {
    Part(rw.partTitle(p.title), p.subtitle, MapChapters(p.chapters, rw))
  }

  /** Apply a field-wise rewrite to every part, chapter and item. */
  function MapBook(ps: seq<Part>, rw: Rewrite): (r: seq<Part>)
    ensures |r| == |ps|
    ensures forall i :: 0 <= i < |ps| ==> r[i] == MapPart(ps[i], rw)
  {
    seq(|ps|, i requires 0 <= i < |ps| => MapPart(ps[i], rw))
  }

  /** Same number of parts, of chapters in each part and of items in each
      chapter. */
  predicate SameShape(a: seq<Part>, b: seq<Part>) {
    |a| == |b|
    && (forall i :: 0 <= i < |a| ==> |a[i].chapters| == |b[i].chapters|)
    && (forall i, j :: 0 <= i < |a| && 0 <= j < |a[i].chapters| ==>
          |a[i].chapters[j].content| == |b[i].chapters[j].content|)
  }

  lemma MapBookShape(ps: seq<Part>, rw: Rewrite)
    ensures SameShape(ps, MapBook(ps, rw))
  {
  }

  /** The items of the rewritten book are the rewritten items, in order. */
  lemma {:induction false} MapBookItems(ps: seq<Part>, rw: Rewrite)
    ensures AllItems(MapBook(ps, rw)) == MapItems(AllItems(ps), rw.item)
    decreases |ps|
  {
    if |ps| > 0 {
      MapBookItems(ps[1..], rw);
      assert MapBook(ps, rw)[1..] == MapBook(ps[1..], rw);
      MapChaptersItems(ps[0].chapters, rw);
      MapItemsConcat(ChapterItems(ps[0].chapters), AllItems(ps[1..]), rw.item);
    }
  }

  lemma {:induction false} MapChaptersItems(cs: seq<Chapter>, rw: Rewrite)
    ensures ChapterItems(MapChapters(cs, rw)) == MapItems(ChapterItems(cs), rw.item)
    decreases |cs|
  {
    if |cs| > 0 {
      MapChaptersItems(cs[1..], rw);
      assert MapChapters(cs, rw)[1..] == MapChapters(cs[1..], rw);
      MapItemsConcat(cs[0].content, ChapterItems(cs[1..]), rw.item);
    }
  }

  lemma MapItemsConcat(a: seq<Item>, b: seq<Item>, f: Item -> Item)
    ensures MapItems(a + b, f) == MapItems(a, f) + MapItems(b, f)
  {
  }

  /** Two rewrites that agree on every field give the same book. */
  lemma MapBookAgree(ps: seq<Part>, a: Rewrite, b: Rewrite)
    requires forall t :: a.partTitle(t) == b.partTitle(t)
    requires forall t :: a.chapterTitle(t) == b.chapterTitle(t)
    requires forall it :: a.item(it) == b.item(it)
    ensures MapBook(ps, a) == MapBook(ps, b)
  {
    forall i | 0 <= i < |ps| ensures MapPart(ps[i], a) == MapPart(ps[i], b) {
      forall j | 0 <= j < |ps[i].chapters|
        ensures MapChapter(ps[i].chapters[j], a) == MapChapter(ps[i].chapters[j], b)
      {
        assert MapItems(ps[i].chapters[j].content, a.item) == MapItems(ps[i].chapters[j].content, b.item);
      }
      assert MapChapters(ps[i].chapters, a) == MapChapters(ps[i].chapters, b);
    }
  }

  /** Counting over a book: `part`, `chapter` and `item` say how much each
      field contributes. */
  datatype Tally = Tally(part: Part -> nat, chapter: Chapter -> nat, item: Item -> nat)

  function SumItems(items: seq<Item>, f: Item -> nat): nat
    decreases |items|
  {
    if |items| == 0 then 0 else f(items[0]) + SumItems(items[1..], f)
  }

  function SumChapters(cs: seq<Chapter>, t: Tally): nat
    decreases |cs|
  {
    if |cs| == 0 then 0 else t.chapter(cs[0]) + SumItems(cs[0].content, t.item) + SumChapters(cs[1..], t)
  }

  function SumBook(ps: seq<Part>, t: Tally): nat
    decreases |ps|
  {
    if |ps| == 0 then 0 else t.part(ps[0]) + SumChapters(ps[0].chapters, t) + SumBook(ps[1..], t)
  }

  lemma {:induction false} SumItemsConcat(a: seq<Item>, b: seq<Item>, f: Item -> nat)
    ensures SumItems(a + b, f) == SumItems(a, f) + SumItems(b, f)
    decreases |a|
  {
    if |a| == 0 {
      assert a + b == b;
    } else {
      assert (a + b)[1..] == a[1..] + b;
      SumItemsConcat(a[1..], b, f);
    }
  }

  /** With nothing counted on titles, a book sum is the sum over its items. */
  lemma {:induction false} SumBookItems(ps: seq<Part>, f: Item -> nat)
    ensures SumBook(ps, Tally(_ => 0, _ => 0, f)) == SumItems(AllItems(ps), f)
    decreases |ps|
  {
    if |ps| > 0 {
      SumBookItems(ps[1..], f);
      SumChaptersItems(ps[0].chapters, f);
      SumItemsConcat(ChapterItems(ps[0].chapters), AllItems(ps[1..]), f);
    }
  }

  lemma {:induction false} SumChaptersItems(cs: seq<Chapter>, f: Item -> nat)
    ensures SumChapters(cs, Tally(_ => 0, _ => 0, f)) == SumItems(ChapterItems(cs), f)
    decreases |cs|
  {
    if |cs| > 0 {
      SumChaptersItems(cs[1..], f);
      SumItemsConcat(cs[0].content, ChapterItems(cs[1..]), f);
    }
  }
}
