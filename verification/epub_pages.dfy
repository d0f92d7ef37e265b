/** The chapter pages of scripts/epub_processing/gerar_epub_atualizado.py
    (`create_xhtml_content`) and its scan of the book for a dedicatory
    prayer and a preface.  A page is the list of its body elements; the
    XML serialisation and the style sheet are not modelled. */
module EpubPages {
  import opened Wrappers
  import opened Text
  import opened Book
  import Decimal

  // ---------------------------------------------------------------------
  // create_xhtml_content
  // ---------------------------------------------------------------------

  /** One element of the page body: its tag, its `class` and its text. */
  datatype Element = Element(tag: string, cls: Option<string>, text: string)

  /** The `<title>` of the head and the elements of the body. */
  datatype Page = Page(title: string, body: seq<Element>)

  /** `f"Parte {part_num} - Capítulo {chapter_num}"` for Portuguese,
      `f"Part {part_num} - Chapter {chapter_num}"` otherwise. */
  function PageTitle(pt: bool, partNum: nat, chapterNum: nat): string {
    if pt then "Parte " + Decimal.Dec(partNum) + " - Capítulo " + Decimal.Dec(chapterNum)
    else "Part " + Decimal.Dec(partNum) + " - Chapter " + Decimal.Dec(chapterNum)
  }

  /** The element an item becomes: `h1`, `h2` and `h3` are kept, any other
      type (or none, read as `'p'`) becomes a paragraph. */
  function TagOf(it: Item): string {
    if it.kind == Some("h1") || it.kind == Some("h2") || it.kind == Some("h3") then it.kind.value else "p"
  }

  /** The elements of the items: a blank item is skipped, any other gives
      its stripped text. */
  function ItemElements(items: seq<Item>): seq<Element>
    decreases |items|
  {
    if |items| == 0 then [] else ItemElement(items[0]) + ItemElements(items[1..])
  }

  /** The element of one item: none when it is blank, otherwise its tag and
      its stripped text. */
  function ItemElement(it: Item): seq<Element> {
    var t := Strip(it.Content());
    if t == "" then [] else [Element(TagOf(it), None, t)]
  }

  /** `if chapter_data.get('chapter_title')`: an `h1` of class
      `chapter-title` for a title that is present and not empty. */
  function TitleElements(c: Chapter): seq<Element> {
    if c.title.Some? && c.title.value != "" then [Element("h1", Some("chapter-title"), c.title.value)] else []
  }

  /** The `body` of a chapter's page: its heading and its items. */
  function ChapterBody(c: Chapter): seq<Element> {
    TitleElements(c) + ItemElements(c.content)
  }

  /** `create_xhtml_content(chapter, chapter_num, part_num, lang)` */
  function CreateXhtml(c: Chapter, chapterNum: nat, partNum: nat, pt: bool): Page {
    Page(PageTitle(pt, partNum, chapterNum), ChapterBody(c))
  }

  /** How many items have content that is not blank. */
  function Shown(items: seq<Item>): nat
    decreases |items|
  {
    if |items| == 0 then 0 else (if IsBlank(items[0].Content()) then 0 else 1) + Shown(items[1..])
  }

  /** The item elements of a list are those of its pieces, one after the
      other. */
  lemma {:induction false} ItemElementsConcat(a: seq<Item>, b: seq<Item>)
    ensures ItemElements(a + b) == ItemElements(a) + ItemElements(b)
    decreases |a|
  {
    if |a| == 0 {
      assert a + b == b;
    } else {
      assert (a + b)[0] == a[0];
      assert (a + b)[1..] == a[1..] + b;
      ItemElementsConcat(a[1..], b);
      ElementsAssoc(ItemElement(a[0]), ItemElements(a[1..]), ItemElements(b));
    }
  }

  lemma ElementsAssoc(a: seq<Element>, b: seq<Element>, c: seq<Element>)
    ensures a + b + c == a + (b + c)
  {
  }

  /** A single item gives nothing when blank, and otherwise one element: its
      tag and its stripped text, with no class.  With the concatenation
      lemma this determines the elements of every list. */
  lemma ItemElementsOne(it: Item)
    ensures IsBlank(it.Content()) ==> ItemElements([it]) == []
    ensures !IsBlank(it.Content()) ==> ItemElements([it]) == [Element(TagOf(it), None, Strip(it.Content()))]
  {
    assert [it][1..] == [];
  }

  /** One element per item that is not blank; each has a tag among `h1`,
      `h2`, `h3`, `p`, no class and text that is not empty and already
      stripped. */
  lemma {:induction false} ItemElementsFacts(items: seq<Item>)
    ensures |ItemElements(items)| == Shown(items)
    ensures forall e :: e in ItemElements(items) ==>
              e.tag in {"h1", "h2", "h3", "p"} && e.cls == None && e.text != "" && Strip(e.text) == e.text
    decreases |items|
  {
    if |items| > 0 {
      ItemElementsFacts(items[1..]);
      var t := Strip(items[0].Content());
      if t != "" {
        StripFixed(t);
      }
    }
  }

  /** The body is the chapter heading (present exactly when the title is
      present and not empty) followed by the item elements. */
  lemma PageBody(c: Chapter, chapterNum: nat, partNum: nat, pt: bool)
    ensures var body := CreateXhtml(c, chapterNum, partNum, pt).body;
            && (c.title.Some? && c.title.value != "" <==> |body| > 0 && body[0].cls == Some("chapter-title"))
            && body[|TitleElements(c)|..] == ItemElements(c.content)
  {
    ItemElementsFacts(c.content);
    var body := CreateXhtml(c, chapterNum, partNum, pt).body;
    if !(c.title.Some? && c.title.value != "") && |body| > 0 {
      assert body[0] in ItemElements(c.content);
    }
  }

  // ---------------------------------------------------------------------
  // Looking for the dedicatory prayer and the preface
  // ---------------------------------------------------------------------

  /** The upper-cased text names the dedicatory prayer, in Portuguese or in
      English. */
  predicate PrayerText(t: string) {
    var u := Upper(t);
    (Contains(u, "ORAÇÃO") && Contains(u, "DEDICATÓRIA")) || (Contains(u, "DEDICATORY") && Contains(u, "PRAYER"))
  }

  /** The upper-cased title names the preface. */
  predicate PrefaceTitle(t: string) {
    var u := Upper(t);
    Contains(u, "PREFÁCIO") || Contains(u, "PREFACE")
  }

  /** An item names the preface and is short enough to be a heading. */
  predicate PrefaceItem(t: string) {
    PrefaceTitle(t) && |Strip(Upper(t))| < 200
  }

  /** `has_prayer_in_json` and `has_preface_in_json`. */
  datatype Flags = Flags(prayer: bool, preface: bool) {
    predicate Done() { prayer && preface }

    function Or(g: Flags): Flags { Flags(prayer || g.prayer, preface || g.preface) }
  }

  function TitleFlags(t: string): Flags {
    Flags(PrayerText(t), PrefaceTitle(t))
  }

  function ItemFlags(t: string): Flags {
    Flags(PrayerText(t), PrefaceItem(t))
  }

  /** The loop over a chapter's items, left as soon as both are found. */
  function ScanItems(items: seq<Item>, f: Flags): Flags
    decreases |items|
  {
    if |items| == 0 then f
    else
      var g := f.Or(ItemFlags(items[0].Content()));
      if g.Done() then g else ScanItems(items[1..], g)
  }

  /** The loop over a part's chapters: the title, then the items. */
  function ScanChapters(cs: seq<Chapter>, f: Flags): Flags
    decreases |cs|
  {
    if |cs| == 0 then f
    else
      var g := ScanItems(cs[0].content, f.Or(TitleFlags(cs[0].Title())));
      if g.Done() then g else ScanChapters(cs[1..], g)
  }

  /** The loop over the parts: the title, then the chapters. */
  function ScanParts(ps: seq<Part>, f: Flags): Flags
    decreases |ps|
  {
    if |ps| == 0 then f
    else
      var g := ScanChapters(ps[0].chapters, f.Or(TitleFlags(ps[0].Title())));
      if g.Done() then g else ScanParts(ps[1..], g)
  }

  /** The detection at the start of `generate_epub`. */
  function DetectFlags(ps: seq<Part>): Flags {
    ScanParts(ps, Flags(false, false))
  }

  /** What one flag looks for: in titles and in item texts. */
  datatype Detector = Detector(onTitle: string -> bool, onItem: string -> bool)

  const Prayer := Detector(PrayerText, PrayerText)
  const Preface := Detector(PrefaceTitle, PrefaceItem)

  /** Some title of a part or chapter, or some item text, is what `d` looks
      for. */
  predicate AnyIn(ps: seq<Part>, d: Detector) {
    || (exists p :: p in ps && d.onTitle(p.Title()))
    || (exists c :: c in AllChapters(ps) && d.onTitle(c.Title()))
    || (exists it :: it in AllItems(ps) && d.onItem(it.Content()))
  }

  function FoldItems(items: seq<Item>, d: Detector): bool
    decreases |items|
  {
    |items| > 0 && (d.onItem(items[0].Content()) || FoldItems(items[1..], d))
  }

  function FoldChapters(cs: seq<Chapter>, d: Detector): bool
    decreases |cs|
  {
    |cs| > 0 && (d.onTitle(cs[0].Title()) || FoldItems(cs[0].content, d) || FoldChapters(cs[1..], d))
  }

  function FoldParts(ps: seq<Part>, d: Detector): bool
    decreases |ps|
  {
    |ps| > 0 && (d.onTitle(ps[0].Title()) || FoldChapters(ps[0].chapters, d) || FoldParts(ps[1..], d))
  }

  function FoldFlags(ps: seq<Part>): Flags {
    Flags(FoldParts(ps, Prayer), FoldParts(ps, Preface))
  }

  lemma {:induction false} FoldItemsAny(items: seq<Item>, d: Detector)
    ensures FoldItems(items, d) <==> exists it :: it in items && d.onItem(it.Content())
    decreases |items|
  {
    if |items| > 0 {
      FoldItemsAny(items[1..], d);
      assert items == [items[0]] + items[1..];
    }
  }

  lemma {:induction false} FoldChaptersAny(cs: seq<Chapter>, d: Detector)
    ensures FoldChapters(cs, d) <==>
              (exists c :: c in cs && d.onTitle(c.Title())) || (exists it :: it in ChapterItems(cs) && d.onItem(it.Content()))
    decreases |cs|
  {
    if |cs| > 0 {
      FoldChaptersAny(cs[1..], d);
      FoldItemsAny(cs[0].content, d);
      assert cs == [cs[0]] + cs[1..];
      assert ChapterItems(cs) == cs[0].content + ChapterItems(cs[1..]);
    }
  }

  lemma {:induction false} FoldPartsAny(ps: seq<Part>, d: Detector)
    ensures FoldParts(ps, d) <==> AnyIn(ps, d)
    decreases |ps|
  {
    if |ps| > 0 {
      FoldPartsAny(ps[1..], d);
      FoldChaptersAny(ps[0].chapters, d);
      assert ps == [ps[0]] + ps[1..];
      assert AllChapters(ps) == ps[0].chapters + AllChapters(ps[1..]);
      assert AllItems(ps) == ChapterItems(ps[0].chapters) + AllItems(ps[1..]);
    }
  }

  /** Leaving a loop once both flags are set changes nothing: the scan is
      the flags it started with, or-ed with what the items hold. */
  lemma {:induction false} ScanItemsOr(items: seq<Item>, f: Flags)
    ensures ScanItems(items, f) == f.Or(Flags(FoldItems(items, Prayer), FoldItems(items, Preface)))
    decreases |items|
  {
    if |items| > 0 {
      var g := f.Or(ItemFlags(items[0].Content()));
      if !g.Done() {
        ScanItemsOr(items[1..], g);
      }
    }
  }

  lemma {:induction false} ScanChaptersOr(cs: seq<Chapter>, f: Flags)
    ensures ScanChapters(cs, f) == f.Or(Flags(FoldChapters(cs, Prayer), FoldChapters(cs, Preface)))
    decreases |cs|
  {
    if |cs| > 0 {
      var h := f.Or(TitleFlags(cs[0].Title()));
      ScanItemsOr(cs[0].content, h);
      var g := ScanItems(cs[0].content, h);
      if !g.Done() {
        ScanChaptersOr(cs[1..], g);
      }
    }
  }

  lemma {:induction false} ScanPartsOr(ps: seq<Part>, f: Flags)
    ensures ScanParts(ps, f) == f.Or(FoldFlags(ps))
    decreases |ps|
  {
    if |ps| > 0 {
      var h := f.Or(TitleFlags(ps[0].Title()));
      ScanChaptersOr(ps[0].chapters, h);
      var g := ScanChapters(ps[0].chapters, h);
      if !g.Done() {
        ScanPartsOr(ps[1..], g);
      }
    }
  }

  /** The prayer flag is set exactly when some title or item text names the
      dedicatory prayer; the preface flag exactly when some title names the
      preface or some short item does. */
  lemma DetectFlagsSpec(ps: seq<Part>)
    ensures DetectFlags(ps).prayer <==> AnyIn(ps, Prayer)
    ensures DetectFlags(ps).preface <==> AnyIn(ps, Preface)
  {
    ScanPartsOr(ps, Flags(false, false));
    FoldPartsAny(ps, Prayer);
    FoldPartsAny(ps, Preface);
  }
}
