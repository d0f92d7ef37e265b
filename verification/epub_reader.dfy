/** Reading an EPUB back into the book: scripts/epub_processing/
    epub_to_json_processor.py (the `EpubToJsonProcessor` class, with its
    running totals and `word_count` on every item) and
    scripts/epub_processing/process_epub_from_file.py (the same walk without
    counts).  Unzipping, the directory walk and the HTML parser are inputs:
    the walk is a list of paths and names, and loading a file gives its
    heading text and its elements in document order, or nothing when
    reading or parsing raises. */
module EpubReader {
  import opened Wrappers
  import opened Text
  import opened Book
  import Decimal
  import opened PathOrder

  // ---------------------------------------------------------------------
  // find_content_files
  // ---------------------------------------------------------------------

  /** `os.path.join(root, file)` and `file`, for each file of the walk. */
  datatype WalkEntry = WalkEntry(path: string, name: string)

  /** An XML, XHTML or HTML file whose lower-cased name mentions `content`
      or `chapter`. */
  predicate IsContentName(name: string) {
    (EndsWith(name, ".xml") || EndsWith(name, ".xhtml") || EndsWith(name, ".html"))
    && (Contains(Lower(name), "content") || Contains(Lower(name), "chapter"))
  }

  /** The paths of the content files, in walk order. */
  function ContentPaths(walk: seq<WalkEntry>): (r: seq<string>)
    ensures forall p :: p in r <==> exists e :: e in walk && IsContentName(e.name) && e.path == p
    decreases |walk|
  {
    if |walk| == 0 then []
    else
      var rest := ContentPaths(walk[1..]);
      assert forall e :: e in walk <==> e == walk[0] || e in walk[1..];
      (if IsContentName(walk[0].name) then [walk[0].path] else []) + rest
  }

  /** `find_content_files`: the content files of the walk, sorted. */
  function FindContentFiles(walk: seq<WalkEntry>): seq<string> {
    SortPaths(ContentPaths(walk))
  }

  /** The files found are the content files of the walk, each as often as
      the walk lists it, in ascending order. */
  lemma FindContentFilesSpec(walk: seq<WalkEntry>)
    ensures var r := FindContentFiles(walk);
            && SortedPaths(r)
            && multiset(r) == multiset(ContentPaths(walk))
            && forall p :: p in r <==> exists e :: e in walk && IsContentName(e.name) && e.path == p
  {
    SortSpec(ContentPaths(walk));
  }

  /** The order of the walk does not matter: two walks listing the same
      content files find the same list. */
  lemma FindContentFilesOrderFree(w1: seq<WalkEntry>, w2: seq<WalkEntry>)
    requires multiset(ContentPaths(w1)) == multiset(ContentPaths(w2))
    ensures FindContentFiles(w1) == FindContentFiles(w2)
  {
    SortSpec(ContentPaths(w1));
    SortSpec(ContentPaths(w2));
  }

  // ---------------------------------------------------------------------
  // Cleaning and counting
  // ---------------------------------------------------------------------

  /** `re.sub(r'\s+', ' ', text).strip()` */
  function Clean(t: string): string {
    Strip(CollapseSpaces(t))
  }

  /** A cleaned text has single spaces and none at either end, keeps the
      words of the input, and cleaning it again changes nothing. */
  lemma CleanFacts(t: string)
    ensures var c := Clean(t);
            && SingleSpaced(c) && (|c| > 0 ==> !IsSpace(c[0]) && !IsSpace(c[|c| - 1]))
            && Split(c) == Split(t)
            && Clean(c) == c
  {
    var c := Clean(t);
    StripSingleSpaced(CollapseSpaces(t));
    SplitStrip(CollapseSpaces(t));
    SplitCollapse(t);
    CollapseSpacesFixed(c);
    StripFixed(c);
  }

  /** `count_words`: the words of the text re-joined by single spaces and
      split again; 0 for an empty text. */
  function CountWords(text: string): nat {
    if text == "" then 0
    else
      var cleaned := Join(" ", Split(Strip(text)));
      if cleaned != "" then |Split(cleaned)| else 0
  }

  /** `count_words` is `len(text.split())`. */
  lemma CountWordsIs(text: string)
    ensures CountWords(text) == WordCount(text)
  {
    if text != "" {
      var ws := Split(Strip(text));
      SplitStrip(text);
      SplitOfJoin(ws);
      if Join(" ", ws) == "" {
        assert Split("") == [];
      }
    }
  }

  /** `process_content_item`: nothing for a text that cleans to 10
      characters or fewer; otherwise a paragraph of the cleaned text, with
      its word count when the reader records counts. */
  function ProcessItem(t: string, withCounts: bool): Option<Item> {
    var c := Clean(t);
    if c == "" || |c| <= 10 then None
    else Some(Item(Some("p"), Some(c), if withCounts then Some(CountWords(c)) else None))
  }

  /** What every item the readers make looks like. */
  predicate GoodItem(it: Item, withCounts: bool) {
    && it.kind == Some("p") && it.text.Some?
    && |it.Content()| > 10 && Clean(it.Content()) == it.Content() && SingleSpaced(it.Content())
    && it.wordCount == (if withCounts then Some(WordCount(it.Content()) as int) else None)
  }

  lemma ProcessItemSpec(t: string, withCounts: bool)
    ensures ProcessItem(t, withCounts).Some? <==> |Clean(t)| > 10
    ensures ProcessItem(t, withCounts).Some? ==>
              GoodItem(ProcessItem(t, withCounts).value, withCounts)
              && ProcessItem(t, withCounts).value.Content() == Clean(t)
              && WordCount(Clean(t)) == WordCount(t)
  {
    CleanFacts(t);
    CountWordsIs(Clean(t));
  }

  // ---------------------------------------------------------------------
  // Chapter headings
  // ---------------------------------------------------------------------

  /** One of `IVXLCDM`, in either case. */
  predicate IsRomanLetter(c: char) {
    LowerChar(c) in "ivxlcdm"
  }

  /** `re.match(r'^CHAPTER\s+X', t, re.IGNORECASE)` where `X` is a
      character class: `chapter` in any case, whitespace, then a character
      of the class. */
  predicate HeadingMatch(t: string, numeral: char -> bool) {
    |t| > 7 && Lower(t[..7]) == "chapter"
    && var rest := TrimStart(t[7..]);
       0 < |rest| < |t| - 7 && numeral(rest[0])
  }

  /** The position of the first non-whitespace character of `t` at or
      after `i`. */
  function SkipSpaces(t: string, i: nat): (j: nat)
    requires i <= |t|
    ensures i <= j <= |t|
    decreases |t| - i
  {
    if i < |t| && IsSpace(t[i]) then SkipSpaces(t, i + 1) else i
  }

  /** The same match, scanning `t` from the left. */
  predicate NumberedHeading(t: string, numeral: char -> bool) {
    |t| > 7 && (forall i :: 0 <= i < 7 ==> LowerChar(t[i]) == "chapter"[i])
    && var j := SkipSpaces(t, 7);
       7 < j < |t| && numeral(t[j])
  }

  lemma {:induction false} SkipSpacesTrim(t: string, i: nat)
    requires i <= |t|
    ensures TrimStart(t[i..]) == t[SkipSpaces(t, i)..]
    decreases |t| - i
  {
    if i < |t| && IsSpace(t[i]) {
      assert t[i..][1..] == t[i + 1..];
      SkipSpacesTrim(t, i + 1);
    }
  }

  /** The scan accepts exactly the titles the regular expression matches. */
  lemma NumberedHeadingMatches(t: string, numeral: char -> bool)
    ensures NumberedHeading(t, numeral) <==> HeadingMatch(t, numeral)
  {
    if |t| > 7 {
      SkipSpacesTrim(t, 7);
      var l := Lower(t[..7]);
      if forall i :: 0 <= i < 7 ==> LowerChar(t[i]) == "chapter"[i] {
        assert l == "chapter";
      }
      if l == "chapter" {
        forall i | 0 <= i < 7 ensures LowerChar(t[i]) == "chapter"[i] {
          assert l[i] == LowerChar(t[..7][i]);
        }
      }
    }
  }

  /** `is_chapter_title`: a `CHAPTER <roman>` or `Chapter <digit>` line, or
      a short `h1` or `h2`. */
  predicate IsChapterTitle(name: string, t: string) {
    NumberedHeading(t, IsRomanLetter) || NumberedHeading(t, IsDigit)
    || ((name == "h1" || name == "h2") && |t| < 100)
  }

  // ---------------------------------------------------------------------
  // Segmenting one file
  // ---------------------------------------------------------------------

  /** An element found by `find_all(['p', 'div', 'h1', 'h2', 'h3'])`: its
      tag and its `get_text()`. */
  datatype Element = Element(name: string, text: string)

  /** The processor's totals: words, content items, chapters, parts. */
  datatype Counters = Counters(words: nat, items: nat, chapters: nat, parts: nat)

  /** The chapters of the part being read and the running totals. */
  datatype Scan = Scan(chapters: seq<Chapter>, counters: Counters)

  /** `current_chapter["content"].append(item)`: the current chapter is
      always the last one made. */
  function AddItem(cs: seq<Chapter>, it: Item): (r: seq<Chapter>)
    requires |cs| > 0
  {
    cs[..|cs| - 1] + [Chapter(cs[|cs| - 1].title, cs[|cs| - 1].content + [it])]
  }

  /** What an element is to the loop: blank after stripping, a chapter
      heading, a paragraph with the item it gives (none when it cleans to
      10 characters or fewer), or something else, which is skipped. */
  datatype Kind = Blank | Heading(t: string) | Para(item: Option<Item>) | Other

  function Classify(e: Element, withCounts: bool): Kind {
    ClassifyText(e.name, Strip(e.text), withCounts)
  }

  /** The classification of an element with tag `name` and stripped text
      `t`. */
  function ClassifyText(name: string, t: string, withCounts: bool): Kind {
    if t == "" then Blank
    else if IsChapterTitle(name, t) then Heading(t)
    else if name == "p" then Para(ProcessItem(t, withCounts))
    else Other
  }

  /** The words an item adds to the total: `count_words` of its text. */
  function Words(it: Item): nat {
    CountWords(it.Content())
  }

  /** The body of the loop, once the element is classified: a heading
      opens a chapter; a paragraph first opens a `Content` chapter when
      there is none, then its item, if any, goes to the last chapter. */
  function StepKind(s: Scan, k: Kind): Scan {
    match k
    case Heading(t) =>
      Scan(s.chapters + [Chapter(Some(t), [])], s.counters.(chapters := s.counters.chapters + 1))
    case Para(item) =>
      var ready := if |s.chapters| == 0 then Scan([Chapter(Some("Content"), [])], s.counters.(chapters := s.counters.chapters + 1)) else s;
      (match item
       case None => ready
       case Some(it) =>
         Scan(AddItem(ready.chapters, it),
              ready.counters.(words := ready.counters.words + Words(it), items := ready.counters.items + 1)))
    case _ => s
  }

  /** What the elements of a file are to the loop, in document order. */
  function Kinds(els: seq<Element>, withCounts: bool): (r: seq<Kind>)
    ensures |r| == |els|
    decreases |els|
  {
    if |els| == 0 then [] else [Classify(els[0], withCounts)] + Kinds(els[1..], withCounts)
  }

  /** The loop over the classified elements. */
  function Fold(ks: seq<Kind>, s: Scan): Scan
    decreases |ks|
  {
    if |ks| == 0 then s else Fold(ks[1..], StepKind(s, ks[0]))
  }

  /** The loop over the elements of a file. */
  function Segment(els: seq<Element>, s: Scan, withCounts: bool): Scan {
    Fold(Kinds(els, withCounts), s)
  }

  function ItemOf(k: Kind): seq<Item> {
    if k.Para? && k.item.Some? then [k.item.value] else []
  }

  /** The items the elements give, in document order. */
  function Kept(ks: seq<Kind>): seq<Item>
    decreases |ks|
  {
    if |ks| == 0 then [] else ItemOf(ks[0]) + Kept(ks[1..])
  }

  function TitleOf(k: Kind): seq<Option<string>> {
    if k.Heading? then [Some(k.t)] else []
  }

  /** The headings among the elements, in document order. */
  function TitleTexts(ks: seq<Kind>): seq<Option<string>>
    decreases |ks|
  {
    if |ks| == 0 then [] else TitleOf(ks[0]) + TitleTexts(ks[1..])
  }

  /** A paragraph comes before the first heading, so a `Content` chapter
      is opened for it. */
  predicate OpensContent(ks: seq<Kind>)
    decreases |ks|
  {
    |ks| > 0 && !ks[0].Heading? && (ks[0].Para? || OpensContent(ks[1..]))
  }

  function Titles(cs: seq<Chapter>): (r: seq<Option<string>>)
    ensures |r| == |cs| && forall i :: 0 <= i < |cs| ==> r[i] == cs[i].title
  {
    seq(|cs|, i requires 0 <= i < |cs| => cs[i].title)
  }

  lemma ChapterItemsSnoc(init: seq<Chapter>, c: Chapter)
    ensures ChapterItems(init + [c]) == ChapterItems(init) + c.content
  {
    ChapterItemsConcat(init, [c]);
    assert [c][1..] == [];
  }

  lemma AddItemItems(cs: seq<Chapter>, it: Item)
    requires |cs| > 0
    ensures ChapterItems(AddItem(cs, it)) == ChapterItems(cs) + [it]
  {
    var init := cs[..|cs| - 1];
    var last := cs[|cs| - 1];
    var grown := Chapter(last.title, last.content + [it]);
    assert cs == init + [last];
    assert AddItem(cs, it) == init + [grown];
    ChapterItemsSnoc(init, last);
    ChapterItemsSnoc(init, grown);
    ItemsAssoc(ChapterItems(init), last.content, [it]);
  }

  lemma ItemsAssoc(a: seq<Item>, b: seq<Item>, c: seq<Item>)
    ensures a + b + c == a + (b + c)
  {
  }

  lemma AddItemTitles(cs: seq<Chapter>, it: Item)
    requires |cs| > 0
    ensures Titles(AddItem(cs, it)) == Titles(cs)
  {
    var r := AddItem(cs, it);
    assert forall k :: 0 <= k < |cs| ==> r[k].title == cs[k].title;
  }

  /** One step adds the element's item to the last chapter and counts it
      and its words. */
  lemma StepItems(s: Scan, k: Kind)
    ensures var r := StepKind(s, k);
            && ChapterItems(r.chapters) == ChapterItems(s.chapters) + ItemOf(k)
            && r.counters.items == s.counters.items + |ItemOf(k)|
            && r.counters.words == s.counters.words + SumItems(ItemOf(k), Words)
            && r.counters.parts == s.counters.parts
  {
    if k.Heading? {
      ChapterItemsSnoc(s.chapters, Chapter(Some(k.t), []));
    } else if k.Para? {
      var ready := if |s.chapters| == 0 then Scan([Chapter(Some("Content"), [])], s.counters.(chapters := s.counters.chapters + 1)) else s;
      assert ChapterItems(ready.chapters) == ChapterItems(s.chapters) by {
        if |s.chapters| == 0 {
          ChapterItemsSnoc([], Chapter(Some("Content"), []));
          assert [] + [Chapter(Some("Content"), [])] == ready.chapters;
        }
      }
      if k.item.Some? {
        var it := k.item.value;
        AddItemItems(ready.chapters, it);
        assert SumItems([it], Words) == Words(it);
      }
    }
  }

  /** One step opens the element's chapter: a heading's, or `Content`
      for a paragraph before any chapter. */
  lemma StepTitles(s: Scan, k: Kind)
    ensures var r := StepKind(s, k);
            && Titles(r.chapters) == Titles(s.chapters)
                 + (if |s.chapters| == 0 && k.Para? then [Some("Content")] else [])
                 + TitleOf(k)
            && r.counters.chapters + |s.chapters| == s.counters.chapters + |r.chapters|
  {
    if k.Para? && k.item.Some? {
      var ready := if |s.chapters| == 0 then Scan([Chapter(Some("Content"), [])], s.counters.(chapters := s.counters.chapters + 1)) else s;
      AddItemTitles(ready.chapters, k.item.value);
    }
  }

  /** The chapters of a file hold exactly the items `Kept` takes, in
      document order, and the totals count them and their words. */
  lemma {:induction false} FoldItems(ks: seq<Kind>, s: Scan)
    ensures var r := Fold(ks, s);
            && ChapterItems(r.chapters) == ChapterItems(s.chapters) + Kept(ks)
            && r.counters.items == s.counters.items + |Kept(ks)|
            && r.counters.words == s.counters.words + SumItems(Kept(ks), Words)
            && r.counters.parts == s.counters.parts
    decreases |ks|
  {
    if |ks| > 0 {
      StepItems(s, ks[0]);
      FoldItems(ks[1..], StepKind(s, ks[0]));
      SumItemsConcat(ItemOf(ks[0]), Kept(ks[1..]), Words);
    }
  }

  /** The chapters of a file are titled `Content` when a paragraph comes
      before any heading, then by the headings in order; the total counts
      them. */
  lemma {:induction false} FoldTitles(ks: seq<Kind>, s: Scan)
    ensures var r := Fold(ks, s);
            && Titles(r.chapters) == Titles(s.chapters)
                 + (if |s.chapters| == 0 && OpensContent(ks) then [Some("Content")] else [])
                 + TitleTexts(ks)
            && r.counters.chapters + |s.chapters| == s.counters.chapters + |r.chapters|
    decreases |ks|
  {
    if |ks| > 0 {
      var k := ks[0];
      var s1 := StepKind(s, k);
      StepTitles(s, k);
      FoldTitles(ks[1..], s1);
      var rest := TitleTexts(ks[1..]);
      if |s.chapters| == 0 && !k.Heading? && !k.Para? {
        assert s1 == s;
      } else {
        assert |s1.chapters| > 0;
        if !(|s.chapters| == 0 && k.Para?) {
          TitlesAssoc(Titles(s.chapters), TitleOf(k), rest);
        }
      }
    }
  }

  lemma TitlesAssoc(a: seq<Option<string>>, b: seq<Option<string>>, c: seq<Option<string>>)
    ensures a + b + c == a + (b + c)
  {
  }

  // ---------------------------------------------------------------------
  // Reading the files
  // ---------------------------------------------------------------------

  /** A content file as the parser gives it: the text of its first `h1`,
      `h2` or `title` element, if any, and its elements. */
  datatype Source = Source(heading: Option<string>, elements: seq<Element>)

  /** `part_title`: the stripped heading when it is not empty and shorter
      than 200 characters, otherwise `Part <i + 1>`. */
  function PartTitle(i: nat, heading: Option<string>): string {
    if heading.Some? && Strip(heading.value) != "" && |Strip(heading.value)| < 200 then Strip(heading.value)
    else "Part " + Decimal.Dec(i + 1)
  }

  /** The book so far and the totals. */
  datatype Read = Read(book: seq<Part>, counters: Counters)

  /** The part a file gives, when the elements opened any chapter. */
  function ReadFile(src: Source, i: nat, acc: Read, withCounts: bool): Read {
    var sc := Segment(src.elements, Scan([], acc.counters), withCounts);
    if |sc.chapters| > 0
    then Read(acc.book + [Part(Some(PartTitle(i, src.heading)), None, sc.chapters)], sc.counters.(parts := sc.counters.parts + 1))
    else Read(acc.book, sc.counters)
  }

  /** The loop over the content files; file `i` is skipped when it cannot
      be read, and its part is dropped when it has no chapters. */
  function ReadFiles(files: seq<Option<Source>>, i: nat, acc: Read, withCounts: bool): Read
    decreases |files|
  {
    if |files| == 0 then acc
    else
      var next := match files[0] case None => acc case Some(src) => ReadFile(src, i, acc, withCounts);
      ReadFiles(files[1..], i + 1, next, withCounts)
  }

  /** `process_epub_to_json`: nothing (`False`) when no content file is
      found; otherwise the book and the totals.  `load` reads and parses a
      file. */
  function ProcessEpub(walk: seq<WalkEntry>, load: string -> Option<Source>, withCounts: bool): Option<Read> {
    var paths := FindContentFiles(walk);
    if |paths| == 0 then None
    else Some(ReadFiles(seq(|paths|, k requires 0 <= k < |paths| => load(paths[k])), 0, Read([], Counters(0, 0, 0, 0)), withCounts))
  }

  /** The totals describe the book. */
  predicate Tallied(rd: Read) {
    rd.counters == Counters(SumItems(AllItems(rd.book), Words), |AllItems(rd.book)|, |AllChapters(rd.book)|, |rd.book|)
  }

  /** Every part has a title and at least one chapter, no subtitle, and
      every item is a reader's paragraph. */
  predicate WellRead(ps: seq<Part>, withCounts: bool) {
    && (forall i :: 0 <= i < |ps| ==> ps[i].title.Some? && ps[i].subtitle == None && |ps[i].chapters| > 0)
    && (forall it :: it in AllItems(ps) ==> GoodItem(it, withCounts))
  }

  lemma AppendPart(ps: seq<Part>, p: Part)
    ensures AllChapters(ps + [p]) == AllChapters(ps) + p.chapters
    ensures AllItems(ps + [p]) == AllItems(ps) + ChapterItems(p.chapters)
  {
    AllChaptersConcat(ps, [p]);
    assert AllChapters([p]) == p.chapters + AllChapters([]);
    AllItemsViaChapters(ps + [p]);
    AllItemsViaChapters(ps);
    ChapterItemsConcat(AllChapters(ps), p.chapters);
  }

  lemma ClassifyGood(e: Element, withCounts: bool)
    ensures forall it :: it in ItemOf(Classify(e, withCounts)) ==> GoodItem(it, withCounts)
  {
    ClassifyTextGood(e.name, Strip(e.text), withCounts);
  }

  lemma ClassifyTextGood(name: string, t: string, withCounts: bool)
    ensures forall it :: it in ItemOf(ClassifyText(name, t, withCounts)) ==> GoodItem(it, withCounts)
  {
    var k := ClassifyText(name, t, withCounts);
    if k.Para? && k.item.Some? {
      ProcessItemSpec(t, withCounts);
      assert ItemOf(k) == [k.item.value];
    }
  }

  lemma {:induction false} KeptGood(els: seq<Element>, withCounts: bool)
    ensures forall it :: it in Kept(Kinds(els, withCounts)) ==> GoodItem(it, withCounts)
    decreases |els|
  {
    if |els| > 0 {
      KeptGood(els[1..], withCounts);
      ClassifyGood(els[0], withCounts);
    }
  }

  /** Adding the chapters of a file, as a part when there are any, keeps
      the totals describing the book, given the totals grew by what the
      chapters hold. */
  lemma TallyFile(acc: Read, sc: Scan, title: string)
    requires Tallied(acc)
    requires sc.counters.words == acc.counters.words + SumItems(ChapterItems(sc.chapters), Words)
    requires sc.counters.items == acc.counters.items + |ChapterItems(sc.chapters)|
    requires sc.counters.chapters == acc.counters.chapters + |sc.chapters|
    requires sc.counters.parts == acc.counters.parts
    ensures Tallied(if |sc.chapters| > 0
                    then Read(acc.book + [Part(Some(title), None, sc.chapters)], sc.counters.(parts := sc.counters.parts + 1))
                    else Read(acc.book, sc.counters))
  {
    if |sc.chapters| > 0 {
      AppendPart(acc.book, Part(Some(title), None, sc.chapters));
      SumItemsConcat(AllItems(acc.book), ChapterItems(sc.chapters), Words);
    } else {
      assert ChapterItems(sc.chapters) == [];
    }
  }

  /** Reading one file keeps the totals describing the book. */
  lemma ReadOneTallied(src: Source, i: nat, acc: Read, withCounts: bool)
    requires Tallied(acc)
    ensures Tallied(ReadFile(src, i, acc, withCounts))
  {
    var s0 := Scan([], acc.counters);
    var sc := Segment(src.elements, s0, withCounts);
    var kept := Kept(Kinds(src.elements, withCounts));
    FoldItems(Kinds(src.elements, withCounts), s0);
    FoldTitles(Kinds(src.elements, withCounts), s0);
    assert ChapterItems(s0.chapters) == [];
    assert ChapterItems(sc.chapters) == kept;
    assert sc.counters.words == acc.counters.words + SumItems(kept, Words);
    assert sc.counters.items == acc.counters.items + |kept|;
    assert sc.counters.chapters == acc.counters.chapters + |sc.chapters|;
    TallyFile(acc, sc, PartTitle(i, src.heading));
  }

  /** Reading one file keeps the book well formed. */
  lemma ReadOneWell(src: Source, i: nat, acc: Read, withCounts: bool)
    requires WellRead(acc.book, withCounts)
    ensures WellRead(ReadFile(src, i, acc, withCounts).book, withCounts)
  {
    var s0 := Scan([], acc.counters);
    var ks := Kinds(src.elements, withCounts);
    var sc := Fold(ks, s0);
    if |sc.chapters| > 0 {
      FoldItems(ks, s0);
      KeptGood(src.elements, withCounts);
      assert ChapterItems(s0.chapters) == [];
      AppendWell(acc.book, Part(Some(PartTitle(i, src.heading)), None, sc.chapters), withCounts);
    }
  }

  /** A titled part with chapters of good items keeps the book well
      formed. */
  lemma AppendWell(ps: seq<Part>, p: Part, withCounts: bool)
    requires WellRead(ps, withCounts)
    requires p.title.Some? && p.subtitle == None && |p.chapters| > 0
    requires forall it :: it in ChapterItems(p.chapters) ==> GoodItem(it, withCounts)
    ensures WellRead(ps + [p], withCounts)
  {
    AppendPart(ps, p);
    var book := ps + [p];
    assert forall k :: 0 <= k < |ps| ==> book[k] == ps[k];
  }

  lemma {:induction false} ReadFilesFacts(files: seq<Option<Source>>, i: nat, acc: Read, withCounts: bool)
    requires Tallied(acc) && WellRead(acc.book, withCounts)
    ensures Tallied(ReadFiles(files, i, acc, withCounts)) && WellRead(ReadFiles(files, i, acc, withCounts).book, withCounts)
    decreases |files|
  {
    if |files| > 0 {
      match files[0]
      case None =>
        ReadFilesFacts(files[1..], i + 1, acc, withCounts);
      case Some(src) =>
        ReadOneTallied(src, i, acc, withCounts);
        ReadOneWell(src, i, acc, withCounts);
        ReadFilesFacts(files[1..], i + 1, ReadFile(src, i, acc, withCounts), withCounts);
    }
  }

  /** The processor's printed totals are the book's: its words, items,
      chapters and parts; every part has a title and chapters, and every
      item is a cleaned paragraph of more than 10 characters with its
      word count (or none, for the reader without counts). */
  lemma ProcessEpubFacts(walk: seq<WalkEntry>, load: string -> Option<Source>, withCounts: bool)
    ensures ProcessEpub(walk, load, withCounts).None? <==> FindContentFiles(walk) == []
    ensures ProcessEpub(walk, load, withCounts).Some? ==>
              Tallied(ProcessEpub(walk, load, withCounts).value)
              && WellRead(ProcessEpub(walk, load, withCounts).value.book, withCounts)
  {
    var paths := FindContentFiles(walk);
    if |paths| > 0 {
      var acc := Read([], Counters(0, 0, 0, 0));
      assert AllItems([]) == [] && AllChapters([]) == [] && SumItems([], Words) == 0;
      ReadFilesFacts(seq(|paths|, k requires 0 <= k < |paths| => load(paths[k])), 0, acc, withCounts);
    }
  }

  // ---------------------------------------------------------------------
  // The two readers agree
  // ---------------------------------------------------------------------

  /** The item without its `word_count`. */
  function DropCount(it: Item): Item {
    Item(it.kind, it.text, None)
  }

  /** Dropping `word_count` from every item. */
  const DropCounts: Rewrite := Rewrite(t => t, t => t, DropCount)

  function DropChapters(cs: seq<Chapter>): seq<Chapter> {
    MapChapters(cs, DropCounts)
  }

  function DropKind(k: Kind): Kind {
    if k.Para? && k.item.Some? then Para(Some(DropCount(k.item.value))) else k
  }

  lemma ClassifyDrop(e: Element)
    ensures Classify(e, false) == DropKind(Classify(e, true))
  {
    ClassifyTextDrop(e.name, Strip(e.text));
  }

  lemma ClassifyTextDrop(name: string, t: string)
    ensures ClassifyText(name, t, false) == DropKind(ClassifyText(name, t, true))
  {
    if t != "" && !IsChapterTitle(name, t) && name == "p" {
      assert ClassifyText(name, t, false) == Para(ProcessItem(t, false));
      assert ClassifyText(name, t, true) == Para(ProcessItem(t, true));
    }
  }

  lemma DropAddItem(cs: seq<Chapter>, it: Item)
    requires |cs| > 0
    ensures DropChapters(AddItem(cs, it)) == AddItem(DropChapters(cs), DropCount(it))
  {
    var n := |cs|;
    var l := DropChapters(AddItem(cs, it));
    var r := AddItem(DropChapters(cs), DropCount(it));
    assert |l| == n == |r|;
    forall k | 0 <= k < n ensures l[k] == r[k] {
      if k == n - 1 {
        MapItemsConcat(cs[n - 1].content, [it], DropCount);
        assert MapItems([it], DropCount) == [DropCount(it)];
      }
    }
  }

  lemma StepDrop(s: Scan, k: Kind)
    ensures StepKind(Scan(DropChapters(s.chapters), s.counters), DropKind(k))
            == Scan(DropChapters(StepKind(s, k).chapters), StepKind(s, k).counters)
  {
    if k.Heading? {
      assert DropChapters(s.chapters + [Chapter(Some(k.t), [])]) == DropChapters(s.chapters) + [Chapter(Some(k.t), [])];
    } else if k.Para? {
      var ready := if |s.chapters| == 0 then Scan([Chapter(Some("Content"), [])], s.counters.(chapters := s.counters.chapters + 1)) else s;
      assert DropChapters(ready.chapters) == (if |s.chapters| == 0 then [Chapter(Some("Content"), [])] else DropChapters(s.chapters));
      if k.item.Some? {
        DropAddItem(ready.chapters, k.item.value);
      }
    }
  }

  function DropKinds(ks: seq<Kind>): (r: seq<Kind>)
    ensures |r| == |ks|
    decreases |ks|
  {
    if |ks| == 0 then [] else [DropKind(ks[0])] + DropKinds(ks[1..])
  }

  lemma {:induction false} KindsDrop(els: seq<Element>)
    ensures Kinds(els, false) == DropKinds(Kinds(els, true))
    decreases |els|
  {
    if |els| > 0 {
      ClassifyDrop(els[0]);
      KindsDrop(els[1..]);
    }
  }

  lemma {:induction false} FoldDrop(ks: seq<Kind>, s: Scan)
    ensures Fold(DropKinds(ks), Scan(DropChapters(s.chapters), s.counters))
            == Scan(DropChapters(Fold(ks, s).chapters), Fold(ks, s).counters)
    decreases |ks|
  {
    if |ks| > 0 {
      StepDrop(s, ks[0]);
      FoldDrop(ks[1..], StepKind(s, ks[0]));
    }
  }

  lemma SegmentDrop(els: seq<Element>, s: Scan)
    ensures Segment(els, Scan(DropChapters(s.chapters), s.counters), false)
            == Scan(DropChapters(Segment(els, s, true).chapters), Segment(els, s, true).counters)
  {
    KindsDrop(els);
    FoldDrop(Kinds(els, true), s);
  }

  lemma ReadFileDrop(src: Source, i: nat, acc: Read)
    ensures ReadFile(src, i, Read(MapBook(acc.book, DropCounts), acc.counters), false)
            == Read(MapBook(ReadFile(src, i, acc, true).book, DropCounts), ReadFile(src, i, acc, true).counters)
  {
    var s0 := Scan([], acc.counters);
    var sc := Segment(src.elements, s0, true);
    SegmentDrop(src.elements, s0);
    assert DropChapters([]) == [];
    assert Scan(DropChapters(s0.chapters), s0.counters) == s0;
    if |sc.chapters| > 0 {
      var p := Part(Some(PartTitle(i, src.heading)), None, sc.chapters);
      assert MapBook(acc.book + [p], DropCounts) == MapBook(acc.book, DropCounts) + [MapPart(p, DropCounts)];
    }
  }

  lemma {:induction false} ReadFilesDrop(files: seq<Option<Source>>, i: nat, acc: Read)
    ensures ReadFiles(files, i, Read(MapBook(acc.book, DropCounts), acc.counters), false)
            == Read(MapBook(ReadFiles(files, i, acc, true).book, DropCounts), ReadFiles(files, i, acc, true).counters)
    decreases |files|
  {
    if |files| > 0 {
      match files[0]
      case None =>
        ReadFilesDrop(files[1..], i + 1, acc);
      case Some(src) =>
        ReadFileDrop(src, i, acc);
        ReadFilesDrop(files[1..], i + 1, ReadFile(src, i, acc, true));
    }
  }

  /** process_epub_from_file.py reads the same book as the processor, minus
      the word counts. */
  lemma ReadersAgree(walk: seq<WalkEntry>, load: string -> Option<Source>)
    ensures ProcessEpub(walk, load, false).Some? <==> ProcessEpub(walk, load, true).Some?
    ensures ProcessEpub(walk, load, true).Some? ==>
              ProcessEpub(walk, load, false).value.book == MapBook(ProcessEpub(walk, load, true).value.book, DropCounts)
  {
    var paths := FindContentFiles(walk);
    if |paths| > 0 {
      var files := seq(|paths|, k requires 0 <= k < |paths| => load(paths[k]));
      assert MapBook([], DropCounts) == [];
      ReadFilesDrop(files, 0, Read([], Counters(0, 0, 0, 0)));
    }
  }
}
