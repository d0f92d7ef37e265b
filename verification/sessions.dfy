/** The reading web app (webapp/src/App.js): the book's paragraphs are
    flattened in reading order and grouped into daily reading sessions of a
    little over 250 words, and the previous/next buttons and arrow keys move
    between sessions without leaving the list. */
module ReadingSessions {
  import opened Wrappers
  import opened Book

  // ---------------------------------------------------------------------
  // Flattening
  // ---------------------------------------------------------------------

  /** A paragraph with its chapter's and part's titles attached:
      `{...p, chapterTitle: chapter.chapter_title, partTitle: part.part_title}`. */
  datatype Para = Para(item: Item, chapterTitle: Option<string>, partTitle: Option<string>)

  /** `chapter.content.filter(item => item.type === 'p').map(...)` */
  function ChapterParas(items: seq<Item>, chapterTitle: Option<string>, partTitle: Option<string>): (r: seq<Para>)
    ensures forall p :: p in r ==> p.item.IsP() && p.chapterTitle == chapterTitle && p.partTitle == partTitle
    decreases |items|
  {
    if |items| == 0 then []
    else (if items[0].IsP() then [Para(items[0], chapterTitle, partTitle)] else []) + ChapterParas(items[1..], chapterTitle, partTitle)
  }

  /** `part.chapters.flatMap(...)` */
  function PartParas(cs: seq<Chapter>, partTitle: Option<string>): (r: seq<Para>)
    ensures forall p :: p in r ==> p.item.IsP() && p.partTitle == partTitle
    decreases |cs|
  {
    if |cs| == 0 then [] else ChapterParas(cs[0].content, cs[0].title, partTitle) + PartParas(cs[1..], partTitle)
  }

  /** `allParagraphs`: `data.flatMap(...)` */
  function Flatten(ps: seq<Part>): (r: seq<Para>)
    ensures forall p :: p in r ==> p.item.IsP()
    decreases |ps|
  {
    if |ps| == 0 then [] else PartParas(ps[0].chapters, ps[0].title) + Flatten(ps[1..])
  }

  /** The paragraphs among the items, in order. */
  function Paragraphs(items: seq<Item>): seq<Item>
    decreases |items|
  {
    if |items| == 0 then [] else (if items[0].IsP() then [items[0]] else []) + Paragraphs(items[1..])
  }

  function ItemsOf(ps: seq<Para>): (r: seq<Item>)
    ensures |r| == |ps| && forall k :: 0 <= k < |ps| ==> r[k] == ps[k].item
  {
    seq(|ps|, k requires 0 <= k < |ps| => ps[k].item)
  }

  lemma ItemsOfConcat(a: seq<Para>, b: seq<Para>)
    ensures ItemsOf(a + b) == ItemsOf(a) + ItemsOf(b)
  {
  }

  lemma {:induction false} ParagraphsConcat(a: seq<Item>, b: seq<Item>)
    ensures Paragraphs(a + b) == Paragraphs(a) + Paragraphs(b)
    decreases |a|
  {
    if |a| == 0 {
      assert a + b == b;
    } else {
      var head := if a[0].IsP() then [a[0]] else [];
      assert (a + b)[0] == a[0];
      assert (a + b)[1..] == a[1..] + b;
      ParagraphsConcat(a[1..], b);
      assert Paragraphs(a + b) == head + Paragraphs(a[1..] + b);
      assert Paragraphs(a) == head + Paragraphs(a[1..]);
    }
  }

  lemma {:induction false} ChapterParasItems(items: seq<Item>, ct: Option<string>, pt: Option<string>)
    ensures ItemsOf(ChapterParas(items, ct, pt)) == Paragraphs(items)
    decreases |items|
  {
    if |items| > 0 {
      var head := if items[0].IsP() then [Para(items[0], ct, pt)] else [];
      var rest := ChapterParas(items[1..], ct, pt);
      ChapterParasItems(items[1..], ct, pt);
      assert ChapterParas(items, ct, pt) == head + rest;
      assert ItemsOf(head) == if items[0].IsP() then [items[0]] else [];
      ItemsOfConcat(head, rest);
    }
  }

  lemma {:induction false} PartParasItems(cs: seq<Chapter>, pt: Option<string>)
    ensures ItemsOf(PartParas(cs, pt)) == Paragraphs(ChapterItems(cs))
    decreases |cs|
  {
    if |cs| > 0 {
      PartParasItems(cs[1..], pt);
      ChapterParasItems(cs[0].content, cs[0].title, pt);
      ItemsOfConcat(ChapterParas(cs[0].content, cs[0].title, pt), PartParas(cs[1..], pt));
      ParagraphsConcat(cs[0].content, ChapterItems(cs[1..]));
    }
  }

  /** The flattened list is exactly the book's `p` items, in part, chapter,
      item order. */
  lemma {:induction false} FlattenItems(ps: seq<Part>)
    ensures ItemsOf(Flatten(ps)) == Paragraphs(AllItems(ps))
    decreases |ps|
  {
    if |ps| > 0 {
      FlattenItems(ps[1..]);
      PartParasItems(ps[0].chapters, ps[0].title);
      ItemsOfConcat(PartParas(ps[0].chapters, ps[0].title), Flatten(ps[1..]));
      ParagraphsConcat(ChapterItems(ps[0].chapters), AllItems(ps[1..]));
    }
  }

  // ---------------------------------------------------------------------
  // Word counts with JavaScript's `undefined`
  // ---------------------------------------------------------------------

  /** A running `wordCount`: a number, or `None` for `undefined`/`NaN`,
      which an item without `word_count` brings in and which then absorbs
      every addition. */
  type Count = Option<int>

  /** `a + b` */
  function Add(a: Count, b: Count): Count {
    if a.Some? && b.Some? then Some(a.value + b.value) else None
  }

  /** `wordCount > 250`; false for `NaN`. */
  predicate Exceeds(n: Count) {
    n.Some? && n.value > 250
  }

  /** The words of a run of paragraphs, added up left to right from 0. */
  function Total(c: seq<Para>): Count
    decreases |c|
  {
    if |c| == 0 then Some(0) else Add(Total(c[..|c| - 1]), c[|c| - 1].item.wordCount)
  }

  // ---------------------------------------------------------------------
  // Sessions
  // ---------------------------------------------------------------------

  datatype Session = Session(title: string, content: seq<Para>)

  /** A template literal's rendering of a title: `undefined` when the key
      is absent. */
  function TitleText(t: Option<string>): string {
    if t.Some? then t.value else "undefined"
  }

  /** `${p.partTitle} - ${p.chapterTitle}` */
  function SessionTitle(p: Para): (r: string)
    ensures |r| >= 3
  {
    TitleText(p.partTitle) + " - " + TitleText(p.chapterTitle)
  }

  /** The state of the `forEach`: the sessions pushed so far, the current
      one and its running `wordCount`. */
  datatype Grouping = Grouping(done: seq<Session>, current: Session, count: Count)

  const Start := Grouping([], Session("", []), Some(0))

  /** The body of the `forEach`: once the current session has passed 250
      words (or before the first paragraph, when its title is empty) the
      paragraph starts a new session; otherwise it joins the current one. */
  function GroupStep(g: Grouping, p: Para): Grouping {
    if Exceeds(g.count) || g.current.title == "" then
      Grouping(g.done + (if |g.current.content| > 0 then [g.current] else []), Session(SessionTitle(p), [p]), p.item.wordCount)
    else
      Grouping(g.done, Session(g.current.title, g.current.content + [p]), Add(g.count, p.item.wordCount))
  }

  function GroupFrom(ps: seq<Para>, g: Grouping): Grouping
    decreases |ps|
  {
    if |ps| == 0 then g else GroupFrom(ps[1..], GroupStep(g, ps[0]))
  }

  /** `readingSessions`: the loop, then the last session when it holds
      anything. */
  function Sessions(ps: seq<Para>): seq<Session> {
    var g := GroupFrom(ps, Start);
    g.done + (if |g.current.content| > 0 then [g.current] else [])
  }

  /** The sessions the app builds from a book. */
  function BookSessions(book: seq<Part>): seq<Session> {
    Sessions(Flatten(book))
  }

  function Concat(ss: seq<Session>): seq<Para>
    decreases |ss|
  {
    if |ss| == 0 then [] else ss[0].content + Concat(ss[1..])
  }

  lemma {:induction false} ConcatSnoc(ss: seq<Session>, s: Session)
    ensures Concat(ss + [s]) == Concat(ss) + s.content
    decreases |ss|
  {
    if |ss| == 0 {
      assert [s][1..] == [];
    } else {
      assert (ss + [s])[1..] == ss[1..] + [s];
      ConcatSnoc(ss[1..], s);
    }
  }

  /** No proper prefix of the session passed 250 words. */
  predicate Underfull(c: seq<Para>) {
    forall k :: 1 <= k < |c| ==> !Exceeds(Total(c[..k]))
  }

  /** A session as the loop makes it: not empty, titled after its first
      paragraph, and every paragraph but the first joined while the
      session was still at or under 250 words. */
  predicate WellMade(s: Session) {
    |s.content| > 0 && s.title == SessionTitle(s.content[0]) && Underfull(s.content)
  }

  /** What the app promises of its sessions: together they are the
      paragraphs, in order; each is well made; and each but the last was
      closed because it passed 250 words. */
  predicate Grouped(ss: seq<Session>, ps: seq<Para>) {
    && Concat(ss) == ps
    && (forall i :: 0 <= i < |ss| ==> WellMade(ss[i]))
    && (forall i :: 0 <= i < |ss| - 1 ==> Exceeds(Total(ss[i].content)))
  }

  /** The loop's invariant after the paragraphs `seen`. */
  predicate Invariant(g: Grouping, seen: seq<Para>) {
    && Concat(g.done) + g.current.content == seen
    && (forall i :: 0 <= i < |g.done| ==> WellMade(g.done[i]) && Exceeds(Total(g.done[i].content)))
    && (if |seen| == 0 then g == Start else WellMade(g.current) && g.count == Total(g.current.content))
  }

  lemma TotalSnoc(c: seq<Para>, p: Para)
    ensures Total(c + [p]) == Add(Total(c), p.item.wordCount)
  {
    assert (c + [p])[..|c|] == c;
  }

  lemma UnderfullSnoc(c: seq<Para>, p: Para)
    requires Underfull(c) && |c| > 0 && !Exceeds(Total(c))
    ensures Underfull(c + [p])
  {
    var c' := c + [p];
    forall k | 1 <= k < |c'| ensures !Exceeds(Total(c'[..k])) {
      assert c'[..k] == c[..k];
      if k == |c| {
        assert c[..k] == c;
      }
    }
  }

  lemma StepInvariant(g: Grouping, seen: seq<Para>, p: Para)
    requires Invariant(g, seen)
    ensures Invariant(GroupStep(g, p), seen + [p])
  {
    var r := GroupStep(g, p);
    if Exceeds(g.count) || g.current.title == "" {
      assert r.current == Session(SessionTitle(p), [p]);
      TotalSnoc([], p);
      assert [] + [p] == [p];
      if |seen| > 0 {
        ConcatSnoc(g.done, g.current);
        assert r.done == g.done + [g.current];
      } else {
        assert r.done == [];
      }
    } else {
      TotalSnoc(g.current.content, p);
      UnderfullSnoc(g.current.content, p);
    }
  }

  lemma {:induction false} GroupFromInvariant(ps: seq<Para>, g: Grouping, seen: seq<Para>)
    requires Invariant(g, seen)
    ensures Invariant(GroupFrom(ps, g), seen + ps)
    decreases |ps|
  {
    if |ps| == 0 {
      assert seen + ps == seen;
    } else {
      StepInvariant(g, seen, ps[0]);
      GroupFromInvariant(ps[1..], GroupStep(g, ps[0]), seen + [ps[0]]);
      assert seen + [ps[0]] + ps[1..] == seen + ps;
    }
  }

  /** The sessions are the paragraphs in order, none empty, each titled
      after its first paragraph; every session but the last passed 250
      words, and every paragraph joined its session while the session was
      at or under 250. */
  lemma SessionsGrouped(ps: seq<Para>)
    ensures Grouped(Sessions(ps), ps)
  {
    var g := GroupFrom(ps, Start);
    assert Concat([]) == [];
    GroupFromInvariant(ps, Start, []);
    assert [] + ps == ps;
    if |g.current.content| > 0 {
      ConcatSnoc(g.done, g.current);
    }
  }

  /** There are sessions exactly when there are paragraphs. */
  lemma GroupedEmpty(ss: seq<Session>, ps: seq<Para>)
    requires Grouped(ss, ps)
    ensures |ss| == 0 <==> |ps| == 0
  {
    if |ss| > 0 {
      assert WellMade(ss[0]);
      assert ps == ss[0].content + Concat(ss[1..]);
    }
  }

  /** There is only one way to group: any sessions with the promised
      properties are the app's. */
  lemma {:induction false} GroupedUnique(ss: seq<Session>, ts: seq<Session>, ps: seq<Para>)
    requires Grouped(ss, ps) && Grouped(ts, ps)
    ensures ss == ts
    decreases |ps|
  {
    GroupedEmpty(ss, ps);
    GroupedEmpty(ts, ps);
    if |ps| > 0 {
      var a := ss[0].content;
      FirstNoShorter(ss, ts, ps);
      FirstNoShorter(ts, ss, ps);
      assert a == ps[..|a|] == ts[0].content;
      assert ss[0] == ts[0];
      assert ps == a + Concat(ss[1..]) && ps == a + Concat(ts[1..]);
      GroupedTail(ss, ps);
      GroupedTail(ts, ps);
      GroupedUnique(ss[1..], ts[1..], ps[|a|..]);
      assert ss == [ss[0]] + ss[1..] && ts == [ts[0]] + ts[1..];
    }
  }

  /** The first session of one grouping is at least as long as the first
      of any other: it either holds everything or passed 250 words, which
      no proper prefix of the other did. */
  lemma FirstNoShorter(ss: seq<Session>, ts: seq<Session>, ps: seq<Para>)
    requires Grouped(ss, ps) && Grouped(ts, ps) && |ss| > 0 && |ts| > 0
    ensures |ts[0].content| <= |ss[0].content|
    ensures ss[0].content == ps[..|ss[0].content|]
    ensures ss[0].title == SessionTitle(ps[0])
  {
    var a := ss[0].content;
    var b := ts[0].content;
    assert ps == a + Concat(ss[1..]) && ps == b + Concat(ts[1..]);
    assert a == ps[..|a|] && b == ps[..|b|];
    assert WellMade(ss[0]) && WellMade(ts[0]);
    LastReaches(ss, ps);
    PrefixesUnderfull(b, ps);
  }

  lemma PrefixesUnderfull(c: seq<Para>, ps: seq<Para>)
    requires Underfull(c) && |c| <= |ps| && c == ps[..|c|]
    ensures forall k :: 1 <= k < |c| ==> !Exceeds(Total(ps[..k]))
  {
    forall k | 1 <= k < |c| ensures !Exceeds(Total(ps[..k])) {
      assert c[..k] == ps[..k];
    }
  }

  /** A first session that is also the last holds every paragraph, so it
      is at least as long as any other first session; otherwise it passed
      250 words. */
  lemma LastReaches(ss: seq<Session>, ps: seq<Para>)
    requires Grouped(ss, ps) && |ss| > 0
    ensures |ss| == 1 ==> ss[0].content == ps
    ensures |ss| > 1 ==> Exceeds(Total(ss[0].content))
  {
    if |ss| == 1 {
      assert Concat(ss[1..]) == [];
    }
  }

  lemma GroupedTail(ss: seq<Session>, ps: seq<Para>)
    requires Grouped(ss, ps) && |ss| > 0
    ensures Grouped(ss[1..], ps[|ss[0].content|..])
  {
    assert ps == ss[0].content + Concat(ss[1..]);
    assert ps[|ss[0].content|..] == Concat(ss[1..]);
    assert forall i :: 0 <= i < |ss[1..]| ==> ss[1..][i] == ss[i + 1];
  }

  // ---------------------------------------------------------------------
  // Navigation
  // ---------------------------------------------------------------------

  datatype Direction = Next | Prev

  /** `handleNavigate`: `next` moves on only below the last session, `prev`
      moves back only above the first. */
  function Navigate(index: int, count: nat, d: Direction): int {
    if d == Next && index < count - 1 then index + 1
    else if d == Prev && index > 0 then index - 1
    else index
  }

  /** Where the index may be: a session, or 0 while there are none. */
  predicate InRange(index: int, count: nat) {
    0 <= index && (index < count || index == 0)
  }

  /** Navigation keeps the index on a session (or at 0 with none). */
  lemma NavigateInRange(index: int, count: nat, d: Direction)
    requires InRange(index, count)
    ensures InRange(Navigate(index, count, d), count)
    ensures count > 0 ==> 0 <= Navigate(index, count, d) < count
  {
  }

  /** `prev` undoes a `next` that moved, and `next` undoes a `prev` that
      moved. */
  lemma NavigateUndo(index: int, count: nat)
    requires 0 <= index
    ensures index < count - 1 ==> Navigate(Navigate(index, count, Next), count, Prev) == index
    ensures index > 0 && index < count ==> Navigate(Navigate(index, count, Prev), count, Next) == index
  {
  }
}
