/** The translation round trip of scripts/translation/: the book is written
    to a DOCX document in which every translatable text follows a marker
    paragraph `###IDnnnn###`; once the document has been machine-translated
    the markers are read back and each translated text is put where its
    marker says.  Building and reconstructing both walk the book in the same
    order — part title, then each chapter's title and items — each with its
    own counter.  This module holds what the two variants share (markers,
    the book as the flat list of fields both walks visit, the counters) and
    the "clean" variant of tradutor_docx_clean.py. */
module Translation {
  import opened Wrappers
  import opened Text
  import opened Book
  import Decimal

  // ---------------------------------------------------------------------
  // Markers
  // ---------------------------------------------------------------------

  /** `f"###ID{id_counter:04d}###"` */
  function Marker(n: nat): string {
    Wrap(Decimal.Pad(n, 4))
  }

  /** The digits of a marker between its opening and its closing. */
  function Wrap(digits: string): (r: string)
    ensures |r| == |digits| + 8
  {
    var open := "###ID";
    var close := "###";
    assert |open| == 5 && |close| == 3;
    open + digits + close
  }

  /** What the clean reader takes for a marker: `text.startswith('###ID')
      and text.endswith('###')`. */
  predicate MarkerLike(t: string) {
    StartsWith(t, "###ID") && EndsWith(t, "###")
  }

  /** A marker is read as a marker and is its own strip. */
  lemma WrapShape(d: string)
    ensures MarkerLike(Wrap(d)) && Strip(Wrap(d)) == Wrap(d)
  {
    var m := Wrap(d);
    var front := "###ID";
    var back := "###";
    assert |front| == 5 && |back| == 3;
    assert m == front + d + back;
    assert m[..5] == front;
    assert m[|m| - 3..] == back;
    assert m[0] == '#' && m[|m| - 1] == '#';
    StripFixed(m);
  }

  /** A marker tells its digits. */
  lemma WrapDigits(d: string)
    ensures Wrap(d)[5..|d| + 5] == d
  {
    var front := "###ID";
    var back := "###";
    assert |front| == 5 && |back| == 3;
    assert Wrap(d) == front + d + back;
  }

  lemma MarkerShape(n: nat)
    ensures MarkerLike(Marker(n)) && Strip(Marker(n)) == Marker(n)
  {
    var d := Decimal.Pad(n, 4);
    assert Marker(n) == Wrap(d);
    WrapShape(d);
  }

  /** Distinct counters give distinct markers. */
  lemma MarkerInjective(a: nat, b: nat)
    ensures Marker(a) == Marker(b) <==> a == b
  {
    var da := Decimal.Pad(a, 4);
    var db := Decimal.Pad(b, 4);
    if Wrap(da) == Wrap(db) {
      WrapDigits(da);
      WrapDigits(db);
      assert da == db;
      Decimal.PadInjective(a, b, 4);
    }
  }

  // ---------------------------------------------------------------------
  // The book as the fields both walks visit
  // ---------------------------------------------------------------------

  /** One stop of the walk: a part title (with the part's position), a
      chapter title (with the chapter's position in its part) or a content
      item. */
  datatype Field =
    | PartTitle(index: nat, title: Option<string>)
    | ChapterTitle(index: nat, title: Option<string>)
    | Body(item: Item)
  {
    /** The text the build writes: `get('part_title', '')`,
        `get('chapter_title', '')` or `get('content', '')`. */
    function Value(): string {
      match this
      case PartTitle(_, t) => t.GetOr("")
      case ChapterTitle(_, t) => t.GetOr("")
      case Body(it) => it.Content()
    }

    /** The title a title field holds (`None` for an item). */
    function TitleOf(): Option<string> {
      match this
      case PartTitle(_, t) => t
      case ChapterTitle(_, t) => t
      case Body(_) => None
    }
  }

  /** The item types whose text is translated. */
  const TextKinds: set<string> := {"p", "h1", "h2", "h3"}

  /** `content_item.get('type') in ['p', 'h1', 'h2', 'h3']` */
  predicate IsTextItem(it: Item) {
    it.kind.Some? && it.kind.value in TextKinds
  }

  /** The build gives the field a marker: a title that is not empty, or a
      text item whose content is not blank. */
  predicate Emitted(f: Field) {
    match f
    case Body(it) => IsTextItem(it) && !IsBlank(it.Content())
    case _ => f.Value() != ""
  }

  function Bodies(items: seq<Item>): (r: seq<Field>)
    ensures |r| == |items| && forall k :: 0 <= k < |items| ==> r[k] == Body(items[k])
  {
    seq(|items|, k requires 0 <= k < |items| => Body(items[k]))
  }

  /** Number of fields of a list of chapters: a title and the items each. */
  function ChaptersSize(cs: seq<Chapter>): nat
    decreases |cs|
  {
    if |cs| == 0 then 0 else 1 + |cs[0].content| + ChaptersSize(cs[1..])
  }

  function BookSize(ps: seq<Part>): nat
    decreases |ps|
  {
    if |ps| == 0 then 0 else 1 + ChaptersSize(ps[0].chapters) + BookSize(ps[1..])
  }

  /** The fields of the chapters, the first at position `j` of its part. */
  function ChapterFields(cs: seq<Chapter>, j: nat): (r: seq<Field>)
    ensures |r| == ChaptersSize(cs)
    decreases |cs|
  {
    if |cs| == 0 then []
    else [ChapterTitle(j, cs[0].title)] + Bodies(cs[0].content) + ChapterFields(cs[1..], j + 1)
  }

  /** The fields of the parts in walking order, the first part at
      position `i`. */
  function BookFields(ps: seq<Part>, i: nat): (r: seq<Field>)
    ensures |r| == BookSize(ps)
    decreases |ps|
  {
    if |ps| == 0 then []
    else [PartTitle(i, ps[0].title)] + ChapterFields(ps[0].chapters, 0) + BookFields(ps[1..], i + 1)
  }

  // ---------------------------------------------------------------------
  // Putting fields back
  // ---------------------------------------------------------------------

  function ItemOf(f: Field, dflt: Item): Item {
    if f.Body? then f.item else dflt
  }

  function RefillItems(items: seq<Item>, fs: seq<Field>): (r: seq<Item>)
    requires |fs| == |items|
    ensures |r| == |items|
  {
    seq(|items|, k requires 0 <= k < |items| => ItemOf(fs[k], items[k]))
  }

  function RefillChapters(cs: seq<Chapter>, fs: seq<Field>): (r: seq<Chapter>)
    requires |fs| == ChaptersSize(cs)
    ensures |r| == |cs|
    decreases |cs|
  {
    if |cs| == 0 then []
    else
      var n := 1 + |cs[0].content|;
      [Chapter(fs[0].TitleOf(), RefillItems(cs[0].content, fs[1..n]))] + RefillChapters(cs[1..], fs[n..])
  }

  /** The parts `ps` with their titles and items taken, in walking order,
      from `fs`; the subtitle is kept when `keepSubtitle` holds. */
  function RefillParts(ps: seq<Part>, fs: seq<Field>, keepSubtitle: bool): (r: seq<Part>)
    requires |fs| == BookSize(ps)
    ensures |r| == |ps|
    decreases |ps|
  {
    if |ps| == 0 then []
    else
      var n := 1 + ChaptersSize(ps[0].chapters);
      [Part(fs[0].TitleOf(), if keepSubtitle then ps[0].subtitle else None, RefillChapters(ps[0].chapters, fs[1..n]))]
        + RefillParts(ps[1..], fs[n..], keepSubtitle)
  }

  /** Two books with the same nesting and the same subtitles. */
  predicate Frame(a: seq<Part>, b: seq<Part>) {
    SameShape(a, b) && forall i :: 0 <= i < |a| ==> a[i].subtitle == b[i].subtitle
  }

  lemma {:induction false} ChaptersSizeSame(a: seq<Chapter>, b: seq<Chapter>)
    requires |a| == |b| && forall j :: 0 <= j < |a| ==> |a[j].content| == |b[j].content|
    ensures ChaptersSize(a) == ChaptersSize(b)
    decreases |a|
  {
    if |a| > 0 {
      ChaptersSizeSame(a[1..], b[1..]);
    }
  }

  lemma {:induction false} RefillChaptersFields(cs: seq<Chapter>, ds: seq<Chapter>, j: nat)
    requires |cs| == |ds| && forall k :: 0 <= k < |cs| ==> |cs[k].content| == |ds[k].content|
    ensures ChaptersSize(cs) == ChaptersSize(ds)
    ensures RefillChapters(cs, ChapterFields(ds, j)) == ds
    decreases |cs|
  {
    ChaptersSizeSame(cs, ds);
    if |cs| > 0 {
      var fs := ChapterFields(ds, j);
      var n := 1 + |cs[0].content|;
      assert fs[0] == ChapterTitle(j, ds[0].title);
      assert fs[1..n] == Bodies(ds[0].content);
      assert fs[n..] == ChapterFields(ds[1..], j + 1);
      assert RefillItems(cs[0].content, fs[1..n]) == ds[0].content;
      RefillChaptersFields(cs[1..], ds[1..], j + 1);
    }
  }

  /** Refilling a frame with the fields of a book of that frame gives the
      book back. */
  lemma {:induction false} RefillFields(ps: seq<Part>, q: seq<Part>, i: nat)
    requires Frame(ps, q)
    ensures BookSize(ps) == BookSize(q)
    ensures RefillParts(ps, BookFields(q, i), true) == q
    decreases |ps|
  {
    if |ps| > 0 {
      RefillChaptersFields(ps[0].chapters, q[0].chapters, 0);
      var fs := BookFields(q, i);
      var n := 1 + ChaptersSize(ps[0].chapters);
      assert fs[0] == PartTitle(i, q[0].title);
      assert fs[1..n] == ChapterFields(q[0].chapters, 0);
      assert fs[n..] == BookFields(q[1..], i + 1);
      assert Frame(ps[1..], q[1..]) by {
        assert forall k :: 0 <= k < |ps| - 1 ==> ps[1..][k] == ps[k + 1] && q[1..][k] == q[k + 1];
      }
      RefillFields(ps[1..], q[1..], i + 1);
    }
  }

  lemma {:induction false} RefillChaptersShape(cs: seq<Chapter>, fs: seq<Field>)
    requires |fs| == ChaptersSize(cs)
    ensures forall j :: 0 <= j < |cs| ==> |RefillChapters(cs, fs)[j].content| == |cs[j].content|
    decreases |cs|
  {
    if |cs| > 0 {
      var n := 1 + |cs[0].content|;
      var r := RefillChapters(cs, fs);
      RefillChaptersShape(cs[1..], fs[n..]);
      assert r[1..] == RefillChapters(cs[1..], fs[n..]);
      forall j | 1 <= j < |cs| ensures |r[j].content| == |cs[j].content| {
        assert r[j] == r[1..][j - 1] && cs[j] == cs[1..][j - 1];
      }
    }
  }

  /** Refilling keeps the nesting: as many parts, chapters and items as
      the frame, whatever the fields say. */
  lemma {:induction false} RefillShape(ps: seq<Part>, fs: seq<Field>, keepSubtitle: bool)
    requires |fs| == BookSize(ps)
    ensures SameShape(RefillParts(ps, fs, keepSubtitle), ps)
    ensures forall i :: 0 <= i < |ps| ==>
              RefillParts(ps, fs, keepSubtitle)[i].subtitle == (if keepSubtitle then ps[i].subtitle else None)
    decreases |ps|
  {
    if |ps| > 0 {
      var n := 1 + ChaptersSize(ps[0].chapters);
      var r := RefillParts(ps, fs, keepSubtitle);
      RefillShape(ps[1..], fs[n..], keepSubtitle);
      RefillChaptersShape(ps[0].chapters, fs[1..n]);
      assert r[1..] == RefillParts(ps[1..], fs[n..], keepSubtitle);
      forall i | 1 <= i < |ps|
        ensures |r[i].chapters| == |ps[i].chapters|
        ensures r[i].subtitle == (if keepSubtitle then ps[i].subtitle else None)
        ensures forall j :: 0 <= j < |r[i].chapters| ==> |r[i].chapters[j].content| == |ps[i].chapters[j].content|
      {
        assert r[i] == r[1..][i - 1] && ps[i] == ps[1..][i - 1];
      }
    }
  }

  // ---------------------------------------------------------------------
  // Field-wise rewrites seen on the fields
  // ---------------------------------------------------------------------

  function MapField(f: Field, rw: Rewrite): Field {
    match f
    case PartTitle(i, t) => PartTitle(i, rw.partTitle(t))
    case ChapterTitle(j, t) => ChapterTitle(j, rw.chapterTitle(t))
    case Body(it) => Body(rw.item(it))
  }

  function MapFields(fs: seq<Field>, rw: Rewrite): (r: seq<Field>)
    ensures |r| == |fs| && forall k :: 0 <= k < |fs| ==> r[k] == MapField(fs[k], rw)
  {
    seq(|fs|, k requires 0 <= k < |fs| => MapField(fs[k], rw))
  }

  lemma MapFieldsCons(fs: seq<Field>, rw: Rewrite)
    requires |fs| > 0
    ensures MapFields(fs, rw) == [MapField(fs[0], rw)] + MapFields(fs[1..], rw)
  {
  }

  lemma MapFieldsConcat(a: seq<Field>, b: seq<Field>, rw: Rewrite)
    ensures MapFields(a + b, rw) == MapFields(a, rw) + MapFields(b, rw)
  {
  }

  lemma {:induction false} ChapterFieldsMap(cs: seq<Chapter>, rw: Rewrite, j: nat)
    ensures ChapterFields(MapChapters(cs, rw), j) == MapFields(ChapterFields(cs, j), rw)
    decreases |cs|
  {
    if |cs| > 0 {
      var ms := MapChapters(cs, rw);
      assert ms[1..] == MapChapters(cs[1..], rw);
      ChapterFieldsMap(cs[1..], rw, j + 1);
      assert Bodies(ms[0].content) == MapFields(Bodies(cs[0].content), rw);
      MapFieldsConcat([ChapterTitle(j, cs[0].title)] + Bodies(cs[0].content), ChapterFields(cs[1..], j + 1), rw);
      MapFieldsConcat([ChapterTitle(j, cs[0].title)], Bodies(cs[0].content), rw);
    }
  }

  /** The fields of a rewritten book are the rewritten fields. */
  lemma {:induction false} BookFieldsMap(ps: seq<Part>, rw: Rewrite, i: nat)
    ensures BookFields(MapBook(ps, rw), i) == MapFields(BookFields(ps, i), rw)
    decreases |ps|
  {
    if |ps| > 0 {
      var ms := MapBook(ps, rw);
      assert ms[1..] == MapBook(ps[1..], rw);
      BookFieldsMap(ps[1..], rw, i + 1);
      ChapterFieldsMap(ps[0].chapters, rw, 0);
      MapFieldsConcat([PartTitle(i, ps[0].title)] + ChapterFields(ps[0].chapters, 0), BookFields(ps[1..], i + 1), rw);
      MapFieldsConcat([PartTitle(i, ps[0].title)], ChapterFields(ps[0].chapters, 0), rw);
    }
  }

  // ---------------------------------------------------------------------
  // Counters
  // ---------------------------------------------------------------------

  /** How many of the fields satisfy `p`. */
  function Count(fs: seq<Field>, p: Field -> bool): (r: nat)
    ensures r <= |fs|
    decreases |fs|
  {
    if |fs| == 0 then 0 else (if p(fs[0]) then 1 else 0) + Count(fs[1..], p)
  }

  /** The fields a reader consumes a number for although the build gave
      them none. */
  function Surplus(fs: seq<Field>, consumes: Field -> bool): nat
    decreases |fs|
  {
    if |fs| == 0 then 0
    else (if consumes(fs[0]) && !Emitted(fs[0]) then 1 else 0) + Surplus(fs[1..], consumes)
  }

  /** When a reader consumes a number wherever the build assigned one, its
      counter runs ahead of the build's by the surplus fields, and the two
      end level exactly when there are none. */
  lemma {:induction false} CounterGap(fs: seq<Field>, consumes: Field -> bool)
    requires forall k :: 0 <= k < |fs| && Emitted(fs[k]) ==> consumes(fs[k])
    ensures Count(fs, consumes) == Count(fs, Emitted) + Surplus(fs, consumes)
    ensures Count(fs, consumes) == Count(fs, Emitted)
            <==> forall k :: 0 <= k < |fs| && consumes(fs[k]) ==> Emitted(fs[k])
  {
    CounterSum(fs, consumes);
    SurplusNone(fs, consumes);
  }

  /** Each field the reader consumes is either one the build numbered or
      a surplus one. */
  lemma {:induction false} CounterSum(fs: seq<Field>, consumes: Field -> bool)
    requires forall k :: 0 <= k < |fs| && Emitted(fs[k]) ==> consumes(fs[k])
    ensures Count(fs, consumes) == Count(fs, Emitted) + Surplus(fs, consumes)
    decreases |fs|
  {
    if |fs| > 0 {
      assert forall k :: 0 <= k < |fs| - 1 ==> fs[1..][k] == fs[k + 1];
      CounterSum(fs[1..], consumes);
    }
  }

  /** There is no surplus exactly when the reader consumes numbers only
      for fields the build numbered. */
  lemma {:induction false} SurplusNone(fs: seq<Field>, consumes: Field -> bool)
    ensures Surplus(fs, consumes) == 0 <==> forall k :: 0 <= k < |fs| && consumes(fs[k]) ==> Emitted(fs[k])
    decreases |fs|
  {
    if |fs| > 0 {
      SurplusNone(fs[1..], consumes);
      if forall k :: 0 <= k < |fs| - 1 && consumes(fs[1..][k]) ==> Emitted(fs[1..][k]) {
        forall k | 0 < k < |fs| && consumes(fs[k]) ensures Emitted(fs[k]) {
          assert fs[k] == fs[1..][k - 1];
        }
      } else {
        var k :| 0 <= k < |fs| - 1 && consumes(fs[1..][k]) && !Emitted(fs[1..][k]);
        assert consumes(fs[k + 1]) && !Emitted(fs[k + 1]);
      }
    }
  }

  // ---------------------------------------------------------------------
  // The reconstruction walk
  // ---------------------------------------------------------------------

  /** `translations.get(marker)` for the marker of counter `n`. */
  function Lookup(tr: map<string, string>, n: nat): Option<string> {
    if Marker(n) in tr then Some(tr[Marker(n)]) else None
  }

  /** Setting the translation under one marker leaves the others alone. */
  lemma LookupOther(m: map<string, string>, n: nat, v: string, j: nat)
    requires j != n
    ensures Lookup(m[Marker(n) := v], j) == Lookup(m, j)
  {
    MarkerInjective(j, n);
  }

  /** Walk the fields with the counter starting at `n`: a field the reader
      `consumes` is replaced by `put` given the translation under the
      current marker, and takes a number; any other field is copied. */
  function Walk(fs: seq<Field>, n: nat, tr: map<string, string>,
                consumes: Field -> bool, put: (Field, Option<string>) -> Field): (r: seq<Field>)
    ensures |r| == |fs|
    decreases |fs|
  {
    if |fs| == 0 then []
    else if consumes(fs[0]) then [put(fs[0], Lookup(tr, n))] + Walk(fs[1..], n + 1, tr, consumes, put)
    else [fs[0]] + Walk(fs[1..], n, tr, consumes, put)
  }

  /** The k-th field of the walk: a consumed field is looked up under the
      counter advanced once per consumed field before it. */
  lemma {:induction false} WalkAt(fs: seq<Field>, n: nat, tr: map<string, string>,
                                  consumes: Field -> bool, put: (Field, Option<string>) -> Field, k: nat)
    requires k < |fs|
    ensures Walk(fs, n, tr, consumes, put)[k]
            == if consumes(fs[k]) then put(fs[k], Lookup(tr, n + Count(fs[..k], consumes))) else fs[k]
    decreases k, 1
  {
    if k > 0 {
      WalkAtLater(fs, n, tr, consumes, put, k);
    } else {
      WalkStep(fs, n, tr, consumes, put);
      assert fs[..0] == [];
    }
  }

  /** The step of `WalkAt` past the first field. */
  lemma {:induction false} WalkAtLater(fs: seq<Field>, n: nat, tr: map<string, string>,
                                       consumes: Field -> bool, put: (Field, Option<string>) -> Field, k: nat)
    requires 0 < k < |fs|
    ensures Walk(fs, n, tr, consumes, put)[k]
            == if consumes(fs[k]) then put(fs[k], Lookup(tr, n + Count(fs[..k], consumes))) else fs[k]
    decreases k, 0
  {
    var n' := if consumes(fs[0]) then n + 1 else n;
    WalkShift(fs, n, tr, consumes, put, k);
    WalkAt(fs[1..], n', tr, consumes, put, k - 1);
    CountPrefixStep(fs, k, consumes);
    assert fs[1..][k - 1] == fs[k];
    assert n' + Count(fs[1..][..k - 1], consumes) == n + Count(fs[..k], consumes);
  }

  /** Past the first field, the walk continues with the rest of the
      fields and the counter the first one left. */
  lemma WalkShift(fs: seq<Field>, n: nat, tr: map<string, string>,
                  consumes: Field -> bool, put: (Field, Option<string>) -> Field, k: nat)
    requires 0 < k < |fs|
    ensures Walk(fs, n, tr, consumes, put)[k]
            == Walk(fs[1..], if consumes(fs[0]) then n + 1 else n, tr, consumes, put)[k - 1]
  {
  }

  lemma WalkStep(fs: seq<Field>, n: nat, tr: map<string, string>,
                 consumes: Field -> bool, put: (Field, Option<string>) -> Field)
    requires |fs| > 0
    ensures var n' := if consumes(fs[0]) then n + 1 else n;
            && Walk(fs, n, tr, consumes, put)[0] == (if consumes(fs[0]) then put(fs[0], Lookup(tr, n)) else fs[0])
            && forall k :: 0 < k < |fs| ==> Walk(fs, n, tr, consumes, put)[k] == Walk(fs[1..], n', tr, consumes, put)[k - 1]
  {
  }

  /** Counting over the first `k` fields: the first, then the next `k - 1`. */
  lemma CountPrefixStep(fs: seq<Field>, k: nat, p: Field -> bool)
    requires 0 < k <= |fs|
    ensures Count(fs[..k], p) == (if p(fs[0]) then 1 else 0) + Count(fs[1..][..k - 1], p)
  {
    assert fs[1..][..k - 1] == fs[..k][1..];
    assert fs[..k][0] == fs[0];
  }

  /** The translations an untranslated document yields, added to `m`:
      the marker of counter `n + j` for the j-th field given a marker,
      mapped to the field's stripped text when the reader `keep`s that
      text. */
  function Found(fs: seq<Field>, n: nat, m: map<string, string>, keep: string -> bool): map<string, string>
    decreases |fs|
  {
    if |fs| == 0 then m
    else if Emitted(fs[0]) then
      Found(fs[1..], n + 1, if keep(fs[0].Value()) then m[Marker(n) := Strip(fs[0].Value())] else m, keep)
    else Found(fs[1..], n, m, keep)
  }

  lemma FoundStep(fs: seq<Field>, n: nat, m: map<string, string>, keep: string -> bool)
    requires |fs| > 0
    ensures Emitted(fs[0]) ==>
              Found(fs, n, m, keep)
              == Found(fs[1..], n + 1, if keep(fs[0].Value()) then m[Marker(n) := Strip(fs[0].Value())] else m, keep)
    ensures !Emitted(fs[0]) ==> Found(fs, n, m, keep) == Found(fs[1..], n, m, keep)
  {
  }

  /** Markers numbered below `n` are left as they were. */
  lemma {:induction false} FoundBelow(fs: seq<Field>, n: nat, m: map<string, string>, keep: string -> bool, j: nat)
    requires j < n
    ensures Lookup(Found(fs, n, m, keep), j) == Lookup(m, j)
    decreases |fs|
  {
    if |fs| > 0 {
      FoundStep(fs, n, m, keep);
      if Emitted(fs[0]) {
        var m' := if keep(fs[0].Value()) then m[Marker(n) := Strip(fs[0].Value())] else m;
        FoundBelow(fs[1..], n + 1, m', keep, j);
        if keep(fs[0].Value()) {
          LookupOther(m, n, Strip(fs[0].Value()), j);
        }
      } else {
        FoundBelow(fs[1..], n, m, keep, j);
      }
    }
  }

  /** The value a field given a marker reads back with, if its text is
      kept. */
  function Kept(f: Field, keep: string -> bool): Option<string> {
    if keep(f.Value()) then Some(Strip(f.Value())) else None
  }

  /** Walking fields whose reader consumes a number exactly where the build
      assigned one, with the translations those fields themselves yield,
      applies `rw` to every field, provided `put` does what `rw` does on
      the fields with a marker and `rw` leaves the others alone. */
  lemma {:induction false} WalkFound(fs: seq<Field>, n: nat, m: map<string, string>, keep: string -> bool,
                                     consumes: Field -> bool, put: (Field, Option<string>) -> Field, rw: Rewrite)
    requires forall k :: 0 <= k < |fs| ==> consumes(fs[k]) == Emitted(fs[k])
    requires forall k :: 0 <= k < |fs| && Emitted(fs[k]) ==> put(fs[k], Kept(fs[k], keep)) == MapField(fs[k], rw)
    requires forall k :: 0 <= k < |fs| && !Emitted(fs[k]) ==> MapField(fs[k], rw) == fs[k]
    requires forall j :: n <= j ==> Marker(j) !in m
    ensures Walk(fs, n, Found(fs, n, m, keep), consumes, put) == MapFields(fs, rw)
    decreases |fs|, 1
  {
    if |fs| > 0 {
      if Emitted(fs[0]) {
        WalkFoundEmitted(fs, n, m, keep, consumes, put, rw);
      } else {
        WalkFoundSkip(fs, n, m, keep, consumes, put, rw);
      }
    }
  }

  /** The step of `WalkFound` at a field given a marker: its translation
      is the one found under the current counter. */
  lemma {:induction false} WalkFoundEmitted(fs: seq<Field>, n: nat, m: map<string, string>, keep: string -> bool,
                                            consumes: Field -> bool, put: (Field, Option<string>) -> Field, rw: Rewrite)
    requires forall k :: 0 <= k < |fs| ==> consumes(fs[k]) == Emitted(fs[k])
    requires forall k :: 0 <= k < |fs| && Emitted(fs[k]) ==> put(fs[k], Kept(fs[k], keep)) == MapField(fs[k], rw)
    requires forall k :: 0 <= k < |fs| && !Emitted(fs[k]) ==> MapField(fs[k], rw) == fs[k]
    requires forall j :: n <= j ==> Marker(j) !in m
    requires |fs| > 0 && Emitted(fs[0])
    ensures Walk(fs, n, Found(fs, n, m, keep), consumes, put) == MapFields(fs, rw)
    decreases |fs|, 0
  {
    assert forall k :: 0 <= k < |fs| - 1 ==> fs[1..][k] == fs[k + 1];
    var tr := Found(fs, n, m, keep);
    var m' := FoundHead(fs, n, m, keep);
    WalkFound(fs[1..], n + 1, m', keep, consumes, put, rw);
    assert Walk(fs, n, tr, consumes, put)
           == [put(fs[0], Lookup(tr, n))] + Walk(fs[1..], n + 1, tr, consumes, put);
    MapFieldsCons(fs, rw);
  }

  /** At a field given a marker, the translations found hold its kept
      text under the current counter, and the search goes on from the
      next counter with a map that has no marker from there on. */
  lemma FoundHead(fs: seq<Field>, n: nat, m: map<string, string>, keep: string -> bool) returns (m': map<string, string>)
    requires |fs| > 0 && Emitted(fs[0])
    requires forall j :: n <= j ==> Marker(j) !in m
    ensures Found(fs, n, m, keep) == Found(fs[1..], n + 1, m', keep)
    ensures Lookup(Found(fs, n, m, keep), n) == Kept(fs[0], keep)
    ensures forall j :: n + 1 <= j ==> Marker(j) !in m'
  {
    FoundStep(fs, n, m, keep);
    var v := fs[0].Value();
    m' := if keep(v) then m[Marker(n) := Strip(v)] else m;
    FoundBelow(fs[1..], n + 1, m', keep, n);
    forall j | n + 1 <= j ensures Marker(j) !in m' {
      MarkerInjective(j, n);
    }
  }

  /** The step of `WalkFound` at a field without a marker: it is copied. */
  lemma {:induction false} WalkFoundSkip(fs: seq<Field>, n: nat, m: map<string, string>, keep: string -> bool,
                                         consumes: Field -> bool, put: (Field, Option<string>) -> Field, rw: Rewrite)
    requires forall k :: 0 <= k < |fs| ==> consumes(fs[k]) == Emitted(fs[k])
    requires forall k :: 0 <= k < |fs| && Emitted(fs[k]) ==> put(fs[k], Kept(fs[k], keep)) == MapField(fs[k], rw)
    requires forall k :: 0 <= k < |fs| && !Emitted(fs[k]) ==> MapField(fs[k], rw) == fs[k]
    requires forall j :: n <= j ==> Marker(j) !in m
    requires |fs| > 0 && !Emitted(fs[0])
    ensures Walk(fs, n, Found(fs, n, m, keep), consumes, put) == MapFields(fs, rw)
    decreases |fs|, 0
  {
    assert forall k :: 0 <= k < |fs| - 1 ==> fs[1..][k] == fs[k + 1];
    var tr := Found(fs, n, m, keep);
    FoundStep(fs, n, m, keep);
    WalkFound(fs[1..], n, m, keep, consumes, put, rw);
    assert Walk(fs, n, tr, consumes, put) == [fs[0]] + Walk(fs[1..], n, tr, consumes, put);
    MapFieldsCons(fs, rw);
  }

  // ---------------------------------------------------------------------
  // tradutor_docx_clean.py: the document
  // ---------------------------------------------------------------------

  /** The paragraphs of the build for the fields, counter starting at `n`:
      for each field that gets a marker, `heading(f)`, the marker, the text
      and a blank line. */
  function BuildBody(fs: seq<Field>, n: nat, heading: Field -> seq<string>): seq<string>
    decreases |fs|
  {
    if |fs| == 0 then []
    else if Emitted(fs[0]) then heading(fs[0]) + [Marker(n), fs[0].Value(), ""] + BuildBody(fs[1..], n + 1, heading)
    else BuildBody(fs[1..], n, heading)
  }

  const DocumentTitle := "Introduction to the Devout Life"
  const CommentOpen := "<!--"
  const TechnicalInfo := CommentOpen + " TECHNICAL INFO: Keep ###IDXXXX### markers for reconstruction -->"

  /** The heading, the technical note and the page break. */
  const CleanPreamble: seq<string> := [DocumentTitle, TechnicalInfo, ""]

  function NoHeading(f: Field): seq<string> { [] }

  /** `create_clean_docx_for_translation`: the paragraphs of the document
      and `total_texts`. */
  function CreateCleanDocx(ps: seq<Part>): (r: (seq<string>, nat))
    ensures r.1 == Count(BookFields(ps, 0), Emitted)
  {
    var fs := BookFields(ps, 0);
    (CleanPreamble + BuildBody(fs, 1, NoHeading), Count(fs, Emitted))
  }

  // ---------------------------------------------------------------------
  // tradutor_docx_clean.py: reading the translated document
  // ---------------------------------------------------------------------

  /** The reader's state: the marker awaiting its text, and what it found. */
  datatype Reader = Reader(current: Option<string>, found: map<string, string>)

  /** One paragraph of the loop in `reconstruct_from_clean_docx`. */
  function ReadPara(r: Reader, para: string): Reader {
    var t := Strip(para);
    if MarkerLike(t) then Reader(Some(t), r.found)
    else if r.current.Some? && t != "" && !StartsWith(t, CommentOpen) then Reader(None, r.found[r.current.value := t])
    else r
  }

  function ReadAll(paras: seq<string>, r: Reader): Reader
    decreases |paras|
  {
    if |paras| == 0 then r else ReadAll(paras[1..], ReadPara(r, paras[0]))
  }

  /** `translated_texts` */
  function ReadTranslations(paras: seq<string>): map<string, string> {
    ReadAll(paras, Reader(None, map[])).found
  }

  lemma {:induction false} ReadAllConcat(a: seq<string>, b: seq<string>, r: Reader)
    ensures ReadAll(a + b, r) == ReadAll(b, ReadAll(a, r))
    decreases |a|
  {
    if |a| == 0 {
      assert a + b == b;
    } else {
      assert (a + b)[1..] == a[1..] + b;
      ReadAllConcat(a[1..], b, ReadPara(r, a[0]));
    }
  }

  /** A paragraph beginning with a character that is neither whitespace
      nor `#` is never taken for a marker. */
  lemma NotMarkerLike(s: string)
    requires |s| > 0 && !IsSpace(s[0]) && s[0] != '#'
    ensures !MarkerLike(Strip(s))
  {
    StripHead(s);
  }

  /** With no marker pending, a paragraph that is not taken for a marker
      changes nothing. */
  lemma IdleInert(r: Reader, para: string)
    requires r.current == None && !MarkerLike(Strip(para))
    ensures ReadPara(r, para) == r
  {
  }

  lemma TitleInert(r: Reader)
    requires r.current == None
    ensures ReadPara(r, DocumentTitle) == r
  {
    NotMarkerLike(DocumentTitle);
    IdleInert(r, DocumentTitle);
  }

  lemma InfoInert(r: Reader)
    requires r.current == None
    ensures ReadPara(r, TechnicalInfo) == r
  {
    assert TechnicalInfo[0] == CommentOpen[0] == '<';
    NotMarkerLike(TechnicalInfo);
    IdleInert(r, TechnicalInfo);
  }

  /** Nothing before the first marker is recorded. */
  lemma PreambleInert(found: map<string, string>)
    ensures ReadAll(CleanPreamble, Reader(None, found)) == Reader(None, found)
  {
    var r := Reader(None, found);
    ReadThree(DocumentTitle, TechnicalInfo, "", r);
    TitleInert(r);
    InfoInert(r);
    ReadBlank(r);
  }

  /** What the reader records for a text written after its marker: the
      stripped text, unless it is blank, looks like a marker, or opens an
      HTML comment. */
  predicate Restorable(text: string) {
    var t := Strip(text);
    t != "" && !MarkerLike(t) && !StartsWith(t, CommentOpen)
  }

  lemma ReadMarker(r: Reader, n: nat)
    ensures ReadPara(r, Marker(n)) == Reader(Some(Marker(n)), r.found)
  {
    MarkerShape(n);
  }

  lemma ReadBlank(r: Reader)
    ensures ReadPara(r, "") == r
  {
    assert Strip("") == "";
  }

  lemma ReadText(m: string, found: map<string, string>, text: string)
    requires MarkerLike(m)
    ensures ReadPara(Reader(Some(m), found), text).found
            == if Restorable(text) then found[m := Strip(text)] else found
  {
    var t := Strip(text);
    var r := ReadPara(Reader(Some(m), found), text);
    if Restorable(text) {
      assert r == Reader(None, found[m := t]);
    } else {
      assert r.found == found;
    }
  }

  lemma ReadThree(a: string, b: string, c: string, r: Reader)
    ensures ReadAll([a, b, c], r) == ReadPara(ReadPara(ReadPara(r, a), b), c)
  {
    var s := [a, b, c];
    assert s[1..] == [b, c] && [b, c][1..] == [c] && [c][1..] == [];
    var r1 := ReadPara(r, a);
    var r2 := ReadPara(r1, b);
    var r3 := ReadPara(r2, c);
    assert ReadAll([c], r2) == ReadAll([], r3);
    assert ReadAll([b, c], r1) == ReadAll([c], r2);
    assert ReadAll(s, r) == ReadAll([b, c], r1);
  }

  /** The three paragraphs of one field. */
  lemma ReadUnit(r: Reader, n: nat, text: string)
    ensures ReadAll([Marker(n), text, ""], r).found
            == if Restorable(text) then r.found[Marker(n) := Strip(text)] else r.found
  {
    ReadThree(Marker(n), text, "", r);
    ReadMarker(r, n);
    MarkerShape(n);
    ReadText(Marker(n), r.found, text);
    ReadBlank(ReadPara(ReadPara(r, Marker(n)), text));
  }

  /** Reading back an untranslated body records exactly `Found`. */
  lemma {:induction false} ReadBody(fs: seq<Field>, n: nat, r: Reader)
    ensures ReadAll(BuildBody(fs, n, NoHeading), r).found == Found(fs, n, r.found, Restorable)
    decreases |fs|
  {
    if |fs| > 0 {
      if Emitted(fs[0]) {
        var unit := [Marker(n), fs[0].Value(), ""];
        assert BuildBody(fs, n, NoHeading) == unit + BuildBody(fs[1..], n + 1, NoHeading);
        ReadAllConcat(unit, BuildBody(fs[1..], n + 1, NoHeading), r);
        ReadUnit(r, n, fs[0].Value());
        ReadBody(fs[1..], n + 1, ReadAll(unit, r));
        FoundStep(fs, n, r.found, Restorable);
      } else {
        ReadBody(fs[1..], n, r);
        FoundStep(fs, n, r.found, Restorable);
      }
    }
  }

  /** The translations read from the document as built. */
  lemma ReadCleanDocx(ps: seq<Part>)
    ensures ReadTranslations(CreateCleanDocx(ps).0) == Found(BookFields(ps, 0), 1, map[], Restorable)
  {
    var fs := BookFields(ps, 0);
    ReadAllConcat(CleanPreamble, BuildBody(fs, 1, NoHeading), Reader(None, map[]));
    PreambleInert(map[]);
    ReadBody(fs, 1, Reader(None, map[]));
  }

  // ---------------------------------------------------------------------
  // tradutor_docx_clean.py: reconstruction
  // ---------------------------------------------------------------------

  /** As written, the reconstruction takes a number for every title that is
      present (`'part_title' in part`), even an empty one, and for every
      text item with non-blank content. */
  predicate ConsumesAsWritten(f: Field) {
    match f
    case Body(it) => IsTextItem(it) && !IsBlank(it.Content())
    case _ => f.TitleOf().Some?
  }

  /** The corrected reconstruction takes a number exactly where the build
      assigned one. */
  predicate ConsumesCorrected(f: Field) {
    Emitted(f)
  }

  /** A found translation replaces the title, or the item's content with
      its `word_count` recounted; without one the field is left as it is. */
  function PutClean(f: Field, v: Option<string>): Field {
    match v
    case None => f
    case Some(s) =>
      match f
      case PartTitle(i, _) => PartTitle(i, Some(s))
      case ChapterTitle(j, _) => ChapterTitle(j, Some(s))
      case Body(it) => Body(it.(text := Some(s), wordCount := Some(WordCount(s))))
  }

  /** `reconstruct_from_clean_docx` as written. */
  function ReconstructAsWritten(ps: seq<Part>, tr: map<string, string>): seq<Part> {
    RefillParts(ps, Walk(BookFields(ps, 0), 1, tr, ConsumesAsWritten, PutClean), true)
  }

  /** `reconstruct_from_clean_docx` with the counter advanced under the
      build's own condition. */
  function Reconstruct(ps: seq<Part>, tr: map<string, string>): seq<Part> {
    RefillParts(ps, Walk(BookFields(ps, 0), 1, tr, ConsumesCorrected, PutClean), true)
  }

  function RestoreTitle(t: Option<string>): Option<string> {
    if t.Some? && Restorable(t.value) then Some(Strip(t.value)) else t
  }

  function RestoreItem(it: Item): Item {
    if IsTextItem(it) && Restorable(it.Content())
    then it.(text := Some(Strip(it.Content())), wordCount := Some(WordCount(Strip(it.Content()))))
    else it
  }

  /** What a round trip through an untranslated document does: every
      restorable text comes back stripped, with its items' `word_count`
      recounted. */
  const Restore := Rewrite(RestoreTitle, RestoreTitle, RestoreItem)

  /** A field with no marker is not touched by the restoration. */
  lemma RestoreNeedsMarker(f: Field)
    ensures Emitted(f) || MapField(f, Restore) == f
    ensures Emitted(f) ==>
              MapField(f, Restore) == PutClean(f, if Restorable(f.Value()) then Some(Strip(f.Value())) else None)
  {
    if Restorable(f.Value()) {
      assert Strip(f.Value()) != "";
    }
  }

  /** Walking a body whose reader consumes a number exactly where the
      build assigned one, with the translations the body itself yields,
      restores every field. */
  lemma WalkRestores(fs: seq<Field>, n: nat, m: map<string, string>, consumes: Field -> bool)
    requires forall k :: 0 <= k < |fs| ==> consumes(fs[k]) == Emitted(fs[k])
    requires forall j :: n <= j ==> Marker(j) !in m
    ensures Walk(fs, n, Found(fs, n, m, Restorable), consumes, PutClean) == MapFields(fs, Restore)
  {
    forall k | 0 <= k < |fs|
      ensures Emitted(fs[k]) ==> PutClean(fs[k], Kept(fs[k], Restorable)) == MapField(fs[k], Restore)
      ensures !Emitted(fs[k]) ==> MapField(fs[k], Restore) == fs[k]
    {
      RestoreNeedsMarker(fs[k]);
    }
    WalkFound(fs, n, m, Restorable, consumes, PutClean, Restore);
  }

  /** Read back untranslated, the clean document restores the book: each
      text returns stripped to its own place. */
  lemma RoundTrip(ps: seq<Part>)
    ensures Reconstruct(ps, ReadTranslations(CreateCleanDocx(ps).0)) == MapBook(ps, Restore)
  {
    var fs := BookFields(ps, 0);
    ReadCleanDocx(ps);
    WalkRestores(fs, 1, map[], ConsumesCorrected);
    BookFieldsMap(ps, Restore, 0);
    MapBookShape(ps, Restore);
    RefillFields(ps, MapBook(ps, Restore), 0);
  }

  /** No part or chapter has a title that is present but empty. */
  predicate NoEmptyTitles(ps: seq<Part>) {
    forall i :: 0 <= i < |ps| ==>
      ps[i].title != Some("") && forall j :: 0 <= j < |ps[i].chapters| ==> ps[i].chapters[j].title != Some("")
  }

  lemma {:induction false} NoEmptyChapterFields(cs: seq<Chapter>, j: nat)
    requires forall k :: 0 <= k < |cs| ==> cs[k].title != Some("")
    ensures forall k :: 0 <= k < |ChapterFields(cs, j)| ==>
              ConsumesAsWritten(ChapterFields(cs, j)[k]) == Emitted(ChapterFields(cs, j)[k])
    decreases |cs|
  {
    if |cs| > 0 {
      NoEmptyChapterFields(cs[1..], j + 1);
      var fs := ChapterFields(cs, j);
      var n := 1 + |cs[0].content|;
      forall k | 0 <= k < |fs| ensures ConsumesAsWritten(fs[k]) == Emitted(fs[k]) {
        if k >= n {
          assert fs[k] == ChapterFields(cs[1..], j + 1)[k - n];
        } else if k > 0 {
          assert fs[k] == Body(cs[0].content[k - 1]);
        }
      }
    }
  }

  lemma {:induction false} NoEmptyBookFields(ps: seq<Part>, i: nat)
    requires NoEmptyTitles(ps)
    ensures forall k :: 0 <= k < |BookFields(ps, i)| ==>
              ConsumesAsWritten(BookFields(ps, i)[k]) == Emitted(BookFields(ps, i)[k])
    decreases |ps|
  {
    if |ps| > 0 {
      assert NoEmptyTitles(ps[1..]) by {
        assert forall k :: 0 <= k < |ps| - 1 ==> ps[1..][k] == ps[k + 1];
      }
      NoEmptyBookFields(ps[1..], i + 1);
      NoEmptyChapterFields(ps[0].chapters, 0);
      var fs := BookFields(ps, i);
      var n := 1 + ChaptersSize(ps[0].chapters);
      forall k | 0 <= k < |fs| ensures ConsumesAsWritten(fs[k]) == Emitted(fs[k]) {
        if k >= n {
          assert fs[k] == BookFields(ps[1..], i + 1)[k - n];
        } else if k > 0 {
          assert fs[k] == ChapterFields(ps[0].chapters, 0)[k - 1];
        }
      }
    }
  }

  /** As written, the round trip holds for books without empty titles. */
  lemma RoundTripAsWritten(ps: seq<Part>)
    requires NoEmptyTitles(ps)
    ensures ReconstructAsWritten(ps, ReadTranslations(CreateCleanDocx(ps).0)) == MapBook(ps, Restore)
  {
    var fs := BookFields(ps, 0);
    ReadCleanDocx(ps);
    NoEmptyBookFields(ps, 0);
    WalkRestores(fs, 1, map[], ConsumesAsWritten);
    BookFieldsMap(ps, Restore, 0);
    MapBookShape(ps, Restore);
    RefillFields(ps, MapBook(ps, Restore), 0);
  }

  /** The first part's title is taken from the first field. */
  lemma RefillTitle(ps: seq<Part>, fs: seq<Field>, keepSubtitle: bool)
    requires |ps| > 0 && |fs| == BookSize(ps)
    ensures RefillParts(ps, fs, keepSubtitle)[0].title == fs[0].TitleOf()
  {
  }

  /** A part with an empty title followed by a chapter titled "A". */
  const EmptyTitleBook: seq<Part> := [Part(Some(""), None, [Chapter(Some("A"), [])])]

  lemma EmptyTitleFields()
    ensures BookFields(EmptyTitleBook, 0) == [PartTitle(0, Some("")), ChapterTitle(0, Some("A"))]
  {
    var cs := EmptyTitleBook[0].chapters;
    assert ChapterFields(cs, 0) == [ChapterTitle(0, Some("A"))] + Bodies([]) + ChapterFields(cs[1..], 1);
  }

  lemma RestorableA()
    ensures Restorable("A") && Strip("A") == "A"
  {
    RestorableLetter("A");
  }

  /** A single visible character is recorded as it is. */
  lemma RestorableLetter(t: string)
    requires |t| == 1 && !IsSpace(t[0])
    ensures Restorable(t) && Strip(t) == t
  {
    StripFixed(t);
  }

  lemma EmptyTitleFound()
    ensures Found([PartTitle(0, Some("")), ChapterTitle(0, Some("A"))], 1, map[], Restorable) == map[Marker(1) := "A"]
  {
    var fs := [PartTitle(0, Some("")), ChapterTitle(0, Some("A"))];
    FoundStep(fs, 1, map[], Restorable);
    RestorableA();
    FoundStep(fs[1..], 1, map[], Restorable);
    assert fs[1..][1..] == [];
  }

  /** The untranslated document of that book holds one translation. */
  lemma EmptyTitleTranslations()
    ensures ReadTranslations(CreateCleanDocx(EmptyTitleBook).0) == map[Marker(1) := "A"]
  {
    EmptyTitleFields();
    ReadCleanDocx(EmptyTitleBook);
    EmptyTitleFound();
  }

  /** As written, an empty part title takes the number of the text after
      it: the part is given the chapter's title and the round trip fails. */
  lemma EmptyTitleShifts()
    ensures var tr := ReadTranslations(CreateCleanDocx(EmptyTitleBook).0);
            && ReconstructAsWritten(EmptyTitleBook, tr)[0].title == Some("A")
            && Reconstruct(EmptyTitleBook, tr)[0].title == Some("")
            && ReconstructAsWritten(EmptyTitleBook, tr) != MapBook(EmptyTitleBook, Restore)
  {
    var ps := EmptyTitleBook;
    var fs := BookFields(ps, 0);
    EmptyTitleFields();
    EmptyTitleTranslations();
    var tr := map[Marker(1) := "A"];
    assert Lookup(tr, 1) == Some("A");
    var w := Walk(fs, 1, tr, ConsumesAsWritten, PutClean);
    WalkAt(fs, 1, tr, ConsumesAsWritten, PutClean, 0);
    assert fs[..0] == [];
    assert w[0] == PartTitle(0, Some("A"));
    RefillTitle(ps, w, true);
    var c := Walk(fs, 1, tr, ConsumesCorrected, PutClean);
    WalkAt(fs, 1, tr, ConsumesCorrected, PutClean, 0);
    assert c[0] == PartTitle(0, Some(""));
    RefillTitle(ps, c, true);
    RoundTrip(ps);
  }
}
