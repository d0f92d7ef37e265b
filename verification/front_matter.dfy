/** The keyword state machine that splits the first chapter of the extracted
    book into title page, dedicatory prayer and preface.  The same machine
    appears as `extract_special_sections` in reorganize_final.py,
    scripts/json_processing/reorganize_final.py and fix_json_structure_v2.py
    and as `extract_special_content` in fix_json_intelligent.py,
    fix_json_final.py and fix_json_sequential.py (the variants with
    `continue` take the same branches). */
module FrontMatter {
  import opened Wrappers
  import Text
  import opened Book

  const Marker := "DEDICATORY PRAYER"
  const Opening := "O SWEET JESUS"
  const Closing := "St. Francis de Sales"
  const Greeting := "Dear reader"
  const Notice := "This is a digital copy"

  /** The `section` variable: `title`, `prayer_start` (waiting for the
      prayer), `prayer`, `preface_wait` and `preface`. */
  datatype State = Title | PrayerStart | Prayer | PrefaceWait | Preface

  /** Where one paragraph goes. */
  datatype Dest = Nowhere | ToTitle | ToPrayer | ToPreface

  datatype Sections = Sections(titlePage: seq<Item>, prayer: seq<Item>, preface: seq<Item>)

  /** One pass of the `if`/`elif` chain for a paragraph with text `t`. */
  function Step(s: State, t: string): (State, Dest) {
    if Text.Contains(t, Marker) then (PrayerStart, Nowhere)
    else if s == PrayerStart && Text.Contains(t, Opening) then (Prayer, ToPrayer)
    else if s == Prayer && Text.Contains(t, Closing) then (PrefaceWait, ToPrayer)
    else if s == PrefaceWait && Text.Contains(t, Greeting) then (Preface, ToPreface)
    else if s == Title && Text.Contains(t, Notice) then (Title, ToTitle)
    else if s == Prayer then (Prayer, ToPrayer)
    else if s == Preface then (Preface, ToPreface)
    else (s, Nowhere)
  }

  /** `para.get('content', '')` for every paragraph. */
  function Texts(content: seq<Item>): (r: seq<string>)
    ensures |r| == |content|
    ensures forall i :: 0 <= i < |content| ==> r[i] == content[i].Content()
  {
    seq(|content|, i requires 0 <= i < |content| => content[i].Content())
  }

  /** The state after the first `i` paragraphs. */
  function StateAt(texts: seq<string>, i: nat): State
    requires i <= |texts|
  {
    if i == 0 then Title else Step(StateAt(texts, i - 1), texts[i - 1]).0
  }

  /** Where paragraph `i` goes. */
  function RouteAt(texts: seq<string>, i: nat): Dest
    requires i < |texts|
  {
    Step(StateAt(texts, i), texts[i]).1
  }

  /** The paragraphs among the first `n` that go to `d`, in order. */
  function Picks(content: seq<Item>, n: nat, d: Dest): (r: seq<Item>)
    requires n <= |content|
    ensures |r| <= n
  {
    if n == 0 then []
    else Picks(content, n - 1, d) + (if RouteAt(Texts(content), n - 1) == d then [content[n - 1]] else [])
  }

  /** The three lists, each holding the paragraphs routed to it. */
  function SpecialSections(content: seq<Item>): Sections {
    Sections(Picks(content, |content|, ToTitle), Picks(content, |content|, ToPrayer), Picks(content, |content|, ToPreface))
  }

  /** `current_data[0]['chapters'][0]['content']`, the chapter the
      sections are cut from; `None` where that indexing fails. */
  function FirstChapterContent(ps: seq<Part>): (r: Option<seq<Item>>)
    ensures r.Some? <==> |ps| > 0 && |ps[0].chapters| > 0
  {
    if |ps| > 0 && |ps[0].chapters| > 0 then Some(ps[0].chapters[0].content) else None
  }

  /** The loop of `extract_special_sections`. */
  method ExtractSpecialSections(content: seq<Item>) returns (r: Sections)
    ensures r == SpecialSections(content)
    ensures r.titlePage == Picks(content, |content|, ToTitle)
    ensures r.prayer == Picks(content, |content|, ToPrayer)
    ensures r.preface == Picks(content, |content|, ToPreface)
  {
    var texts := Texts(content);
    var section := Title;
    var titlePage, prayer, preface := [], [], [];
    for i := 0 to |content|
      invariant section == StateAt(texts, i)
      invariant titlePage == Picks(content, i, ToTitle)
      invariant prayer == Picks(content, i, ToPrayer)
      invariant preface == Picks(content, i, ToPreface)
    {
      var text := content[i].Content();
      if Text.Contains(text, Marker) {
        section := PrayerStart;
      } else if section == PrayerStart && Text.Contains(text, Opening) {
        section := Prayer;
        prayer := prayer + [content[i]];
      } else if section == Prayer && Text.Contains(text, Closing) {
        prayer := prayer + [content[i]];
        section := PrefaceWait;
      } else if section == PrefaceWait && Text.Contains(text, Greeting) {
        section := Preface;
        preface := preface + [content[i]];
      } else if section == Title && Text.Contains(text, Notice) {
        titlePage := titlePage + [content[i]];
      } else if section == Prayer {
        prayer := prayer + [content[i]];
      } else if section == Preface {
        preface := preface + [content[i]];
      }
    }
    r := Sections(titlePage, prayer, preface);
  }

  // ---------------------------------------------------------------------
  // Properties of the routing
  // ---------------------------------------------------------------------

  /** Each paragraph lands in at most one list: the three lists and the
      dropped paragraphs account for every paragraph exactly once. */
  lemma {:induction false} PicksPartition(content: seq<Item>, n: nat)
    requires n <= |content|
    ensures |Picks(content, n, ToTitle)| + |Picks(content, n, ToPrayer)| + |Picks(content, n, ToPreface)|
            + |Picks(content, n, Nowhere)| == n
  {
    if n > 0 {
      PicksPartition(content, n - 1);
    }
  }

  /** Picking keeps document order: the picked list is a subsequence. */
  lemma {:induction false} PicksOrdered(content: seq<Item>, n: nat, d: Dest, k: nat)
    requires n <= |content| && k < |Picks(content, n, d)|
    ensures exists i :: 0 <= i < n && RouteAt(Texts(content), i) == d && Picks(content, n, d)[k] == content[i]
                        && |Picks(content, i, d)| == k
  {
    if |Picks(content, n - 1, d)| > k {
      PicksOrdered(content, n - 1, d, k);
      var i :| 0 <= i < n - 1 && RouteAt(Texts(content), i) == d && Picks(content, n - 1, d)[k] == content[i]
               && |Picks(content, i, d)| == k;
    } else {
      assert RouteAt(Texts(content), n - 1) == d;
    }
  }

  /** A paragraph containing the marker goes nowhere, from any state, and
      puts the machine back to waiting for the prayer. */
  lemma MarkerResets(s: State, t: string)
    requires Text.Contains(t, Marker)
    ensures Step(s, t) == (PrayerStart, Nowhere)
  {
  }

  /** The machine is still in its first state exactly when no marker has
      been seen. */
  lemma {:induction false} TitleStateIffNoMarker(texts: seq<string>, i: nat)
    requires i <= |texts|
    ensures StateAt(texts, i) == Title <==> forall j :: 0 <= j < i ==> !Text.Contains(texts[j], Marker)
  {
    if i > 0 {
      TitleStateIffNoMarker(texts, i - 1);
    }
  }

  /** The title page holds exactly the notice paragraphs that come before
      every marker. */
  lemma TitlePageBeforeMarker(texts: seq<string>, i: nat)
    requires i < |texts|
    ensures RouteAt(texts, i) == ToTitle <==>
              Text.Contains(texts[i], Notice) && !Text.Contains(texts[i], Marker)
              && forall j :: 0 <= j < i ==> !Text.Contains(texts[j], Marker)
  {
    TitleStateIffNoMarker(texts, i);
  }

  /** Where the machine can be, given where the previous paragraph went. */
  lemma {:induction false} StateHistory(texts: seq<string>, i: nat)
    requires i <= |texts|
    ensures StateAt(texts, i) == Prayer ==> i > 0 && RouteAt(texts, i - 1) == ToPrayer
    ensures StateAt(texts, i) == Preface ==> i > 0 && RouteAt(texts, i - 1) == ToPreface
    ensures StateAt(texts, i) == PrayerStart ==> i > 0 && RouteAt(texts, i - 1) == Nowhere
    ensures StateAt(texts, i) == PrefaceWait ==>
              exists j :: 0 <= j < i && RouteAt(texts, j) == ToPrayer && Text.Contains(texts[j], Closing)
  {
    if i > 0 {
      StepHistory(StateAt(texts, i - 1), texts[i - 1]);
      WaitHistory(texts, i);
    }
  }

  /** Waiting for the preface means a prayer paragraph holding the closing
      line has been seen. */
  lemma {:induction false} WaitHistory(texts: seq<string>, i: nat)
    requires i <= |texts|
    ensures StateAt(texts, i) == PrefaceWait ==>
              exists j :: 0 <= j < i && RouteAt(texts, j) == ToPrayer && Text.Contains(texts[j], Closing)
  {
    if i > 0 && StateAt(texts, i) == PrefaceWait {
      StepHistory(StateAt(texts, i - 1), texts[i - 1]);
      if StateAt(texts, i - 1) == PrefaceWait {
        WaitHistory(texts, i - 1);
        var j :| 0 <= j < i - 1 && RouteAt(texts, j) == ToPrayer && Text.Contains(texts[j], Closing);
        assert 0 <= j < i;
      } else {
        assert RouteAt(texts, i - 1) == ToPrayer && Text.Contains(texts[i - 1], Closing);
      }
    }
  }

  /** One step: the state reached says where the paragraph went. */
  lemma StepHistory(p: State, t: string)
    ensures Step(p, t).0 == Prayer ==> Step(p, t).1 == ToPrayer
    ensures Step(p, t).0 == Preface ==> Step(p, t).1 == ToPreface
    ensures Step(p, t).0 == PrayerStart ==> Step(p, t).1 == Nowhere
    ensures Step(p, t).0 == PrefaceWait ==>
              p == PrefaceWait || (Step(p, t).1 == ToPrayer && Text.Contains(t, Closing))
  {
  }

  /** Every run of prayer paragraphs starts at an `O SWEET JESUS` paragraph. */
  lemma PrayerStartsAtOpening(texts: seq<string>, i: nat)
    requires i < |texts| && RouteAt(texts, i) == ToPrayer
    requires i == 0 || RouteAt(texts, i - 1) != ToPrayer
    ensures Text.Contains(texts[i], Opening)
  {
    StateHistory(texts, i);
  }

  /** A run of prayer paragraphs that is not cut short by a new marker ends
      with a `St. Francis de Sales` paragraph, which it includes. */
  lemma PrayerEndsAtClosing(texts: seq<string>, i: nat)
    requires i + 1 < |texts| && RouteAt(texts, i) == ToPrayer && RouteAt(texts, i + 1) != ToPrayer
    requires !Text.Contains(texts[i + 1], Marker)
    ensures Text.Contains(texts[i], Closing)
  {
    StateHistory(texts, i);
    assert StateAt(texts, i + 1) == Step(StateAt(texts, i), texts[i]).0;
  }

  /** Preface paragraphs start with a `Dear reader` paragraph, and only
      after the prayer has been closed. */
  lemma PrefaceAfterPrayer(texts: seq<string>, i: nat)
    requires i < |texts| && RouteAt(texts, i) == ToPreface
    requires i == 0 || RouteAt(texts, i - 1) != ToPreface
    ensures Text.Contains(texts[i], Greeting)
    ensures exists j :: 0 <= j < i && RouteAt(texts, j) == ToPrayer && Text.Contains(texts[j], Closing)
  {
    StateHistory(texts, i);
  }

  /** No list ever receives a marker paragraph. */
  lemma MarkerNeverPicked(content: seq<Item>, d: Dest, k: nat)
    requires d != Nowhere && k < |Picks(content, |content|, d)|
    ensures !Text.Contains(Picks(content, |content|, d)[k].Content(), Marker)
  {
    PicksOrdered(content, |content|, d, k);
    var i :| 0 <= i < |content| && RouteAt(Texts(content), i) == d && Picks(content, |content|, d)[k] == content[i]
             && |Picks(content, i, d)| == k;
    assert Texts(content)[i] == content[i].Content();
  }
}
