/** The Google Translate variant of the translation round trip,
    scripts/translation/tradutor_docx_google.py.  It numbers the texts
    exactly as the clean variant does, but the build writes a heading
    paragraph ("PART n", "Chapter n") before each title's marker, the
    translated document is read back as one string by a regular
    expression, and the reconstruction takes a number for every title and
    every text item whether or not the build gave it one. */
module TranslationGoogle {
  import opened Wrappers
  import opened Text
  import opened Book
  import Decimal
  import opened Translation

  // ---------------------------------------------------------------------
  // The document
  // ---------------------------------------------------------------------

  /** The heading written before a title's marker: `f"PART {part_idx + 1}"`
      or `f"Chapter {chapter_idx + 1}"`; an item has none. */
  function Heading(f: Field): seq<string> {
    match f
    case PartTitle(i, _) => ["PART " + Decimal.Dec(i + 1)]
    case ChapterTitle(j, _) => ["Chapter " + Decimal.Dec(j + 1)]
    case Body(_) => []
  }

  // The notes are written in short pieces so that facts about their
  // characters stay cheap to prove.
  const BookHeading := "Introduction to the Devout Life" + " - São Francisco de Sales"
  const PreparedNote := "Documento preparado para" + " tradução no Google Translate"
  const NoteHead := "Mantenha a estrutura" + " e marcadores "
  const Template := "###IDXXXX###"
  const NoteTail := " para reconstrução automática"

  /** The title, the two notes and the page break. */
  const GooglePreamble: seq<string> := [BookHeading, PreparedNote, NoteHead + Template + NoteTail, ""]

  /** `create_docx_for_translation`: the paragraphs of the document and
      `id_counter - 1`. */
  function CreateDocx(ps: seq<Part>): (seq<string>, nat) {
    var fs := BookFields(ps, 0);
    (GooglePreamble + BuildBody(fs, 1, Heading), Count(fs, Emitted))
  }

  /** The same document without the headings, the layout of the clean
      variant. */
  function CreateDocxCorrected(ps: seq<Part>): (seq<string>, nat) {
    var fs := BookFields(ps, 0);
    (GooglePreamble + BuildBody(fs, 1, NoHeading), Count(fs, Emitted))
  }

  /** `'\n'.join(paragraph.text for paragraph in doc.paragraphs)` */
  function Content(paras: seq<string>): string {
    Join("\n", paras)
  }

  // ---------------------------------------------------------------------
  // The regular expression
  //   ###ID(\d{4})###\s*\n([^#]*?)(?=###ID\d{4}###|\Z)
  // ---------------------------------------------------------------------

  const IdOpen := "###ID"
  const IdClose := "###"

  /** `###ID\d{4}###` matches at the start of `c`. */
  predicate MarkerAt(c: string) {
    |c| >= 12 && c[..5] == IdOpen && Decimal.AllDigits(c[5..9]) && c[9..12] == IdClose
  }

  /** Whether the pattern matches depends on the first twelve characters
      only. */
  lemma MarkerAtSame(x: string, y: string)
    requires |x| >= 12 && |y| >= 12 && x[..12] == y[..12]
    ensures MarkerAt(x) == MarkerAt(y)
  {
    assert x[..5] == x[..12][..5] && y[..5] == y[..12][..5];
    assert x[5..9] == x[..12][5..9] && y[5..9] == y[..12][5..9];
    assert x[9..12] == x[..12][9..12] && y[9..12] == y[..12][9..12];
  }

  /** Where the run of whitespace starting at `i` ends. */
  function SpaceEnd(c: string, i: nat): (e: nat)
    requires i <= |c|
    ensures i <= e <= |c| && AllSpace(c[i..e]) && (e < |c| ==> !IsSpace(c[e]))
    decreases |c| - i
  {
    if i < |c| && IsSpace(c[i]) then
      var e := SpaceEnd(c, i + 1);
      assert c[i..e] == [c[i]] + c[i + 1..e];
      e
    else i
  }

  /** Where `\s*\n` ends when tried at `i`, the whitespace run ending at
      `e`: greedy with backtracking, just after the run's last line
      break; nothing when the run has none. */
  function NewlineEnd(c: string, i: nat, e: nat): (r: Option<nat>)
    requires i <= e <= |c|
    ensures r.Some? ==> i < r.value <= e && c[r.value - 1] == '\n'
    ensures r.None? <==> '\n' !in c[i..e]
    decreases e - i
  {
    if e == i then None
    else if c[e - 1] == '\n' then Some(e)
    else
      assert c[i..e] == c[i..e - 1] + [c[e - 1]];
      NewlineEnd(c, i, e - 1)
  }

  /** The first `#` at or after `q`, or the end of `c`: as far as the lazy
      `[^#]*?` can reach. */
  function HashFrom(c: string, q: nat): (j: nat)
    requires q <= |c|
    ensures q <= j <= |c| && '#' !in c[q..j] && (j < |c| ==> c[j] == '#')
    decreases |c| - q
  {
    if q == |c| || c[q] == '#' then q
    else
      var j := HashFrom(c, q + 1);
      assert c[q..j] == [c[q]] + c[q + 1..j];
      j
  }

  /** The pattern tried at the start of `c`: where the match ends and the
      captured text.  The capture runs to the first `#`, and succeeds only
      when that `#` opens a marker or there is none. */
  function MatchAt(c: string): (r: Option<(nat, string)>)
    ensures r.Some? ==> MarkerAt(c) && 12 < r.value.0 <= |c| && '#' !in r.value.1
    ensures r.Some? ==> r.value.0 == |c| || MarkerAt(c[r.value.0..])
  {
    if !MarkerAt(c) then None
    else
      match NewlineEnd(c, 12, SpaceEnd(c, 12))
      case None => None
      case Some(q) =>
        var j := HashFrom(c, q);
        if j == |c| || MarkerAt(c[j..]) then Some((j, c[q..j])) else None
  }

  /** `re.findall` over `c`, each stripped non-empty capture stored under
      its marker (`f"###ID{id_num}###"`, the first twelve characters of
      the match); a later match of the same marker overwrites. */
  function Scan(c: string, m: map<string, string>): map<string, string>
    decreases |c|
  {
    if |c| == 0 then m
    else
      match MatchAt(c)
      case Some((j, g)) => Scan(c[j..], if Strip(g) != "" then m[c[..12] := Strip(g)] else m)
      case None => Scan(c[1..], m)
  }

  /** `translations` as extracted from the document's text. */
  function ExtractTranslations(content: string): map<string, string> {
    Scan(content, map[])
  }

  /** What the extraction can store: stripped, not empty, no `#`. */
  predicate Extracted(v: string) {
    v != "" && '#' !in v && Strip(v) == v
  }

  lemma StrippedCapture(g: string)
    requires '#' !in g && Strip(g) != ""
    ensures Extracted(Strip(g))
  {
    StripKeeps(g, c => c != '#');
    StripFixed(Strip(g));
  }

  /** `r` agrees with `m` except on four-digit markers it maps to
      extracted text. */
  predicate StoresOver(r: map<string, string>, m: map<string, string>) {
    forall k :: k in r ==> (k in m && r[k] == m[k]) || (MarkerAt(k) && |k| == 12 && Extracted(r[k]))
  }

  lemma StoresStep(r: map<string, string>, m: map<string, string>, k: string, v: string)
    requires MarkerAt(k) && |k| == 12 && Extracted(v)
    requires StoresOver(r, m[k := v])
    ensures StoresOver(r, m)
  {
  }

  lemma ScanMissed(c: string, m: map<string, string>)
    requires |c| > 0 && MatchAt(c).None?
    ensures Scan(c, m) == Scan(c[1..], m)
  {
  }

  lemma ScanMatched(c: string, m: map<string, string>, j: nat, g: string)
    requires |c| > 0 && MatchAt(c) == Some((j, g))
    ensures j <= |c| && Scan(c, m) == Scan(c[j..], if Strip(g) != "" then m[c[..12] := Strip(g)] else m)
  {
  }

  /** Every key the extraction adds is a four-digit marker, and every value
      it stores is stripped, non-empty and free of `#`. */
  lemma {:induction false} ScanStores(c: string, m: map<string, string>)
    ensures StoresOver(Scan(c, m), m)
    decreases |c|
  {
    if |c| == 0 {
    } else if MatchAt(c).None? {
      ScanMissed(c, m);
      ScanStores(c[1..], m);
    } else {
      var (j, g) := MatchAt(c).value;
      ScanMatched(c, m, j, g);
      if Strip(g) != "" {
        StrippedCapture(g);
        MarkerAtSame(c, c[..12]);
        ScanStores(c[j..], m[c[..12] := Strip(g)]);
        StoresStep(Scan(c, m), m, c[..12], Strip(g));
      } else {
        ScanStores(c[j..], m);
      }
    }
  }

  lemma Pow10Four()
    ensures Decimal.Pow10(4) == 10000
  {
    assert Decimal.Pow10(2) == 100;
  }

  /** Markers of five digits or more are never found: a book with 10000
      texts or more loses their translations. */
  lemma LongMarkersMissed(content: string, n: nat)
    requires n >= 10000
    ensures Lookup(ExtractTranslations(content), n) == None
  {
    ScanStores(content, map[]);
    Pow10Four();
    Decimal.PadWidth(n, 4);
    assert |Marker(n)| > 12;
  }

  // ---------------------------------------------------------------------
  // Scanning the document as built
  // ---------------------------------------------------------------------

  lemma MarkerAtHash(c: string)
    requires MarkerAt(c)
    ensures c[0] == '#' && c[1] == '#' && c[2] == '#' && c[3] == 'I' && Text.IsDigit(c[5])
  {
    assert c[..5][0] == c[0] && c[..5][1] == c[1] && c[..5][2] == c[2] && c[..5][3] == c[3];
    assert c[5..9][0] == c[5];
  }

  lemma NotMarkerAt(c: string)
    requires |c| < 12 || !(c[0] == '#' && c[1] == '#' && c[2] == '#' && c[3] == 'I' && Text.IsDigit(c[5]))
    ensures !MarkerAt(c)
  {
    if MarkerAt(c) {
      MarkerAtHash(c);
    }
  }

  lemma HashFromIs(c: string, q: nat, j: nat)
    requires q <= j <= |c| && '#' !in c[q..j] && (j == |c| || c[j] == '#')
    ensures HashFrom(c, q) == j
  {
    var h := HashFrom(c, q);
    forall k | q <= k < j ensures c[k] != '#' {
      assert c[q..j][k - q] == c[k];
    }
    forall k | q <= k < h ensures c[k] != '#' {
      assert c[q..h][k - q] == c[k];
    }
  }

  /** Where `\s*\n` ends after a marker followed by a text that begins
      with a line break: within the text, after whitespace only. */
  lemma UnitNewline(c: string, b: string, rest: string) returns (q: nat)
    requires |b| > 0 && b[0] == '\n' && '#' !in b
    requires rest == "" || MarkerAt(rest)
    requires |c| == 12 + |b| + |rest| && c[12..12 + |b|] == b && c[12 + |b|..] == rest
    ensures NewlineEnd(c, 12, SpaceEnd(c, 12)) == Some(q)
    ensures 12 < q <= 12 + |b| && AllSpace(b[..q - 12])
  {
    var j := 12 + |b|;
    assert c[12] == b[0];
    var e := SpaceEnd(c, 12);
    forall k | 12 <= k < e ensures IsSpace(c[k]) {
      assert c[12..e][k - 12] == c[k];
    }
    if rest != "" {
      MarkerAtHash(rest);
      assert c[j] == rest[0];
    }
    assert e <= j;
    assert c[12..e][0] == '\n';
    q := NewlineEnd(c, 12, e).value;
    var front := b[..q - 12];
    forall k | 0 <= k < |front| ensures IsSpace(front[k]) {
      assert front[k] == c[12 + k];
    }
  }

  /** The match at such a marker ends where the next marker begins, and
      its capture strips to the text's strip. */
  lemma UnitMatch(mk: string, b: string, rest: string) returns (g: string)
    requires |mk| == 12 && MarkerAt(mk)
    requires |b| > 0 && b[0] == '\n' && '#' !in b
    requires rest == "" || MarkerAt(rest)
    ensures MatchAt(mk + b + rest) == Some((12 + |b|, g)) && Strip(g) == Strip(b)
  {
    var c := mk + b + rest;
    var j := 12 + |b|;
    UnitSlices(mk, b, rest);
    MarkerAtSame(c, mk);
    var q := UnitNewline(c, b, rest);
    g := c[q..j];
    assert g == c[12..j][q - 12..];
    assert '#' !in c[q..j] by {
      assert forall k :: 0 <= k < j - q ==> c[q..j][k] == b[q - 12 + k];
    }
    if rest != "" {
      MarkerAtHash(rest);
      assert c[j] == rest[0];
    }
    HashFromIs(c, q, j);
    StripAfterSpaces(b, q - 12);
  }

  /** Leading whitespace does not survive the strip. */
  lemma StripAfterSpaces(b: string, n: nat)
    requires n <= |b| && AllSpace(b[..n])
    ensures Strip(b[n..]) == Strip(b)
  {
    assert b == b[..n] + b[n..];
    StripSpacePrefix(b[..n], b[n..]);
  }

  lemma UnitSlices(mk: string, b: string, rest: string)
    requires |mk| == 12
    ensures (mk + b + rest)[..12] == mk && (mk + b + rest)[12 + |b|..] == rest
    ensures (mk + b + rest)[12..12 + |b|] == b
  {
  }

  /** A marker, a text free of `#` that begins with a line break, and then
      the end or the next marker: the text is stored, stripped, under the
      marker, and the scan goes on at the next marker. */
  lemma UnitScan(mk: string, b: string, rest: string, m: map<string, string>)
    requires |mk| == 12 && MarkerAt(mk)
    requires |b| > 0 && b[0] == '\n' && '#' !in b
    requires rest == "" || MarkerAt(rest)
    ensures Scan(mk + b + rest, m) == Scan(rest, if Strip(b) != "" then m[mk := Strip(b)] else m)
  {
    var c := mk + b + rest;
    var g := UnitMatch(mk, b, rest);
    UnitSlices(mk, b, rest);
    ScanMatched(c, m, 12 + |b|, g);
  }

  /** Positions where the pattern cannot start are passed over. */
  lemma {:induction false} ScanSkip(c: string, k: nat, m: map<string, string>)
    requires k <= |c| && forall i :: 0 <= i < k ==> !MarkerAt(c[i..])
    ensures Scan(c, m) == Scan(c[k..], m)
    decreases k
  {
    if k > 0 {
      assert !MarkerAt(c[0..]);
      assert c[0..] == c;
      ScanMissed(c, m);
      forall i | 0 <= i < k - 1 ensures !MarkerAt(c[1..][i..]) {
        assert c[1..][i..] == c[i + 1..];
      }
      ScanSkip(c[1..], k - 1, m);
      assert c[1..][k - 1..] == c[k..];
    }
  }

  /** Text without `#` holds no match. */
  lemma NoHashSkip(x: string, y: string, m: map<string, string>)
    requires '#' !in x
    ensures Scan(x + y, m) == Scan(y, m)
  {
    var c := x + y;
    forall i | 0 <= i < |x| ensures !MarkerAt(c[i..]) {
      assert c[i..][0] == x[i];
      NotMarkerAt(c[i..]);
    }
    ScanSkip(c, |x|, m);
    assert c[|x|..] == y;
  }

  /** The `###IDXXXX###` of the note is not a marker, as long as a space
      follows it. */
  lemma TemplateSkip(y: string, m: map<string, string>)
    requires |y| > 0 && y[0] == ' '
    ensures Scan(Template + y, m) == Scan(y, m)
  {
    var c := Template + y;
    assert c[12] == ' ';
    forall i | 0 <= i < 12 ensures !MarkerAt(c[i..]) {
      var d := c[i..];
      if |d| >= 12 {
        assert d[0] == c[i] && d[1] == c[i + 1] && d[2] == c[i + 2] && d[3] == c[i + 3] && d[5] == c[i + 5];
      }
      NotMarkerAt(d);
    }
    ScanSkip(c, 12, m);
    assert c[12..] == y;
  }

  lemma NoHashHeading()
    ensures '#' !in BookHeading
  {
    assert '#' !in "Introduction to the Devout Life";
    assert '#' !in " - São Francisco de Sales";
  }

  lemma NoHashNotes()
    ensures '#' !in PreparedNote && '#' !in NoteHead
  {
    assert '#' !in "Documento preparado para";
    assert '#' !in " tradução no Google Translate";
    assert '#' !in "Mantenha a estrutura";
    assert '#' !in " e marcadores ";
  }

  lemma NoHashTail()
    ensures '#' !in NoteTail && NoteTail[0] == ' '
  {
  }

  lemma Join3(a: string, b: string, c: string)
    ensures Join("\n", [a, b, c]) == a + "\n" + b + "\n" + c
  {
    assert [a, b, c][1..] == [b, c] && [b, c][1..] == [c];
    assert Join("\n", [c]) == c;
    assert Join("\n", [b, c]) == b + "\n" + c;
  }

  lemma Join4(a: string, b: string, c: string, d: string)
    ensures Join("\n", [a, b, c, d]) == a + "\n" + b + "\n" + c + "\n" + d
  {
    assert [a, b, c, d][1..] == [b, c, d];
    Join3(b, c, d);
  }

  /** The preamble yields nothing, whatever follows it. */
  lemma PreambleSkip(t: string, m: map<string, string>)
    ensures Scan(Content(GooglePreamble) + t, m) == Scan(t, m)
  {
    var x := BookHeading + "\n" + PreparedNote + "\n" + NoteHead;
    var y := NoteTail + "\n" + "";
    Join4(BookHeading, PreparedNote, NoteHead + Template + NoteTail, "");
    NoHashHeading();
    NoHashNotes();
    NoHashTail();
    assert '#' !in x && '#' !in y;
    assert Content(GooglePreamble) + t == x + (Template + (y + t));
    NoHashSkip(x, Template + (y + t), m);
    TemplateSkip(y + t, m);
    NoHashSkip(y, t, m);
  }

  /** The marker of a counter below 10000 is matched by the pattern. */
  lemma MarkerMatches(n: nat)
    requires n < 10000
    ensures |Marker(n)| == 12 && MarkerAt(Marker(n))
  {
    var d := Decimal.Pad(n, 4);
    Pow10Four();
    Decimal.PadWidth(n, 4);
    var front := "###ID";
    var back := "###";
    WrapDigits(d);
    assert Marker(n) == front + d + back;
    assert Marker(n)[..5] == front;
    assert Marker(n)[5..9] == d;
    assert Marker(n)[9..12] == back;
  }

  /** A body that is not empty starts with the marker of its first
      counter. */
  lemma {:induction false} BodyHead(fs: seq<Field>, n: nat)
    requires |BuildBody(fs, n, NoHeading)| > 0
    ensures Count(fs, Emitted) > 0 && BuildBody(fs, n, NoHeading)[0] == Marker(n)
    decreases |fs|
  {
    if !Emitted(fs[0]) {
      BodyHead(fs[1..], n);
    }
  }

  /** What the extraction keeps: text that is not empty once stripped. */
  predicate Extractable(text: string) {
    Strip(text) != ""
  }

  /** No text given a marker contains `#`. */
  predicate NoHash(fs: seq<Field>) {
    forall k :: 0 <= k < |fs| && Emitted(fs[k]) ==> '#' !in fs[k].Value()
  }

  /** The text of one field as it reads between its marker and the next:
      a line break, the text, then whitespace. */
  lemma UnitText(v: string, w: string)
    requires AllSpace(w) && '#' !in v && '#' !in w
    ensures var b := "\n" + v + w;
            |b| > 0 && b[0] == '\n' && '#' !in b && Strip(b) == Strip(v)
  {
    assert "\n" + v + w == "\n" + (v + w);
    StripSpacePrefix("\n", v + w);
    StripSpaceSuffix(v, w);
  }

  lemma LayoutLast(mk: string, v: string)
    ensures Content([mk, v, ""]) == mk + ("\n" + v + "\n") + ""
  {
    Join3(mk, v, "");
  }

  lemma LayoutMore(mk: string, v: string, r: seq<string>)
    requires |r| > 0
    ensures Content([mk, v, ""] + r) == mk + ("\n" + v + ("\n" + "\n")) + Content(r)
  {
    Join3(mk, v, "");
    JoinConcat("\n", [mk, v, ""], r);
  }

  lemma ContentHead(r: seq<string>)
    requires |r| > 0 && |r[0]| >= 12
    ensures |Content(r)| >= 12 && Content(r)[..12] == r[0][..12]
  {
    assert Content(r) == r[0] + (if |r| == 1 then "" else "\n" + Content(r[1..]));
  }

  /** One marker, its text and the blank paragraph after it, followed by
      the rest of the body: the text is stored under the marker and the
      scan carries on with the rest. */
  lemma ScanUnitLayout(mk: string, v: string, r: seq<string>, m: map<string, string>)
    requires |mk| == 12 && MarkerAt(mk) && '#' !in v
    requires r == [] || (|r[0]| >= 12 && MarkerAt(r[0][..12]))
    ensures Scan(Content([mk, v, ""] + r), m)
            == Scan(Content(r), if Extractable(v) then m[mk := Strip(v)] else m)
  {
    if r == [] {
      var b := "\n" + v + "\n";
      assert [mk, v, ""] + r == [mk, v, ""];
      LayoutLast(mk, v);
      UnitText(v, "\n");
      UnitScan(mk, b, "", m);
    } else {
      var b := "\n" + v + ("\n" + "\n");
      LayoutMore(mk, v, r);
      ContentHead(r);
      var head := r[0][..12];
      assert head[..12] == head;
      MarkerAtSame(Content(r), head);
      UnitText(v, "\n" + "\n");
      UnitScan(mk, b, Content(r), m);
    }
  }

  /** One field with a marker at the head of an untranslated body. */
  lemma ScanBodyHead(fs: seq<Field>, n: nat, m: map<string, string>)
    requires |fs| > 0 && Emitted(fs[0]) && '#' !in fs[0].Value()
    requires n + Count(fs, Emitted) <= 10000
    ensures var v := fs[0].Value();
            Scan(Content(BuildBody(fs, n, NoHeading)), m)
            == Scan(Content(BuildBody(fs[1..], n + 1, NoHeading)),
                    if Extractable(v) then m[Marker(n) := Strip(v)] else m)
  {
    var r := BuildBody(fs[1..], n + 1, NoHeading);
    assert BuildBody(fs, n, NoHeading) == [Marker(n), fs[0].Value(), ""] + r;
    MarkerMatches(n);
    if r != [] {
      BodyHead(fs[1..], n + 1);
      MarkerMatches(n + 1);
      assert r[0][..12] == r[0];
    }
    ScanUnitLayout(Marker(n), fs[0].Value(), r, m);
  }

  /** Scanning an untranslated body, laid out without headings, finds every
      text that strips to something, under its own marker. */
  lemma {:induction false} ScanBody(fs: seq<Field>, n: nat, m: map<string, string>)
    requires NoHash(fs) && n + Count(fs, Emitted) <= 10000
    ensures Scan(Content(BuildBody(fs, n, NoHeading)), m) == Found(fs, n, m, Extractable)
    decreases |fs|
  {
    if |fs| > 0 {
      assert NoHash(fs[1..]) by {
        assert forall k :: 0 <= k < |fs| - 1 ==> fs[1..][k] == fs[k + 1];
      }
      assert Count(fs, Emitted) == (if Emitted(fs[0]) then 1 else 0) + Count(fs[1..], Emitted);
      FoundStep(fs, n, m, Extractable);
      if Emitted(fs[0]) {
        var v := fs[0].Value();
        var m' := if Extractable(v) then m[Marker(n) := Strip(v)] else m;
        assert Found(fs, n, m, Extractable) == Found(fs[1..], n + 1, m', Extractable);
        ScanBodyHead(fs, n, m);
        ScanBody(fs[1..], n + 1, m');
      } else {
        assert BuildBody(fs, n, NoHeading) == BuildBody(fs[1..], n, NoHeading);
        ScanBody(fs[1..], n, m);
      }
    }
  }

  /** The text of paragraphs followed by more paragraphs. */
  lemma ContentAfter(a: seq<string>, b: seq<string>)
    requires |a| > 0
    ensures Content(a + b) == Content(a) + (if b == [] then "" else "\n" + Content(b))
  {
    if b == [] {
      assert a + b == a;
    } else {
      JoinConcat("\n", a, b);
    }
  }

  /** The scan of the preamble followed by a body is the scan of the body. */
  lemma PreambleThenBody(body: seq<string>, m: map<string, string>)
    ensures Scan(Content(GooglePreamble + body), m) == Scan(Content(body), m)
  {
    var pre := GooglePreamble;
    ContentAfter(pre, body);
    if body == [] {
      PreambleSkip("", m);
    } else {
      PreambleSkip("\n" + Content(body), m);
      NoHashSkip("\n", Content(body), m);
    }
  }

  /** The translations the corrected document yields untranslated: every
      text that strips to something, under its own marker. */
  lemma ExtractCorrected(ps: seq<Part>)
    requires NoHash(BookFields(ps, 0)) && Count(BookFields(ps, 0), Emitted) < 10000
    ensures ExtractTranslations(Content(CreateDocxCorrected(ps).0))
            == Found(BookFields(ps, 0), 1, map[], Extractable)
  {
    var fs := BookFields(ps, 0);
    var body := BuildBody(fs, 1, NoHeading);
    ScanBody(fs, 1, map[]);
    PreambleThenBody(body, map[]);
  }

  // ---------------------------------------------------------------------
  // Reconstruction
  // ---------------------------------------------------------------------

  /** The reconstruction takes a number for every part title and every
      chapter title, present or not, and for every text item, blank or
      not. */
  predicate ConsumesGoogle(f: Field) {
    match f
    case Body(it) => IsTextItem(it)
    case _ => true
  }

  /** `len(translated_content.split()) if translated_content else 0` */
  function Recount(c: string): int {
    if c != "" then WordCount(c) else 0
  }

  /** `translations.get(marker, original)`: a title always comes out
      present; a text item is rebuilt from its type, its content and the
      recounted `word_count`. */
  function PutGoogle(f: Field, v: Option<string>): Field {
    match f
    case PartTitle(i, _) => PartTitle(i, Some(v.GetOr(f.Value())))
    case ChapterTitle(j, _) => ChapterTitle(j, Some(v.GetOr(f.Value())))
    case Body(it) =>
      var c := v.GetOr(it.Content());
      Body(Item(it.kind, Some(c), Some(Recount(c))))
  }

  /** `reconstruct_from_docx`: the parts keep only `part_title` and
      `chapters`, the chapters only `chapter_title` and `content`. */
  function ReconstructGoogle(ps: seq<Part>, tr: map<string, string>): seq<Part> {
    RefillParts(ps, Walk(BookFields(ps, 0), 1, tr, ConsumesGoogle, PutGoogle), false)
  }

  /** The book with every `part_subtitle` dropped. */
  function DropSubtitles(ps: seq<Part>): (r: seq<Part>)
    ensures |r| == |ps|
    ensures forall i :: 0 <= i < |ps| ==> r[i] == Part(ps[i].title, None, ps[i].chapters)
  {
    seq(|ps|, i requires 0 <= i < |ps| => Part(ps[i].title, None, ps[i].chapters))
  }

  /** Refilling without the subtitles is refilling with them and then
      dropping them. */
  lemma {:induction false} RefillDropsSubtitles(ps: seq<Part>, fs: seq<Field>)
    requires |fs| == BookSize(ps)
    ensures RefillParts(ps, fs, false) == DropSubtitles(RefillParts(ps, fs, true))
    decreases |ps|
  {
    if |ps| > 0 {
      var n := 1 + ChaptersSize(ps[0].chapters);
      RefillDropsSubtitles(ps[1..], fs[n..]);
      var a := RefillParts(ps, fs, false);
      var b := RefillParts(ps, fs, true);
      assert a[1..] == RefillParts(ps[1..], fs[n..], false);
      assert b[1..] == RefillParts(ps[1..], fs[n..], true);
      assert a[0] == Part(b[0].title, None, b[0].chapters);
      forall i | 1 <= i < |ps| ensures a[i] == DropSubtitles(b)[i] {
        assert a[i] == a[1..][i - 1] && b[i] == b[1..][i - 1];
      }
    }
  }

  function RestoreGoogleTitle(t: Option<string>): Option<string> {
    var v := t.GetOr("");
    Some(if Extractable(v) then Strip(v) else v)
  }

  function RestoreGoogleItem(it: Item): Item {
    if IsTextItem(it) then
      var c := if Extractable(it.Content()) then Strip(it.Content()) else it.Content();
      Item(it.kind, Some(c), Some(Recount(c)))
    else it
  }

  /** What a round trip through an untranslated document does: each text
      that strips to something comes back stripped, every title comes out
      present and every text item has its `word_count` recounted. */
  const GoogleRestore := Rewrite(RestoreGoogleTitle, RestoreGoogleTitle, RestoreGoogleItem)

  /** Every field the build gives a marker is one the reconstruction takes
      a number for; the two agree on a field unless it is a title that is
      absent or empty or a text item that is blank. */
  lemma EmittedConsumed(f: Field)
    ensures Emitted(f) ==> ConsumesGoogle(f)
    ensures ConsumesGoogle(f) && !Emitted(f) <==>
              (f.PartTitle? || f.ChapterTitle? || IsTextItem(f.item)) && IsBlankField(f)
  {
  }

  /** A title that is absent or empty, or content that strips to nothing. */
  predicate IsBlankField(f: Field) {
    match f
    case Body(it) => IsBlank(it.Content())
    case _ => f.Value() == ""
  }

  /** Where the build and the reconstruction agree, the reconstruction puts
      back what the restoration would. */
  lemma GoogleField(f: Field)
    requires ConsumesGoogle(f) ==> Emitted(f)
    ensures ConsumesGoogle(f) == Emitted(f)
    ensures Emitted(f) ==> PutGoogle(f, Kept(f, Extractable)) == MapField(f, GoogleRestore)
    ensures !Emitted(f) ==> MapField(f, GoogleRestore) == f
  {
  }

  /** No title is absent or empty and no text item is blank: the build and
      the reconstruction number the same fields. */
  predicate Aligned(fs: seq<Field>) {
    forall k :: 0 <= k < |fs| && ConsumesGoogle(fs[k]) ==> Emitted(fs[k])
  }

  /** Read back untranslated, the document without headings restores the
      book, when the build and the reconstruction number the same fields,
      no text holds `#` and the counter stays within four digits. */
  lemma GoogleRoundTrip(ps: seq<Part>)
    requires Aligned(BookFields(ps, 0)) && NoHash(BookFields(ps, 0))
    requires Count(BookFields(ps, 0), Emitted) < 10000
    ensures ReconstructGoogle(ps, ExtractTranslations(Content(CreateDocxCorrected(ps).0)))
            == DropSubtitles(MapBook(ps, GoogleRestore))
  {
    var fs := BookFields(ps, 0);
    ExtractCorrected(ps);
    forall k | 0 <= k < |fs|
      ensures ConsumesGoogle(fs[k]) == Emitted(fs[k])
      ensures Emitted(fs[k]) ==> PutGoogle(fs[k], Kept(fs[k], Extractable)) == MapField(fs[k], GoogleRestore)
      ensures !Emitted(fs[k]) ==> MapField(fs[k], GoogleRestore) == fs[k]
    {
      GoogleField(fs[k]);
    }
    WalkFound(fs, 1, map[], Extractable, ConsumesGoogle, PutGoogle, GoogleRestore);
    BookFieldsMap(ps, GoogleRestore, 0);
    MapBookShape(ps, GoogleRestore);
    RefillFields(ps, MapBook(ps, GoogleRestore), 0);
    RefillDropsSubtitles(ps, MapFields(fs, GoogleRestore));
  }

  /** The reconstruction's counter runs ahead of the build's by one for
      every absent or empty title and every blank text item, and the two
      end level exactly when the fields are aligned. */
  lemma GoogleCounters(fs: seq<Field>)
    ensures Count(fs, ConsumesGoogle) == Count(fs, Emitted) + Surplus(fs, ConsumesGoogle)
    ensures Count(fs, ConsumesGoogle) == Count(fs, Emitted) <==> Aligned(fs)
  {
    forall k | 0 <= k < |fs| ensures Emitted(fs[k]) ==> ConsumesGoogle(fs[k]) {
      EmittedConsumed(fs[k]);
    }
    CounterGap(fs, ConsumesGoogle);
  }

  /** Whatever the translations, the reconstruction has the parts,
      chapters and items of the original, and no subtitles. */
  lemma GoogleShape(ps: seq<Part>, tr: map<string, string>)
    ensures SameShape(ReconstructGoogle(ps, tr), ps)
    ensures forall i :: 0 <= i < |ps| ==> ReconstructGoogle(ps, tr)[i].subtitle == None
  {
    RefillShape(ps, Walk(BookFields(ps, 0), 1, tr, ConsumesGoogle, PutGoogle), false);
  }

  /** What the reconstruction puts in a field: the translation if there is
      one and the original text otherwise; a title comes out present, an
      item keeps its type and gets the word count of its new content. */
  lemma PutGoogleField(f: Field, v: Option<string>)
    ensures PutGoogle(f, v).Value() == if v.Some? then v.value else f.Value()
    ensures f.PartTitle? <==> PutGoogle(f, v).PartTitle?
    ensures f.ChapterTitle? <==> PutGoogle(f, v).ChapterTitle?
    ensures !f.Body? ==> PutGoogle(f, v).index == f.index && PutGoogle(f, v).title.Some?
    ensures f.Body? ==>
              && PutGoogle(f, v).item.kind == f.item.kind
              && PutGoogle(f, v).item.wordCount == Some(WordCount(PutGoogle(f, v).Value()))
  {
    if f.Body? {
      assert WordCount("") == 0;
    }
  }

  /** The k-th field of the reconstruction: a field the reconstruction
      takes a number for is filled from the marker of its counter, any
      other (an item of another type) is copied unchanged. */
  lemma GoogleFieldAt(ps: seq<Part>, tr: map<string, string>, k: nat)
    requires k < |BookFields(ps, 0)|
    ensures var fs := BookFields(ps, 0);
            Walk(fs, 1, tr, ConsumesGoogle, PutGoogle)[k]
            == if ConsumesGoogle(fs[k]) then PutGoogle(fs[k], Lookup(tr, 1 + Count(fs[..k], ConsumesGoogle)))
               else fs[k]
  {
    WalkAt(BookFields(ps, 0), 1, tr, ConsumesGoogle, PutGoogle, k);
  }

  // ---------------------------------------------------------------------
  // Missing translations
  // ---------------------------------------------------------------------

  /** The original text counts as missing when untranslated: a title that
      is not empty, content that is not blank. */
  predicate HasText(f: Field) {
    match f
    case Body(it) => !IsBlank(it.Content())
    case _ => f.Value() != ""
  }

  /** `missing_translations`: the markers, in walking order, of the fields
      taken a number for that have no translation and have text. */
  function Missing(fs: seq<Field>, n: nat, tr: map<string, string>): (r: seq<string>)
    ensures |r| <= Count(fs, ConsumesGoogle)
    ensures forall x :: x in r ==> x !in tr
    decreases |fs|
  {
    if |fs| == 0 then []
    else if ConsumesGoogle(fs[0]) then
      (if Marker(n) !in tr && HasText(fs[0]) then [Marker(n)] else []) + Missing(fs[1..], n + 1, tr)
    else Missing(fs[1..], n, tr)
  }

  /** Of the fields the reconstruction numbers, those with text are exactly
      those the build gave a marker. */
  lemma HasTextEmitted(f: Field)
    requires ConsumesGoogle(f)
    ensures HasText(f) <==> Emitted(f)
  {
  }

  /** Every text given a marker strips to something. */
  predicate AllExtractable(fs: seq<Field>) {
    forall k :: 0 <= k < |fs| && Emitted(fs[k]) ==> Extractable(fs[k].Value())
  }

  lemma AllExtractableStep(fs: seq<Field>)
    requires |fs| > 0
    ensures AllExtractable(fs) <==> (Emitted(fs[0]) ==> Extractable(fs[0].Value())) && AllExtractable(fs[1..])
  {
    assert forall k :: 0 <= k < |fs| - 1 ==> fs[1..][k] == fs[k + 1];
    if (Emitted(fs[0]) ==> Extractable(fs[0].Value())) && AllExtractable(fs[1..]) {
      forall k | 0 <= k < |fs| && Emitted(fs[k]) ensures Extractable(fs[k].Value()) {
        if k > 0 {
          assert fs[k] == fs[1..][k - 1];
        }
      }
    }
  }

  lemma AlignedTail(fs: seq<Field>)
    requires |fs| > 0 && Aligned(fs)
    ensures Aligned(fs[1..]) && (ConsumesGoogle(fs[0]) ==> Emitted(fs[0]))
  {
    assert forall k :: 0 <= k < |fs| - 1 ==> fs[1..][k] == fs[k + 1];
  }

  /** Read back untranslated from the aligned document, nothing is missing
      exactly when every text given a marker strips to something (only a
      title made of whitespace can fail that). */
  lemma {:induction false} NothingMissing(fs: seq<Field>, n: nat, m: map<string, string>)
    requires Aligned(fs)
    requires forall j :: n <= j ==> Marker(j) !in m
    ensures Missing(fs, n, Found(fs, n, m, Extractable)) == [] <==> AllExtractable(fs)
    decreases |fs|
  {
    if |fs| > 0 {
      AlignedTail(fs);
      AllExtractableStep(fs);
      var tr := Found(fs, n, m, Extractable);
      FoundStep(fs, n, m, Extractable);
      if Emitted(fs[0]) {
        var v := fs[0].Value();
        var m' := if Extractable(v) then m[Marker(n) := Strip(v)] else m;
        forall j | n + 1 <= j ensures Marker(j) !in m' {
          MarkerInjective(j, n);
        }
        NothingMissing(fs[1..], n + 1, m');
        FoundBelow(fs[1..], n + 1, m', Extractable, n);
        assert Lookup(tr, n) == Kept(fs[0], Extractable);
        EmittedConsumed(fs[0]);
        HasTextEmitted(fs[0]);
        assert Missing(fs, n, tr)
               == (if Marker(n) !in tr && HasText(fs[0]) then [Marker(n)] else []) + Missing(fs[1..], n + 1, tr);
      } else {
        NothingMissing(fs[1..], n, m);
        assert Missing(fs, n, tr) == Missing(fs[1..], n, tr);
      }
    }
  }

  // ---------------------------------------------------------------------
  // The heading read into the text before it
  // ---------------------------------------------------------------------

  /** A part titled "T" with one chapter titled "C". */
  const LeakBook: seq<Part> := [Part(Some("T"), None, [Chapter(Some("C"), [])])]

  lemma LeakFields()
    ensures BookFields(LeakBook, 0) == [PartTitle(0, Some("T")), ChapterTitle(0, Some("C"))]
  {
    var cs := LeakBook[0].chapters;
    assert ChapterFields(cs, 0) == [ChapterTitle(0, Some("C"))] + Bodies([]) + ChapterFields(cs[1..], 1);
  }

  /** The body as built, with the two headings. */
  lemma LeakBody()
    ensures BuildBody(BookFields(LeakBook, 0), 1, Heading)
            == ["PART 1", Marker(1), "T", "", "Chapter 1", Marker(2), "C", ""]
  {
    LeakFields();
    var fs := BookFields(LeakBook, 0);
    assert Decimal.Digit(1) == '1';
    assert Decimal.Dec(1) == [Decimal.Digit(1)];
    assert "PART " + Decimal.Dec(1) == "PART 1";
    assert "Chapter " + Decimal.Dec(1) == "Chapter 1";
    assert Heading(fs[0]) == ["PART 1"];
    assert Heading(fs[1]) == ["Chapter 1"];
    assert fs[1..][1..] == [];
    assert BuildBody(fs[1..], 2, Heading) == ["Chapter 1"] + [Marker(2), "C", ""] + BuildBody([], 3, Heading);
  }

  lemma LeakLayout(h1: string, m1: string, t: string, h2: string, m2: string, c: string)
    ensures Content([h1, m1, t, "", h2, m2, c, ""])
            == (h1 + "\n") + (m1 + ("\n" + (t + "\n" + "\n" + h2) + "\n") + (m2 + ("\n" + c + "\n") + ""))
  {
    assert [h1, m1, t, "", h2, m2, c, ""] == [h1, m1, t, ""] + [h2, m2, c, ""];
    JoinConcat("\n", [h1, m1, t, ""], [h2, m2, c, ""]);
    Join4(h1, m1, t, "");
    Join4(h2, m2, c, "");
  }

  /** The text the part title is read back as: the title, a blank line and
      the chapter's heading. */
  const Leaked := "T" + "\n" + "\n" + "Chapter 1"

  lemma LeakedShape()
    ensures '#' !in Leaked && Strip(Leaked) == Leaked && Extractable(Leaked)
  {
    assert '#' !in "Chapter 1";
    assert Leaked[0] == 'T' && Leaked[|Leaked| - 1] == '1';
    StripFixed(Leaked);
  }

  lemma NewlineFacts()
    ensures AllSpace("\n") && '#' !in "\n"
  {
  }

  lemma ChapterTextFacts()
    ensures '#' !in "C" && Strip("C") == "C"
  {
    StripFixed("C");
  }

  /** The part title's unit: its text runs on into the chapter heading. */
  lemma LeakFirstUnit(mk: string, rest: string)
    requires |mk| == 12 && MarkerAt(mk) && MarkerAt(rest)
    ensures Scan(mk + ("\n" + Leaked + "\n") + rest, map[]) == Scan(rest, map[mk := Leaked])
  {
    NewlineFacts();
    LeakedShape();
    UnitText(Leaked, "\n");
    UnitScan(mk, "\n" + Leaked + "\n", rest, map[]);
  }

  /** The last unit of a document, its text stripped already. */
  lemma LastUnit(mk: string, v: string, m: map<string, string>)
    requires |mk| == 12 && MarkerAt(mk)
    requires v != "" && '#' !in v && Strip(v) == v
    ensures Scan(mk + ("\n" + v + "\n") + "", m) == m[mk := v]
  {
    NewlineFacts();
    UnitText(v, "\n");
    UnitScan(mk, "\n" + v + "\n", "", m);
  }

  lemma LeakUnits(mk1: string, mk2: string)
    requires |mk1| == 12 && MarkerAt(mk1) && |mk2| == 12 && MarkerAt(mk2)
    ensures Scan(mk1 + ("\n" + Leaked + "\n") + (mk2 + ("\n" + "C" + "\n") + ""), map[])
            == map[mk1 := Leaked, mk2 := "C"]
  {
    var rest := mk2 + ("\n" + "C" + "\n") + "";
    assert rest[..12] == mk2[..12];
    MarkerAtSame(rest, mk2);
    LeakFirstUnit(mk1, rest);
    ChapterTextFacts();
    LastUnit(mk2, "C", map[mk1 := Leaked]);
  }

  /** The text of the body: the first heading, then the two units. */
  lemma LeakContent()
    ensures Content(["PART 1", Marker(1), "T", "", "Chapter 1", Marker(2), "C", ""])
            == ("PART 1" + "\n") + (Marker(1) + ("\n" + Leaked + "\n") + (Marker(2) + ("\n" + "C" + "\n") + ""))
  {
    LeakLayout("PART 1", Marker(1), "T", "Chapter 1", Marker(2), "C");
  }

  /** As written, the untranslated document yields the part title with the
      chapter heading attached. */
  lemma LeakTranslations()
    ensures ExtractTranslations(Content(CreateDocx(LeakBook).0)) == map[Marker(1) := Leaked, Marker(2) := "C"]
  {
    var body := ["PART 1", Marker(1), "T", "", "Chapter 1", Marker(2), "C", ""];
    LeakBody();
    assert CreateDocx(LeakBook).0 == GooglePreamble + body;
    PreambleThenBody(body, map[]);
    LeakBodyScan();
  }

  /** The body alone yields the two translations. */
  lemma LeakBodyScan()
    ensures Scan(Content(["PART 1", Marker(1), "T", "", "Chapter 1", Marker(2), "C", ""]), map[])
            == map[Marker(1) := Leaked, Marker(2) := "C"]
  {
    var x := "PART 1" + "\n";
    var units := Marker(1) + ("\n" + Leaked + "\n") + (Marker(2) + ("\n" + "C" + "\n") + "");
    LeakContent();
    assert '#' !in x;
    NoHashSkip(x, units, map[]);
    MarkerMatches(1);
    MarkerMatches(2);
    LeakUnits(Marker(1), Marker(2));
  }

  /** The first part's title comes from marker 1 when that has a
      translation, and is the original title otherwise. */
  lemma GoogleFirstTitle(ps: seq<Part>, tr: map<string, string>)
    requires |ps| > 0
    ensures ReconstructGoogle(ps, tr)[0].title == Some(Lookup(tr, 1).GetOr(ps[0].Title()))
  {
    var fs := BookFields(ps, 0);
    assert fs[0] == PartTitle(0, ps[0].title);
    var w := Walk(fs, 1, tr, ConsumesGoogle, PutGoogle);
    WalkAt(fs, 1, tr, ConsumesGoogle, PutGoogle, 0);
    assert fs[..0] == [];
    RefillTitle(ps, w, false);
  }

  /** As written, the part comes back titled with its own title, a blank
      line and the chapter heading. */
  lemma LeakAsWritten()
    ensures ReconstructGoogle(LeakBook, ExtractTranslations(Content(CreateDocx(LeakBook).0)))[0].title == Some(Leaked)
  {
    LeakTranslations();
    var tr := map[Marker(1) := Leaked, Marker(2) := "C"];
    MarkerInjective(1, 2);
    assert tr[Marker(1)] == Leaked;
    assert Lookup(tr, 1) == Some(Leaked);
    GoogleFirstTitle(LeakBook, tr);
  }

  lemma LeakReady()
    ensures var fs := BookFields(LeakBook, 0);
            Aligned(fs) && NoHash(fs) && Count(fs, Emitted) < 10000
  {
    var fs := BookFields(LeakBook, 0);
    LeakFields();
    assert fs[1..][1..] == [];
  }

  lemma LeakRestoredTitle()
    ensures DropSubtitles(MapBook(LeakBook, GoogleRestore))[0].title == Some("T")
  {
    StripFixed("T");
    assert Extractable("T");
    assert MapBook(LeakBook, GoogleRestore)[0] == MapPart(LeakBook[0], GoogleRestore);
  }

  /** Built without headings, the part comes back titled "T". */
  lemma LeakCorrected()
    ensures ReconstructGoogle(LeakBook, ExtractTranslations(Content(CreateDocxCorrected(LeakBook).0)))
            == DropSubtitles(MapBook(LeakBook, GoogleRestore))
    ensures DropSubtitles(MapBook(LeakBook, GoogleRestore))[0].title == Some("T")
  {
    LeakReady();
    GoogleRoundTrip(LeakBook);
    LeakRestoredTitle();
  }

  /** As written, the round trip of `LeakBook` does not restore it: the part
      title picks up the chapter heading, where the layout without headings
      gives "T" back. */
  lemma HeadingLeaks()
    ensures ReconstructGoogle(LeakBook, ExtractTranslations(Content(CreateDocx(LeakBook).0)))[0].title == Some(Leaked)
    ensures ReconstructGoogle(LeakBook, ExtractTranslations(Content(CreateDocxCorrected(LeakBook).0)))[0].title == Some("T")
    ensures ReconstructGoogle(LeakBook, ExtractTranslations(Content(CreateDocx(LeakBook).0)))
            != DropSubtitles(MapBook(LeakBook, GoogleRestore))
  {
    LeakAsWritten();
    LeakCorrected();
    assert Leaked != "T" by {
      assert |Leaked| != 1;
    }
  }
}
