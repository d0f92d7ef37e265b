/** The package files of scripts/epub_processing/gerar_epub_atualizado.py:
    the OPF manifest and spine (`create_opf_file`), the NCX navigation map
    (`create_ncx_file`) and the chapter files `generate_epub` writes.  The
    XML trees are lists of records; the date is a parameter.  Both
    builders take the prayer and preface flags and never read them, so the
    model leaves those parameters out. */
module EpubPackage {
  import opened Wrappers
  import opened Book
  import Decimal
  import EpubPages

  // ---------------------------------------------------------------------
  // Chapter file numbering
  // ---------------------------------------------------------------------

  /** `f"chapter-{n:03d}"` */
  function ChapterId(n: nat): string {
    "chapter-" + Decimal.Pad(n, 3)
  }

  /** `f"chapter-{n:03d}.xhtml"` */
  function ChapterFile(n: nat): string {
    ChapterId(n) + ".xhtml"
  }

  /** Where the files are stored in the package: `f"text/{file_name}"`. */
  function ChapterHref(n: nat): string {
    "text/" + ChapterFile(n)
  }

  lemma ChapterIdInjective(a: nat, b: nat)
    ensures ChapterId(a) == ChapterId(b) <==> a == b
  {
    if ChapterId(a) == ChapterId(b) {
      assert ChapterId(a)[8..] == Decimal.Pad(a, 3);
      assert ChapterId(b)[8..] == Decimal.Pad(b, 3);
      Decimal.PadInjective(a, b, 3);
    }
  }

  /** The number of chapters of the book. */
  function ChapterCount(ps: seq<Part>): nat {
    |AllChapters(ps)|
  }

  /** The chapter files numbered from `first`, in reading order. */
  function Numbered(first: nat, n: nat): (r: seq<(string, string)>)
    ensures |r| == n
  {
    seq(n, k requires 0 <= k < n => (ChapterId(first + k), ChapterFile(first + k)))
  }

  lemma NumberedConcat(first: nat, a: nat, b: nat)
    ensures Numbered(first, a) + Numbered(first + a, b) == Numbered(first, a + b)
  {
  }

  /** The inner loop of `create_opf_file` over one part's chapters. */
  function ChapterFiles(cs: seq<Chapter>, counter: nat): seq<(string, string)>
    decreases |cs|
  {
    if |cs| == 0 then [] else [(ChapterId(counter), ChapterFile(counter))] + ChapterFiles(cs[1..], counter + 1)
  }

  /** `file_list`: the outer loop over the parts, `file_counter` carried
      along. */
  function FileList(ps: seq<Part>, counter: nat): seq<(string, string)>
    decreases |ps|
  {
    if |ps| == 0 then [] else ChapterFiles(ps[0].chapters, counter) + FileList(ps[1..], counter + |ps[0].chapters|)
  }

  lemma {:induction false} ChapterFilesNumbered(cs: seq<Chapter>, counter: nat)
    ensures ChapterFiles(cs, counter) == Numbered(counter, |cs|)
    decreases |cs|
  {
    if |cs| > 0 {
      var head := [(ChapterId(counter), ChapterFile(counter))];
      calc {
        ChapterFiles(cs, counter);
        head + ChapterFiles(cs[1..], counter + 1);
        { ChapterFilesNumbered(cs[1..], counter + 1); }
        head + Numbered(counter + 1, |cs| - 1);
        { NumberedOne(counter); }
        Numbered(counter, 1) + Numbered(counter + 1, |cs| - 1);
        { NumberedConcat(counter, 1, |cs| - 1); }
        Numbered(counter, |cs|);
      }
    }
  }

  lemma NumberedOne(first: nat)
    ensures Numbered(first, 1) == [(ChapterId(first), ChapterFile(first))]
  {
  }

  /** The file list holds one entry per chapter of the book, numbered
      consecutively from `counter` in part-then-chapter order. */
  lemma {:induction false} FileListNumbered(ps: seq<Part>, counter: nat)
    ensures FileList(ps, counter) == Numbered(counter, ChapterCount(ps))
    decreases |ps|
  {
    if |ps| > 0 {
      var cs := ps[0].chapters;
      var rest := ChapterCount(ps[1..]);
      ChapterFilesNumbered(cs, counter);
      FileListNumbered(ps[1..], counter + |cs|);
      assert FileList(ps, counter) == Numbered(counter, |cs|) + Numbered(counter + |cs|, rest);
      NumberedConcat(counter, |cs|, rest);
      assert AllChapters(ps) == cs + AllChapters(ps[1..]);
      assert ChapterCount(ps) == |cs| + rest;
    }
  }

  // ---------------------------------------------------------------------
  // create_opf_file
  // ---------------------------------------------------------------------

  datatype ManifestItem = ManifestItem(id: string, href: string, mediaType: string)

  datatype Metadata = Metadata(title: string, language: string, identifier: string,
                               creator: string, publisher: string, date: string, coverMeta: bool)

  /** The `package`: its metadata, its manifest and the `idref`s of its
      spine. */
  datatype Package = Package(metadata: Metadata, manifest: seq<ManifestItem>, spine: seq<string>)

  const XhtmlType := "application/xhtml+xml"

  function BookMetadata(pt: bool, date: string): Metadata {
    if pt then Metadata("Filotéia - Introdução à Vida Devota", "pt-BR", "devout-life-pt-br",
                        "St Francis De Sales", "Digital Edition", date, true)
    else Metadata("Introduction to the Devout Life", "en", "devout-life-en",
                  "St Francis De Sales", "Digital Edition", date, false)
  }

  /** The navigation file, the license, the title page and, for Portuguese
      only, the cover image. */
  function FixedItems(pt: bool): seq<ManifestItem> {
    [ManifestItem("ncx", "toc.ncx", "application/x-dtbncx+xml"),
     ManifestItem("license", "license.xhtml", XhtmlType),
     ManifestItem("title-page", "title_page.xhtml", XhtmlType)]
    + (if pt then [ManifestItem("cover-image", "cover.png", "image/png")] else [])
  }

  function FileItems(files: seq<(string, string)>): (r: seq<ManifestItem>)
    ensures |r| == |files|
  {
    seq(|files|, k requires 0 <= k < |files| => ManifestItem(files[k].0, "text/" + files[k].1, XhtmlType))
  }

  function FileIds(files: seq<(string, string)>): (r: seq<string>)
    ensures |r| == |files|
  {
    seq(|files|, k requires 0 <= k < |files| => files[k].0)
  }

  /** `create_opf_file(book_data, ...)`: the package and `file_list`; the
      spine is the title page, the chapters in file order, the license. */
  function CreateOpf(ps: seq<Part>, pt: bool, date: string): (Package, seq<(string, string)>) {
    var files := FileList(ps, 1);
    (Package(BookMetadata(pt, date), FixedItems(pt) + FileItems(files), ["title-page"] + FileIds(files) + ["license"]),
     files)
  }

  /** A chapter id is none of the fixed ids. */
  lemma ChapterIdNotFixed(n: nat)
    ensures ChapterId(n) !in {"ncx", "license", "title-page", "cover-image"}
  {
    var c := ChapterId(n);
    assert c[0] == 'c' && c[1] == 'h';
    assert "cover-image"[1] == 'o';
  }

  /** The file list has one entry per chapter, the k-th named after chapter
      number k + 1. */
  lemma OpfFiles(ps: seq<Part>, pt: bool, date: string)
    ensures var files := CreateOpf(ps, pt, date).1;
            && |files| == ChapterCount(ps)
            && forall k :: 0 <= k < |files| ==> files[k] == (ChapterId(k + 1), ChapterFile(k + 1))
  {
    FileListNumbered(ps, 1);
  }

  /** After the fixed items, the manifest lists each chapter file under
      `text/` as XHTML, in file order. */
  lemma OpfManifest(ps: seq<Part>, pt: bool, date: string)
    ensures var m := CreateOpf(ps, pt, date).0.manifest;
            var chapters := m[|FixedItems(pt)|..];
            && |m| == (if pt then 4 else 3) + ChapterCount(ps)
            && |chapters| == ChapterCount(ps)
            && forall k :: 0 <= k < |chapters| ==> chapters[k] == ManifestItem(ChapterId(k + 1), ChapterHref(k + 1), XhtmlType)
  {
    var (pkg, files) := CreateOpf(ps, pt, date);
    FileListNumbered(ps, 1);
    assert pkg.manifest[|FixedItems(pt)|..] == FileItems(files);
  }

  /** The spine reads the title page, the chapters in file order, the
      license. */
  lemma OpfSpine(ps: seq<Part>, pt: bool, date: string)
    ensures var spine := CreateOpf(ps, pt, date).0.spine;
            var n := ChapterCount(ps);
            && |spine| == n + 2 && spine[0] == "title-page" && spine[n + 1] == "license"
            && forall k :: 1 <= k <= n ==> spine[k] == ChapterId(k)
  {
    var (pkg, files) := CreateOpf(ps, pt, date);
    FileListNumbered(ps, 1);
    forall k | 1 <= k <= |files| ensures pkg.spine[k] == ChapterId(k) {
      assert pkg.spine[k] == FileIds(files)[k - 1];
    }
  }

  /** The cover image is in the manifest, and named in the metadata,
      exactly for the Portuguese edition. */
  lemma OpfCover(ps: seq<Part>, pt: bool, date: string)
    ensures var pkg := CreateOpf(ps, pt, date).0;
            && ((exists i :: 0 <= i < |pkg.manifest| && pkg.manifest[i].id == "cover-image") <==> pt)
            && pkg.metadata.coverMeta == pt
  {
    var (pkg, files) := CreateOpf(ps, pt, date);
    var fixed := FixedItems(pt);
    FileListNumbered(ps, 1);
    if pt {
      assert pkg.manifest[3].id == "cover-image";
    } else {
      forall i | 0 <= i < |pkg.manifest| ensures pkg.manifest[i].id != "cover-image" {
        if i >= |fixed| {
          assert pkg.manifest[i] == FileItems(files)[i - |fixed|];
          ChapterIdNotFixed(i - |fixed| + 1);
        }
      }
    }
  }

  /** Every `idref` of the spine names an item of the manifest. */
  lemma SpineResolves(ps: seq<Part>, pt: bool, date: string)
    ensures var pkg := CreateOpf(ps, pt, date).0;
            forall r :: r in pkg.spine ==> exists i :: 0 <= i < |pkg.manifest| && pkg.manifest[i].id == r
  {
    var (pkg, files) := CreateOpf(ps, pt, date);
    var fixed := FixedItems(pt);
    FileListNumbered(ps, 1);
    forall r | r in pkg.spine ensures exists i :: 0 <= i < |pkg.manifest| && pkg.manifest[i].id == r {
      var s :| 0 <= s < |pkg.spine| && pkg.spine[s] == r;
      if s == 0 {
        assert pkg.manifest[2].id == r;
      } else if s == |pkg.spine| - 1 {
        assert pkg.manifest[1].id == r;
      } else {
        assert pkg.spine[s] == FileIds(files)[s - 1];
        assert pkg.manifest[|fixed| + s - 1].id == r;
      }
    }
  }

  /** Item `i` of the manifest: a fixed item, or the chapter it lists. */
  lemma ManifestAt(ps: seq<Part>, pt: bool, date: string, i: nat)
    requires i < |CreateOpf(ps, pt, date).0.manifest|
    ensures var m := CreateOpf(ps, pt, date).0.manifest;
            var fixed := FixedItems(pt);
            && (i < |fixed| ==> m[i] == fixed[i])
            && (i >= |fixed| ==> m[i].id == ChapterId(i - |fixed| + 1))
  {
    var (pkg, files) := CreateOpf(ps, pt, date);
    var fixed := FixedItems(pt);
    if i >= |fixed| {
      FileListNumbered(ps, 1);
      assert pkg.manifest[i] == FileItems(files)[i - |fixed|];
    }
  }

  /** No two manifest items share an id. */
  lemma ManifestIdsDistinct(ps: seq<Part>, pt: bool, date: string)
    ensures var m := CreateOpf(ps, pt, date).0.manifest;
            forall i, j :: 0 <= i < j < |m| ==> m[i].id != m[j].id
  {
    var m := CreateOpf(ps, pt, date).0.manifest;
    var fixed := FixedItems(pt);
    forall i, j | 0 <= i < j < |m| ensures m[i].id != m[j].id {
      ManifestAt(ps, pt, date, i);
      ManifestAt(ps, pt, date, j);
      if j >= |fixed| {
        if i >= |fixed| {
          ChapterIdInjective(i - |fixed| + 1, j - |fixed| + 1);
        } else {
          ChapterIdNotFixed(j - |fixed| + 1);
        }
      }
    }
  }

  // ---------------------------------------------------------------------
  // The loop over a part's chapters
  // ---------------------------------------------------------------------

  /** What a loop over chapters makes and the counters it leaves behind. */
  datatype Run<T> = Run(entries: seq<T>, order: nat, file: nat)

  /** The loop over one part's chapters, as `create_ncx_file` and
      `generate_epub` write it: the chapter at index `j` of the part gives
      `mk(chapter, j, order, file)`, and both counters advance by one. */
  function Steps<T>(cs: seq<Chapter>, j: nat, order: nat, file: nat, mk: (Chapter, nat, nat, nat) -> T): Run<T>
    decreases |cs|
  {
    if |cs| == 0 then Run([], order, file)
    else
      var rest := Steps(cs[1..], j + 1, order + 1, file + 1, mk);
      Run([mk(cs[0], j, order, file)] + rest.entries, rest.order, rest.file)
  }

  /** Entry k is made from chapter k with every counter advanced k times;
      each counter ends advanced once per chapter. */
  lemma {:induction false} StepsAt<T>(cs: seq<Chapter>, j: nat, order: nat, file: nat, mk: (Chapter, nat, nat, nat) -> T)
    ensures var r := Steps(cs, j, order, file, mk);
            && |r.entries| == |cs| && r.order == order + |cs| && r.file == file + |cs|
            && forall k :: 0 <= k < |cs| ==> r.entries[k] == mk(cs[k], j + k, order + k, file + k)
    decreases |cs|
  {
    if |cs| > 0 {
      StepsAt(cs[1..], j + 1, order + 1, file + 1, mk);
      var r := Steps(cs, j, order, file, mk);
      var rest := Steps(cs[1..], j + 1, order + 1, file + 1, mk);
      forall k | 1 <= k < |cs| ensures r.entries[k] == mk(cs[k], j + k, order + k, file + k) {
        assert r.entries[k] == rest.entries[k - 1];
        assert cs[1..][k - 1] == cs[k];
      }
    }
  }

  // ---------------------------------------------------------------------
  // create_ncx_file
  // ---------------------------------------------------------------------

  /** A `navPoint`: id, `playOrder`, label text, `content src` (absent for a
      part without chapters) and the nested chapter points. */
  datatype NavPoint = NavPoint(id: string, playOrder: nat, caption: string, src: Option<string>, children: seq<NavPoint>)

  datatype Ncx = Ncx(uid: string, docTitle: string, navMap: seq<NavPoint>)


  /** `chapter.get('chapter_title', f'Chapter {chapter_idx + 1}')` */
  function ChapterLabel(c: Chapter, j: nat): string {
    c.title.GetOr("Chapter " + Decimal.Dec(j + 1))
  }

  /** `part.get('part_title', f'Part {part_idx + 1}')` */
  function PartLabel(p: Part, i: nat): string {
    p.title.GetOr("Part " + Decimal.Dec(i + 1))
  }

  /** The point of chapter `j` of a part, with `playOrder` `order` and the
      file numbered `file`. */
  function ChapterNav(c: Chapter, j: nat, order: nat, file: nat): NavPoint {
    NavPoint("chapter-" + Decimal.Dec(order), order, ChapterLabel(c, j), Some(ChapterHref(file)), [])
  }

  /** The inner loop: chapter `j` of the part gets `playOrder` `order` and
      the file of `chapter_file_counter`; both advance. */
  function ChapterNavs(cs: seq<Chapter>, j: nat, order: nat, file: nat): Run<NavPoint> {
    Steps(cs, j, order, file, ChapterNav)
  }

  /** The outer loop: a part's point takes the current `playOrder` without
      advancing it, and the file of its first chapter when it has one. */
  function PartNavs(ps: seq<Part>, i: nat, order: nat, file: nat): (r: Run<NavPoint>)
    decreases |ps|
  {
    if |ps| == 0 then Run([], order, file)
    else
      var cs := ps[0].chapters;
      var inner := ChapterNavs(cs, 0, order, file);
      var point := NavPoint("part-" + Decimal.Dec(i + 1), order, PartLabel(ps[0], i),
                            if |cs| > 0 then Some(ChapterHref(file)) else None, inner.entries);
      var rest := PartNavs(ps[1..], i + 1, inner.order, inner.file);
      Run([point] + rest.entries, rest.order, rest.file)
  }

  /** `create_ncx_file(book_data, lang)`: the title page first with
      `playOrder` 1, the parts from 2, the license with the order the loop
      leaves. */
  function CreateNcx(ps: seq<Part>, pt: bool): Ncx {
    var parts := PartNavs(ps, 0, 2, 1);
    var title := NavPoint("title-page", 1, if pt then "Página de Título" else "Title Page", Some("title_page.xhtml"), []);
    var license := NavPoint("license-page", parts.order, if pt then "Licença" else "License", Some("license.xhtml"), []);
    Ncx(if pt then "devout-life-pt-br" else "devout-life-en",
        if pt then "Introdução à Vida Devota" else "Introduction to the Devout Life",
        [title] + parts.entries + [license])
  }

  /** The chapter points of a list of part points, in order. */
  function ChapterPoints(points: seq<NavPoint>): seq<NavPoint>
    decreases |points|
  {
    if |points| == 0 then [] else points[0].children + ChapterPoints(points[1..])
  }

  /** Chapter k of the run is the point of chapter k with `playOrder`
      `order + k` and the file `file + k`; both counters advance by the
      number of chapters. */
  lemma ChapterNavsAt(cs: seq<Chapter>, j: nat, order: nat, file: nat)
    ensures var r := ChapterNavs(cs, j, order, file);
            && |r.entries| == |cs| && r.order == order + |cs| && r.file == file + |cs|
            && forall k :: 0 <= k < |cs| ==> r.entries[k] == ChapterNav(cs[k], j + k, order + k, file + k)
  {
    StepsAt(cs, j, order, file, ChapterNav);
  }

  /** One point per part; `playOrder` and the file counter both advance by
      the number of chapters. */
  lemma {:induction false} PartNavsCounters(ps: seq<Part>, i: nat, order: nat, file: nat)
    ensures var r := PartNavs(ps, i, order, file);
            |r.entries| == |ps| && r.order == order + ChapterCount(ps) && r.file == file + ChapterCount(ps)
    decreases |ps|
  {
    if |ps| > 0 {
      var cs := ps[0].chapters;
      ChapterNavsAt(cs, 0, order, file);
      var inner := ChapterNavs(cs, 0, order, file);
      PartNavsCounters(ps[1..], i + 1, inner.order, inner.file);
      assert AllChapters(ps) == cs + AllChapters(ps[1..]);
    }
  }

  /** The part point alone: labelled with the part title, nesting one point
      per chapter, and sharing `playOrder` and `src` with its first chapter
      (no `src` when it has none). */
  lemma PartNavHead(ps: seq<Part>, i: nat, order: nat, file: nat)
    requires |ps| > 0
    ensures var pt := PartNavs(ps, i, order, file).entries[0];
            var cs := ps[0].chapters;
            && pt.caption == PartLabel(ps[0], i)
            && |pt.children| == |cs|
            && (|cs| == 0 ==> pt.src == None)
            && (|cs| > 0 ==> pt.playOrder == pt.children[0].playOrder && pt.src == pt.children[0].src)
  {
    ChapterNavsAt(ps[0].chapters, 0, order, file);
  }

  /** Every part point, by position. */
  lemma {:induction false} PartNavsParts(ps: seq<Part>, i: nat, order: nat, file: nat)
    ensures var r := PartNavs(ps, i, order, file);
            && |r.entries| == |ps|
            && forall k :: 0 <= k < |ps| ==>
                 && r.entries[k].caption == PartLabel(ps[k], i + k)
                 && |r.entries[k].children| == |ps[k].chapters|
                 && (|ps[k].chapters| == 0 ==> r.entries[k].src == None)
                 && (|ps[k].chapters| > 0 ==>
                       r.entries[k].playOrder == r.entries[k].children[0].playOrder
                       && r.entries[k].src == r.entries[k].children[0].src)
    decreases |ps|
  {
    if |ps| > 0 {
      var cs := ps[0].chapters;
      var inner := ChapterNavs(cs, 0, order, file);
      PartNavHead(ps, i, order, file);
      PartNavsParts(ps[1..], i + 1, inner.order, inner.file);
      var r := PartNavs(ps, i, order, file);
      var rest := PartNavs(ps[1..], i + 1, inner.order, inner.file);
      assert r.entries == [r.entries[0]] + rest.entries;
      forall k | 1 <= k < |ps|
        ensures r.entries[k] == rest.entries[k - 1] && ps[k] == ps[1..][k - 1]
      {
      }
    }
  }

  /** The chapter points nested under the parts are the chapters of the
      book, the k-th with `playOrder` `order + k` and file `file + k`. */
  lemma {:induction false} PartNavsChapters(ps: seq<Part>, i: nat, order: nat, file: nat)
    ensures var cp := ChapterPoints(PartNavs(ps, i, order, file).entries);
            && |cp| == ChapterCount(ps)
            && forall k :: 0 <= k < |cp| ==> cp[k].playOrder == order + k && cp[k].src == Some(ChapterHref(file + k))
    decreases |ps|
  {
    if |ps| > 0 {
      var cs := ps[0].chapters;
      ChapterNavsAt(cs, 0, order, file);
      var inner := ChapterNavs(cs, 0, order, file);
      PartNavsChapters(ps[1..], i + 1, inner.order, inner.file);
      var r := PartNavs(ps, i, order, file);
      var rest := PartNavs(ps[1..], i + 1, inner.order, inner.file);
      assert AllChapters(ps) == cs + AllChapters(ps[1..]);
      assert r.entries == [r.entries[0]] + rest.entries;
      assert ChapterPoints(r.entries) == inner.entries + ChapterPoints(rest.entries);
      forall k | 0 <= k < |inner.entries|
        ensures inner.entries[k].playOrder == order + k && inner.entries[k].src == Some(ChapterHref(file + k)) {
        assert inner.entries[k] == ChapterNav(cs[k], k, order + k, file + k);
      }
      PointsConcat(inner.entries, ChapterPoints(rest.entries), order, file);
    }
  }

  /** Points numbered from `order` and `file`, followed by points numbered
      from where they stop, are numbered from `order` and `file`. */
  lemma PointsConcat(a: seq<NavPoint>, b: seq<NavPoint>, order: nat, file: nat)
    requires forall k :: 0 <= k < |a| ==> a[k].playOrder == order + k && a[k].src == Some(ChapterHref(file + k))
    requires forall k :: 0 <= k < |b| ==>
               b[k].playOrder == order + |a| + k && b[k].src == Some(ChapterHref(file + |a| + k))
    ensures forall k :: 0 <= k < |a + b| ==>
              (a + b)[k].playOrder == order + k && (a + b)[k].src == Some(ChapterHref(file + k))
  {
    forall k | 0 <= k < |a + b| ensures (a + b)[k].playOrder == order + k && (a + b)[k].src == Some(ChapterHref(file + k)) {
      if k >= |a| {
        assert (a + b)[k] == b[k - |a|];
        assert file + |a| + (k - |a|) == file + k;
      }
    }
  }

  /** `playOrder` 1 for the title page, 2 onwards for the chapters in
      reading order, the number of chapters plus 2 for the license; each
      chapter's `src` is `text/` and the name the OPF file list gives it. */
  lemma NcxOrder(ps: seq<Part>, pt: bool, date: string)
    ensures var nav := CreateNcx(ps, pt).navMap;
            var n := ChapterCount(ps);
            var files := CreateOpf(ps, pt, date).1;
            var cp := ChapterPoints(nav[1..|nav| - 1]);
            && |nav| == |ps| + 2 && |files| == n && |cp| == n
            && nav[0].playOrder == 1 && nav[0].src == Some("title_page.xhtml")
            && nav[|ps| + 1].playOrder == n + 2 && nav[|ps| + 1].src == Some("license.xhtml")
            && forall k :: 0 <= k < n ==> cp[k].playOrder == k + 2 && cp[k].src == Some("text/" + files[k].1)
  {
    var r := PartNavs(ps, 0, 2, 1);
    PartNavsCounters(ps, 0, 2, 1);
    PartNavsChapters(ps, 0, 2, 1);
    FileListNumbered(ps, 1);
    var nav := CreateNcx(ps, pt).navMap;
    assert nav[1..|nav| - 1] == r.entries;
  }

  // ---------------------------------------------------------------------
  // generate_epub: the chapter files
  // ---------------------------------------------------------------------

  /** The file name and page of chapter `j` of part `i`, written as file
      number `n`. */
  function PageFile(pt: bool, i: nat, c: Chapter, j: nat, n: nat): (string, EpubPages.Page) {
    (ChapterFile(n), EpubPages.CreateXhtml(c, j + 1, i + 1, pt))
  }

  /** The inner loop of step 8 for part `i`, `file_counter` as both
      counters. */
  function PageStep(pt: bool, i: nat): (Chapter, nat, nat, nat) -> (string, EpubPages.Page) {
    (c: Chapter, j: nat, order: nat, n: nat) => PageFile(pt, i, c, j, n)
  }

  /** Step 8: the loop over the parts around the loop over their chapters,
      one counter running across the book. */
  function WriteParts(ps: seq<Part>, i: nat, counter: nat, pt: bool): seq<(string, EpubPages.Page)>
    decreases |ps|
  {
    if |ps| == 0 then []
    else Steps(ps[0].chapters, 0, counter, counter, PageStep(pt, i)).entries
         + WriteParts(ps[1..], i + 1, counter + |ps[0].chapters|, pt)
  }

  /** The files `generate_epub` writes for the chapters. */
  function WrittenFiles(ps: seq<Part>, pt: bool): seq<(string, EpubPages.Page)> {
    WriteParts(ps, 0, 1, pt)
  }

  /** The names of written files. */
  function Names(w: seq<(string, EpubPages.Page)>): (r: seq<string>)
    ensures |r| == |w| && forall k :: 0 <= k < |w| ==> r[k] == w[k].0
  {
    seq(|w|, k requires 0 <= k < |w| => w[k].0)
  }

  /** The file names of a file list. */
  function FileNames(files: seq<(string, string)>): (r: seq<string>)
    ensures |r| == |files| && forall k :: 0 <= k < |files| ==> r[k] == files[k].1
  {
    seq(|files|, k requires 0 <= k < |files| => files[k].1)
  }

  lemma NamesConcat(a: seq<(string, EpubPages.Page)>, b: seq<(string, EpubPages.Page)>)
    ensures Names(a + b) == Names(a) + Names(b)
  {
    assert Names(a + b) == Names(a) + Names(b);
  }

  lemma FileNamesConcat(a: seq<(string, string)>, b: seq<(string, string)>)
    ensures FileNames(a + b) == FileNames(a) + FileNames(b)
  {
    assert FileNames(a + b) == FileNames(a) + FileNames(b);
  }

  /** One part's files carry the names its entries in the file list get. */
  lemma StepNames(cs: seq<Chapter>, i: nat, j: nat, counter: nat, pt: bool)
    ensures Names(Steps(cs, j, counter, counter, PageStep(pt, i)).entries) == FileNames(ChapterFiles(cs, counter))
  {
    var w := Steps(cs, j, counter, counter, PageStep(pt, i)).entries;
    StepsAt(cs, j, counter, counter, PageStep(pt, i));
    ChapterFilesNumbered(cs, counter);
    var l := Names(w);
    var r := FileNames(ChapterFiles(cs, counter));
    forall k | 0 <= k < |cs| ensures l[k] == r[k] {
      PageStepFile(pt, i, cs[k], j + k, counter + k);
    }
  }

  /** The page made for a chapter is named after its file number and shows
      the chapter's body. */
  lemma PageStepFile(pt: bool, i: nat, c: Chapter, j: nat, n: nat)
    ensures PageStep(pt, i)(c, j, n, n).0 == ChapterFile(n)
    ensures PageStep(pt, i)(c, j, n, n).1.body == EpubPages.ChapterBody(c)
  {
  }

  /** The files written carry the names of the file list, in order. */
  lemma {:induction false} WriteNames(ps: seq<Part>, i: nat, counter: nat, pt: bool)
    ensures Names(WriteParts(ps, i, counter, pt)) == FileNames(FileList(ps, counter))
    decreases |ps|
  {
    if |ps| > 0 {
      var cs := ps[0].chapters;
      StepNames(cs, i, 0, counter, pt);
      WriteNames(ps[1..], i + 1, counter + |cs|, pt);
      var a := Steps(cs, 0, counter, counter, PageStep(pt, i)).entries;
      var b := WriteParts(ps[1..], i + 1, counter + |cs|, pt);
      NamesConcat(a, b);
      FileNamesConcat(ChapterFiles(cs, counter), FileList(ps[1..], counter + |cs|));
    }
  }

  /** The pages of `w` show the chapters `cs`, one for one. */
  predicate Shows(w: seq<(string, EpubPages.Page)>, cs: seq<Chapter>) {
    |w| == |cs| && forall k :: 0 <= k < |w| ==> w[k].1.body == EpubPages.ChapterBody(cs[k])
  }

  lemma ShowsConcat(a: seq<(string, EpubPages.Page)>, ca: seq<Chapter>, b: seq<(string, EpubPages.Page)>, cb: seq<Chapter>)
    requires Shows(a, ca) && Shows(b, cb)
    ensures Shows(a + b, ca + cb)
  {
    var w, cs := a + b, ca + cb;
    forall k | 0 <= k < |w| ensures w[k].1.body == EpubPages.ChapterBody(cs[k]) {
      if k < |a| {
        assert w[k] == a[k] && cs[k] == ca[k];
      } else {
        assert w[k] == b[k - |a|] && cs[k] == cb[k - |a|];
      }
    }
  }

  /** One part's pages show its chapters. */
  lemma StepsShow(cs: seq<Chapter>, i: nat, counter: nat, pt: bool)
    ensures Shows(Steps(cs, 0, counter, counter, PageStep(pt, i)).entries, cs)
  {
    var w := Steps(cs, 0, counter, counter, PageStep(pt, i)).entries;
    StepsAt(cs, 0, counter, counter, PageStep(pt, i));
    forall k | 0 <= k < |w| ensures w[k].1.body == EpubPages.ChapterBody(cs[k]) {
      PageStepFile(pt, i, cs[k], k, counter + k);
    }
  }

  /** The k-th file written shows the k-th chapter of the book. */
  lemma {:induction false} WriteBodiesAt(ps: seq<Part>, i: nat, counter: nat, pt: bool)
    ensures var w := WriteParts(ps, i, counter, pt);
            |w| == ChapterCount(ps) && forall k :: 0 <= k < |w| ==> w[k].1.body == EpubPages.ChapterBody(AllChapters(ps)[k])
  {
    WriteShows(ps, i, counter, pt);
  }

  /** The pages written from part `i` on show the chapters of those parts. */
  lemma {:induction false} WriteShows(ps: seq<Part>, i: nat, counter: nat, pt: bool)
    ensures Shows(WriteParts(ps, i, counter, pt), AllChapters(ps))
    decreases |ps|
  {
    if |ps| > 0 {
      WriteShows(ps[1..], i + 1, counter + |ps[0].chapters|, pt);
      WriteShowsStep(ps, i, counter, pt);
    }
  }

  /** The first part's pages, then those of the rest. */
  lemma WriteShowsStep(ps: seq<Part>, i: nat, counter: nat, pt: bool)
    requires |ps| > 0
    requires Shows(WriteParts(ps[1..], i + 1, counter + |ps[0].chapters|, pt), AllChapters(ps[1..]))
    ensures Shows(WriteParts(ps, i, counter, pt), AllChapters(ps))
  {
    var cs := ps[0].chapters;
    var a := Steps(cs, 0, counter, counter, PageStep(pt, i)).entries;
    var b := WriteParts(ps[1..], i + 1, counter + |cs|, pt);
    StepsShow(cs, i, counter, pt);
    ShowsConcat(a, cs, b, AllChapters(ps[1..]));
    assert AllChapters(ps) == cs + AllChapters(ps[1..]);
    assert WriteParts(ps, i, counter, pt) == a + b;
  }

  /** The k-th chapter file written is the k-th of the OPF file list, so the
      NCX `src`, the OPF `href` and the file on disk name the same
      chapter. */
  lemma WrittenMatchesOpf(ps: seq<Part>, pt: bool, date: string)
    ensures var w := WrittenFiles(ps, pt);
            var files := CreateOpf(ps, pt, date).1;
            |w| == |files| == ChapterCount(ps) && forall k :: 0 <= k < |w| ==> w[k].0 == files[k].1
  {
    WriteNames(ps, 0, 1, pt);
    FileListNumbered(ps, 1);
    var w := WrittenFiles(ps, pt);
    var files := CreateOpf(ps, pt, date).1;
    assert Names(w) == FileNames(files);
  }

  /** The k-th chapter file written holds the page of the k-th chapter of
      the book. */
  lemma WrittenPages(ps: seq<Part>, pt: bool)
    ensures var w := WrittenFiles(ps, pt);
            |w| == ChapterCount(ps) && forall k :: 0 <= k < |w| ==> w[k].1.body == EpubPages.ChapterBody(AllChapters(ps)[k])
  {
    WriteBodiesAt(ps, 0, 1, pt);
  }
}
