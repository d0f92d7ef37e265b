/** The character statistics of compare_epub_text.py: which files of an
    EPUB hold text, the counts reported for the extracted text, and the
    dotted thousands format they are printed in.  Unzipping and the XHTML
    text extraction are outside this model. */
module TextStats {
  import opened Wrappers
  import opened Text
  import opened PathOrder
  import Decimal

  // ---------------------------------------------------------------------
  // The content-file filter of extract_text_from_epub
  // ---------------------------------------------------------------------

  /** An `.xhtml`, `.html` or `.xml` member that is not a table of
      contents, container, page map, NCX or OPF file and not under
      `META-INF`. */
  predicate IsTextFile(name: string) {
    && (EndsWith(name, ".xhtml") || EndsWith(name, ".html") || EndsWith(name, ".xml"))
    && !EndsWith(name, "toc.html")
    && !EndsWith(name, "container.xml")
    && !EndsWith(name, "_page_map_.xml")
    && !EndsWith(name, "_toc_ncx_.ncx")
    && !EndsWith(name, "volume.opf")
    && !Contains(name, "META-INF")
  }

  /** The names kept, in archive order. */
  function KeptNames(names: seq<string>): (r: seq<string>)
    ensures forall n :: n in r <==> n in names && IsTextFile(n)
    decreases |names|
  {
    if |names| == 0 then []
    else
      assert forall n :: n in names <==> n == names[0] || n in names[1..];
      (if IsTextFile(names[0]) then [names[0]] else []) + KeptNames(names[1..])
  }

  /** `content_files`, after `content_files.sort()`. */
  function TextFiles(names: seq<string>): seq<string> {
    SortPaths(KeptNames(names))
  }

  /** The files read are the text files of the archive, each as often as
      it is listed, in ascending order; the archive's order does not
      matter. */
  lemma TextFilesSpec(names: seq<string>)
    ensures var r := TextFiles(names);
            && SortedPaths(r)
            && multiset(r) == multiset(KeptNames(names))
            && (forall n :: n in r <==> n in names && IsTextFile(n))
  {
    SortSpec(KeptNames(names));
  }

  lemma TextFilesOrderFree(a: seq<string>, b: seq<string>)
    requires multiset(KeptNames(a)) == multiset(KeptNames(b))
    ensures TextFiles(a) == TextFiles(b)
  {
    SortSpec(KeptNames(a));
    SortSpec(KeptNames(b));
  }

  lemma EndsWithLast(s: string, p: string)
    requires |p| > 0 && EndsWith(s, p)
    ensures s[|s| - 1] == p[|p| - 1]
  {
    assert s[|s| - |p|..][|p| - 1] == s[|s| - 1];
  }

  /** The `_toc_ncx_.ncx` and `volume.opf` exclusions never apply: a name
      ending in either cannot end in `.xhtml`, `.html` or `.xml`. */
  lemma DeadExclusions(name: string)
    ensures IsTextFile(name) <==>
              && (EndsWith(name, ".xhtml") || EndsWith(name, ".html") || EndsWith(name, ".xml"))
              && !EndsWith(name, "toc.html")
              && !EndsWith(name, "container.xml")
              && !EndsWith(name, "_page_map_.xml")
              && !Contains(name, "META-INF")
  {
    if EndsWith(name, "_toc_ncx_.ncx") {
      EndsWithLast(name, "_toc_ncx_.ncx");
      if EndsWith(name, ".xhtml") { EndsWithLast(name, ".xhtml"); }
      if EndsWith(name, ".html") { EndsWithLast(name, ".html"); }
      if EndsWith(name, ".xml") { EndsWithLast(name, ".xml"); }
    }
    if EndsWith(name, "volume.opf") {
      EndsWithLast(name, "volume.opf");
      if EndsWith(name, ".xhtml") { EndsWithLast(name, ".xhtml"); }
      if EndsWith(name, ".html") { EndsWithLast(name, ".html"); }
      if EndsWith(name, ".xml") { EndsWithLast(name, ".xml"); }
    }
  }

  // ---------------------------------------------------------------------
  // count_characters
  // ---------------------------------------------------------------------

  /** The `[a-zA-ZÀ-ÿ]` class: ASCII letters and the code points U+00C0
      to U+00FF (which include `×` and `÷`). */
  predicate IsLetter(c: char) {
    ('a' <= c <= 'z') || ('A' <= c <= 'Z') || ('\U{C0}' <= c <= '\U{FF}')
  }

  /** How many characters of `s` satisfy `p`. */
  function CountWhere(s: string, p: char -> bool): (r: nat)
    ensures r <= |s|
    decreases |s|
  {
    if |s| == 0 then 0 else (if p(s[0]) then 1 else 0) + CountWhere(s[1..], p)
  }

  /** `len(re.sub(r'[^a-zA-ZÀ-ÿ]', '', text))` */
  function Letters(s: string): nat {
    CountWhere(s, IsLetter)
  }

  datatype Counts = Counts(total: nat, withSpaces: nat, withoutSpaces: nat, lettersOnly: nat, words: nat)

  /** `count_characters`: all zeros for an empty or missing text. */
  function CountCharacters(text: Option<string>): (r: Counts)
    ensures text.None? || text == Some("") ==> r == Counts(0, 0, 0, 0, 0)
  {
    if text.None? || text.value == "" then Counts(0, 0, 0, 0, 0)
    else
      var t := text.value;
      Counts(|t|, |t|, |Decimal.Remove(t, ' ')|, Letters(t), WordCount(t))
  }

  lemma {:induction false} CountWhereConcat(a: string, b: string, p: char -> bool)
    ensures CountWhere(a + b, p) == CountWhere(a, p) + CountWhere(b, p)
    decreases |a|
  {
    if |a| == 0 {
      assert a + b == b;
    } else {
      assert (a + b)[1..] == a[1..] + b;
      CountWhereConcat(a[1..], b, p);
    }
  }

  lemma {:induction false} CountWhereMono(s: string, p: char -> bool, q: char -> bool)
    requires forall c :: p(c) ==> q(c)
    ensures CountWhere(s, p) <= CountWhere(s, q)
    decreases |s|
  {
    if |s| > 0 {
      CountWhereMono(s[1..], p, q);
    }
  }

  predicate NotBlank(c: char) { c != ' ' }

  predicate IsBlankChar(c: char) { c == ' ' }

  /** `text.replace(' ', '')` keeps exactly the characters that are not
      `' '`. */
  lemma {:induction false} RemoveLength(s: string)
    ensures |Decimal.Remove(s, ' ')| == CountWhere(s, NotBlank)
    ensures CountWhere(s, NotBlank) + CountWhere(s, IsBlankChar) == |s|
    decreases |s|
  {
    if |s| > 0 {
      var init := s[..|s| - 1];
      var last := s[|s| - 1];
      RemoveLength(init);
      assert s == init + [last];
      CountWhereConcat(init, [last], NotBlank);
      CountWhereConcat(init, [last], IsBlankChar);
      assert [last][1..] == [];
    }
  }

  predicate NotSpace(c: char) { !IsSpace(c) }

  /** Every word holds at least one non-whitespace character. */
  lemma {:induction false} WordsBound(s: string)
    ensures WordCount(s) <= CountWhere(s, NotSpace)
    decreases |s|
  {
    if |s| > 0 {
      if IsSpace(s[0]) {
        WordsBound(s[1..]);
      } else {
        var k := TokenEnd(s);
        WordsBound(s[k..]);
        assert s == s[..k] + s[k..];
        CountWhereConcat(s[..k], s[k..], NotSpace);
        assert s[..k][0] == s[0];
        assert s[..k] == [s[0]] + s[..k][1..];
        CountWhereConcat([s[0]], s[..k][1..], NotSpace);
        assert [s[0]][1..] == [];
      }
    }
  }

  /** The reported counts: the total is the length and equals the count
      with spaces; the count without spaces is the total less the `' '`
      characters; letters never exceed it, and neither do words. */
  lemma CountsFacts(t: string)
    ensures var r := CountCharacters(Some(t));
            && r.total == r.withSpaces == |t|
            && r.withoutSpaces == |t| - CountWhere(t, IsBlankChar)
            && r.lettersOnly <= r.withoutSpaces <= r.total
            && r.words == WordCount(t) <= r.withoutSpaces
  {
    if t != "" {
      RemoveLength(t);
      CountWhereMono(t, IsLetter, NotBlank);
      WordsBound(t);
      CountWhereMono(t, NotSpace, NotBlank);
    } else {
      assert Split("") == [];
    }
  }

  // ---------------------------------------------------------------------
  // format_number
  // ---------------------------------------------------------------------

  /** `format_number` prints digits in groups of three separated by dots;
      deleting the dots gives the plain decimal string, and each dot is
      followed by exactly three digits. */
  lemma FormatNumberSpec(n: nat, i: nat)
    ensures Decimal.Remove(Decimal.FormatNumber(n), '.') == Decimal.Dec(n)
    ensures i < |Decimal.FormatNumber(n)| && Decimal.FormatNumber(n)[i] == '.' ==>
              i + 3 < |Decimal.FormatNumber(n)|
              && (forall j :: i < j <= i + 3 ==> IsDigit(Decimal.FormatNumber(n)[j]))
              && (i + 4 == |Decimal.FormatNumber(n)| || Decimal.FormatNumber(n)[i + 4] == '.')
  {
    var f := Decimal.FormatNumber(n);
    if i < |f| && f[i] == '.' {
      Decimal.GroupShape(Decimal.Dec(n), '.', i);
    }
  }
}
