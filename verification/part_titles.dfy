/** `split_part_titles`, `reorder_part_object` and `capitalize_subtitle` of
    scripts/json_processing/split_part_titles.py: a part title such as
    `PART THE FIRST - HOW TO BEGIN` becomes the title `PART I` and the
    subtitle `How to begin`. */
module PartTitles {
  import opened Wrappers
  import opened Text
  import opened Book
  import Corrections

  // ---------------------------------------------------------------------
  // capitalize_subtitle
  // ---------------------------------------------------------------------

  /** Words that keep their capital wherever they stand. */
  const AlwaysUpper: set<string> := {"GOD", "JESUS", "CHRIST", "LORD", "HOLY", "SPIRIT", "DIVINE"}

  lemma LowerOfUpperChar(c: char)
    ensures LowerChar(UpperChar(c)) == LowerChar(c)
    ensures UpperChar(LowerChar(c)) == UpperChar(c)
    ensures !IsSpace(c) ==> !IsSpace(UpperChar(c)) && !IsSpace(LowerChar(c))
  {
  }

  /** `w.capitalize()`: the first character upper-cased, the rest
      lower-cased. */
  function Capitalize(w: string): (r: string)
    ensures |r| == |w|
    ensures forall i :: 0 <= i < |w| ==> r[i] == if i == 0 then UpperChar(w[i]) else LowerChar(w[i])
  {
    if |w| == 0 then w else [UpperChar(w[0])] + Lower(w[1..])
  }

  /** Capitalising changes the case of letters only, and only once. */
  lemma CapitalizeCase(w: string)
    ensures Lower(Capitalize(w)) == Lower(w)
    ensures Upper(Capitalize(w)) == Upper(w)
    ensures IsToken(w) ==> IsToken(Capitalize(w))
    ensures Capitalize(Capitalize(w)) == Capitalize(w)
  {
    var r := Capitalize(w);
    forall i | 0 <= i < |w|
      ensures LowerChar(r[i]) == LowerChar(w[i]) && UpperChar(r[i]) == UpperChar(w[i])
      ensures !IsSpace(w[i]) ==> !IsSpace(r[i])
      ensures Capitalize(r)[i] == r[i]
    {
      LowerOfUpperChar(w[i]);
    }
  }

  /** One word after the loop body: `words[0]` has already been
      capitalised; a word naming God is capitalised; the separate `'god'`
      branch is kept as written (see `GodBranchUnreachable`). */
  function CaseWord(w: string, first: bool): string {
    var v := if first then Capitalize(w) else w;
    if Upper(v) in AlwaysUpper then Capitalize(v)
    else if Lower(v) == "god" then "God"
    else v
  }

  /** The `'god'` branch never fires: a word that lower-cases to `god`
      upper-cases to `GOD`, which is already in the set. */
  lemma GodBranchUnreachable(v: string)
    requires Lower(v) == "god"
    ensures Upper(v) in AlwaysUpper
  {
    assert |v| == 3;
    LowerOfUpperChar(v[0]);
    LowerOfUpperChar(v[1]);
    LowerOfUpperChar(v[2]);
    assert Upper(v) == [UpperChar(v[0]), UpperChar(v[1]), UpperChar(v[2])];
    assert Lower(v)[0] == 'g' && Lower(v)[1] == 'o' && Lower(v)[2] == 'd';
    assert Upper(v) == "GOD";
  }

  /** A lower-case word after the loop: capitalised when it is the first
      word or one of `AlwaysUpper`, otherwise unchanged. */
  lemma CaseWordOf(w: string, first: bool)
    requires Lower(w) == w
    ensures CaseWord(w, first) == if first || Upper(w) in AlwaysUpper then Capitalize(w) else w
  {
    if Lower(CaseWord(w, first)) == "god" && !first && Upper(w) !in AlwaysUpper {
      GodBranchUnreachable(w);
    }
    CapitalizeCase(w);
  }

  /** The words the loop produces from the lower-cased words. */
  function CasedWords(words: seq<string>): (r: seq<string>)
    requires forall i :: 0 <= i < |words| ==> Lower(words[i]) == words[i]
    ensures |r| == |words|
    ensures forall i :: 0 <= i < |words| ==>
              r[i] == if i == 0 || Upper(words[i]) in AlwaysUpper then Capitalize(words[i]) else words[i]
  {
    var r := seq(|words|, i requires 0 <= i < |words| => CaseWord(words[i], i == 0));
    forall i | 0 <= i < |words| ensures r[i] == if i == 0 || Upper(words[i]) in AlwaysUpper then Capitalize(words[i]) else words[i] {
      CaseWordOf(words[i], i == 0);
    }
    r
  }

  /** `capitalize_subtitle(subtitle)` */
  function CapitalizeSubtitle(subtitle: string): (r: string)
    ensures Split(subtitle) == [] ==> r == subtitle
    ensures Split(subtitle) != [] ==>
              && |Split(r)| == |Split(subtitle)|
              && LowerAll(Split(r)) == LowerAll(Split(subtitle))
              && r == Join(" ", Split(r))
    ensures forall i :: 0 <= i < |Split(r)| && Split(subtitle) != [] ==>
              var w := Lower(Split(subtitle)[i]);
              Split(r)[i] == if i == 0 || Upper(w) in AlwaysUpper then Capitalize(w) else w
  {
    var words := Split(Lower(subtitle));
    SplitLower(subtitle);
    if |words| == 0 then subtitle
    else
      forall i | 0 <= i < |words| ensures Lower(words[i]) == words[i] {
        LowerIdempotent(Split(subtitle)[i]);
      }
      var cased := CasedWords(words);
      CasedTokens(words, cased);
      SplitOfJoin(cased);
      Join(" ", cased)
  }

  lemma CasedTokens(words: seq<string>, cased: seq<string>)
    requires forall i :: 0 <= i < |words| ==> Lower(words[i]) == words[i] && IsToken(words[i])
    requires cased == CasedWords(words)
    ensures forall i :: 0 <= i < |cased| ==> IsToken(cased[i]) && Lower(cased[i]) == words[i]
  {
  }

  /** Capitalising twice is capitalising once. */
  lemma CapitalizeIdempotent(s: string)
    ensures CapitalizeSubtitle(CapitalizeSubtitle(s)) == CapitalizeSubtitle(s)
  {
    var r := CapitalizeSubtitle(s);
    SplitLower(s);
    SplitLower(r);
    if Split(s) != [] {
      var words := Split(Lower(s));
      forall i | 0 <= i < |words| ensures Lower(words[i]) == words[i] {
        LowerIdempotent(Split(s)[i]);
      }
      var cased := CasedWords(words);
      CasedTokens(words, cased);
      SplitOfJoin(cased);
      assert Split(r) == cased;
      assert Split(Lower(r)) == words;
    }
  }

  // ---------------------------------------------------------------------
  // split_part_titles
  // ---------------------------------------------------------------------

  /** `s.split('-', 1)` on a title that holds a dash. */
  function SplitAtDash(s: string): (r: Option<(string, string)>)
    ensures r.None? <==> '-' !in s
    ensures r.Some? ==> s == r.value.0 + "-" + r.value.1 && '-' !in r.value.0
    decreases |s|
  {
    if |s| == 0 then None
    else if s[0] == '-' then Some(([], s[1..]))
    else
      match SplitAtDash(s[1..])
      case None => None
      case Some(ab) => Some(([s[0]] + ab.0, ab.1))
  }

  /** The split is at the first dash: any way of writing `s` around a
      dash with no dash before it is the one `SplitAtDash` finds. */
  lemma {:induction false} SplitAtDashUnique(s: string, a: string, b: string)
    requires s == a + "-" + b && '-' !in a
    ensures SplitAtDash(s) == Some((a, b))
    decreases |a|
  {
    if |a| == 0 {
      assert s[1..] == b;
    } else {
      assert s[1..] == a[1..] + "-" + b;
      SplitAtDashUnique(s[1..], a[1..], b);
      assert [s[0]] + a[1..] == a;
    }
  }

  /** The replacements of `THE FIRST` … `THE FIFTH` by roman numerals. */
  const Ordinals: Corrections.Table := [
    ("THE FIRST", "I"), ("THE SECOND", "II"), ("THE THIRD", "III"), ("THE FOURTH", "IV"), ("THE FIFTH", "V")
  ]

  /** The new `part_title`: each ordinal replaced in turn. */
  function NumberPart(t: string): (r: string)
    ensures (forall k :: 0 <= k < |Ordinals| ==> !Contains(t, Ordinals[k].0)) ==> r == t
  {
    assert (forall k :: 0 <= k < |Ordinals| ==> !Contains(t, Ordinals[k].0)) ==> Corrections.ReplaceAll(t, Ordinals) == t by {
      if forall k :: 0 <= k < |Ordinals| ==> !Contains(t, Ordinals[k].0) {
        Corrections.ReplaceAllAbsent(t, Ordinals);
      }
    }
    Corrections.ReplaceAll(t, Ordinals)
  }

  /** One part of the loop: a title with a dash is split at its first dash
      into a numbered title and a capitalised subtitle, and the part is
      rebuilt by `reorder_part_object`; any other part is skipped. */
  function SplitPart(p: Part): Part {
    match SplitAtDash(p.Title())
    case None => p
    case Some(ab) => Part(Some(NumberPart(Strip(ab.0))), Some(CapitalizeSubtitle(Strip(ab.1))), p.chapters)
  }

  /** A part without a dash in its title is kept; otherwise its title is
      cut at the first dash, the stripped left half numbered and the
      stripped right half capitalised, and its chapters are kept. */
  lemma SplitPartOf(p: Part, a: string, b: string)
    ensures '-' !in p.Title() ==> SplitPart(p) == p
    ensures p.Title() == a + "-" + b && '-' !in a ==>
              SplitPart(p) == Part(Some(NumberPart(Strip(a))), Some(CapitalizeSubtitle(Strip(b))), p.chapters)
  {
    if p.Title() == a + "-" + b && '-' !in a {
      SplitAtDashUnique(p.Title(), a, b);
    }
  }

  /** The positions of the parts whose title holds a dash. */
  function Dashed(ps: seq<Part>): set<nat> {
    set i | 0 <= i < |ps| && '-' in ps[i].Title()
  }

  lemma DashedSnoc(ps: seq<Part>)
    requires |ps| > 0
    ensures |Dashed(ps)| == |Dashed(ps[..|ps| - 1])| + if '-' in ps[|ps| - 1].Title() then 1 else 0
  {
    var n := |ps| - 1;
    assert forall i :: 0 <= i < n ==> ps[..n][i] == ps[i];
    if '-' in ps[n].Title() {
      assert Dashed(ps) == Dashed(ps[..n]) + {n};
    } else {
      assert Dashed(ps) == Dashed(ps[..n]);
    }
  }

  /** The loop of `split_part_titles` with its body `f`: every part
      through `f`, and the number of parts whose title holds a dash
      (`modificacoes`). */
  function MapParts(ps: seq<Part>, f: Part -> Part): (r: (seq<Part>, nat))
    ensures |r.0| == |ps|
    ensures forall i :: 0 <= i < |ps| ==> r.0[i] == f(ps[i])
    ensures r.1 == |Dashed(ps)|
    decreases |ps|
  {
    if |ps| == 0 then
      assert Dashed(ps) == {};
      ([], 0)
    else
      var n := |ps| - 1;
      var front := MapParts(ps[..n], f);
      DashedSnoc(ps);
      var r := front.0 + [f(ps[n])];
      assert forall i :: 0 <= i < |ps| ==> r[i] == f(ps[i]) by {
        forall i | 0 <= i < |ps| ensures r[i] == f(ps[i]) {
          if i < n {
            assert r[i] == front.0[i];
            assert ps[..n][i] == ps[i];
          }
        }
      }
      (r, front.1 + if '-' in ps[n].Title() then 1 else 0)
  }

  /** `split_part_titles` */
  function SplitPartTitles(ps: seq<Part>): (r: (seq<Part>, nat))
    ensures |r.0| == |ps|
    ensures forall i :: 0 <= i < |ps| ==> r.0[i] == SplitPart(ps[i])
    ensures r.1 == |Dashed(ps)|
  {
    MapParts(ps, SplitPart)
  }

  /** A part whose title holds no dash leaves the pass exactly as it
      came in. */
  lemma SplitPartTitlesSkips(ps: seq<Part>, i: nat)
    requires i < |ps| && '-' !in ps[i].Title()
    ensures SplitPartTitles(ps).0[i] == ps[i]
  {
  }

  // ---------------------------------------------------------------------
  // reorder_part_object
  // ---------------------------------------------------------------------

  /** A JSON object as its entries in insertion order (the order
      `json.dump` writes). */
  type Object<V> = seq<(string, V)>

  function Keys<V>(o: Object<V>): (r: seq<string>)
    ensures |r| == |o|
    decreases |o|
  {
    if |o| == 0 then [] else [o[0].0] + Keys(o[1..])
  }

  predicate Distinct(ks: seq<string>) {
    forall i, j :: 0 <= i < j < |ks| ==> ks[i] != ks[j]
  }

  lemma DistinctCons(k: string, ks: seq<string>)
    requires k !in ks && Distinct(ks)
    ensures Distinct([k] + ks)
  {
    var s := [k] + ks;
    forall i, j | 0 <= i < j < |s| ensures s[i] != s[j] {
      assert s[j] == ks[j - 1];
      if i > 0 {
        assert s[i] == ks[i - 1];
      }
    }
  }

  lemma {:induction false} KeysConcat<V>(a: Object<V>, b: Object<V>)
    ensures Keys(a + b) == Keys(a) + Keys(b)
    decreases |a|
  {
    if |a| > 0 {
      assert (a + b)[1..] == a[1..] + b;
      KeysConcat(a[1..], b);
    } else {
      assert a + b == b;
    }
  }

  /** `o.get(k, default)` */
  function Get<V>(o: Object<V>, k: string, default: V): V
    decreases |o|
  {
    if |o| == 0 then default else if o[0].0 == k then o[0].1 else Get(o[1..], k, default)
  }

  const Reserved: set<string> := {"part_title", "part_subtitle", "chapters"}

  /** The entries whose key is not one of the three the object is rebuilt
      around, in order. */
  function Rest<V>(o: Object<V>): (r: Object<V>)
    decreases |o|
  {
    if |o| == 0 then []
    else if o[0].0 in Reserved then Rest(o[1..])
    else [o[0]] + Rest(o[1..])
  }

  /** `reorder_part_object(part, new_part_title, new_part_subtitle)`;
      `noTitle` and `noChapters` are the `get` defaults `''` and `[]`. */
  function ReorderPartObject<V>(part: Object<V>, title: Option<V>, subtitle: Option<V>, noTitle: V, noChapters: V): Object<V>
  {
    Front(part, title, subtitle, noTitle, noChapters) + Rest(part)
  }

  /** The three rebuilt entries. */
  function Front<V>(part: Object<V>, title: Option<V>, subtitle: Option<V>, noTitle: V, noChapters: V): Object<V>
  {
    var sub := if subtitle.Some? then [("part_subtitle", subtitle.value)]
               else if "part_subtitle" in Keys(part) then [("part_subtitle", Get(part, "part_subtitle", noTitle))]
               else [];
    [("part_title", title.GetOr(Get(part, "part_title", noTitle)))] + sub + [("chapters", Get(part, "chapters", noChapters))]
  }

  /** Looking past entries that do not hold the key. */
  lemma {:induction false} GetAfter<V>(a: Object<V>, b: Object<V>, k: string, d: V)
    requires k !in Keys(a)
    ensures Get(a + b, k, d) == Get(b, k, d)
    decreases |a|
  {
    if |a| > 0 {
      assert (a + b)[0] == a[0];
      assert (a + b)[1..] == a[1..] + b;
      assert Keys(a) == [a[0].0] + Keys(a[1..]);
      GetAfter(a[1..], b, k, d);
    } else {
      assert a + b == b;
    }
  }

  /** The rebuilt object carries the original chapters. */
  lemma ReorderChapters<V>(part: Object<V>, title: Option<V>, subtitle: Option<V>, noTitle: V, noChapters: V)
    ensures Get(ReorderPartObject(part, title, subtitle, noTitle, noChapters), "chapters", noChapters)
            == Get(part, "chapters", noChapters)
  {
    var f := Front(part, title, subtitle, noTitle, noChapters);
    var r := f + Rest(part);
    var c := Get(part, "chapters", noChapters);
    var n := |f| - 1;
    assert f[n] == ("chapters", c);
    assert r[n..] == [f[n]] + Rest(part);
    assert Get(r[n..], "chapters", noChapters) == c;
    if n == 2 {
      assert r[1..][1..] == r[2..];
    }
  }

  /** Dropping the reserved entries does not change another key's value. */
  lemma {:induction false} GetRest<V>(o: Object<V>, k: string, d: V)
    requires k !in Reserved
    ensures Get(Rest(o), k, d) == Get(o, k, d)
    decreases |o|
  {
    if |o| > 0 {
      GetRest(o[1..], k, d);
      if o[0].0 !in Reserved {
        var r := [o[0]] + Rest(o[1..]);
        assert Rest(o) == r;
        assert r[0] == o[0] && r[1..] == Rest(o[1..]);
      }
    }
  }

  /** The kept keys are original keys outside the three reserved ones. */
  lemma {:induction false} RestSub<V>(o: Object<V>, k: string)
    requires k in Keys(Rest(o))
    ensures k in Keys(o) && k !in Reserved
    decreases |o|
  {
    assert |o| > 0;
    assert Keys(o) == [o[0].0] + Keys(o[1..]);
    if o[0].0 in Reserved {
      RestSub(o[1..], k);
    } else {
      assert Keys(Rest(o)) == [o[0].0] + Keys(Rest(o[1..]));
      if k != o[0].0 {
        RestSub(o[1..], k);
      }
    }
  }

  lemma {:induction false} RestDistinct<V>(o: Object<V>)
    requires Distinct(Keys(o))
    ensures Distinct(Keys(Rest(o)))
    decreases |o|
  {
    if |o| > 0 {
      var ks := Keys(o);
      assert ks == [o[0].0] + Keys(o[1..]);
      assert Keys(o[1..]) == ks[1..];
      RestDistinct(o[1..]);
      if o[0].0 !in Reserved {
        assert Keys(Rest(o)) == [o[0].0] + Keys(Rest(o[1..]));
        forall k | k in Keys(Rest(o[1..])) ensures k in Keys(o[1..]) {
          RestSub(o[1..], k);
        }
        assert o[0].0 !in Keys(o[1..]) by {
          forall m | 0 <= m < |o| - 1 ensures Keys(o[1..])[m] != o[0].0 {
            assert ks[m + 1] != ks[0];
          }
        }
        DistinctCons(o[0].0, Keys(Rest(o[1..])));
      }
    }
  }

  /** The rebuilt object lists `part_title`, then `part_subtitle` when one
      is given or present, then `chapters`, then every other original key
      in its original order, with its original value. */
  lemma ReorderKeys<V>(part: Object<V>, title: Option<V>, subtitle: Option<V>, noTitle: V, noChapters: V)
    requires Distinct(Keys(part))
    ensures var r := ReorderPartObject(part, title, subtitle, noTitle, noChapters);
            && Keys(r) == ["part_title"]
                          + (if subtitle.Some? || "part_subtitle" in Keys(part) then ["part_subtitle"] else [])
                          + ["chapters"] + Keys(Rest(part))
            && Distinct(Keys(r))
            && Get(r, "part_title", noTitle) == title.GetOr(Get(part, "part_title", noTitle))
            && Get(r, "chapters", noChapters) == Get(part, "chapters", noChapters)
            && (forall k, d :: k !in Reserved ==> Get(r, k, d) == Get(part, k, d))
  {
    var front := Front(part, title, subtitle, noTitle, noChapters);
    var fk := ["part_title"] + (if subtitle.Some? || "part_subtitle" in Keys(part) then ["part_subtitle"] else []) + ["chapters"];
    FrontKeys(part, title, subtitle, noTitle, noChapters);
    ReorderChapters(part, title, subtitle, noTitle, noChapters);
    KeysConcat(front, Rest(part));
    RestDistinct(part);
    var rk := Keys(Rest(part));
    forall i, j | 0 <= i < j < |fk + rk| ensures (fk + rk)[i] != (fk + rk)[j] {
      if j >= |fk| {
        assert (fk + rk)[j] == rk[j - |fk|];
        assert rk[j - |fk|] in rk;
        RestSub(part, rk[j - |fk|]);
        if i >= |fk| {
          assert (fk + rk)[i] == rk[i - |fk|];
        }
      }
    }
    forall k, d | k !in Reserved
      ensures Get(ReorderPartObject(part, title, subtitle, noTitle, noChapters), k, d) == Get(part, k, d)
    {
      GetAfter(front, Rest(part), k, d);
      GetRest(part, k, d);
    }
  }

  lemma FrontKeys<V>(part: Object<V>, title: Option<V>, subtitle: Option<V>, noTitle: V, noChapters: V)
    ensures Keys(Front(part, title, subtitle, noTitle, noChapters))
            == ["part_title"] + (if subtitle.Some? || "part_subtitle" in Keys(part) then ["part_subtitle"] else []) + ["chapters"]
    ensures forall k :: k in Keys(Front(part, title, subtitle, noTitle, noChapters)) ==> k in Reserved
  {
    var f := Front(part, title, subtitle, noTitle, noChapters);
    assert Keys(f) == [f[0].0] + Keys(f[1..]);
    if |f| == 3 {
      assert Keys(f[1..]) == [f[1].0] + Keys(f[2..]);
      assert Keys(f[2..]) == [f[2].0] + Keys(f[3..]);
    } else {
      assert Keys(f[1..]) == [f[1].0] + Keys(f[2..]);
    }
  }
}
