/** Repair of SVG-wrapped cover pages (`fix_svg_cover`, ui.py:51-96).

    A page is treated as an SVG cover when it has an `<svg` element, an
    `xlink:href` attribute and one of three cover markers.  The first quoted
    `xlink:href` value is then spliced, verbatim, into a fixed XHTML page
    whose body is a single `<img>` inside a `<section epub:type="cover">`. */
module SvgCover {
  import opened Wrappers
  import opened Text

  /** The gate of ui.py:60-70: an `<svg` element, an `xlink:href` reference
      and at least one of the three cover indicators. */
  predicate LooksLikeSvgCover(x: string)
  {
    Contains(x, "<svg") && Contains(x, "xlink:href") &&
    (Contains(x, "calibre:cover") || Contains(x, "name=\"cover\"") ||
     Contains(x, "<title>Cover</title>"))
  }

  /** The characters of the class `["']`. */
  predicate IsQuote(c: char)
  {
    c == '"' || c == '\''
  }

  /** The index of the first quote or apostrophe at or after `from`. */
  function NextQuote(x: string, from: nat): (r: Option<nat>)
    ensures r.Some? ==> from <= r.value < |x| && IsQuote(x[r.value])
    ensures r.Some? ==> forall k {:trigger IsQuote(x[k])} :: from <= k < r.value ==> !IsQuote(x[k])
    ensures r.None? ==> forall k {:trigger IsQuote(x[k])} :: from <= k < |x| ==> !IsQuote(x[k])
    decreases |x| - from
  {
    if from >= |x| then None
    else if IsQuote(x[from]) then Some(from)
    else NextQuote(x, from + 1)
  }

  /** The regex `xlink:href=["']([^"']+)["']` matches at index `i`: the
      literal, an opening quote of either kind, a non-empty run of non-quote
      characters, and a closing quote of either kind. */
  predicate HrefMatch(x: string, i: nat)
  {
    At(x, i, "xlink:href=") && i + 11 < |x| && IsQuote(x[i + 11]) &&
    var q := NextQuote(x, i + 12);
    q.Some? && q.value > i + 12
  }

  /** The captured group of a match at `i`. */
  function HrefValue(x: string, i: nat): (v: string)
    requires HrefMatch(x, i)
    ensures |v| > 0 && forall k {:trigger IsQuote(v[k])} :: 0 <= k < |v| ==> !IsQuote(v[k])
    ensures IsQuote(x[i + 11]) && i + 12 + |v| < |x|
    ensures x[i + 12..i + 12 + |v|] == v && IsQuote(x[i + 12 + |v|])
  {
    x[i + 12..NextQuote(x, i + 12).value]
  }

  /** `i` is where `re.search` finds the regex: a match with none to its left. */
  ghost predicate FirstHref(x: string, i: nat)
  {
    HrefMatch(x, i) && forall j :: 0 <= j < i ==> !HrefMatch(x, j)
  }

  /** The scan of `re.search`, trying each start index from `from` upwards. */
  function FindHref(x: string, from: nat): (r: Option<nat>)
    ensures r.Some? ==> from <= r.value && HrefMatch(x, r.value)
    ensures r.Some? ==> forall j :: from <= j < r.value ==> !HrefMatch(x, j)
    ensures r.None? ==> forall j :: from <= j ==> !HrefMatch(x, j)
    decreases |x| - from
  {
    if from >= |x| then None
    else if HrefMatch(x, from) then Some(from)
    else FindHref(x, from + 1)
  }

  // The fixed replacement page of ui.py:80-94, in pieces short enough for
  // the verifier to inspect character by character.
  const Head1 := "<?xml version=\"1.0\" encoding=\"utf-8\"?>\n"
  const Head2 := "<!DOCTYPE html>\n\n"
  const Head3 := "<html xmlns=\"http://www.w3.org/1999/xhtml\""
  const Head4 := " xmlns:epub=\"http://www.idpf.org/2007/ops\""
  const Head5 := " lang=\"en\" xml:lang=\"en\">\n<head>\n"
  const Head6 := "  <meta content=\"text/html; charset=UTF-8\""
  const Head7 := " http-equiv=\"default-style\"/>\n"
  const Head8 := "  <title>Cover</title>\n</head>\n\n<body>\n"
  const Head9 := "  <section epub:type=\"cover\">\n"
  const Head10 := "    <img alt=\"Cover\" src=\""
  const CoverPageHead := Head1 + Head2 + Head3 + Head4 + Head5 + Head6 + Head7 + Head8 + Head9 + Head10
  const CoverPageTail := "\"/>\n  </section>\n</body>\n</html>"

  /** The replacement page with the image path spliced in verbatim. */
  function CoverPage(imagePath: string): (page: string)
  {
    CoverPageHead + imagePath + CoverPageTail
  }

  /** `fix_svg_cover`: unchanged with `false` unless the gate passes and the
      regex finds a quoted `xlink:href` value; otherwise the fixed page built
      around the value of the leftmost match, with `true`. */
  function FixSvgCover(x: string): (r: Rewritten)
    ensures !LooksLikeSvgCover(x) ==> r == Rewritten(x, false)
    ensures r.changed <==> LooksLikeSvgCover(x) && exists i :: HrefMatch(x, i)
    ensures !r.changed ==> r.text == x
    ensures r.changed ==> exists i :: FirstHref(x, i) && r.text == CoverPage(HrefValue(x, i))
  {
    if !LooksLikeSvgCover(x) then Rewritten(x, false)
    else
      match FindHref(x, 0)
      case None => Rewritten(x, false)
      case Some(i) => Rewritten(CoverPage(HrefValue(x, i)), true)
  }

  // The letter `k` of `xlink:href` occurs nowhere in the template; each
  // lemma inspects a few pieces of it.
  lemma NoLetterK1() ensures 'k' !in Head1 + Head2 {}
  lemma NoLetterK2() ensures 'k' !in Head3 {}
  lemma NoLetterK3() ensures 'k' !in Head4 + Head5 {}
  lemma NoLetterK4() ensures 'k' !in Head6 {}
  lemma NoLetterK5() ensures 'k' !in Head7 + Head8 {}
  lemma NoLetterK6() ensures 'k' !in Head9 + Head10 {}

  lemma NoLetterKInTemplate()
    ensures 'k' !in CoverPageHead && 'k' !in CoverPageTail
    ensures CoverPageHead[|CoverPageHead| - 1] == '"' && CoverPageTail[0] == '"'
  {
    NoLetterK1(); NoLetterK2(); NoLetterK3(); NoLetterK4(); NoLetterK5(); NoLetterK6();
  }

  /** An `xlink:href` in `head + path + tail` can only come from `path`
      when neither `head` nor `tail` has the letter `k` and `path` is
      enclosed in quotes, which the word does not contain. */
  lemma {:induction false} HrefOnlyFromMiddle(head: string, path: string, tail: string)
    requires 'k' !in head && 'k' !in tail
    requires |head| > 0 && head[|head| - 1] == '"' && |tail| > 0 && tail[0] == '"'
    requires !Contains(path, "xlink:href")
    ensures !Contains(head + path + tail, "xlink:href")
  {
    var w := "xlink:href";
    var page := head + path + tail;
    var h := |head|;
    var e := h + |path|;
    if Contains(page, w) {
      var j: nat :| j <= |page| && At(page, j, w);
      assert page[j + 4] == 'k' by { assert page[j..j + |w|][4] == page[j + 4]; }
      assert h <= j + 4 < e;
      assert '"' !in w;
      assert page[h - 1] == '"' && page[e] == '"';
      assert forall p :: j <= p < j + |w| ==> page[p] == w[p - j] by {
        forall p | j <= p < j + |w| ensures page[p] == w[p - j] {
          assert page[j..j + |w|][p - j] == page[p];
        }
      }
      assert h <= j && j + |w| <= e;
      assert path[j - h..j - h + |w|] == page[j..j + |w|];
      ContainsAt(path, j - h, w);
    }
  }

  /** The repair is not applied twice: the replacement page fails the gate
      (unless the image path itself spells `xlink:href`). */
  lemma CoverPageNotRefixed(imagePath: string)
    requires !Contains(imagePath, "xlink:href")
    ensures FixSvgCover(CoverPage(imagePath)) == Rewritten(CoverPage(imagePath), false)
  {
    NoLetterKInTemplate();
    HrefOnlyFromMiddle(CoverPageHead, imagePath, CoverPageTail);
  }
}
