/** The manifest clean-up of the package document (ui.py:231-247): the two
    `re.sub` calls that retype renamed images to `image/jpeg`, and the
    removal of the `svg` property token once an SVG cover was repaired.

    `re.sub` scans from the left; at each index it tries the regex, and on a
    match emits the replacement and resumes after the match, otherwise it
    emits one character and moves on.  The regexes are stated as explicit
    match predicates; where a greedy `[^>]*` lets several matches start at
    one index, backtracking keeps the one whose gap is longest. */
module Manifest {
  import opened Wrappers
  import opened Text

  const MediaTypeImage := "media-type=\"image/"

  /** The alternatives of `(png|gif|webp|bmp)`. */
  const RasterTypes: seq<string> := ["png", "gif", "webp", "bmp"]

  /** Which of the alternatives, followed by a closing quote, stands at
      index `k`.  They begin with distinct letters, so at most one does. */
  function RasterTypeAt(s: string, k: nat): (t: Option<string>)
    ensures t.Some? ==> t.value in RasterTypes && At(s, k, t.value + "\"")
    ensures t.None? ==> forall x :: x in RasterTypes ==> !At(s, k, x + "\"")
  {
    if At(s, k, "png\"") then Some("png")
    else if At(s, k, "gif\"") then Some("gif")
    else if At(s, k, "webp\"") then Some("webp")
    else if At(s, k, "bmp\"") then Some("bmp")
    else None
  }

  /** `href="([^"]+\.jpg)"` at index `i`: the value runs to the next quote,
      has at least one character before `.jpg`, and ends in `.jpg`.  The
      result is the index of the closing quote. */
  function JpgHrefAt(s: string, i: nat): (q: Option<nat>)
    ensures q.Some? ==> At(s, i, "href=\"") && i + 11 <= q.value < |s| && s[q.value] == '"'
    ensures q.Some? ==> EndsWith(s[i + 6..q.value], ".jpg")
    ensures q.Some? ==> forall k :: i + 6 <= k < q.value ==> s[k] != '"'
    ensures q.None? ==> forall e: nat ::
      At(s, i, "href=\"") && i + 11 <= e < |s| && s[e] == '"' && (forall k :: i + 6 <= k < e ==> s[k] != '"')
      ==> !EndsWith(s[i + 6..e], ".jpg")
  {
    if !At(s, i, "href=\"") then None
    else
      match NextIndexOf(s, '"', i + 6)
      case Some(q) => if q >= i + 11 && EndsWith(s[i + 6..q], ".jpg") then Some(q) else None
      case None => None
  }

  /** What one match contributes to `re.sub`: where it ends and the text
      that replaces it. */
  datatype Hit = Hit(end: nat, replacement: string)

  // --- href="(...\.jpg)"([^>]*)media-type="image/(png|gif|webp|bmp)" ---

  /** The first retyping regex matches at `i` with its `[^>]*` gap ending at
      `m`, where the media type begins. */
  predicate HrefFirstMatch(s: string, i: nat, m: nat)
  {
    var q := JpgHrefAt(s, i);
    q.Some? && NoGt(s, q.value + 1, m) && At(s, m, MediaTypeImage) && RasterTypeAt(s, m + 18).Some?
  }

  /** The greediest gap below `bound` for a match at `i`. */
  function LongestHrefFirst(s: string, i: nat, bound: nat): (m: Option<nat>)
    ensures m.Some? ==> m.value < bound && HrefFirstMatch(s, i, m.value)
    ensures forall m': nat :: (m.None? || m.value < m') && m' < bound ==> !HrefFirstMatch(s, i, m')
    decreases bound
  {
    if bound == 0 then None
    else if HrefFirstMatch(s, i, bound - 1) then Some(bound - 1)
    else LongestHrefFirst(s, i, bound - 1)
  }

  /** The match `re.sub` uses at `i`: backtracking keeps the longest gap. */
  ghost predicate GreedyHrefFirst(s: string, i: nat, m: nat)
  {
    HrefFirstMatch(s, i, m) && forall m': nat :: m < m' ==> !HrefFirstMatch(s, i, m')
  }

  /** A match with gap end `m`, rewritten to `href="\1"\2media-type="image/jpeg"`. */
  function HrefFirstHit(s: string, i: nat, m: nat): Hit
    requires HrefFirstMatch(s, i, m)
  {
    var t := RasterTypeAt(s, m + 18).value;
    Hit(m + 18 + |t| + 1, s[i..m + 18] + "jpeg\"")
  }

  /** The rewrite keeps the matched text up to the type name and turns the
      type into `jpeg`. */
  lemma HrefFirstOnlyRetypes(s: string, i: nat, m: nat)
    requires HrefFirstMatch(s, i, m)
    ensures var h := HrefFirstHit(s, i, m);
      exists t :: t in RasterTypes &&
        s[i..h.end] == s[i..m + 18] + t + "\"" && h.replacement == s[i..m + 18] + "jpeg\""
  {
    var t := RasterTypeAt(s, m + 18).value;
    assert s[i..m + 18 + |t| + 1] == s[i..m + 18] + s[m + 18..m + 18 + |t| + 1];
  }

  function HrefFirstAt(s: string, i: nat): (h: Option<Hit>)
    ensures h.None? <==> forall m: nat :: !HrefFirstMatch(s, i, m)
    ensures h.Some? ==> exists m: nat :: GreedyHrefFirst(s, i, m) && h.value == HrefFirstHit(s, i, m)
  {
    match LongestHrefFirst(s, i, |s|)
    case None => None
    case Some(m) => Some(HrefFirstHit(s, i, m))
  }

  // --- media-type="image/(png|gif|webp|bmp)"([^>]*)href="(...\.jpg)" ---

  /** The second retyping regex matches at `i` with its `[^>]*` gap ending
      at `m`, where the `href` begins. */
  predicate MediaFirstMatch(s: string, i: nat, m: nat)
  {
    At(s, i, MediaTypeImage) &&
    var t := RasterTypeAt(s, i + 18);
    t.Some? && NoGt(s, i + 18 + |t.value| + 1, m) && JpgHrefAt(s, m).Some?
  }

  function LongestMediaFirst(s: string, i: nat, bound: nat): (m: Option<nat>)
    ensures m.Some? ==> m.value < bound && MediaFirstMatch(s, i, m.value)
    ensures forall m': nat :: (m.None? || m.value < m') && m' < bound ==> !MediaFirstMatch(s, i, m')
    decreases bound
  {
    if bound == 0 then None
    else if MediaFirstMatch(s, i, bound - 1) then Some(bound - 1)
    else LongestMediaFirst(s, i, bound - 1)
  }

  ghost predicate GreedyMediaFirst(s: string, i: nat, m: nat)
  {
    MediaFirstMatch(s, i, m) && forall m': nat :: m < m' ==> !MediaFirstMatch(s, i, m')
  }

  /** A match with gap end `m`, rewritten to `media-type="image/jpeg"\2href="\3"`. */
  function MediaFirstHit(s: string, i: nat, m: nat): Hit
    requires MediaFirstMatch(s, i, m)
  {
    var g := i + 18 + |RasterTypeAt(s, i + 18).value| + 1;
    var q := JpgHrefAt(s, m).value;
    Hit(q + 1, MediaTypeImage + "jpeg\"" + s[g..q + 1])
  }

  /** The rewrite turns the type into `jpeg` and keeps the rest of the
      matched text. */
  lemma MediaFirstOnlyRetypes(s: string, i: nat, m: nat)
    requires MediaFirstMatch(s, i, m)
    ensures var h := MediaFirstHit(s, i, m);
      exists t, rest :: t in RasterTypes &&
        s[i..h.end] == MediaTypeImage + t + "\"" + rest && h.replacement == MediaTypeImage + "jpeg\"" + rest
  {
    var t := RasterTypeAt(s, i + 18).value;
    var g := i + 18 + |t| + 1;
    var q := JpgHrefAt(s, m).value;
    assert s[i..q + 1] == s[i..i + 18] + s[i + 18..g] + s[g..q + 1];
    assert s[i..i + 18] == MediaTypeImage && s[i + 18..g] == t + "\"";
    assert s[i..q + 1] == MediaTypeImage + t + "\"" + s[g..q + 1];
    var h := MediaFirstHit(s, i, m);
    assert h.end == q + 1 && h.replacement == MediaTypeImage + "jpeg\"" + s[g..q + 1];
    assert t in RasterTypes;
  }

  function MediaFirstAt(s: string, i: nat): (h: Option<Hit>)
    ensures h.None? <==> forall m: nat :: !MediaFirstMatch(s, i, m)
    ensures h.Some? ==> exists m: nat :: GreedyMediaFirst(s, i, m) && h.value == MediaFirstHit(s, i, m)
  {
    match LongestMediaFirst(s, i, |s|)
    case None => None
    case Some(m) => Some(MediaFirstHit(s, i, m))
  }

  // --- \s+svg(?=["\s>]) ---

  /** The characters `\s` matches in a `str` pattern: those for which
      Python's `str.isspace()` holds. */
  predicate IsSpace(c: char)
  {
    c == ' ' || '\t' <= c <= '\r' || '\U{1c}' <= c <= '\U{1f}' ||
    c == '\U{85}' || c == '\U{a0}' || c == '\U{1680}' || '\U{2000}' <= c <= '\U{200a}' ||
    c == '\U{2028}' || c == '\U{2029}' || c == '\U{202f}' || c == '\U{205f}' || c == '\U{3000}'
  }

  /** The end of the run of whitespace starting at `from`. */
  function SpaceRunEnd(s: string, from: nat): (e: nat)
    requires from <= |s|
    ensures from <= e <= |s| && (e < |s| ==> !IsSpace(s[e]))
    ensures forall k :: from <= k < e ==> IsSpace(s[k])
    decreases |s| - from
  {
    if from == |s| || !IsSpace(s[from]) then from else SpaceRunEnd(s, from + 1)
  }

  /** `\s+svg(?=["\s>])` matches at `i`; the greedy `\s+` takes the whole
      whitespace run, and the lookahead needs one more character. */
  predicate SvgTokenMatch(s: string, i: nat)
  {
    i < |s| && IsSpace(s[i]) &&
    var w := SpaceRunEnd(s, i);
    At(s, w, "svg") && w + 3 < |s| && (s[w + 3] == '"' || IsSpace(s[w + 3]) || s[w + 3] == '>')
  }

  /** The match at `i`, removed. */
  function SvgTokenAt(s: string, i: nat): (h: Option<Hit>)
    ensures h.Some? <==> SvgTokenMatch(s, i)
    ensures h.Some? ==> i < h.value.end <= |s|
    ensures h.Some? ==> h.value.replacement == "" && EndsWith(s[i..h.value.end], "svg")
    ensures h.Some? ==> forall k :: i <= k < h.value.end - 3 ==> IsSpace(s[k])
  {
    if SvgTokenMatch(s, i) then Some(Hit(SpaceRunEnd(s, i) + 3, "")) else None
  }

  // --- re.sub ---

  datatype Rule = RetypeHrefFirst | RetypeMediaFirst | StripSvgToken

  function HitAt(s: string, rule: Rule, i: nat): (h: Option<Hit>)
    ensures h.Some? ==> i < h.value.end <= |s|
  {
    match rule
    case RetypeHrefFirst => HrefFirstAt(s, i)
    case RetypeMediaFirst => MediaFirstAt(s, i)
    case StripSvgToken => SvgTokenAt(s, i)
  }

  /** `re.sub(rule, repl, s[from:])`, with matches evaluated on the whole
      text (none of the regexes looks behind its start). */
  function SubFrom(s: string, rule: Rule, from: nat): (r: string)
    requires from <= |s|
    decreases |s| - from
  {
    if from == |s| then ""
    else
      match HitAt(s, rule, from)
      case Some(h) => h.replacement + SubFrom(s, rule, h.end)
      case None => [s[from]] + SubFrom(s, rule, from + 1)
  }

  /** Where no match starts, `re.sub` returns its input. */
  lemma {:induction false} SubFromNoHit(s: string, rule: Rule, from: nat)
    requires from <= |s|
    requires forall k :: from <= k < |s| ==> HitAt(s, rule, k).None?
    ensures SubFrom(s, rule, from) == s[from..]
    decreases |s| - from
  {
    if from < |s| {
      SubFromNoHit(s, rule, from + 1);
      assert s[from..] == [s[from]] + s[from + 1..];
    }
  }

  /** Every match of the three regexes contains a fixed word. */
  lemma HitNeedsWord(s: string, rule: Rule, k: nat)
    ensures HitAt(s, rule, k).Some? && rule != StripSvgToken ==> Contains(s, MediaTypeImage)
    ensures HitAt(s, rule, k).Some? && rule == StripSvgToken ==> Contains(s, "svg")
  {
    if HitAt(s, rule, k).Some? {
      match rule
      case StripSvgToken =>
        ContainsAt(s, SpaceRunEnd(s, k), "svg");
      case RetypeHrefFirst =>
        var m: nat :| HrefFirstMatch(s, k, m);
        ContainsAt(s, m, MediaTypeImage);
      case RetypeMediaFirst =>
        var m: nat :| MediaFirstMatch(s, k, m);
        ContainsAt(s, k, MediaTypeImage);
    }
  }

  /** The two substitutions of ui.py:232-241: a non-JPEG raster media type
      becomes `image/jpeg` where the same tag, with no `>` in between,
      names a `.jpg` file before or after it. */
  function RetypeMediaTypes(opf: string): (r: string)
  {
    var once := SubFrom(opf, RetypeHrefFirst, 0);
    SubFrom(once, RetypeMediaFirst, 0)
  }

  /** A package document without an image media type is not touched by
      the retyping. */
  lemma RetypeWithoutImageTypes(opf: string)
    requires !Contains(opf, MediaTypeImage)
    ensures RetypeMediaTypes(opf) == opf
  {
    forall k | 0 <= k < |opf| ensures HitAt(opf, RetypeHrefFirst, k).None? {
      HitNeedsWord(opf, RetypeHrefFirst, k);
    }
    SubFromNoHit(opf, RetypeHrefFirst, 0);
    forall k | 0 <= k < |opf| ensures HitAt(opf, RetypeMediaFirst, k).None? {
      HitNeedsWord(opf, RetypeMediaFirst, k);
    }
    SubFromNoHit(opf, RetypeMediaFirst, 0);
  }

  /** ui.py:245-247: the `svg` tokens go, then the property attributes that
      were left holding a single space. */
  function StripSvgProperty(opf: string): (r: string)
  {
    var stripped := SubFrom(opf, StripSvgToken, 0);
    ReplaceAll(ReplaceAll(stripped, "properties=\" \"", ""), "properties=' '", "")
  }

  /** A package document without any `svg` and without an emptied property
      attribute is not touched by the stripping. */
  lemma StripWithoutSvg(opf: string)
    requires !Contains(opf, "svg")
    requires !Contains(opf, "properties=\" \"") && !Contains(opf, "properties=' '")
    ensures StripSvgProperty(opf) == opf
  {
    forall k | 0 <= k < |opf| ensures HitAt(opf, StripSvgToken, k).None? {
      HitNeedsWord(opf, StripSvgToken, k);
    }
    SubFromNoHit(opf, StripSvgToken, 0);
    ReplaceAllAbsent(opf, "properties=\" \"", "");
    ReplaceAllAbsent(opf, "properties=' '", "");
  }
}
