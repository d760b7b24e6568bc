/** Insertion of the cover metadata tag (`ensure_cover_meta`,
    ui.py:98-137).

    Nothing happens when the package document already has
    `<meta name="cover"`.  Otherwise three regex searches over the manifest
    `<item` tags are tried in a fixed order, and the identifier the first
    successful one captures is written into a
    `<meta name="cover" content="..."/>` line placed before every
    `</metadata>`.

    Each regex has the shape `<item[^>]+A[^>]+B` for two attribute patterns
    A and B.  Python's `re.search` returns the match with the leftmost start;
    among matches at that start, backtracking from the greedy `[^>]+` picks
    the one whose A lies furthest right, and then the one whose B lies
    furthest right.  The model states exactly that order. */
module CoverMeta {
  import opened Wrappers
  import opened Text

  const CoverMetaMarker := "<meta name=\"cover\""
  const MetadataClose := "</metadata>"

  /** The line inserted for identifier `id`; it ends with the closing tag it
      replaces (ui.py:134). */
  function MetaLine(id: string): string
  {
    "    " + CoverMetaMarker + " content=\"" + id + "\"/>\n  " + MetadataClose
  }

  /** Case folding of `re.IGNORECASE` for the letters the third regex
      spells: ASCII letters, plus the dotted and dotless capital and small
      I, which Python matches against `i`. */
  function FoldChar(c: char): char
  {
    if 'A' <= c <= 'Z' then (c as int + 32) as char
    else if c == '\U{130}' || c == '\U{131}' then 'i'
    else c
  }

  /** Case-insensitive `At`. */
  predicate AtFolded(s: string, i: nat, w: string)
  {
    i + |w| <= |s| && forall k :: 0 <= k < |w| ==> FoldChar(s[i + k]) == FoldChar(w[k])
  }

  predicate ContainsFolded(s: string, w: string)
  {
    exists i: nat | i <= |s| :: AtFolded(s, i, w)
  }

  /** The attribute patterns of the three regexes of ui.py:114, 120, 126. */
  datatype Attr =
    | IdValue             // id="([^"]+)"
    | CoverIdValue        // id="([^"]*cover[^"]*)", case-insensitive
    | CoverImageProperty  // properties="[^"]*cover-image[^"]*"
    | ImageMediaType      // media-type="image/, case-insensitive

  /** The three searches, in the order they are tried. */
  datatype Heuristic =
    | IdBeforeProperty    // ui.py:114
    | PropertyBeforeId    // ui.py:120
    | CoverNamedImage     // ui.py:126

  function FirstAttr(h: Heuristic): Attr
  {
    match h
    case IdBeforeProperty => IdValue
    case PropertyBeforeId => CoverImageProperty
    case CoverNamedImage => CoverIdValue
  }

  function SecondAttr(h: Heuristic): Attr
  {
    match h
    case IdBeforeProperty => CoverImageProperty
    case PropertyBeforeId => IdValue
    case CoverNamedImage => ImageMediaType
  }

  /** Where the match of attribute pattern `a` at index `p` ends, if it
      matches there.  A quoted value `[^"]*` always runs to the next quote,
      so the end is determined by `p`. */
  function AttrEnd(s: string, a: Attr, p: nat): (e: Option<nat>)
    ensures e.Some? ==> p < e.value <= |s|
  {
    match a
    case IdValue =>
      if !At(s, p, "id=\"") then None
      else (
        match NextIndexOf(s, '"', p + 4)
        case Some(q) => if q > p + 4 then Some(q + 1) else None
        case None => None)
    case CoverIdValue =>
      if !AtFolded(s, p, "id=\"") then None
      else (
        match NextIndexOf(s, '"', p + 4)
        case Some(q) => if ContainsFolded(s[p + 4..q], "cover") then Some(q + 1) else None
        case None => None)
    case CoverImageProperty =>
      if !At(s, p, "properties=\"") then None
      else (
        match NextIndexOf(s, '"', p + 12)
        case Some(q) => if Contains(s[p + 12..q], "cover-image") then Some(q + 1) else None
        case None => None)
    case ImageMediaType =>
      if AtFolded(s, p, "media-type=\"image/") then Some(p + 18) else None
  }

  /** The regex of heuristic `h` matches with `<item` at `i`, its first
      attribute at `p` and its second at `r`; both `[^>]+` runs are
      non-empty. */
  predicate ItemMatch(s: string, h: Heuristic, i: nat, p: nat, r: nat)
  {
    (if h == CoverNamedImage then AtFolded(s, i, "<item") else At(s, i, "<item")) &&
    i + 5 < p && NoGt(s, i + 5, p) &&
    var e := AttrEnd(s, FirstAttr(h), p);
    e.Some? && e.value < r && NoGt(s, e.value, r) && AttrEnd(s, SecondAttr(h), r).Some?
  }

  /** The match `re.search` reports: leftmost `<item`, then rightmost first
      attribute, then rightmost second attribute. */
  ghost predicate SearchHit(s: string, h: Heuristic, i: nat, p: nat, r: nat)
  {
    ItemMatch(s, h, i, p, r) &&
    (forall i': nat, p': nat, r': nat :: i' < i ==> !ItemMatch(s, h, i', p', r')) &&
    (forall p': nat, r': nat :: p < p' ==> !ItemMatch(s, h, i, p', r')) &&
    (forall r': nat :: r < r' ==> !ItemMatch(s, h, i, p, r'))
  }

  /** The identifier the regex captures: the value of the `id="..."`
      attribute, which is the first attribute except in the second regex. */
  function Captured(s: string, h: Heuristic, i: nat, p: nat, r: nat): string
    requires ItemMatch(s, h, i, p, r)
  {
    var at := if h == PropertyBeforeId then r else p;
    var e := AttrEnd(s, if h == PropertyBeforeId then IdValue else FirstAttr(h), at);
    s[at + 4..e.value - 1]
  }

  /** Every match lies inside the text. */
  lemma NoMatchBeyondEnd(s: string, h: Heuristic, i: nat, p: nat)
    ensures forall r: nat :: |s| <= r ==> !ItemMatch(s, h, i, p, r)
  {
  }

  /** The rightmost second attribute below `bound` completing a match. */
  function LastSecond(s: string, h: Heuristic, i: nat, p: nat, bound: nat): (r: Option<nat>)
    ensures r.Some? ==> r.value < bound && ItemMatch(s, h, i, p, r.value)
    ensures forall r': nat :: (r.None? || r.value < r') && r' < bound ==> !ItemMatch(s, h, i, p, r')
    decreases bound
  {
    if bound == 0 then None
    else if ItemMatch(s, h, i, p, bound - 1) then Some(bound - 1)
    else LastSecond(s, h, i, p, bound - 1)
  }

  /** Without a second attribute below the end of the text there is none
      at all. */
  lemma NoSecondAttr(s: string, h: Heuristic, i: nat, p: nat)
    requires LastSecond(s, h, i, p, |s|).None?
    ensures forall r: nat :: !ItemMatch(s, h, i, p, r)
  {
    NoMatchBeyondEnd(s, h, i, p);
  }

  /** Backtracking of the first `[^>]+` from its longest extent: the
      rightmost first attribute below `bound` that has a completing second
      attribute, with the rightmost such second attribute. */
  function LastFirst(s: string, h: Heuristic, i: nat, bound: nat): (m: Option<(nat, nat)>)
    ensures m.Some? ==> m.value.0 < bound && ItemMatch(s, h, i, m.value.0, m.value.1)
    ensures m.Some? ==> forall r': nat :: m.value.1 < r' ==> !ItemMatch(s, h, i, m.value.0, r')
    ensures forall p': nat, r': nat :: (m.None? || m.value.0 < p') && p' < bound ==> !ItemMatch(s, h, i, p', r')
    decreases bound
  {
    if bound == 0 then None
    else
      match LastSecond(s, h, i, bound - 1, |s|)
      case Some(r) =>
        NoMatchBeyondEnd(s, h, i, bound - 1);
        Some((bound - 1, r))
      case None =>
        NoSecondAttr(s, h, i, bound - 1);
        LastFirst(s, h, i, bound - 1)
  }

  /** The scan of `re.search` over start indices from `from` upwards. */
  function FirstItem(s: string, h: Heuristic, from: nat): (m: Option<(nat, nat, nat)>)
    ensures m.Some? ==> from <= m.value.0 && ItemMatch(s, h, m.value.0, m.value.1, m.value.2)
    ensures m.Some? ==> forall i': nat, p': nat, r': nat :: from <= i' < m.value.0 ==> !ItemMatch(s, h, i', p', r')
    ensures m.Some? ==> forall p': nat, r': nat :: m.value.1 < p' ==> !ItemMatch(s, h, m.value.0, p', r')
    ensures m.Some? ==> forall r': nat :: m.value.2 < r' ==> !ItemMatch(s, h, m.value.0, m.value.1, r')
    ensures m.None? ==> forall i': nat, p': nat, r': nat :: from <= i' ==> !ItemMatch(s, h, i', p', r')
    decreases |s| - from
  {
    if from >= |s| then None
    else
      match LastFirst(s, h, from, |s|)
      case Some((p, r)) => Some((from, p, r))
      case None => FirstItem(s, h, from + 1)
  }

  /** No match of the regex of heuristic `h` anywhere in `s`. */
  ghost predicate Misses(s: string, h: Heuristic)
  {
    forall i: nat, p: nat, r: nat :: !ItemMatch(s, h, i, p, r)
  }

  /** `id` is what `re.search(...).group(1)` returns for heuristic `h`. */
  ghost predicate CapturedBy(s: string, h: Heuristic, id: string)
  {
    exists i: nat, p: nat, r: nat :: SearchHit(s, h, i, p, r) && id == Captured(s, h, i, p, r)
  }

  /** One of the regexes of ui.py:114, 120, 126: the identifier captured by
      `re.search`, or nothing when the regex does not match. */
  function SearchCoverId(s: string, h: Heuristic): (id: Option<string>)
    ensures id.None? <==> Misses(s, h)
    ensures id.Some? ==> CapturedBy(s, h, id.value)
  {
    match FirstItem(s, h, 0)
    case Some((i, p, r)) =>
      assert SearchHit(s, h, i, p, r);
      Some(Captured(s, h, i, p, r))
    case None => None
  }

  /** No heuristic finds an identifier. */
  ghost predicate NoCoverItem(s: string)
  {
    Misses(s, IdBeforeProperty) && Misses(s, PropertyBeforeId) && Misses(s, CoverNamedImage)
  }

  /** `id` is the identifier the three tries of ui.py:113-128 settle on:
      the capture of the first heuristic, in the fixed order, that matches. */
  ghost predicate ChosenCoverId(s: string, id: string)
  {
    if !Misses(s, IdBeforeProperty) then CapturedBy(s, IdBeforeProperty, id)
    else if !Misses(s, PropertyBeforeId) then CapturedBy(s, PropertyBeforeId, id)
    else CapturedBy(s, CoverNamedImage, id)
  }

  /** The three tries in their fixed order (ui.py:111-131). */
  function ManifestCoverId(s: string): (id: Option<string>)
    ensures id.None? <==> NoCoverItem(s)
    ensures id.Some? ==> ChosenCoverId(s, id.value)
  {
    match SearchCoverId(s, IdBeforeProperty)
    case Some(id) => Some(id)
    case None =>
      match SearchCoverId(s, PropertyBeforeId)
      case Some(id) => Some(id)
      case None => SearchCoverId(s, CoverNamedImage)
  }

  /** `ensure_cover_meta`: the identity with `false` when a cover meta tag
      exists or no heuristic finds an identifier; otherwise every
      `</metadata>` is preceded by the meta line for the chosen identifier,
      and the change is reported whether or not a `</metadata>` exists. */
  function EnsureCoverMeta(opf: string): (r: Rewritten)
    ensures Contains(opf, CoverMetaMarker) ==> r == Rewritten(opf, false)
    ensures r.changed <==> !Contains(opf, CoverMetaMarker) && !NoCoverItem(opf)
    ensures !r.changed ==> r.text == opf
    ensures r.changed ==> exists id :: ChosenCoverId(opf, id) && r.text == ReplaceAll(opf, MetadataClose, MetaLine(id))
  {
    if Contains(opf, CoverMetaMarker) then Rewritten(opf, false)
    else
      match ManifestCoverId(opf)
      case None => Rewritten(opf, false)
      case Some(id) => Rewritten(ReplaceAll(opf, MetadataClose, MetaLine(id)), true)
  }

  /** Rewriting a `</metadata>` plants the marker the first test looks
      for. */
  lemma InsertedLineHasMarker(opf: string, id: string)
    requires Contains(opf, MetadataClose)
    ensures Contains(ReplaceAll(opf, MetadataClose, MetaLine(id)), CoverMetaMarker)
  {
    var out := ReplaceAll(opf, MetadataClose, MetaLine(id));
    ReplaceAllInserts(opf, MetadataClose, MetaLine(id));
    var j: nat :| j <= |out| && At(out, j, MetaLine(id));
    assert MetaLine(id)[4..4 + |CoverMetaMarker|] == CoverMetaMarker;
    ContainsAt(MetaLine(id), 4, CoverMetaMarker);
    ContainsTransitive(out, j, MetaLine(id), CoverMetaMarker);
  }

  /** A second application changes nothing once the tag was really
      inserted. */
  lemma EnsureCoverMetaIdempotent(opf: string)
    requires EnsureCoverMeta(opf).changed && Contains(opf, MetadataClose)
    ensures EnsureCoverMeta(EnsureCoverMeta(opf).text) == Rewritten(EnsureCoverMeta(opf).text, false)
  {
    InsertedLineHasMarker(opf, ManifestCoverId(opf).value);
  }

  /** Without a `</metadata>` the text is returned unchanged and the change
      is still reported (ui.py:135-137), so a second run reports it again. */
  lemma ReportsChangeWithoutMetadataClose(opf: string)
    requires !Contains(opf, CoverMetaMarker) && !Contains(opf, MetadataClose)
    requires !NoCoverItem(opf)
    ensures EnsureCoverMeta(opf) == Rewritten(opf, true)
    ensures EnsureCoverMeta(EnsureCoverMeta(opf).text).changed
  {
    var id := ManifestCoverId(opf).value;
    ReplaceAllAbsent(opf, MetadataClose, MetaLine(id));
  }
}
