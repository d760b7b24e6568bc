/** The pass over the archive entries of `convert_epub_images`
    (ui.py:139-272).

    The zip container itself is not modelled: the input archive is its list
    of entries in central-directory order, and the output archive is the list
    of entries written, each with its compression mode.  Image transcoding and
    the UTF-8 codec are parameters. */
module Archive {
  import opened Wrappers
  import opened Text
  import opened References
  import SvgCover
  import CoverMeta
  import Manifest

  newtype byte = b: int | 0 <= b < 256

  type Bytes = seq<byte>

  /** An entry of the input archive. */
  datatype Entry = Entry(name: string, data: Bytes)

  datatype Compression = Stored | Deflated

  /** An entry written to the output archive. */
  datatype OutEntry = OutEntry(name: string, data: Bytes, compression: Compression)

  /** The operations the pass calls but that are not modelled: the baseline
      JPEG transcoder (`None` when it raises), `bytes.decode('utf-8')`
      (`None` on a decoding error) and `str.encode('utf-8')`. */
  datatype Codecs = Codecs(
    transcode: Bytes -> Option<Bytes>,
    decode: Bytes -> Option<string>,
    encode: string -> Bytes)

  /** Which branch of the `if`/`elif` chain an entry takes. */
  datatype Kind = Image | Markup | Stylesheet | Navigation | Package | Other

  /** The `if`/`elif` tests of ui.py:169, 177, 196, 208 and 220, each a
      suffix test on the lower-cased name. */
  function KindOf(name: string): Kind
  {
    var lower := Lower(name);
    if EndsWith(lower, ".jpg") || EndsWith(lower, ".jpeg") || EndsWith(lower, ".png")
      || EndsWith(lower, ".gif") || EndsWith(lower, ".webp") || EndsWith(lower, ".bmp") then Image
    else if EndsWith(lower, ".xhtml") || EndsWith(lower, ".html") || EndsWith(lower, ".htm") then Markup
    else if EndsWith(lower, ".css") then Stylesheet
    else if EndsWith(lower, ".ncx") then Navigation
    else if EndsWith(lower, ".opf") then Package
    else Other
  }

  /** Every key of the rename dictionary goes through the image branch. */
  lemma RasterNamesAreImages(name: string)
    requires IsRasterName(name)
    ensures KindOf(name) == Image
  {
  }

  /** The index of the last entry named `name`. */
  function LastNamed(es: seq<Entry>, name: string): (r: Option<nat>)
    ensures r.Some? ==> r.value < |es| && es[r.value].name == name
    ensures r.Some? ==> forall j :: r.value < j < |es| ==> es[j].name != name
    ensures r.None? ==> forall k :: 0 <= k < |es| ==> es[k].name != name
    decreases |es|
  {
    if |es| == 0 then None
    else if es[|es| - 1].name == name then Some(|es| - 1)
    else LastNamed(es[..|es| - 1], name)
  }

  /** `zin.read(name)`: the data of the last entry of that name, which a
      zip archive with duplicate names returns. */
  function Read(es: seq<Entry>, name: string): Option<Bytes>
  {
    match LastNamed(es, name)
    case Some(k) => Some(es[k].data)
    case None => None
  }

  /** The data the pass reads for entry `k`. */
  function DataOf(es: seq<Entry>, k: nat): Bytes
    requires k < |es|
  {
    Read(es, es[k].name).value
  }

  /** `if new_data:` — a transcoder result counts only when it is non-empty. */
  function Transcoded(c: Codecs, data: Bytes): (r: Option<Bytes>)
  {
    match c.transcode(data)
    case Some(b) => if |b| > 0 then Some(b) else None
    case None => None
  }

  datatype TextOutcome = TextOutcome(text: string, svgFixed: bool, metaAdded: bool)

  /** The processing of a decoded text entry, per branch. */
  function RewriteText(kind: Kind, text: string, renames: RenameMap, svgSoFar: nat): TextOutcome
  {
    match kind
    case Markup =>
      var fixed := SvgCover.FixSvgCover(text);
      TextOutcome(RenameRefs(fixed.text, renames), fixed.changed, false)
    case Package =>
      var retyped := Manifest.RetypeMediaTypes(RenameRefs(text, renames));
      var stripped := if svgSoFar > 0 then Manifest.StripSvgProperty(retyped) else retyped;
      var meta := CoverMeta.EnsureCoverMeta(stripped);
      TextOutcome(meta.text, false, meta.changed)
    case _ =>
      TextOutcome(RenameRefs(text, renames), false, false)
  }

  datatype EntryResult = EntryResult(out: OutEntry, converted: bool, svgFixed: bool, metaAdded: bool)

  /** The output entry: `mimetype` keeps its own name and is stored, every
      other entry is written under `filename` and deflated. */
  function Output(original: string, filename: string, data: Bytes): OutEntry
  {
    if original == "mimetype" then OutEntry(original, data, Stored)
    else OutEntry(filename, data, Deflated)
  }

  lemma MimetypeIsOther()
    ensures KindOf("mimetype") == Other
  {
    var lower := Lower("mimetype");
    assert lower == "mimetype";
    assert lower[|lower| - 1] == 'e';
    SuffixMismatch(lower, ".jpg", 3);
    SuffixMismatch(lower, ".jpeg", 4);
    SuffixMismatch(lower, ".png", 3);
    SuffixMismatch(lower, ".gif", 3);
    SuffixMismatch(lower, ".webp", 4);
    SuffixMismatch(lower, ".bmp", 3);
    SuffixMismatch(lower, ".xhtml", 5);
    SuffixMismatch(lower, ".html", 4);
    SuffixMismatch(lower, ".htm", 3);
    SuffixMismatch(lower, ".css", 3);
    SuffixMismatch(lower, ".ncx", 3);
    SuffixMismatch(lower, ".opf", 3);
  }

  /** The image branch (ui.py:169-176): a non-empty transcoder result
      replaces the data and renames the entry when it is a key of the
      dictionary; otherwise the entry is copied. */
  function ImageEntry(e: Entry, data: Bytes, renames: RenameMap, c: Codecs): EntryResult
  {
    match Transcoded(c, data)
    case Some(jpeg) =>
      var filename := match Lookup(renames, e.name) case Some(n) => n case None => e.name;
      EntryResult(Output(e.name, filename, jpeg), true, false, false)
    case None => EntryResult(Output(e.name, e.name, data), false, false, false)
  }

  /** The text branches (ui.py:177-256): an entry that does not decode is
      copied, otherwise its rewritten text is encoded again. */
  function TextEntry(e: Entry, kind: Kind, data: Bytes, renames: RenameMap, svgSoFar: nat, c: Codecs): EntryResult
  {
    match c.decode(data)
    case None => EntryResult(Output(e.name, e.name, data), false, false, false)
    case Some(text) =>
      var o := RewriteText(kind, text, renames, svgSoFar);
      EntryResult(Output(e.name, e.name, c.encode(o.text)), false, o.svgFixed, o.metaAdded)
  }

  /** One iteration of the loop of ui.py:164-263. */
  function RewriteEntry(e: Entry, data: Bytes, renames: RenameMap, svgSoFar: nat, c: Codecs): EntryResult
  {
    var kind := KindOf(e.name);
    if kind == Image then ImageEntry(e, data, renames, c)
    else if kind == Other then EntryResult(Output(e.name, e.name, data), false, false, false)
    else TextEntry(e, kind, data, renames, svgSoFar, c)
  }

  /** What one iteration writes and counts: only `mimetype` is stored; an
      entry is counted as converted exactly when it is an image (JPEG
      included) whose transcoding gave non-empty bytes, and only then is it
      renamed, to its dictionary name when it has one; only markup can fix
      an svg cover and only the package document can add a cover meta; an
      entry that is neither converted nor decoded is copied unchanged. */
  lemma RewriteEntryProperties(e: Entry, data: Bytes, renames: RenameMap, svgSoFar: nat, c: Codecs)
    ensures var r := RewriteEntry(e, data, renames, svgSoFar, c);
      && (r.out.compression == Stored <==> e.name == "mimetype")
      && (r.converted <==> KindOf(e.name) == Image && Transcoded(c, data).Some?)
      && r.out.name == (if r.converted && Lookup(renames, e.name).Some? then Lookup(renames, e.name).value else e.name)
      && (r.converted ==> r.out.data == Transcoded(c, data).value)
      && (r.svgFixed ==> KindOf(e.name) == Markup)
      && (r.metaAdded ==> KindOf(e.name) == Package)
      && (!r.converted && (KindOf(e.name) in {Image, Other} || c.decode(data).None?) ==>
            r.out.data == data && !r.svgFixed && !r.metaAdded)
  {
    MimetypeIsOther();
  }

  /** The state of the loop after some entries: the entries written and the
      three values the function returns. */
  datatype PassState = PassState(out: seq<OutEntry>, converted: nat, svgFixed: nat, metaAdded: bool)

  function Names(es: seq<Entry>): (ns: seq<string>)
    ensures |ns| == |es| && forall k :: 0 <= k < |es| ==> ns[k] == es[k].name
  {
    seq(|es|, k requires 0 <= k < |es| => es[k].name)
  }

  /** The step for entry `k`: its rewrite, with the number of svg covers
      fixed by the entries before it. */
  function StepAt(es: seq<Entry>, k: nat, renames: RenameMap, c: Codecs): EntryResult
    requires k < |es|
    decreases k + 1, 0
  {
    RewriteEntry(es[k], DataOf(es, k), renames, Pass(es, k, renames, c).svgFixed, c)
  }

  /** The first `n` iterations of the loop, as a left fold. */
  function Pass(es: seq<Entry>, n: nat, renames: RenameMap, c: Codecs): (r: PassState)
    requires n <= |es|
    ensures |r.out| == n
    decreases n, 1
  {
    if n == 0 then PassState([], 0, 0, false)
    else
      var prev := Pass(es, n - 1, renames, c);
      var r := StepAt(es, n - 1, renames, c);
      PassState(prev.out + [r.out],
        prev.converted + (if r.converted then 1 else 0),
        prev.svgFixed + (if r.svgFixed then 1 else 0),
        prev.metaAdded || r.metaAdded)
  }

  /** The state after the first `n` entries.  It is `Pass` itself; lemmas
      and specifications speak of `StateAfter` so that mentioning the state
      does not unfold the fold's last step, which would pull the whole
      per-entry rewrite into every proof that only needs the state. */
  function StateAfter(es: seq<Entry>, n: nat, renames: RenameMap, c: Codecs): (r: PassState)
    requires n <= |es|
    ensures |r.out| == n
  {
    Pass(es, n, renames, c)
  }

  /** The whole rewrite of `convert_epub_images`: the dictionary built from
      the names, then every entry in order. */
  function ConvertAll(es: seq<Entry>, c: Codecs): (r: PassState)
    ensures |r.out| == |es|
  {
    Pass(es, |es|, RenameMapOf(Names(es)), c)
  }

  /** One more entry extends the state by that entry's rewrite, made with
      the svg count of the entries before it.  This is the fold's step
      equation, stated over `StateAfter`; it is the proof step that
      `RewriteNext` and the lemmas about the whole pass rely on, not a
      property of its own. */
  lemma PassStep(es: seq<Entry>, n: nat, renames: RenameMap, c: Codecs)
    requires n < |es|
    ensures var prev := StateAfter(es, n, renames, c);
      var r := RewriteEntry(es[n], DataOf(es, n), renames, prev.svgFixed, c);
      StateAfter(es, n + 1, renames, c) == PassState(prev.out + [r.out],
        prev.converted + (if r.converted then 1 else 0),
        prev.svgFixed + (if r.svgFixed then 1 else 0),
        prev.metaAdded || r.metaAdded)
  {
    assert StepAt(es, n, renames, c)
      == RewriteEntry(es[n], DataOf(es, n), renames, StateAfter(es, n, renames, c).svgFixed, c);
  }

  /** The body of the loop of ui.py:164-263 for one entry whose data has
      been read: the branch on the name's extension, which reports the three
      counters' increments instead of updating them. */
  method RewriteItem(item: Entry, data: Bytes, renames: RenameMap, svgSoFar: nat, c: Codecs)
    returns (written: OutEntry, converted: bool, svgFixed: bool, metaAdded: bool)
    ensures EntryResult(written, converted, svgFixed, metaAdded) == RewriteEntry(item, data, renames, svgSoFar, c)
  {
    var kind := KindOf(item.name);
    if kind == Image {
      written, converted := ConvertImage(item, data, renames, c);
      svgFixed, metaAdded := false, false;
    } else if kind == Other {
      written := Output(item.name, item.name, data);
      converted, svgFixed, metaAdded := false, false, false;
    } else {
      written, svgFixed, metaAdded := RewriteTextItem(item, kind, data, renames, svgSoFar, c);
      converted := false;
    }
  }

  /** ui.py:169-176. */
  method ConvertImage(item: Entry, data: Bytes, renames: RenameMap, c: Codecs)
    returns (written: OutEntry, converted: bool)
    ensures EntryResult(written, converted, false, false) == ImageEntry(item, data, renames, c)
  {
    var filename := item.name;
    var bytes := data;
    converted := false;
    var newData := c.transcode(bytes);
    if newData.Some? && |newData.value| > 0 {
      bytes := newData.value;
      converted := true;
      var target := Lookup(renames, filename);
      if target.Some? {
        filename := target.value;
      }
    }
    written := Output(item.name, filename, bytes);
  }

  /** ui.py:177-256: markup, stylesheets and the navigation file, and the
      package document. */
  method RewriteTextItem(item: Entry, kind: Kind, data: Bytes, renames: RenameMap, svgSoFar: nat, c: Codecs)
    returns (written: OutEntry, svgFixed: bool, metaAdded: bool)
    requires kind in {Markup, Stylesheet, Navigation, Package}
    ensures EntryResult(written, false, svgFixed, metaAdded) == TextEntry(item, kind, data, renames, svgSoFar, c)
  {
    var bytes := data;
    svgFixed, metaAdded := false, false;
    var decoded := c.decode(bytes);
    if decoded.Some? {
      var text := decoded.value;
      if kind == Markup {
        var fixed := SvgCover.FixSvgCover(text);
        svgFixed := fixed.changed;
        text := RewriteReferences(fixed.text, renames);
      } else if kind == Stylesheet || kind == Navigation {
        text := RewriteReferences(text, renames);
      } else {
        text := RewriteReferences(text, renames);
        text := Manifest.RetypeMediaTypes(text);
        if svgSoFar > 0 {
          text := Manifest.StripSvgProperty(text);
        }
        var meta := CoverMeta.EnsureCoverMeta(text);
        metaAdded := meta.changed;
        text := meta.text;
      }
      bytes := c.encode(text);
    }
    written := Output(item.name, item.name, bytes);
  }

  /** One iteration of the loop for entry `i`: read its data, rewrite it,
      and extend the state of the pass by it. */
  method RewriteNext(entries: seq<Entry>, i: nat, renames: RenameMap, svgSoFar: nat, c: Codecs)
    returns (written: OutEntry, converted: bool, svgFixed: bool, metaAdded: bool)
    requires i < |entries| && svgSoFar == StateAfter(entries, i, renames, c).svgFixed
    ensures var prev := StateAfter(entries, i, renames, c);
      StateAfter(entries, i + 1, renames, c) == PassState(prev.out + [written],
        prev.converted + (if converted then 1 else 0),
        prev.svgFixed + (if svgFixed then 1 else 0),
        prev.metaAdded || metaAdded)
  {
    var item := entries[i];
    var data := Read(entries, item.name).value;
    written, converted, svgFixed, metaAdded := RewriteItem(item, data, renames, svgSoFar, c);
    PassStep(entries, i, renames, c);
  }

  /** The loop of ui.py:164-263, writing every entry in order with the
      dictionary built beforehand. */
  method RewriteEntries(entries: seq<Entry>, renames: RenameMap, c: Codecs)
    returns (out: seq<OutEntry>, converted: nat, svgFixed: nat, metaAdded: bool)
    ensures PassState(out, converted, svgFixed, metaAdded) == StateAfter(entries, |entries|, renames, c)
    ensures |out| == |entries|
  {
    out, converted, svgFixed, metaAdded := [], 0, 0, false;
    var i := 0;
    while i < |entries|
      invariant 0 <= i <= |entries|
      invariant PassState(out, converted, svgFixed, metaAdded) == StateAfter(entries, i, renames, c)
      invariant |out| == i
    {
      var written, isConverted, isSvgFixed, isMetaAdded := RewriteNext(entries, i, renames, svgFixed, c);
      if isConverted {
        converted := converted + 1;
      }
      if isSvgFixed {
        svgFixed := svgFixed + 1;
      }
      if isMetaAdded {
        metaAdded := true;
      }
      out := out + [written];
      i := i + 1;
    }
  }

  /** `convert_epub_images` (ui.py:139-272), on the list of entries: returns
      the entries written and `(converted_count, svg_covers_fixed,
      cover_meta_added)`. */
  method ConvertEpubImages(entries: seq<Entry>, c: Codecs)
    returns (out: seq<OutEntry>, converted: nat, svgFixed: nat, metaAdded: bool)
    ensures PassState(out, converted, svgFixed, metaAdded) == ConvertAll(entries, c)
    ensures |out| == |entries|
  {
    var renames := BuildRenameMap(Names(entries));
    out, converted, svgFixed, metaAdded := RewriteEntries(entries, renames, c);
  }
}
