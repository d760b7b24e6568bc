/** What the whole pass of `convert_epub_images` (ui.py:139-272) does,
    stated over the states of its loop, `Archive.StateAfter`: one output
    entry per input entry in archive order, what the three returned values
    count, and how the quirks of the loop show in the result. */
module PassFacts {
  import opened Wrappers
  import opened Text
  import opened References
  import SvgCover
  import Manifest
  import CoverMeta
  import opened Archive

  /** Entry `k` is an image (JPEG included) whose transcoding gave
      non-empty bytes. */
  predicate Converts(es: seq<Entry>, k: nat, c: Codecs)
    requires k < |es|
  {
    KindOf(es[k].name) == Image && Transcoded(c, DataOf(es, k)).Some?
  }

  /** Entry `k` is a markup page that decodes and whose svg cover gets
      repaired. */
  predicate FixesSvg(es: seq<Entry>, k: nat, c: Codecs)
    requires k < |es|
  {
    KindOf(es[k].name) == Markup && c.decode(DataOf(es, k)).Some?
      && SvgCover.FixSvgCover(c.decode(DataOf(es, k)).value).changed
  }

  /** Entry `k` is a package document that decodes and gets a cover meta,
      after `svgSoFar` svg covers were fixed before it. */
  predicate AddsMeta(es: seq<Entry>, k: nat, renames: RenameMap, svgSoFar: nat, c: Codecs)
    requires k < |es|
  {
    KindOf(es[k].name) == Package && c.decode(DataOf(es, k)).Some?
      && RewriteText(Package, c.decode(DataOf(es, k)).value, renames, svgSoFar).metaAdded
  }

  /** One more entry appends one output and leaves the earlier ones alone. */
  lemma PassExtends(es: seq<Entry>, n: nat, renames: RenameMap, c: Codecs)
    requires n < |es|
    ensures var prev := StateAfter(es, n, renames, c);
      var next := StateAfter(es, n + 1, renames, c);
      |next.out| == |prev.out| + 1 && next.out[..|prev.out|] == prev.out
  {
  }

  /** What entry `k` adds to the three counters. */
  lemma EntryCounters(es: seq<Entry>, k: nat, renames: RenameMap, c: Codecs)
    requires k < |es|
    ensures var prev := StateAfter(es, k, renames, c);
      var next := StateAfter(es, k + 1, renames, c);
      && next.converted == prev.converted + (if Converts(es, k, c) then 1 else 0)
      && next.svgFixed == prev.svgFixed + (if FixesSvg(es, k, c) then 1 else 0)
      && next.metaAdded == (prev.metaAdded || AddsMeta(es, k, renames, prev.svgFixed, c))
  {
    PassStep(es, k, renames, c);
    RewriteEntryProperties(es[k], DataOf(es, k), renames, StateAfter(es, k, renames, c).svgFixed, c);
  }

  /** What entry `k` writes: only `mimetype` is stored; the entry is renamed
      only when it is converted and its name is a key of the dictionary;
      converted data is the transcoder's output; an entry neither converted
      nor decoded is copied unchanged; a decoded package document is
      written as the encoding of its rewritten text, which depends on the
      number of svg covers fixed before it. */
  lemma EntryOutput(es: seq<Entry>, k: nat, renames: RenameMap, c: Codecs)
    requires k < |es|
    ensures var prev := StateAfter(es, k, renames, c);
      var o := StateAfter(es, k + 1, renames, c).out[k];
      && (o.compression == Stored <==> es[k].name == "mimetype")
      && o.name == (if Converts(es, k, c) && Lookup(renames, es[k].name).Some?
                    then Lookup(renames, es[k].name).value else es[k].name)
      && (Converts(es, k, c) ==> o.data == Transcoded(c, DataOf(es, k)).value)
      && (!Converts(es, k, c) && (KindOf(es[k].name) in {Image, Other} || c.decode(DataOf(es, k)).None?) ==>
            o.data == DataOf(es, k))
      && (KindOf(es[k].name) == Markup && c.decode(DataOf(es, k)).Some? ==>
            o.data == c.encode(RenameRefs(SvgCover.FixSvgCover(c.decode(DataOf(es, k)).value).text, renames)))
      && (KindOf(es[k].name) in {Stylesheet, Navigation} && c.decode(DataOf(es, k)).Some? ==>
            o.data == c.encode(RenameRefs(c.decode(DataOf(es, k)).value, renames)))
      && (KindOf(es[k].name) == Package && c.decode(DataOf(es, k)).Some? ==>
            o.data == c.encode(RewriteText(Package, c.decode(DataOf(es, k)).value, renames, prev.svgFixed).text))
  {
    PassStep(es, k, renames, c);
    RewriteEntryProperties(es[k], DataOf(es, k), renames, StateAfter(es, k, renames, c).svgFixed, c);
  }

  /** Later entries never change what was written for an earlier one. */
  lemma {:induction false} PassOutputs(es: seq<Entry>, n: nat, renames: RenameMap, c: Codecs)
    requires n <= |es|
    ensures forall k :: 0 <= k < n ==> StateAfter(es, n, renames, c).out[k] == StateAfter(es, k + 1, renames, c).out[k]
    decreases n
  {
    if n > 0 {
      PassOutputs(es, n - 1, renames, c);
      PassExtends(es, n - 1, renames, c);
      var prev := StateAfter(es, n - 1, renames, c).out;
      var next := StateAfter(es, n, renames, c).out;
      forall k | 0 <= k < n
        ensures next[k] == StateAfter(es, k + 1, renames, c).out[k]
      {
        if k < n - 1 {
          assert next[k] == next[..n - 1][k];
        }
      }
    }
  }

  /** The number of `k < n` for which `p(k)` holds. */
  function CountWhere(n: nat, p: nat -> bool): nat
  {
    if n == 0 then 0 else CountWhere(n - 1, p) + (if p(n - 1) then 1 else 0)
  }

  lemma {:induction false} CountWherePositive(n: nat, p: nat -> bool)
    ensures CountWhere(n, p) > 0 <==> exists k: nat :: k < n && p(k)
  {
    if n > 0 {
      CountWherePositive(n - 1, p);
      if p(n - 1) {
        assert 0 <= n - 1 < n && p(n - 1);
      }
    }
  }

  /** `Converts` as a test on indices. */
  function ConvertsAt(es: seq<Entry>, c: Codecs): nat -> bool
  {
    (k: nat) => k < |es| && Converts(es, k, c)
  }

  /** The number of converting entries among the first `n`. */
  function ConvertibleCount(es: seq<Entry>, n: nat, c: Codecs): nat
    requires n <= |es|
  {
    CountWhere(n, ConvertsAt(es, c))
  }

  /** `converted_count` counts exactly the converting entries. */
  lemma {:induction false} ConvertedCount(es: seq<Entry>, n: nat, renames: RenameMap, c: Codecs)
    requires n <= |es|
    ensures StateAfter(es, n, renames, c).converted == ConvertibleCount(es, n, c)
    decreases n
  {
    if n > 0 {
      ConvertedCount(es, n - 1, renames, c);
      EntryCounters(es, n - 1, renames, c);
    }
  }

  /** The count is positive exactly when some entry converts. */
  lemma ConvertedPositive(es: seq<Entry>, n: nat, renames: RenameMap, c: Codecs)
    requires n <= |es|
    ensures StateAfter(es, n, renames, c).converted > 0 <==> exists k: nat :: k < n && Converts(es, k, c)
  {
    ConvertedCount(es, n, renames, c);
    var p := ConvertsAt(es, c);
    CountWherePositive(n, p);
    if CountWhere(n, p) > 0 {
      var k: nat :| k < n && p(k);
      assert k < n && Converts(es, k, c);
    } else {
      forall k: nat | k < n
        ensures !Converts(es, k, c)
      {
        assert !p(k);
      }
    }
  }

  /** `FixesSvg` as a test on indices. */
  function FixesSvgAt(es: seq<Entry>, c: Codecs): nat -> bool
  {
    (k: nat) => k < |es| && FixesSvg(es, k, c)
  }

  /** The number of svg covers repaired among the first `n` entries. */
  function SvgFixCount(es: seq<Entry>, n: nat, c: Codecs): nat
    requires n <= |es|
  {
    CountWhere(n, FixesSvgAt(es, c))
  }

  /** `svg_fixed_count` counts exactly the repaired markup pages. */
  lemma {:induction false} SvgFixedCount(es: seq<Entry>, n: nat, renames: RenameMap, c: Codecs)
    requires n <= |es|
    ensures StateAfter(es, n, renames, c).svgFixed == SvgFixCount(es, n, c)
    decreases n
  {
    if n > 0 {
      SvgFixedCount(es, n - 1, renames, c);
      EntryCounters(es, n - 1, renames, c);
    }
  }

  /** The svg count is positive exactly when some page repaired its cover. */
  lemma SvgFixedPositive(es: seq<Entry>, n: nat, renames: RenameMap, c: Codecs)
    requires n <= |es|
    ensures StateAfter(es, n, renames, c).svgFixed > 0 <==> exists k: nat :: k < n && FixesSvg(es, k, c)
  {
    SvgFixedCount(es, n, renames, c);
    var p := FixesSvgAt(es, c);
    CountWherePositive(n, p);
    if CountWhere(n, p) > 0 {
      var k: nat :| k < n && p(k);
      assert k < n && FixesSvg(es, k, c);
    } else {
      forall k: nat | k < n
        ensures !FixesSvg(es, k, c)
      {
        assert !p(k);
      }
    }
  }

  /** `AddsMeta` as a test on indices, each package document seeing the svg
      count of the entries before it. */
  function AddsMetaAt(es: seq<Entry>, renames: RenameMap, c: Codecs): nat -> bool
  {
    (k: nat) => k < |es| && AddsMeta(es, k, renames, SvgFixCount(es, k, c), c)
  }

  /** `cover_meta_added` after the first `k` entries, as a test on indices. */
  function MetaFlagAt(es: seq<Entry>, renames: RenameMap, c: Codecs): nat -> bool
  {
    (k: nat) => k <= |es| && StateAfter(es, k, renames, c).metaAdded
  }

  lemma MetaAddedCount(es: seq<Entry>, n: nat, renames: RenameMap, c: Codecs)
    requires n <= |es|
    ensures StateAfter(es, n, renames, c).metaAdded <==> CountWhere(n, AddsMetaAt(es, renames, c)) > 0
  {
    MetaSteps(es, n, renames, c);
    OrFoldCount(n, MetaFlagAt(es, renames, c), AddsMetaAt(es, renames, c));
  }

  lemma MetaSteps(es: seq<Entry>, n: nat, renames: RenameMap, c: Codecs)
    requires n <= |es|
    ensures forall k: nat :: k < n ==>
      MetaFlagAt(es, renames, c)(k + 1) == (MetaFlagAt(es, renames, c)(k) || AddsMetaAt(es, renames, c)(k))
  {
    forall k: nat | k < n
      ensures MetaFlagAt(es, renames, c)(k + 1) == (MetaFlagAt(es, renames, c)(k) || AddsMetaAt(es, renames, c)(k))
    {
      MetaStep(es, k, renames, c);
    }
  }

  lemma MetaStep(es: seq<Entry>, k: nat, renames: RenameMap, c: Codecs)
    requires k < |es|
    ensures MetaFlagAt(es, renames, c)(k + 1) == (MetaFlagAt(es, renames, c)(k) || AddsMetaAt(es, renames, c)(k))
  {
    EntryCounters(es, k, renames, c);
    SvgFixedCount(es, k, renames, c);
  }

  /** A flag that is set at step `k` exactly when `p(k)` holds is set after
      `n` steps exactly when `p` holds somewhere below `n`. */
  lemma {:induction false} OrFoldCount(n: nat, m: nat -> bool, p: nat -> bool)
    requires !m(0)
    requires forall k: nat :: k < n ==> m(k + 1) == (m(k) || p(k))
    ensures m(n) <==> CountWhere(n, p) > 0
  {
    if n > 0 {
      OrFoldCount(n - 1, m, p);
    }
  }

  /** `meta_added` is set exactly when some package document gets a cover
      meta. */
  lemma MetaAddedExactly(es: seq<Entry>, n: nat, renames: RenameMap, c: Codecs)
    requires n <= |es|
    ensures StateAfter(es, n, renames, c).metaAdded
      <==> exists k: nat :: k < n && AddsMeta(es, k, renames, SvgFixCount(es, k, c), c)
  {
    MetaAddedCount(es, n, renames, c);
    var p := AddsMetaAt(es, renames, c);
    CountWherePositive(n, p);
    if CountWhere(n, p) > 0 {
      var k: nat :| k < n && p(k);
      assert k < n && AddsMeta(es, k, renames, SvgFixCount(es, k, c), c);
    } else {
      forall k: nat | k < n
        ensures !AddsMeta(es, k, renames, SvgFixCount(es, k, c), c)
      {
        assert !p(k);
      }
    }
  }

  /** The order dependence of the svg strip: a package document is
      rewritten with `properties="svg"` removed exactly when a markup page
      BEFORE it in the archive had its svg cover repaired; pages after it do
      not count. */
  lemma PackageSeesEarlierSvg(es: seq<Entry>, k: nat, renames: RenameMap, c: Codecs)
    requires k < |es|
    requires KindOf(es[k].name) == Package && c.decode(DataOf(es, k)).Some?
    ensures var text := c.decode(DataOf(es, k)).value;
      var retyped := Manifest.RetypeMediaTypes(RenameRefs(text, renames));
      var stripped := if exists j: nat :: j < k && FixesSvg(es, j, c)
                      then Manifest.StripSvgProperty(retyped) else retyped;
      StateAfter(es, k + 1, renames, c).out[k].data
        == c.encode(CoverMeta.EnsureCoverMeta(stripped).text)
  {
    EntryOutput(es, k, renames, c);
    SvgFixedPositive(es, k, renames, c);
  }

  /** The output of the whole pass, entry by entry: exactly the entry named
      `mimetype` is stored; an entry changes its name exactly when it is a
      key of the dictionary (a PNG, GIF, WebP or BMP name) and its
      transcoding succeeded, and then it takes its `.jpg` name; so a name
      with one of those extensions is left in the output only by an image
      whose transcoding failed, and a second pass finds no such entry to
      rename that it could convert. */
  lemma ConvertAllOutputs(es: seq<Entry>, c: Codecs)
    ensures |ConvertAll(es, c).out| == |es|
    ensures forall k :: 0 <= k < |es| ==>
      (ConvertAll(es, c).out[k].compression == Stored <==> es[k].name == "mimetype")
    ensures forall k :: 0 <= k < |es| ==>
      (ConvertAll(es, c).out[k].name != es[k].name <==> Converts(es, k, c) && IsRasterName(es[k].name))
    ensures forall k :: 0 <= k < |es| && ConvertAll(es, c).out[k].name != es[k].name ==>
      ConvertAll(es, c).out[k].name == JpgName(es[k].name)
    ensures forall k :: 0 <= k < |es| && IsRasterName(ConvertAll(es, c).out[k].name) ==>
      ConvertAll(es, c).out[k].name == es[k].name && !Converts(es, k, c)
  {
    var renames := RenameMapOf(Names(es));
    var out := StateAfter(es, |es|, renames, c).out;
    assert ConvertAll(es, c).out == out;
    PassOutputs(es, |es|, renames, c);
    RenameMapContents(Names(es));
    forall k | 0 <= k < |es|
      ensures (out[k].compression == Stored <==> es[k].name == "mimetype")
      ensures (out[k].name != es[k].name <==> Converts(es, k, c) && IsRasterName(es[k].name))
      ensures out[k].name != es[k].name ==> out[k].name == JpgName(es[k].name)
      ensures IsRasterName(out[k].name) ==> out[k].name == es[k].name && !Converts(es, k, c)
    {
      EntryOutput(es, k, renames, c);
      JpgNameNotRaster(es[k].name);
      assert es[k].name in Names(es);
    }
  }

  lemma {:induction false} CountWhereAgree(n: nat, p: nat -> bool, q: nat -> bool)
    requires forall k: nat :: k < n ==> p(k) == q(k)
    ensures CountWhere(n, p) == CountWhere(n, q)
  {
    if n > 0 {
      CountWhereAgree(n - 1, p, q);
    }
  }

  /** Text entries and the svg and meta results do not depend on the
      transcoder: whether an image converts or not, every markup, style
      sheet, navigation and package entry is rewritten the same way, with
      the same dictionary.  In particular references to an image are renamed
      to its `.jpg` name even when that image's transcoding failed. */
  lemma TextIndependentOfTranscoder(es: seq<Entry>, n: nat, renames: RenameMap, c1: Codecs, c2: Codecs)
    requires n <= |es|
    requires c1.decode == c2.decode && c1.encode == c2.encode
    ensures StateAfter(es, n, renames, c1).svgFixed == StateAfter(es, n, renames, c2).svgFixed
    ensures StateAfter(es, n, renames, c1).metaAdded == StateAfter(es, n, renames, c2).metaAdded
    ensures forall k :: 0 <= k < n && KindOf(es[k].name) != Image ==>
      StateAfter(es, n, renames, c1).out[k] == StateAfter(es, n, renames, c2).out[k]
  {
    SvgCountIndependent(es, n, c1, c2);
    SvgFixedCount(es, n, renames, c1);
    SvgFixedCount(es, n, renames, c2);
    MetaAddedExactly(es, n, renames, c1);
    MetaAddedExactly(es, n, renames, c2);
    forall k: nat | k < n
      ensures AddsMeta(es, k, renames, SvgFixCount(es, k, c1), c1) == AddsMeta(es, k, renames, SvgFixCount(es, k, c2), c2)
    {
      SvgCountIndependent(es, k, c1, c2);
    }
    PassOutputs(es, n, renames, c1);
    PassOutputs(es, n, renames, c2);
    forall k | 0 <= k < n && KindOf(es[k].name) != Image
      ensures StateAfter(es, k + 1, renames, c1).out[k] == StateAfter(es, k + 1, renames, c2).out[k]
    {
      EntryIndependentOfTranscoder(es, k, renames, c1, c2);
    }
  }

  lemma EntryIndependentOfTranscoder(es: seq<Entry>, k: nat, renames: RenameMap, c1: Codecs, c2: Codecs)
    requires k < |es| && KindOf(es[k].name) != Image
    requires c1.decode == c2.decode && c1.encode == c2.encode
    ensures StateAfter(es, k + 1, renames, c1).out[k] == StateAfter(es, k + 1, renames, c2).out[k]
  {
    SvgCountIndependent(es, k, c1, c2);
    SvgFixedCount(es, k, renames, c1);
    SvgFixedCount(es, k, renames, c2);
    PassStep(es, k, renames, c1);
    PassStep(es, k, renames, c2);
  }

  lemma SvgCountIndependent(es: seq<Entry>, n: nat, c1: Codecs, c2: Codecs)
    requires n <= |es|
    requires c1.decode == c2.decode
    ensures SvgFixCount(es, n, c1) == SvgFixCount(es, n, c2)
  {
    CountWhereAgree(n, FixesSvgAt(es, c1), FixesSvgAt(es, c2));
  }
}
