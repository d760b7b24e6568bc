# Baseline JPEG converter: the EPUB rewrite

A model of the part of the Calibre "baseline JPEG" plugin that rewrites an
EPUB in place. It covers these pieces of `ui.py`:

- `convert_epub_images` (ui.py:139-272).
  - The rename dictionary is built first: each PNG, GIF, WebP or BMP entry maps to a `.jpg` name.
  - Then every archive entry is rewritten in order:
    - images (JPEG included) go through the baseline transcoder;
    - markup pages get their SVG cover repaired and their image references renamed;
    - stylesheets and the navigation file get their references renamed;
    - the package document gets its references renamed and its image media types retyped to `image/jpeg`.
  - The package document also loses its `svg` property tokens once an SVG cover was repaired. This depends on the entries before it.
  - Last, the package document gets a cover `<meta>` tag.
  - `mimetype` is written stored; every other entry is deflated.
- `fix_svg_cover` (ui.py:51-96).
- `ensure_cover_meta` (ui.py:98-137).
- The summary message shown after a batch (ui.py:339-347).

The modules follow the structure of the code:

- `Text`: the Python string operations the code relies on.
  - `in`, `endswith`, `lower`, `replace`, `split('/')[-1]`, `rsplit('.', 1)[0]`.
- `SvgCover`: `fix_svg_cover`.
  - The cover gate.
  - The leftmost `xlink:href` regex match.
  - The replacement page template.
- `CoverMeta`: `ensure_cover_meta`.
  - The three manifest regexes, with Python's leftmost, backtracking match order.
  - The insertion before every `</metadata>`.
  - The case folding of the third regex (`re.IGNORECASE`) is exact for the letters it spells. ASCII capitals fold, and so do U+0130 and U+0131, which Python's matcher also folds to `i`.
- `Manifest`: the `re.sub` calls of the package document.
  - Media-type retyping.
  - `svg` property stripping.
- `References`: the `renamed_files` dictionary (an ordered list of pairs with distinct keys) and the reference substitution loop.
- `Archive`: one loop iteration per entry, as functions, and the loop itself, as methods proved equal to a left fold (`Pass`).
  - The abstract codecs: transcoder, UTF-8 decode and encode.
- `PassFacts`: what the whole pass computes.
  - The counters in terms of the entries.
  - The entries written.
  - The order dependence of the svg strip.
  - Independence of the text entries from the transcoder.
- `Report`: the summary message.

The code has some behaviours that a reader might not expect. The model reproduces them rather than correcting them:

- **JPEGs count as converted.** A `.jpg`/`.jpeg` entry whose transcoding gives non-empty bytes counts as converted (`Archive.RewriteEntryProperties`, `PassFacts.ConvertedCount`).
- **References are renamed regardless of transcoding.** Text entries rename every reference in the dictionary, whether or not that image's transcoding succeeded. So a failed PNG conversion leaves `x.png` in the archive while the documents point at `x.jpg` (`Archive.RewriteText`, `PassFacts.TextIndependentOfTranscoder`, `References.RenamePairInserts`).
- **The svg strip depends on entry order.** It runs only when some markup page *before* the package document repaired its cover (`PassFacts.PackageSeesEarlierSvg`).
- **Changes reported without `</metadata>`.** `ensure_cover_meta` reports a change when it finds a cover id even if the document has no `</metadata>`. The text is then unchanged, and the next run reports a change again (`CoverMeta.ReportsChangeWithoutMetadataClose`).
- **Substring substitution.** Reference renaming replaces plain substrings, basename first. Unrelated text containing a renamed file's basename is rewritten too (`References.RenameRefs`).

## Model

| member | source | states |
|---|---|---|
| Text.Contains | ui.py:60-68 | Python's `in` on strings: definition, no contract |
| Text.EndsWith | ui.py:158 | `str.endswith`: definition, no contract |
| Text.Lower | ui.py:157 | `str.lower()` on ASCII letters: definition, no contract |
| Text.Basename | ui.py:188-189 | the result is a suffix of the path, contains no `/`, and is the whole path or preceded by a `/` |
| Text.Stem | ui.py:159 | the whole name exactly when it has no dot; otherwise the prefix before a dot that has no dot after it |
| Text.StemAtLastDot | ui.py:159 | with the last dot at `d`, the stem is the text before `d` |
| Text.NextIndexOf | ui.py:114-126 | the first index of the character at or after `from`, or none when it does not occur there |
| Text.LastIndexOf | ui.py:159 | the last index of the character, or none when it does not occur |
| Text.ReplaceAll | ui.py:135 | `str.replace`: definition, no contract (its properties are `ReplaceAllAbsent` and `ReplaceAllInserts`) |
| Text.ReplaceAllAbsent | ui.py:190-191 | `str.replace` with a pattern that does not occur returns the text unchanged |
| Text.ReplaceAllInserts | ui.py:135 | `str.replace` with a pattern that occurs puts the replacement into the result |
| SvgCover.LooksLikeSvgCover | ui.py:60-70 | the gate: `<svg` and `xlink:href` present and one of the three cover markers: definition, no contract (see `FixSvgCover`) |
| SvgCover.HrefMatch | ui.py:73 | the `xlink:href` regex matching at an index: definition, no contract (see `FindHref`, `HrefValue`) |
| SvgCover.NextQuote | ui.py:73 | the first `"` or `'` at or after `from`, with no quote before it; none when there is none |
| SvgCover.HrefValue | ui.py:73-77 | the captured image path is the non-empty, quote-free text between the quote after `xlink:href=` and the next quote |
| SvgCover.FindHref | ui.py:73 | the leftmost index where the `xlink:href` regex matches, or none when it matches nowhere |
| SvgCover.FixSvgCover | ui.py:51-96 | without `<svg`, `xlink:href` and a cover marker: unchanged, false; changed exactly when the gate passes and the regex matches; then the text is the fixed template around the leftmost match's path, otherwise the input |
| SvgCover.CoverPage | ui.py:80-94 | the replacement page with the image path spliced in: definition, no contract (see `HrefOnlyFromMiddle`, `CoverPageNotRefixed`) |
| SvgCover.HrefOnlyFromMiddle | ui.py:80-94 | the template around a path without `xlink:href` contains no `xlink:href` |
| SvgCover.CoverPageNotRefixed | ui.py:59-96 | a repaired page is left unchanged, with false, by a second repair |
| CoverMeta.MetaLine | ui.py:134 | the inserted meta line ending with `</metadata>`: definition, no contract (see `InsertedLineHasMarker`) |
| CoverMeta.FoldChar | ui.py:126 | `re.IGNORECASE` folding for the letters of the third regex: definition, no contract |
| CoverMeta.Captured | ui.py:116-128 | `match.group(1)`, the captured identifier: definition, no contract (see `SearchCoverId`) |
| CoverMeta.ItemMatch | ui.py:114-126 | the three regexes as match predicates: definition, no contract |
| CoverMeta.AttrEnd | ui.py:114-126 | an attribute pattern's match ends inside the text, after its start |
| CoverMeta.NoMatchBeyondEnd | ui.py:114-126 | no match of a heuristic's regex ends beyond the text |
| CoverMeta.LastSecond | ui.py:114-126 | the rightmost position of the second attribute completing a match below the bound, and none beyond it |
| CoverMeta.NoSecondAttr | ui.py:114-126 | when no second attribute completes a match, no match exists for that first attribute |
| CoverMeta.LastFirst | ui.py:114-126 | backtracking the first `[^>]+`: the rightmost first attribute with a match, with its rightmost second attribute |
| CoverMeta.FirstItem | ui.py:114-126 | `re.search`: the match with the leftmost `<item`, then the rightmost first and second attributes; none when no match exists |
| CoverMeta.SearchCoverId | ui.py:113-128 | none exactly when the heuristic's regex matches nowhere, otherwise the identifier that `re.search` captures |
| CoverMeta.ManifestCoverId | ui.py:110-131 | none exactly when none of the three regexes matches; otherwise the identifier of the first one that matches, in the fixed order |
| CoverMeta.EnsureCoverMeta | ui.py:98-137 | with `<meta name="cover"` present: unchanged, false; changed exactly when the marker is absent and a cover item is found; then every `</metadata>` is replaced by the meta line for that identifier |
| CoverMeta.InsertedLineHasMarker | ui.py:107-135 | replacing a `</metadata>` that occurs puts `<meta name="cover"` into the text |
| CoverMeta.EnsureCoverMetaIdempotent | ui.py:106-137 | after a real insertion, a second call changes nothing and reports false |
| CoverMeta.ReportsChangeWithoutMetadataClose | ui.py:130-137 | with a cover item but no `</metadata>`: text unchanged but reported true, and a second call reports true again |
| Manifest.RasterTypeAt | ui.py:233-238 | the `png`/`gif`/`webp`/`bmp` alternative followed by a quote at that index, if any |
| Manifest.JpgHrefAt | ui.py:233-238 | the closing quote of an `href="...jpg"` at that index, with no quote in the value; none exactly when no such closing quote exists |
| Manifest.HrefFirstMatch | ui.py:233 | the first retype regex matching at an index with a given gap end: definition, no contract (see `LongestHrefFirst`, `HrefFirstAt`) |
| Manifest.HrefFirstHit | ui.py:233-234 | the end and replacement of such a match: definition, no contract (see `HrefFirstOnlyRetypes`) |
| Manifest.LongestHrefFirst | ui.py:233 | the longest `[^>]*` gap that completes a match of the first retype regex, and no longer one |
| Manifest.HrefFirstOnlyRetypes | ui.py:232-236 | a match of the first retype regex is replaced by the same text with its raster type turned into `jpeg` |
| Manifest.HrefFirstAt | ui.py:232-236 | none exactly when the first retype regex does not match at the index; otherwise the greedy match's rewrite |
| Manifest.MediaFirstMatch | ui.py:238 | the second retype regex matching at an index with a given gap end: definition, no contract (see `LongestMediaFirst`, `MediaFirstAt`) |
| Manifest.MediaFirstHit | ui.py:238-239 | the end and replacement of such a match: definition, no contract (see `MediaFirstOnlyRetypes`) |
| Manifest.LongestMediaFirst | ui.py:238 | the longest gap that completes a match of the second retype regex, and no longer one |
| Manifest.MediaFirstOnlyRetypes | ui.py:237-241 | a match of the second retype regex is replaced by the same text with its raster type turned into `jpeg` |
| Manifest.MediaFirstAt | ui.py:237-241 | none exactly when the second retype regex does not match at the index; otherwise the greedy match's rewrite |
| Manifest.IsSpace | ui.py:245 | the characters of the regex class `\s`: definition, no contract |
| Manifest.SvgTokenMatch | ui.py:245 | the svg-token regex matching at an index: definition, no contract (see `SvgTokenAt`) |
| Manifest.SpaceRunEnd | ui.py:245 | the end of the whitespace run starting at the index |
| Manifest.SvgTokenAt | ui.py:245 | a match exactly when whitespace, `svg` and a quote, space or `>` follow; the match is removed and ends with `svg` |
| Manifest.HitAt | ui.py:232-247 | a match at an index ends after it, inside the text |
| Manifest.SubFrom | ui.py:232-247 | the `re.sub` scan: definition, no contract (its property is `SubFromNoHit`) |
| Manifest.SubFromNoHit | ui.py:232-247 | `re.sub` with no match is the identity |
| Manifest.HitNeedsWord | ui.py:233-245 | a retype match needs `media-type="image/` in the text; an svg match needs `svg` |
| Manifest.RetypeMediaTypes | ui.py:232-241 | the two retype substitutions in order: definition, no contract (see `HrefFirstAt`, `MediaFirstAt`, `RetypeWithoutImageTypes`) |
| Manifest.RetypeWithoutImageTypes | ui.py:232-241 | a package document without `media-type="image/` is not retyped |
| Manifest.StripSvgProperty | ui.py:244-247 | the svg-token substitution then the two emptied-attribute removals: definition, no contract (see `SvgTokenAt`, `StripWithoutSvg`) |
| Manifest.StripWithoutSvg | ui.py:244-247 | a package document without `svg` and without emptied property attributes is not stripped |
| References.IsRasterName | ui.py:157-158 | the lower-cased name ends in one of the four raster extensions: definition, no contract (see `RenameMapContents`, `JpegNamesNotRaster`) |
| References.JpgName | ui.py:159-160 | the stem plus `.jpg`: definition, no contract (see `RasterJpgName`, `JpgNameNotRaster`) |
| References.Lookup | ui.py:174-175 | none exactly when no pair has the key; otherwise some pair maps the key to the result |
| References.Assign | ui.py:161 | `m[key] = value`: definition, no contract (its properties are `AssignLookup`, `AssignShape`, `AssignDistinct`) |
| References.AssignLookup | ui.py:161 | after `m[key] = value` the key maps to the value and every other name as before |
| References.AssignShape | ui.py:161 | a new key is appended at the end; an existing key keeps its index, only that pair's value changes |
| References.AssignDistinct | ui.py:161 | assignment keeps the keys distinct |
| References.DistinctSplit | ui.py:161 | the first key of a dictionary is not a key of the rest |
| References.DistinctCons | ui.py:161 | a pair whose key is absent from the rest can be put in front |
| References.RenameMapOf | ui.py:155-161 | the dictionary as a fold over the names: definition, no contract (see `RenameMapContents`) |
| References.BuildRenameMap | ui.py:155-161 | the loop over the entries builds the dictionary `RenameMapOf(names)` |
| References.RenameMapContents | ui.py:155-161 | keys are distinct; a name is a key exactly when it is an entry name ending (in any case) in `.png`, `.gif`, `.webp` or `.bmp`; each key maps to its stem plus `.jpg` |
| References.RenameMapPairs | ui.py:155-161 | every pair is a raster entry name and its `.jpg` name |
| References.LookupDistinct | ui.py:174-175 | with distinct keys, looking up a pair's key finds that pair's value |
| References.LowerKeepsDot | ui.py:157 | lower-casing produces a dot exactly from a dot |
| References.RasterJpgName | ui.py:158-160 | for a raster name, the new name is the old one with its extension replaced by `.jpg` |
| References.JpegNamesNotRaster | ui.py:158-169 | names ending in `.jpg` or `.jpeg`, in any case, are never keys |
| References.JpegSuffixNotRaster | ui.py:158 | a lower-case `.jpg`/`.jpeg` suffix excludes the four raster suffixes |
| References.JpgNameNotRaster | ui.py:158-160 | a renamed file is never renamed again |
| References.RenamePair | ui.py:188-191 | one pair's basename then path replacement: definition, no contract (see `RenamePairInserts`) |
| References.RenameRefs | ui.py:187-191 | the substitution loop as a fold over the pairs: definition, no contract (see `RenameRefsUntouched`, `RenamePairInserts`) |
| References.RewriteReferences | ui.py:187-191 | the substitution loop: basename then path, pair by pair in insertion order, equal to `RenameRefs` |
| References.RenameRefsUntouched | ui.py:187-191 | a text mentioning no renamed file's basename comes out unchanged |
| References.RenamePairInserts | ui.py:188-191 | a text mentioning the old basename of a pair mentions the new basename after that pair's two replacements |
| References.ExtensionDot | ui.py:157-159 | the last dot of a raster name is the extension's dot |
| References.JpgNameForExtension | ui.py:158-160 | for one of the four extensions found at the end of the lower-case name, the new name is the name without it plus `.jpg` |
| Archive.Read | ui.py:165 | `zin.read(name)`, the data of the last entry with the name: definition, no contract (see `LastNamed`) |
| Archive.Transcoded | ui.py:170-171 | the transcoder result that `if new_data:` accepts, non-empty only: definition, no contract (see `RewriteEntryProperties`) |
| Archive.RasterNamesAreImages | ui.py:158-169 | every dictionary key is classified as an image |
| Archive.LastNamed | ui.py:165 | `zin.read`: the last entry with the name, none when there is none |
| Archive.MimetypeIsOther | ui.py:169-258 | the `mimetype` entry falls in none of the rewrite branches |
| Archive.RewriteEntryProperties | ui.py:164-263 | per entry: stored exactly for `mimetype`; converted exactly for an image with a non-empty transcoder result, renamed only then and only through the dictionary; svg fixes only from markup, meta only from the package document; copied unchanged when neither converted nor decoded |
| Archive.KindOf | ui.py:169-220 | the `elif` chain on the lower-case extension: definition, no contract (see `RasterNamesAreImages`, `MimetypeIsOther`) |
| Archive.ImageEntry | ui.py:169-176 | the image branch: definition, no contract (see `RewriteEntryProperties`) |
| Archive.RewriteText | ui.py:177-256 | the per-kind text rewrite: definition, no contract (see `PackageSeesEarlierSvg`, `EntryOutput`) |
| Archive.TextEntry | ui.py:177-256 | the text branches with decoding and encoding: definition, no contract (see `RewriteEntryProperties`) |
| Archive.Output | ui.py:258-263 | the written entry: definition, no contract (see `RewriteEntryProperties`) |
| Archive.RewriteEntry | ui.py:164-263 | one iteration: definition, no contract (its properties are `RewriteEntryProperties`) |
| Archive.ConvertAll | ui.py:139-272 | the whole rewrite writes one entry per input entry (further properties in `ConvertAllOutputs`, `ConvertedCount`, `MetaAddedExactly`) |
| Archive.Names | ui.py:156 | the entry names, in order |
| Archive.Pass | ui.py:164-263 | the fold writes one entry per entry processed |
| Archive.StateAfter | ui.py:164-263 | one written entry per entry processed |
| Archive.PassStep | ui.py:164-263 | the fold's step equation, used by `RewriteNext`: one more entry appends its rewrite, made with the svg count so far, and adds its increments to the counters |
| Archive.RewriteItem | ui.py:166-263 | the loop body's branch on the extension computes the entry's rewrite |
| Archive.ConvertImage | ui.py:169-176 | the image branch: transcoded and renamed on a non-empty result, copied otherwise |
| Archive.RewriteTextItem | ui.py:177-256 | the text branches: decode, per-kind rewrite, encode; copied when decoding fails |
| Archive.RewriteNext | ui.py:164-263 | one iteration extends the pass state by the entry's rewrite |
| Archive.RewriteEntries | ui.py:163-263 | the loop leaves the state of the fold over all entries |
| Archive.ConvertEpubImages | ui.py:139-272 | the whole rewrite equals `ConvertAll`: one written entry per input entry and the three returned values |
| PassFacts.PassExtends | ui.py:258-263 | one more entry appends one output and keeps the earlier ones |
| PassFacts.EntryCounters | ui.py:164-252 | entry `k` adds one to `converted_count` exactly when it converts, one to `svg_covers_fixed` exactly when it repairs a cover, and sets `cover_meta_added` exactly when it adds a meta |
| PassFacts.EntryOutput | ui.py:164-263 | what entry `k` writes: its compression, its name (renamed only when converted), its data per branch |
| PassFacts.PassOutputs | ui.py:258-263 | later entries never change what was written for an earlier one |
| PassFacts.CountWherePositive | ui.py:173 | a count is positive exactly when some index satisfies the test |
| PassFacts.ConvertedCount | ui.py:164-175 | `converted_count` is the number of images (JPEG included) with a non-empty transcoder result |
| PassFacts.ConvertedPositive | ui.py:164-175 | `converted_count` is positive exactly when some entry converts |
| PassFacts.SvgFixedCount | ui.py:177-184 | `svg_covers_fixed` is the number of decodable markup pages whose cover was repaired |
| PassFacts.SvgFixedPositive | ui.py:177-184 | `svg_covers_fixed` is positive exactly when some markup page repaired its cover |
| PassFacts.MetaStep | ui.py:250-252 | the flag after entry `k` is the flag before it or whether `k` adds a meta |
| PassFacts.MetaSteps | ui.py:250-252 | the same for every entry |
| PassFacts.OrFoldCount | ui.py:250-252 | a flag set at a step exactly when a test holds is set at the end exactly when the test held somewhere |
| PassFacts.MetaAddedCount | ui.py:250-252 | `cover_meta_added` is set exactly when the number of meta-adding entries is positive |
| PassFacts.MetaAddedExactly | ui.py:220-252 | `cover_meta_added` is set exactly when some package document, seeing the svg count of the entries before it, gets a cover meta |
| PassFacts.PackageSeesEarlierSvg | ui.py:222-254 | the package document's output: references renamed, retyped, stripped of `svg` exactly when an earlier page repaired a cover, then the cover meta |
| PassFacts.ConvertAllOutputs | ui.py:155-263 | the whole pass writes one entry per entry; only `mimetype` is stored; an entry is renamed exactly when it is a raster name that converted, to its `.jpg` name; a raster name in the output is an unconverted original |
| PassFacts.CountWhereAgree | ui.py:173 | counts of tests that agree below the bound are equal |
| PassFacts.TextIndependentOfTranscoder | ui.py:155-256 | with the same codec, the svg count, the meta flag and every non-image entry written are the same whatever the transcoder does |
| PassFacts.EntryIndependentOfTranscoder | ui.py:177-256 | a non-image entry's output does not depend on the transcoder |
| PassFacts.SvgCountIndependent | ui.py:177-184 | the number of repaired covers does not depend on the transcoder |
| Report.DigitChar | ui.py:339-347 | the digit character of a value below ten |
| Report.Decimal | ui.py:339-347 | `str(n)`: non-empty, digits only, a leading zero only for zero |
| Report.DecimalValue | ui.py:339-347 | the digits of `str(n)` read back as `n` |
| Report.Join | ui.py:345 | `sep.join(items)`: definition, no contract (see `JoinContains`, `JoinEndsWithLast`) |
| Report.JoinContains | ui.py:345 | every item occurs in `sep.join(items)` |
| Report.JoinEndsWithLast | ui.py:345 | `sep.join(items)` ends with the last item |
| Report.Summary | ui.py:339 | the first line with the two conversion counters: definition, no contract |
| Report.SvgLine | ui.py:341 | the svg line: definition, no contract |
| Report.MetaLine | ui.py:343 | the meta line: definition, no contract |
| Report.MoreLine | ui.py:347 | the line counting errors beyond the tenth: definition, no contract (see `MoreLineCounts`) |
| Report.MoreLineCounts | ui.py:346-347 | the last line's number reads back as the number of errors beyond the tenth |
| Report.MessageWithoutErrors | ui.py:339-343 | without errors the message is the summary, followed by the svg line exactly when covers were fixed and then the meta line exactly when metas were added, in all four combinations |
| Report.ErrorSection | ui.py:344-347 | the error part is empty exactly when there are no errors |
| Report.Message | ui.py:339-347 | the message starts with the summary line |
| Report.ErrorSectionLists | ui.py:344-347 | the error part lists each of the first ten errors; with more than ten it ends with the line counting the rest, otherwise with the last error |
| Report.MessageListsErrors | ui.py:339-347 | the same for the whole message |

## Left out

- Image transcoding (`convert_image_to_baseline`, ui.py:26-49) is the parameter `transcode`. `None` stands for an exception. PIL is not part of this model.
- UTF-8 decoding and encoding are the parameters `decode` and `encode`. A decoding failure is `None`. Encoding is total, because text decoded from UTF-8 has no lone surrogates.
- The zip container is a list of entries. Not modelled:
  - the temporary file, `shutil.move` and the clean-up on error (ui.py:151-153, 264-270);
  - compression itself;
  - all `ZipInfo` metadata other than the name and the compression mode.
- Archive.Read: `zin.read` of a name that occurs twice returns the last entry of that name. The model states this and no other duplicate-name behaviour of the zip library.
- Calibre and Qt glue is not modelled:
  - the batch loop over books, progress and cancellation;
  - `convert_covers`;
  - the dialog that shows the message;
  - `__init__.py`.
- Report: only the formatting of the message is modelled. The counters and the error list are its inputs, and the error texts are opaque strings.
- Text.Lower: `str.lower()` is modelled on ASCII letters only. The comparisons it feeds test ASCII suffixes.
- RenameRefs: that a reference is renamed is proved pair by pair (`RenamePairInserts`), not across the whole dictionary. Across several pairs it does not hold in general: a later pair's substring replacement can rewrite an earlier pair's new name.
- The regexes are stated as explicit match predicates for the patterns that occur, not as a general regex engine.
- The `except Exception: pass` around each text branch is modelled for its one reachable cause, a decoding failure. The rewrite functions themselves cannot fail.
- Archive.RewriteItem reports the three counters' increments as flags. Archive.RewriteEntries applies them. The source updates the counters in place.
