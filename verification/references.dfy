/** Renaming of non-JPEG images and of the references to them
    (ui.py:155-161 and the substitution loops of ui.py:187-191, 199-203,
    211-215, 225-229).

    The rename dictionary is built from the entry names alone, before any
    image is converted.  Its keys are the names whose lower-case form ends in
    `.png`, `.gif`, `.webp` or `.bmp`; each maps to the name up to its last
    dot followed by `.jpg`.  A Python dictionary keeps insertion order, so it
    is modelled as a sequence of pairs with distinct keys. */
module References {
  import opened Wrappers
  import opened Text

  /** One `old_name -> new_name` pair of `renamed_files`. */
  datatype Rename = Rename(from: string, to: string)

  type RenameMap = seq<Rename>

  /** Keys are distinct, as in a dictionary. */
  ghost predicate DistinctKeys(m: RenameMap)
  {
    forall j, k :: 0 <= j < k < |m| ==> m[j].from != m[k].from
  }

  /** `m[name]`, if `name` is a key. */
  function Lookup(m: RenameMap, name: string): (r: Option<string>)
    ensures r.None? <==> forall k :: 0 <= k < |m| ==> m[k].from != name
    ensures r.Some? ==> exists k :: 0 <= k < |m| && m[k] == Rename(name, r.value)
  {
    if |m| == 0 then None
    else if m[0].from == name then Some(m[0].to)
    else
      var r := Lookup(m[1..], name);
      assert r.Some? ==> exists k :: 0 <= k < |m[1..]| && m[1..][k] == Rename(name, r.value);
      r
  }

  /** `m[key] = value`: overwrite in place when the key is present, append
      otherwise. */
  function Assign(m: RenameMap, key: string, value: string): (r: RenameMap)
  {
    if |m| == 0 then [Rename(key, value)]
    else if m[0].from == key then [Rename(key, value)] + m[1..]
    else [m[0]] + Assign(m[1..], key, value)
  }

  /** After `m[key] = value`, `key` maps to `value` and every other name to
      what it mapped to before. */
  lemma {:induction false} AssignLookup(m: RenameMap, key: string, value: string)
    ensures Lookup(Assign(m, key, value), key) == Some(value)
    ensures forall n :: n != key ==> Lookup(Assign(m, key, value), n) == Lookup(m, n)
  {
    if |m| > 0 && m[0].from != key {
      AssignLookup(m[1..], key, value);
      var r := Assign(m, key, value);
      assert r[1..] == Assign(m[1..], key, value);
    } else if |m| > 0 {
      assert Assign(m, key, value)[1..] == m[1..];
    }
  }

  /** A new key is appended; an existing one keeps its place. */
  lemma {:induction false} AssignShape(m: RenameMap, key: string, value: string)
    ensures Lookup(m, key).None? ==> Assign(m, key, value) == m + [Rename(key, value)]
    ensures Lookup(m, key).Some? ==> |Assign(m, key, value)| == |m|
    ensures Lookup(m, key).Some? ==>
      exists j :: 0 <= j < |m| && m[j].from == key && Assign(m, key, value) == m[j := Rename(key, value)]
  {
    if |m| > 0 && m[0].from != key {
      AssignShape(m[1..], key, value);
      assert Lookup(m, key) == Lookup(m[1..], key);
      if Lookup(m, key).None? {
        assert m == [m[0]] + m[1..];
      } else {
        var j :| 0 <= j < |m[1..]| && m[1..][j].from == key
          && Assign(m[1..], key, value) == m[1..][j := Rename(key, value)];
        assert Assign(m, key, value) == m[j + 1 := Rename(key, value)];
      }
    } else if |m| > 0 {
      assert Assign(m, key, value) == m[0 := Rename(key, value)];
    }
  }

  lemma {:induction false} AssignDistinct(m: RenameMap, key: string, value: string)
    requires DistinctKeys(m)
    ensures DistinctKeys(Assign(m, key, value))
  {
    if |m| > 0 {
      DistinctSplit(m);
      if m[0].from != key {
        var rest := Assign(m[1..], key, value);
        AssignDistinct(m[1..], key, value);
        AssignLookup(m[1..], key, value);
        assert Lookup(rest, m[0].from) == Lookup(m[1..], m[0].from);
        DistinctCons(m[0], rest);
      } else {
        DistinctCons(Rename(key, value), m[1..]);
      }
    }
  }

  /** A dictionary with distinct keys: its first key is not a key of the
      rest, and the rest has distinct keys. */
  lemma DistinctSplit(m: RenameMap)
    requires |m| > 0 && DistinctKeys(m)
    ensures Lookup(m[1..], m[0].from).None? && DistinctKeys(m[1..])
  {
    forall j, k | 0 <= j < k < |m[1..]| ensures m[1..][j].from != m[1..][k].from {
      assert m[1..][j] == m[j + 1] && m[1..][k] == m[k + 1];
    }
  }

  /** Putting a pair whose key is not in `rest` in front keeps the keys
      distinct. */
  lemma DistinctCons(x: Rename, rest: RenameMap)
    requires Lookup(rest, x.from).None? && DistinctKeys(rest)
    ensures DistinctKeys([x] + rest)
  {
    var r := [x] + rest;
    forall j, k | 0 <= j < k < |r| ensures r[j].from != r[k].from {
      assert r[k] == rest[k - 1];
      if j > 0 {
        assert r[j] == rest[j - 1];
      }
    }
  }

  /** The extensions that make an entry a key of the rename dictionary. */
  predicate IsRasterName(name: string)
  {
    var lower := Lower(name);
    EndsWith(lower, ".png") || EndsWith(lower, ".gif") || EndsWith(lower, ".webp") || EndsWith(lower, ".bmp")
  }

  /** `name.rsplit('.', 1)[0] + '.jpg'` (ui.py:159-160). */
  function JpgName(name: string): string
  {
    Stem(name) + ".jpg"
  }

  /** The fold of ui.py:156-161 over the entry names. */
  function RenameMapOf(names: seq<string>): (m: RenameMap)
    decreases |names|
  {
    if |names| == 0 then []
    else
      var m := RenameMapOf(names[..|names| - 1]);
      var name := names[|names| - 1];
      if IsRasterName(name) then Assign(m, name, JpgName(name)) else m
  }

  /** The loop of ui.py:156-161, which fills the dictionary entry by entry. */
  method BuildRenameMap(names: seq<string>) returns (m: RenameMap)
    ensures m == RenameMapOf(names)
  {
    m := [];
    var i := 0;
    while i < |names|
      invariant 0 <= i <= |names|
      invariant m == RenameMapOf(names[..i])
    {
      var name := names[i];
      if IsRasterName(name) {
        var baseName := Stem(name);
        m := Assign(m, name, baseName + ".jpg");
      }
      assert names[..i + 1][..i] == names[..i];
      i := i + 1;
    }
    assert names[..|names|] == names;
  }

  /** The dictionary built from `names`: exactly the raster names are keys,
      each mapped to its `.jpg` name, with no key twice. */
  lemma {:induction false} RenameMapContents(names: seq<string>)
    ensures DistinctKeys(RenameMapOf(names))
    ensures forall n :: Lookup(RenameMapOf(names), n).Some? <==> n in names && IsRasterName(n)
    ensures forall n :: Lookup(RenameMapOf(names), n).Some? ==> Lookup(RenameMapOf(names), n).value == JpgName(n)
    decreases |names|
  {
    if |names| > 0 {
      var init := names[..|names| - 1];
      var name := names[|names| - 1];
      RenameMapContents(init);
      assert names == init + [name];
      if IsRasterName(name) {
        AssignLookup(RenameMapOf(init), name, JpgName(name));
        AssignDistinct(RenameMapOf(init), name, JpgName(name));
      }
    }
  }

  /** Every pair of the dictionary is a raster name and its `.jpg` name. */
  lemma {:induction false} RenameMapPairs(names: seq<string>)
    ensures forall k :: 0 <= k < |RenameMapOf(names)| ==>
      var r := RenameMapOf(names)[k];
      IsRasterName(r.from) && r.to == JpgName(r.from) && r.from in names
  {
    RenameMapContents(names);
    var m := RenameMapOf(names);
    forall k | 0 <= k < |m|
      ensures IsRasterName(m[k].from) && m[k].to == JpgName(m[k].from) && m[k].from in names
    {
      LookupDistinct(m, k);
    }
  }

  /** With distinct keys, looking up the key of a pair finds that pair. */
  lemma {:induction false} LookupDistinct(m: RenameMap, k: nat)
    requires DistinctKeys(m) && k < |m|
    ensures Lookup(m, m[k].from) == Some(m[k].to)
  {
    if k > 0 {
      assert m[0].from != m[k].from;
      assert DistinctKeys(m[1..]);
      LookupDistinct(m[1..], k - 1);
    }
  }

  lemma LowerKeepsDot(c: char)
    ensures LowerChar(c) == '.' <==> c == '.'
  {
  }

  /** For a raster name, `rsplit('.', 1)` cuts exactly at the dot of the
      extension, so the new name is the old one with its extension replaced
      by `.jpg`. */
  lemma RasterJpgName(name: string)
    requires IsRasterName(name)
    ensures exists ext ::
      ext in [".png", ".gif", ".webp", ".bmp"] && EndsWith(Lower(name), ext) &&
      JpgName(name) == name[..|name| - |ext|] + ".jpg"
  {
    var lower := Lower(name);
    if EndsWith(lower, ".png") {
      JpgNameForExtension(name, ".png");
    } else if EndsWith(lower, ".gif") {
      JpgNameForExtension(name, ".gif");
    } else if EndsWith(lower, ".webp") {
      JpgNameForExtension(name, ".webp");
    } else {
      JpgNameForExtension(name, ".bmp");
    }
  }

  /** The same for one of the four extensions found in the name. */
  lemma JpgNameForExtension(name: string, ext: string)
    requires ext in [".png", ".gif", ".webp", ".bmp"]
    requires EndsWith(Lower(name), ext)
    ensures exists ext ::
      ext in [".png", ".gif", ".webp", ".bmp"] && EndsWith(Lower(name), ext) &&
      JpgName(name) == name[..|name| - |ext|] + ".jpg"
  {
    assert ext[0] == '.' && forall k :: 0 < k < |ext| ==> ext[k] != '.';
    ExtensionDot(name, ext);
    StemAtLastDot(name, |name| - |ext|);
    assert JpgName(name) == name[..|name| - |ext|] + ".jpg";
  }

  /** An extension with one leading dot, found in the lower-case name, puts
      the name's last dot where the extension starts. */
  lemma ExtensionDot(name: string, ext: string)
    requires |ext| > 0 && ext[0] == '.' && forall k :: 0 < k < |ext| ==> ext[k] != '.'
    requires EndsWith(Lower(name), ext)
    ensures name[|name| - |ext|] == '.'
    ensures forall k :: |name| - |ext| < k < |name| ==> name[k] != '.'
  {
    var lower := Lower(name);
    var d := |name| - |ext|;
    assert lower[d] == ext[0];
    LowerKeepsDot(name[d]);
    forall k | d < k < |name| ensures name[k] != '.' {
      assert lower[k] == ext[k - d];
      LowerKeepsDot(name[k]);
    }
  }

  /** Names ending in `.jpg` or `.jpeg`, in any case, are never keys. */
  lemma JpegNamesNotRaster(name: string)
    requires EndsWith(Lower(name), ".jpg") || EndsWith(Lower(name), ".jpeg")
    ensures !IsRasterName(name)
  {
    JpegSuffixNotRaster(Lower(name));
  }

  lemma JpegSuffixNotRaster(lower: string)
    requires EndsWith(lower, ".jpg") || EndsWith(lower, ".jpeg")
    ensures !EndsWith(lower, ".png") && !EndsWith(lower, ".gif")
    ensures !EndsWith(lower, ".webp") && !EndsWith(lower, ".bmp")
  {
    var n := |lower|;
    if EndsWith(lower, ".jpg") {
      assert lower[n - 4 + 1] == ".jpg"[1] == 'j';
      assert lower[n - 4 + 3] == ".jpg"[3] == 'g';
      SuffixMismatch(lower, ".png", 1);
      SuffixMismatch(lower, ".gif", 1);
    } else {
      assert lower[n - 5 + 3] == ".jpeg"[3] == 'e';
      assert lower[n - 5 + 4] == ".jpeg"[4] == 'g';
      SuffixMismatch(lower, ".png", 2);
      SuffixMismatch(lower, ".gif", 3);
    }
    SuffixMismatch(lower, ".webp", 4);
    SuffixMismatch(lower, ".bmp", 3);
  }

  /** A renamed entry is not renamed again by a later run. */
  lemma JpgNameNotRaster(name: string)
    ensures !IsRasterName(JpgName(name))
  {
    var j := JpgName(name);
    assert Lower(j)[|j| - 4..] == ".jpg";
    JpegNamesNotRaster(j);
  }

  // --- reference substitution ---

  /** One pass of the loop body: the basename first, then the full path. */
  function RenamePair(text: string, r: Rename): string
  {
    var t := ReplaceAll(text, Basename(r.from), Basename(r.to));
    ReplaceAll(t, r.from, r.to)
  }

  /** The substitution loop, over the pairs in insertion order. */
  function RenameRefs(text: string, m: RenameMap): string
    decreases |m|
  {
    if |m| == 0 then text else RenameRefs(RenamePair(text, m[0]), m[1..])
  }

  /** The loop `for old_name, new_name in renamed_files.items()` of
      ui.py:187-191 (identical at 199-203, 211-215, 225-229), reassigning
      the text pair by pair. */
  method RewriteReferences(text: string, m: RenameMap) returns (r: string)
    ensures r == RenameRefs(text, m)
  {
    r := text;
    var i := 0;
    while i < |m|
      invariant 0 <= i <= |m|
      invariant RenameRefs(r, m[i..]) == RenameRefs(text, m)
    {
      var oldBasename := Basename(m[i].from);
      var newBasename := Basename(m[i].to);
      r := ReplaceAll(r, oldBasename, newBasename);
      r := ReplaceAll(r, m[i].from, m[i].to);
      assert m[i..][1..] == m[i + 1..];
      i := i + 1;
    }
  }

  /** A text that mentions the basename of a renamed file mentions the new
      basename after that pair's substitution: the basename replacement
      puts it in, and the path replacement keeps it, since the new path ends
      with it. */
  lemma RenamePairInserts(text: string, r: Rename)
    requires |Basename(r.from)| > 0 && Contains(text, Basename(r.from))
    ensures Contains(RenamePair(text, r), Basename(r.to))
  {
    var t := ReplaceAll(text, Basename(r.from), Basename(r.to));
    ReplaceAllInserts(text, Basename(r.from), Basename(r.to));
    if Contains(t, r.from) {
      ReplaceAllInserts(t, r.from, r.to);
      var u := ReplaceAll(t, r.from, r.to);
      var j: nat :| j <= |u| && At(u, j, r.to);
      EndsWithContains(r.to, Basename(r.to));
      ContainsTransitive(u, j, r.to, Basename(r.to));
    } else {
      ReplaceAllAbsent(t, r.from, r.to);
    }
  }

  /** A text that mentions no renamed file, by basename or path, is left
      exactly as it was. */
  lemma {:induction false} RenameRefsUntouched(text: string, m: RenameMap)
    requires forall k :: 0 <= k < |m| ==> !Contains(text, Basename(m[k].from))
    ensures RenameRefs(text, m) == text
    decreases |m|
  {
    if |m| > 0 {
      var from := m[0].from;
      ReplaceAllAbsent(text, Basename(from), Basename(m[0].to));
      if Contains(text, from) {
        var j: nat :| j <= |text| && At(text, j, from);
        EndsWithContains(from, Basename(from));
        ContainsTransitive(text, j, from, Basename(from));
      }
      ReplaceAllAbsent(text, from, m[0].to);
      assert forall k :: 0 <= k < |m[1..]| ==> m[1..][k] == m[k + 1];
      RenameRefsUntouched(text, m[1..]);
    }
  }
}
