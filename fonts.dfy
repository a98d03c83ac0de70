/**
 * Fonts: the values a font repository holds (FontLoader.js lines 108-176):
 * fonts with their style variants, the fixed variant taxonomy, the parsed
 * form of registry.xml, and the conversions between the registry and the
 * in-memory catalog.
 */
module Fonts {
  import opened Paths

  /** The provenance tag a repository gives its faces: TYPE_USER or TYPE_DOCUMENT. */
  datatype RepoKind = User | Document

  /** One style instance of a font (a face); `href` is null until the font is saved. */
  datatype Variant = Variant(
    name: string,
    weight: string,
    style: string,
    href: Option<string>,
    kind: RepoKind,
    filePath: Path)

  /** A font family; `location` is null until the font is first saved. */
  datatype Font = Font(name: string, location: Option<string>, variants: seq<Variant>)

  /** The keys of SUPPORTED_VARIANTS, in its declaration order. */
  datatype VariantKey = Regular | Bold | Italic | BoldItalic

  datatype VariantSpec = VariantSpec(key: VariantKey, weight: string, style: string)

  /** SUPPORTED_VARIANTS (lines 171-176), in the order `for ... in` visits it. */
  const SupportedVariants: seq<VariantSpec> := [
    VariantSpec(Regular, "normal", "normal"),
    VariantSpec(Bold, "bold", "normal"),
    VariantSpec(Italic, "normal", "italic"),
    VariantSpec(BoldItalic, "bold", "italic")
  ]

  /** A FontStyle element of registry.xml. */
  datatype StyleRecord = StyleRecord(weight: string, style: string, href: string)

  /** A Font element of registry.xml with its FontStyle children. */
  datatype FontRecord = FontRecord(name: string, location: string, styles: seq<StyleRecord>)

  /** `getFont` (lines 119-123): the index of the first font with exactly this name. */
  function FindFont(fonts: seq<Font>, name: string): (r: Option<nat>)
    ensures r.Some? ==> r.value < |fonts| && fonts[r.value].name == name
    ensures r.Some? ==> forall j :: 0 <= j < r.value ==> fonts[j].name != name
    ensures r.None? <==> forall j :: 0 <= j < |fonts| ==> fonts[j].name != name
  {
    if fonts == [] then None
    else if fonts[0].name == name then Some(0)
    else match FindFont(fonts[1..], name)
      case None => None
      case Some(i) => Some(i + 1)
  }

  /** Whether some font of the list has this name. */
  predicate HasFont(fonts: seq<Font>, name: string) {
    exists i :: 0 <= i < |fonts| && fonts[i].name == name
  }

  /** The face `load` builds for one FontStyle element (lines 147-160). */
  function FaceOf(dir: Path, kind: RepoKind, name: string, location: string, st: StyleRecord): Variant {
    Variant(name, st.weight, st.style, Some(st.href), kind, Join(Join(dir, location), st.href))
  }

  /** The font `load` builds for one Font element (lines 138-163). */
  function FontOf(dir: Path, kind: RepoKind, rec: FontRecord): Font {
    Font(rec.name, Some(rec.location),
         seq(|rec.styles|, j requires 0 <= j < |rec.styles| => FaceOf(dir, kind, rec.name, rec.location, rec.styles[j])))
  }

  /** The catalog `load` builds from a registry. */
  function FontsOf(dir: Path, kind: RepoKind, records: seq<FontRecord>): seq<Font> {
    seq(|records|, i requires 0 <= i < |records| => FontOf(dir, kind, records[i]))
  }

  /** `setAttribute` turns a null value into the text "null". */
  function OrNull(o: Option<string>): string {
    match o
    case Some(s) => s
    case None => "null"
  }

  /** The FontStyle element `save` writes for a variant (lines 278-280). */
  function StyleRecordOf(v: Variant): StyleRecord {
    StyleRecord(v.weight, v.style, OrNull(v.href))
  }

  /** The Font element `save` writes for a font (lines 244, 264). */
  function RecordOf(f: Font): FontRecord {
    FontRecord(f.name, OrNull(f.location),
               seq(|f.variants|, j requires 0 <= j < |f.variants| => StyleRecordOf(f.variants[j])))
  }

  /** The registry `save` writes: one Font element per font, in catalog order. */
  function RegistryOf(fonts: seq<Font>): seq<FontRecord> {
    seq(|fonts|, i requires 0 <= i < |fonts| => RecordOf(fonts[i]))
  }

  lemma RegistryOfSnoc(fonts: seq<Font>, f: Font)
    ensures RegistryOf(fonts + [f]) == RegistryOf(fonts) + [RecordOf(f)]
  {
    var a, b := RegistryOf(fonts + [f]), RegistryOf(fonts) + [RecordOf(f)];
    forall i | 0 <= i < |a|
      ensures a[i] == b[i]
    {
      if i < |fonts| {
        assert (fonts + [f])[i] == fonts[i];
      }
    }
  }

  /** The flattened face list: every font's variants, in font order then variant order. */
  function Flatten(fonts: seq<Font>): seq<Variant>
    decreases |fonts|
  {
    if fonts == [] then [] else Flatten(fonts[..|fonts| - 1]) + fonts[|fonts| - 1].variants
  }

  /** A face belongs to the flattened list exactly when it is a variant of one of the fonts. */
  lemma {:induction false} FlattenMembers(fonts: seq<Font>, v: Variant)
    ensures v in Flatten(fonts) <==> exists i :: 0 <= i < |fonts| && v in fonts[i].variants
    decreases |fonts|
  {
    if fonts != [] {
      var init := fonts[..|fonts| - 1];
      FlattenMembers(init, v);
      if v in Flatten(init) {
        var i :| 0 <= i < |init| && v in init[i].variants;
        assert fonts[i] == init[i];
      }
      if exists i :: 0 <= i < |fonts| && v in fonts[i].variants {
        var i :| 0 <= i < |fonts| && v in fonts[i].variants;
        if i < |init| {
          assert init[i] == fonts[i];
        }
      }
    }
  }

  /** Flattening distributes over appending a font. */
  lemma FlattenAppend(fonts: seq<Font>, f: Font)
    ensures Flatten(fonts + [f]) == Flatten(fonts) + f.variants
  {
    assert (fonts + [f])[..|fonts|] == fonts;
  }

  /** `load` appends one font per Font element read. */
  lemma FontsOfSnoc(dir: Path, kind: RepoKind, records: seq<FontRecord>, rec: FontRecord)
    ensures FontsOf(dir, kind, records + [rec]) == FontsOf(dir, kind, records) + [FontOf(dir, kind, rec)]
  {
    var a, b := FontsOf(dir, kind, records + [rec]), FontsOf(dir, kind, records) + [FontOf(dir, kind, rec)];
    assert |a| == |b|;
    forall i | 0 <= i < |a|
      ensures a[i] == b[i]
    {
      if i < |records| {
        assert (records + [rec])[i] == records[i];
      }
    }
  }

  /** `load` appends one face to the current font per FontStyle element read. */
  lemma FontOfSnoc(dir: Path, kind: RepoKind, name: string, location: string, styles: seq<StyleRecord>, st: StyleRecord)
    ensures FontOf(dir, kind, FontRecord(name, location, styles + [st])).variants
         == FontOf(dir, kind, FontRecord(name, location, styles)).variants + [FaceOf(dir, kind, name, location, st)]
  {
    var a := FontOf(dir, kind, FontRecord(name, location, styles + [st])).variants;
    var b := FontOf(dir, kind, FontRecord(name, location, styles)).variants + [FaceOf(dir, kind, name, location, st)];
    assert |a| == |b|;
    forall j | 0 <= j < |a|
      ensures a[j] == b[j]
    {
      if j < |styles| {
        assert (styles + [st])[j] == styles[j];
      }
    }
  }

  /** A variant as a saved-and-reloaded repository holds it. */
  predicate PersistedVariant(dir: Path, kind: RepoKind, name: string, location: string, v: Variant) {
    v.name == name && v.href.Some? && v.kind == kind
    && v.filePath == Join(Join(dir, location), v.href.value)
  }

  /** A font with a non-empty location whose variants are all persisted under it. */
  predicate PersistedFont(dir: Path, kind: RepoKind, f: Font) {
    f.location.Some? && f.location.value != ""
    && forall j :: 0 <= j < |f.variants| ==> PersistedVariant(dir, kind, f.name, f.location.value, f.variants[j])
  }

  predicate Persisted(dir: Path, kind: RepoKind, fonts: seq<Font>) {
    forall i :: 0 <= i < |fonts| ==> PersistedFont(dir, kind, fonts[i])
  }

  /** Writing a persisted catalog to the registry and reading it back gives the same catalog. */
  lemma SaveLoadRoundTrip(dir: Path, kind: RepoKind, fonts: seq<Font>)
    requires Persisted(dir, kind, fonts)
    ensures FontsOf(dir, kind, RegistryOf(fonts)) == fonts
  {
    var back := FontsOf(dir, kind, RegistryOf(fonts));
    forall i | 0 <= i < |fonts|
      ensures back[i] == fonts[i]
    {
      var f := fonts[i];
      var g := FontOf(dir, kind, RecordOf(f));
      assert |g.variants| == |f.variants|;
      forall j | 0 <= j < |f.variants|
        ensures g.variants[j] == f.variants[j]
      {
        assert PersistedVariant(dir, kind, f.name, f.location.value, f.variants[j]);
      }
    }
  }

  /** Reading a registry and writing it back gives the same registry. */
  lemma LoadSaveRoundTrip(dir: Path, kind: RepoKind, records: seq<FontRecord>)
    ensures RegistryOf(FontsOf(dir, kind, records)) == records
  {
    var back := RegistryOf(FontsOf(dir, kind, records));
    forall i | 0 <= i < |records|
      ensures back[i] == records[i]
    {
      var r := records[i];
      assert |back[i].styles| == |r.styles|;
      forall j | 0 <= j < |r.styles|
        ensures back[i].styles[j] == r.styles[j]
      {
      }
    }
  }

  /** A loaded catalog is persisted when every Font element has a non-empty location. */
  lemma LoadedIsPersisted(dir: Path, kind: RepoKind, records: seq<FontRecord>)
    requires forall i :: 0 <= i < |records| ==> records[i].location != ""
    ensures Persisted(dir, kind, FontsOf(dir, kind, records))
  {
    var fonts := FontsOf(dir, kind, records);
    forall i | 0 <= i < |fonts|
      ensures PersistedFont(dir, kind, fonts[i])
    {
      assert fonts[i] == FontOf(dir, kind, records[i]);
    }
  }

  /** The file name `save` gives a copied variant (line 271). */
  function Href(location: string, weight: string, style: string, ext: string): string {
    location + "-" + weight + "-" + style + ext
  }

  /**
   * Two different taxonomy entries never get the same file name under one
   * location, whatever the extensions: a font's copied files do not overwrite
   * each other.
   */
  lemma HrefsDistinct(location: string, i: nat, j: nat, e1: string, e2: string)
    requires i < |SupportedVariants| && j < |SupportedVariants| && i != j
    ensures Href(location, SupportedVariants[i].weight, SupportedVariants[i].style, e1)
         != Href(location, SupportedVariants[j].weight, SupportedVariants[j].style, e2)
  {
    var a, b := SupportedVariants[i], SupportedVariants[j];
    var ha, hb := Href(location, a.weight, a.style, e1), Href(location, b.weight, b.style, e2);
    var n := |location| + 1;
    assert ha[n] == a.weight[0] && hb[n] == b.weight[0];
    if a.weight == b.weight {
      var m := n + |a.weight| + 1;
      assert ha[m] == a.style[0] && hb[m] == b.style[0];
    }
  }

  /** The data `installNewFont` passes on: a name and the source file of each variant. */
  datatype NewFontRequest = NewFontRequest(fontName: string, filePaths: map<VariantKey, Path>)

  /** `data[variantName + "FilePath"]` is present and not empty (line 187). */
  predicate Supplied(data: NewFontRequest, key: VariantKey) {
    key in data.filePaths && data.filePaths[key] != ""
  }

  /** The variant addFont builds for one taxonomy entry (lines 189-197). */
  function NewVariant(data: NewFontRequest, kind: RepoKind, spec: VariantSpec): Variant
    requires Supplied(data, spec.key)
  {
    Variant(data.fontName, spec.weight, spec.style, None, kind, data.filePaths[spec.key])
  }

  /** The variants addFont builds from the first n taxonomy entries. */
  function RequestedVariants(data: NewFontRequest, kind: RepoKind, n: nat): seq<Variant>
    requires n <= |SupportedVariants|
  {
    if n == 0 then []
    else
      var spec := SupportedVariants[n - 1];
      RequestedVariants(data, kind, n - 1)
        + (if Supplied(data, spec.key) then [NewVariant(data, kind, spec)] else [])
  }

  /** The font addFont appends (lines 179-198, 185-187). */
  function NewFontOf(data: NewFontRequest, kind: RepoKind): Font {
    Font(data.fontName, None, RequestedVariants(data, kind, |SupportedVariants|))
  }

  /** The position of a weight/style pair in the taxonomy (4 when it is not there). */
  function SpecIndex(weight: string, style: string): (k: nat)
    ensures k <= |SupportedVariants|
    ensures k < |SupportedVariants| ==> SupportedVariants[k].weight == weight && SupportedVariants[k].style == style
  {
    if weight == "normal" && style == "normal" then 0
    else if weight == "bold" && style == "normal" then 1
    else if weight == "normal" && style == "italic" then 2
    else if weight == "bold" && style == "italic" then 3
    else 4
  }

  /** Every taxonomy pair maps to its own entry, and only taxonomy pairs map below 4. */
  lemma SpecIndexOfEntry(weight: string, style: string)
    ensures SpecIndex(weight, style) < |SupportedVariants| <==>
      exists i :: 0 <= i < |SupportedVariants| && SupportedVariants[i].weight == weight && SupportedVariants[i].style == style
    ensures forall i :: (0 <= i < |SupportedVariants| && SupportedVariants[i].weight == weight
                         && SupportedVariants[i].style == style) ==> SpecIndex(weight, style) == i
  {
  }

  /** A variant addFont built for a supplied entry among the first n of the taxonomy. */
  predicate FromTaxonomy(data: NewFontRequest, kind: RepoKind, n: nat, v: Variant)
    requires n <= |SupportedVariants|
  {
    var k := SpecIndex(v.weight, v.style);
    k < n && Supplied(data, SupportedVariants[k].key) && v == NewVariant(data, kind, SupportedVariants[k])
  }

  /**
   * addFont builds one unsaved variant per supplied file, with that entry's
   * weight and style, in the order regular, bold, italic, boldItalic.
   */
  lemma {:induction false} RequestedVariantsShape(data: NewFontRequest, kind: RepoKind, n: nat)
    requires n <= |SupportedVariants|
    ensures forall v :: v in RequestedVariants(data, kind, n) ==> FromTaxonomy(data, kind, n, v)
    ensures var vs := RequestedVariants(data, kind, n);
      forall i, j :: 0 <= i < j < |vs| ==> SpecIndex(vs[i].weight, vs[i].style) < SpecIndex(vs[j].weight, vs[j].style)
    ensures var vs := RequestedVariants(data, kind, n);
      forall k :: 0 <= k < n && Supplied(data, SupportedVariants[k].key) ==>
        exists i :: 0 <= i < |vs| && SpecIndex(vs[i].weight, vs[i].style) == k
  {
    if n > 0 {
      RequestedVariantsShape(data, kind, n - 1);
      var prev := RequestedVariants(data, kind, n - 1);
      var spec := SupportedVariants[n - 1];
      assert SpecIndex(spec.weight, spec.style) == n - 1;
      var vs := RequestedVariants(data, kind, n);
      assert vs == prev + (if Supplied(data, spec.key) then [NewVariant(data, kind, spec)] else []);
      forall v | v in vs
        ensures FromTaxonomy(data, kind, n, v)
      {
        if v in prev {
          assert FromTaxonomy(data, kind, n - 1, v);
        } else {
          assert v == NewVariant(data, kind, spec);
        }
      }
      forall i, j | 0 <= i < j < |vs|
        ensures SpecIndex(vs[i].weight, vs[i].style) < SpecIndex(vs[j].weight, vs[j].style)
      {
        assert i < |prev|;
        assert vs[i] == prev[i];
        assert prev[i] in prev;
        assert FromTaxonomy(data, kind, n - 1, prev[i]);
        if j < |prev| {
          assert vs[j] == prev[j];
        } else {
          assert vs[j] == NewVariant(data, kind, spec);
        }
      }
      forall k | 0 <= k < n && Supplied(data, SupportedVariants[k].key)
        ensures exists i :: 0 <= i < |vs| && SpecIndex(vs[i].weight, vs[i].style) == k
      {
        if k < n - 1 {
          var i :| 0 <= i < |prev| && SpecIndex(prev[i].weight, prev[i].style) == k;
          assert vs[i] == prev[i];
        } else {
          assert vs[|prev|] == NewVariant(data, kind, spec);
        }
      }
    }
  }
  /** The faces whose name differs from the given one, in their order (the filter of lines 215-219). */
  function WithoutName(faces: seq<Variant>, name: string): (r: seq<Variant>)
    ensures |r| <= |faces|
    decreases |faces|
  {
    if faces == [] then []
    else
      var init := WithoutName(faces[..|faces| - 1], name);
      if faces[|faces| - 1].name == name then init else init + [faces[|faces| - 1]]
  }

  /** A face survives the filter exactly when it was there and has a different name. */
  lemma {:induction false} WithoutNameMembers(faces: seq<Variant>, name: string, v: Variant)
    ensures v in WithoutName(faces, name) <==> v in faces && v.name != name
    decreases |faces|
  {
    if faces != [] {
      var init := faces[..|faces| - 1];
      WithoutNameMembers(init, name, v);
      assert faces == init + [faces[|faces| - 1]];
    }
  }

  /** Filtering distributes over concatenation. */
  lemma {:induction false} WithoutNameAppend(a: seq<Variant>, b: seq<Variant>, name: string)
    ensures WithoutName(a + b, name) == WithoutName(a, name) + WithoutName(b, name)
    decreases |b|
  {
    if b == [] {
      assert a + b == a;
    } else {
      var initB := b[..|b| - 1];
      assert (a + b)[..|a + b| - 1] == a + initB;
      WithoutNameAppend(a, initB, name);
    }
  }

  /** A list with no face of that name passes the filter unchanged. */
  lemma {:induction false} WithoutNameAbsent(faces: seq<Variant>, name: string)
    requires forall i :: 0 <= i < |faces| ==> faces[i].name != name
    ensures WithoutName(faces, name) == faces
    decreases |faces|
  {
    if faces != [] {
      var init := faces[..|faces| - 1];
      WithoutNameAbsent(init, name);
      assert faces == init + [faces[|faces| - 1]];
    }
  }

  /** A list of faces all of that name is filtered away entirely. */
  lemma {:induction false} WithoutNameAll(faces: seq<Variant>, name: string)
    requires forall i :: 0 <= i < |faces| ==> faces[i].name == name
    ensures WithoutName(faces, name) == []
    decreases |faces|
  {
    if faces != [] {
      WithoutNameAll(faces[..|faces| - 1], name);
    }
  }
  /** Every face of every font carries that font's name, as `load` and `addFont` build them. */
  predicate NamedFaces(fonts: seq<Font>) {
    forall i, j :: 0 <= i < |fonts| && 0 <= j < |fonts[i].variants| ==> fonts[i].variants[j].name == fonts[i].name
  }

  /** Filtering the flattened faces by a name no font has changes nothing. */
  lemma {:induction false} WithoutNameUnused(fonts: seq<Font>, name: string)
    requires NamedFaces(fonts)
    requires !HasFont(fonts, name)
    ensures WithoutName(Flatten(fonts), name) == Flatten(fonts)
    decreases |fonts|
  {
    if fonts != [] {
      var n := |fonts| - 1;
      var init := fonts[..n];
      assert fonts == init + [fonts[n]];
      assert !HasFont(init, name) by {
        forall k | 0 <= k < n ensures init[k].name != name {
          assert init[k] == fonts[k];
        }
      }
      WithoutNameUnused(init, name);
      FlattenAppend(init, fonts[n]);
      WithoutNameAppend(Flatten(init), fonts[n].variants, name);
      WithoutNameAbsent(fonts[n].variants, name);
    }
  }

  /**
   * When font names are unique, dropping every face named after font i from
   * the flattened list leaves exactly the faces of the other fonts.
   */
  lemma {:induction false} WithoutNameRemoves(fonts: seq<Font>, i: nat)
    requires i < |fonts|
    requires NamedFaces(fonts)
    requires forall k :: 0 <= k < |fonts| && k != i ==> fonts[k].name != fonts[i].name
    ensures WithoutName(Flatten(fonts), fonts[i].name) == Flatten(fonts[..i] + fonts[i + 1..])
    decreases |fonts|
  {
    var name := fonts[i].name;
    var n := |fonts| - 1;
    var init := fonts[..n];
    assert Flatten(fonts) == Flatten(init) + fonts[n].variants;
    WithoutNameAppend(Flatten(init), fonts[n].variants, name);
    if i == n {
      assert fonts[..i] + fonts[i + 1..] == init;
      InitLacksName(fonts, name);
      WithoutNameUnused(init, name);
      WithoutNameAll(fonts[n].variants, name);
    } else {
      assert init[i] == fonts[i];
      WithoutNameRemoves(init, i);
      WithoutNameAbsent(fonts[n].variants, name);
      RemoveBeforeLast(fonts, i);
      FlattenAppend(init[..i] + init[i + 1..], fonts[n]);
    }
  }

  /** The fonts before the last one lack a name only the last one has. */
  lemma InitLacksName(fonts: seq<Font>, name: string)
    requires fonts != []
    requires forall k :: 0 <= k < |fonts| - 1 ==> fonts[k].name != name
    ensures !HasFont(fonts[..|fonts| - 1], name)
  {
  }

  /** Removing a font before the last one keeps the last one last. */
  lemma RemoveBeforeLast(fonts: seq<Font>, i: nat)
    requires i < |fonts| - 1
    ensures var init := fonts[..|fonts| - 1];
      fonts[..i] + fonts[i + 1..] == (init[..i] + init[i + 1..]) + [fonts[|fonts| - 1]]
  {
  }

  /** The catalog `load` builds has its faces named after their fonts. */
  lemma LoadedNamedFaces(dir: Path, kind: RepoKind, records: seq<FontRecord>)
    ensures NamedFaces(FontsOf(dir, kind, records))
  {
  }
}
