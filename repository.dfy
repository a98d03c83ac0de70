/**
 * Repository: FontRepository (FontLoader.js lines 108-289), a directory of
 * font files described by its registry.xml, and the in-memory catalog of
 * fonts and flattened faces it keeps.
 */
module Repository {
  import opened Paths
  import opened Slugs
  import opened Fonts
  import opened Storage
  import opened Placement
  import opened Seqs

  /** The catalog `load` builds from what it reads of the disk. */
  function LoadedFonts(dir: Path, kind: RepoKind, entries: set<Path>, registries: map<Path, RegistryFile>): seq<Font> {
    FontsOf(dir, kind, ReadRegistry(entries, registries, dir).0)
  }

  /** The paths that exist after `save`: the pass over the fonts, then the registry file. */
  function SavedEntries(dir: Path, taken: set<Path>, fonts: seq<Font>): set<Path> {
    PlaceAll(dir, taken + {dir}, fonts).1 + {RegistryPath(dir)}
  }

  /** The catalog without the font at index i (`splice(index, 1)`). */
  function RemoveAt(fonts: seq<Font>, i: nat): (r: seq<Font>)
    requires i < |fonts|
    ensures |r| == |fonts| - 1
    ensures forall j :: 0 <= j < i ==> r[j] == fonts[j]
    ensures forall j :: i <= j < |r| ==> r[j] == fonts[j + 1]
  {
    fonts[..i] + fonts[i + 1..]
  }

  /**
   * After `save`, reading the repository back gives exactly the saved
   * catalog, completely, provided the fonts that already had a location were
   * persisted and the new ones carry the repository's name and kind.
   */
  lemma ReloadAfterSave(dir: Path, kind: RepoKind, entries: set<Path>, registries: map<Path, RegistryFile>, fonts: seq<Font>)
    requires forall i :: 0 <= i < |fonts| && !IsCopy(fonts[i]) ==> PersistedFont(dir, kind, fonts[i])
    requires forall i :: 0 <= i < |fonts| && IsCopy(fonts[i]) ==> Owned(kind, fonts[i])
    ensures var placed := PlaceAll(dir, entries + {dir}, fonts).0;
      var written := registries[RegistryPath(dir) := Parsed(RegistryOf(placed))];
      ReadRegistry(SavedEntries(dir, entries, fonts), written, dir) == (RegistryOf(placed), true)
      && LoadedFonts(dir, kind, SavedEntries(dir, entries, fonts), written) == placed
  {
    PlaceAllPersists(dir, kind, entries + {dir}, fonts);
  }

  /**
   * Loading a registry whose fonts all have a location and saving it again
   * copies nothing, creates no path but the directory, and writes the same
   * Font elements back.
   */
  lemma LoadThenSaveIsStable(dir: Path, kind: RepoKind, entries: set<Path>, registries: map<Path, RegistryFile>, records: seq<FontRecord>)
    requires RegistryPath(dir) in entries && RegistryPath(dir) in registries
    requires registries[RegistryPath(dir)] == Parsed(records)
    requires forall i :: 0 <= i < |records| ==> records[i].location != ""
    ensures var fs := LoadedFonts(dir, kind, entries, registries);
      PlaceAll(dir, entries + {dir}, fs) == (fs, entries + {dir})
      && SavedEntries(dir, entries, fs) == entries + {dir}
      && RegistryOf(fs) == records
  {
    var fs := FontsOf(dir, kind, records);
    forall i | 0 <= i < |fs|
      ensures !IsCopy(fs[i])
    {
      assert fs[i].location == Some(records[i].location);
    }
    PlaceAllNoCopies(dir, entries + {dir}, fs);
    LoadSaveRoundTrip(dir, kind, records);
  }

  /** The font addFont builds carries the repository's name and kind on every variant. */
  lemma NewFontOwned(data: NewFontRequest, kind: RepoKind)
    ensures IsCopy(NewFontOf(data, kind)) && Owned(kind, NewFontOf(data, kind))
  {
    var f := NewFontOf(data, kind);
    RequestedVariantsShape(data, kind, |SupportedVariants|);
    forall j | 0 <= j < |f.variants|
      ensures f.variants[j].name == f.name && f.variants[j].kind == kind
    {
      assert f.variants[j] in f.variants;
    }
  }

  /**
   * What `addFont` appends: after the save the new font is last, the earlier
   * fonts are placed as a save of them alone would place them, and the new
   * font has its own fresh, non-empty directory with one persisted variant
   * per supplied file.
   */
  lemma AddedFont(dir: Path, kind: RepoKind, entries: set<Path>, fonts0: seq<Font>, data: NewFontRequest)
    ensures var placed := PlaceAll(dir, entries + {dir}, fonts0 + [NewFontOf(data, kind)]).0;
      var f := placed[|fonts0|];
      |placed| == |fonts0| + 1
      && placed[..|fonts0|] == PlaceAll(dir, entries + {dir}, fonts0).0
      && f.name == data.fontName
      && f.location.Some? && f.location.value != ""
      && Join(dir, f.location.value) !in entries
      && PersistedFont(dir, kind, f)
      && |f.variants| == |RequestedVariants(data, kind, |SupportedVariants|)|
  {
    var taken := entries + {dir};
    var nf := NewFontOf(data, kind);
    NewFontOwned(data, kind);
    var before := PlaceAll(dir, taken, fonts0);
    PlaceAllSnoc(dir, taken, fonts0, nf);
    var f := PlaceFont(dir, before.1, nf).0;
    var loc := f.location.value;
    assert Join(dir, loc) !in before.1;
    assert loc != "" by {
      assert Join(dir, "") == dir;
    }
    assert f.variants == RelocateAll(dir, loc, nf.variants);
    forall j | 0 <= j < |f.variants|
      ensures PersistedVariant(dir, kind, f.name, loc, f.variants[j])
    {
      assert f.variants[j] == Relocate(dir, loc, nf.variants[j]);
    }
  }

  /**
   * When the catalog was persisted before `addFont`, reading the repository
   * back after it gives the saved catalog, new font included.
   */
  lemma AddFontReloads(dir: Path, kind: RepoKind, entries: set<Path>, registries: map<Path, RegistryFile>,
                       fonts0: seq<Font>, data: NewFontRequest)
    requires Persisted(dir, kind, fonts0)
    ensures var all := fonts0 + [NewFontOf(data, kind)];
      var placed := PlaceAll(dir, entries + {dir}, all).0;
      LoadedFonts(dir, kind, SavedEntries(dir, entries, all), registries[RegistryPath(dir) := Parsed(RegistryOf(placed))]) == placed
      && HasFont(placed, data.fontName)
  {
    var all := fonts0 + [NewFontOf(data, kind)];
    NewFontOwned(data, kind);
    forall i | 0 <= i < |all|
      ensures !IsCopy(all[i]) ==> PersistedFont(dir, kind, all[i])
      ensures IsCopy(all[i]) ==> Owned(kind, all[i])
    {
      if i < |fonts0| {
        assert all[i] == fonts0[i];
      }
    }
    ReloadAfterSave(dir, kind, entries, registries, all);
    var placed := PlaceAll(dir, entries + {dir}, all).0;
    assert placed[|fonts0|].name == data.fontName;
  }

  /**
   * `removeFont` on a catalog of located fonts with unique names: the font
   * is gone, the save that follows moves nothing, and the filtered faces are
   * exactly the flattened faces of the remaining fonts.
   */
  lemma RemoveKeepsFacesInSync(dir: Path, taken: set<Path>, fonts0: seq<Font>, i: nat)
    requires i < |fonts0|
    requires NamedFaces(fonts0)
    requires forall k :: 0 <= k < |fonts0| ==> !IsCopy(fonts0[k])
    requires forall k :: 0 <= k < |fonts0| && k != i ==> fonts0[k].name != fonts0[i].name
    ensures var rest := RemoveAt(fonts0, i);
      PlaceAll(dir, taken, rest) == (rest, taken)
      && !HasFont(rest, fonts0[i].name)
      && WithoutName(Flatten(fonts0), fonts0[i].name) == Flatten(rest)
  {
    var rest := RemoveAt(fonts0, i);
    forall k | 0 <= k < |rest|
      ensures !IsCopy(rest[k]) && rest[k].name != fonts0[i].name
    {
      if k >= i {
        assert rest[k] == fonts0[k + 1];
      }
    }
    PlaceAllNoCopies(dir, taken, rest);
    WithoutNameRemoves(fonts0, i);
  }

  class FontRepository {
    const dirPath: Path
    const kind: RepoKind
    var fonts: seq<Font>
    var faces: seq<Variant>
    var loaded: bool

    /** `new FontRepository(dirPath, type)` (lines 108-114): an empty catalog, not loaded. */
    constructor (dirPath: Path, kind: RepoKind)
      ensures this.dirPath == dirPath && this.kind == kind
      ensures fonts == [] && faces == [] && !loaded
    {
      this.dirPath := dirPath;
      this.kind := kind;
      fonts := [];
      faces := [];
      loaded := false;
    }

    /** `getFont` (lines 119-123): the first font with exactly this name, if any. */
    function GetFont(name: string): (r: Option<Font>)
      reads this
      ensures r.None? <==> !HasFont(fonts, name)
      ensures r.Some? ==> exists i :: 0 <= i < |fonts| && fonts[i] == r.value
                           && fonts[i].name == name
                           && forall j :: 0 <= j < i ==> fonts[j].name != name
    {
      match FindFont(fonts, name)
      case None => None
      case Some(i) => Some(fonts[i])
    }

    /** The catalog the mutating operations start from: the current one, or a fresh load. */
    ghost function Working(entries: set<Path>, registries: map<Path, RegistryFile>): (seq<Font>, seq<Variant>)
      reads this
    {
      if loaded then (fonts, faces)
      else
        var fs := LoadedFonts(dirPath, kind, entries, registries);
        (fs, Flatten(fs))
    }

    /** `loaded` after `if (!this.loaded) this.load()`. */
    ghost predicate LoadedAfterLoad(entries: set<Path>, registries: map<Path, RegistryFile>)
      reads this
    {
      loaded || ReadRegistry(entries, registries, dirPath).1
    }

    /**
     * `load` (lines 124-170): empty the catalog, then push one font per Font
     * element and one face per FontStyle element, each face both onto its
     * font's variants and onto the flattened list. `loaded` is set only when
     * the whole registry was read; after a failure the fonts read so far stay.
     */
    method Load(disk: FileSystem)
      modifies this
      ensures var (records, complete) := ReadRegistry(disk.entries, disk.registries, dirPath);
        fonts == FontsOf(dirPath, kind, records) && loaded == (old(loaded) || complete)
      ensures faces == Flatten(fonts)
    {
      var registryPath := RegistryPath(dirPath);
      faces := [];
      fonts := [];
      if registryPath !in disk.entries {
        assert FontsOf(dirPath, kind, []) == [];
        loaded := true;
        return;
      }
      var (records, complete) := ReadRegistry(disk.entries, disk.registries, dirPath);
      var i := 0;
      while i < |records|
        invariant 0 <= i <= |records|
        invariant fonts == FontsOf(dirPath, kind, records[..i])
        invariant faces == Flatten(fonts)
        invariant loaded == old(loaded)
      {
        ghost var before := fonts;
        LoadFont(records[i]);
        FlattenAppend(before, FontOf(dirPath, kind, records[i]));
        TakeSnoc(records, i);
        FontsOfSnoc(dirPath, kind, records[..i], records[i]);
        i := i + 1;
      }
      assert records[..i] == records;
      if complete {
        loaded := true;
      }
    }

    /**
     * The callback `load` runs for one Font element (lines 137-163): push the
     * font, then push each FontStyle's face onto both its variants and the
     * flattened list.
     */
    method LoadFont(rec: FontRecord)
      modifies this
      ensures fonts == old(fonts) + [FontOf(dirPath, kind, rec)]
      ensures faces == old(faces) + FontOf(dirPath, kind, rec).variants
      ensures loaded == old(loaded)
    {
      fonts := fonts + [Font(rec.name, Some(rec.location), [])];
      assert FontOf(dirPath, kind, FontRecord(rec.name, rec.location, rec.styles[..0])).variants == [];
      var j := 0;
      while j < |rec.styles|
        invariant 0 <= j <= |rec.styles|
        invariant fonts == old(fonts) + [FontOf(dirPath, kind, FontRecord(rec.name, rec.location, rec.styles[..j]))]
        invariant faces == old(faces) + FontOf(dirPath, kind, FontRecord(rec.name, rec.location, rec.styles[..j])).variants
        invariant loaded == old(loaded)
      {
        var face := FaceOf(dirPath, kind, rec.name, rec.location, rec.styles[j]);
        var font := fonts[|fonts| - 1];
        fonts := fonts[|fonts| - 1 := font.(variants := font.variants + [face])];
        faces := faces + [face];
        TakeSnoc(rec.styles, j);
        FontOfSnoc(dirPath, kind, rec.name, rec.location, rec.styles[..j], rec.styles[j]);
        j := j + 1;
      }
      assert rec.styles[..j] == rec.styles;
    }

    /**
     * One iteration of save's font loop for a font to copy (lines 248-282):
     * pick its directory, create it, copy each variant's file there and
     * rewrite the variant; the disk gains exactly the placed paths.
     */
    method Place(disk: FileSystem, font: Font) returns (placed: Font)
      requires IsCopy(font)
      modifies disk
      ensures (placed, disk.entries) == PlaceFont(dirPath, old(disk.entries), font)
      ensures disk.registries == old(disk.registries)
    {
      var location := ChooseLocation(disk.entries, dirPath, Slug(font.name));
      var locationPath := Join(dirPath, location);
      disk.Create(locationPath);
      ghost var created := disk.entries;
      var variants: seq<Variant> := [];
      var j := 0;
      while j < |font.variants|
        invariant 0 <= j <= |font.variants|
        invariant variants == RelocateAll(dirPath, location, font.variants[..j])
        invariant disk.entries == created + FilePaths(variants)
        invariant disk.registries == old(disk.registries)
      {
        var v := font.variants[j];
        var href := Href(location, v.weight, v.style, Extname(v.filePath));
        var targetFile := Join(locationPath, href);
        disk.Create(targetFile);
        TakeSnoc(font.variants, j);
        RelocateAllSnoc(dirPath, location, font.variants[..j], v);
        FilePathsSnoc(variants, v.(href := Some(href), filePath := targetFile));
        variants := variants + [v.(href := Some(href), filePath := targetFile)];
        j := j + 1;
      }
      assert font.variants[..j] == font.variants;
      placed := font.(location := Some(location), variants := variants);
    }

    /**
     * The callback `save` runs for one font (lines 240-282), as far as the
     * catalog and the disk see it: a font without a location is placed,
     * any other is left as it is.
     */
    method SaveFont(disk: FileSystem, font: Font) returns (saved: Font)
      modifies disk
      ensures (saved, disk.entries) == PlaceFont(dirPath, old(disk.entries), font)
      ensures disk.registries == old(disk.registries)
    {
      saved := font;
      if IsCopy(font) {
        saved := Place(disk, font);
      }
    }

    /**
     * `save` (lines 229-289): create the repository directory if needed,
     * place every font that has no location yet, and write one Font element
     * per font to registry.xml.
     */
    method Save(disk: FileSystem)
      modifies this, disk
      ensures var placed := PlaceAll(dirPath, old(disk.entries) + {dirPath}, old(fonts));
        fonts == placed.0 && disk.entries == placed.1 + {RegistryPath(dirPath)}
      ensures disk.registries == old(disk.registries)[RegistryPath(dirPath) := Parsed(RegistryOf(fonts))]
      ensures faces == old(faces) && loaded == old(loaded)
    {
      if dirPath !in disk.entries {
        disk.Create(dirPath);
      }
      ghost var taken := disk.entries;
      assert taken == old(disk.entries) + {dirPath};
      ghost var original := fonts;
      ghost var done: seq<Font> := [];
      var records: seq<FontRecord> := [];
      var i := 0;
      while i < |fonts|
        invariant 0 <= i <= |fonts| == |original|
        invariant (done, disk.entries) == PlaceAll(dirPath, taken, original[..i])
        invariant fonts == done + original[i..]
        invariant records == RegistryOf(done)
        invariant disk.registries == old(disk.registries)
        invariant faces == old(faces) && loaded == old(loaded)
      {
        SpliceStep(done, original, i, original[i]);
        var font := SaveFont(disk, fonts[i]);
        SpliceStep(done, original, i, font);
        fonts := fonts[i := font];
        PlaceAllSnoc(dirPath, taken, original[..i], original[i]);
        TakeSnoc(original, i);
        RegistryOfSnoc(done, font);
        done := done + [font];
        records := records + [RecordOf(font)];
        i := i + 1;
      }
      assert original[..i] == original && original[i..] == [];
      assert fonts == PlaceAll(dirPath, taken, original).0;
      disk.WriteRegistry(RegistryPath(dirPath), records);
    }

    /**
     * `addFont` (lines 177-204): load if needed, build the new font from the
     * supplied files, append it and its variants, save, and mark the catalog
     * stale. The new font's faces are the objects save rewrites, so the
     * flattened list ends with its variants as saved.
     */
    method AddFont(data: NewFontRequest, disk: FileSystem)
      modifies this, disk
      ensures var (fonts0, faces0) := old(Working(disk.entries, disk.registries));
        var placed := PlaceAll(dirPath, old(disk.entries) + {dirPath}, fonts0 + [NewFontOf(data, kind)]);
        fonts == placed.0 && faces == faces0 + fonts[|fonts0|].variants
        && disk.entries == placed.1 + {RegistryPath(dirPath)}
      ensures disk.registries == old(disk.registries)[RegistryPath(dirPath) := Parsed(RegistryOf(fonts))]
      ensures !loaded
    {
      if !loaded {
        Load(disk);
      }
      var variants: seq<Variant> := [];
      var k := 0;
      while k < |SupportedVariants|
        invariant 0 <= k <= |SupportedVariants|
        invariant variants == RequestedVariants(data, kind, k)
      {
        var spec := SupportedVariants[k];
        if spec.key in data.filePaths && data.filePaths[spec.key] != "" {
          variants := variants + [Variant(data.fontName, spec.weight, spec.style, None, kind, data.filePaths[spec.key])];
        }
        k := k + 1;
      }
      var font := Font(data.fontName, None, variants);
      fonts := fonts + [font];
      var earlier := faces;
      faces := faces + font.variants;
      Save(disk);
      faces := earlier + fonts[|fonts| - 1].variants;
      loaded := false;
    }

    /**
     * `removeFont` (lines 205-228): load if needed; when a font of that name
     * exists, drop the first one and every face of that name, delete the
     * font's directory, save and mark the catalog stale. A font whose
     * location is null makes `path.join` throw after the catalog was
     * trimmed: nothing is deleted or saved, and `thrown` is set.
     */
    method RemoveFont(name: string, disk: FileSystem) returns (thrown: bool)
      modifies this, disk
      ensures var (fonts0, faces0) := old(Working(disk.entries, disk.registries));
        match FindFont(fonts0, name)
        case None =>
          fonts == fonts0 && faces == faces0 && !thrown
          && loaded == old(LoadedAfterLoad(disk.entries, disk.registries))
          && disk.entries == old(disk.entries) && disk.registries == old(disk.registries)
        case Some(i) =>
          var rest := RemoveAt(fonts0, i);
          faces == WithoutName(faces0, name)
          && match fonts0[i].location
             case None =>
               fonts == rest && thrown
               && loaded == old(LoadedAfterLoad(disk.entries, disk.registries))
               && disk.entries == old(disk.entries) && disk.registries == old(disk.registries)
             case Some(l) =>
               var root := Join(dirPath, l);
               var pruned := Pruned(old(disk.entries), root);
               fonts == PlaceAll(dirPath, pruned + {dirPath}, rest).0 && !thrown && !loaded
               && disk.entries == SavedEntries(dirPath, pruned, rest)
               && disk.registries == PrunedRegistries(old(disk.registries), root)[RegistryPath(dirPath) := Parsed(RegistryOf(fonts))]
    {
      if !loaded {
        Load(disk);
      }
      thrown := false;
      var found := FindFont(fonts, name);
      if found.None? {
        return;
      }
      var index := found.value;
      var font := fonts[index];
      fonts := RemoveAt(fonts, index);
      var newFaces: seq<Variant> := [];
      var i := 0;
      while i < |faces|
        invariant 0 <= i <= |faces|
        invariant newFaces == WithoutName(faces[..i], font.name)
      {
        assert faces[..i + 1][..i] == faces[..i];
        if faces[i].name != font.name {
          newFaces := newFaces + [faces[i]];
        }
        i := i + 1;
      }
      assert faces[..i] == faces;
      faces := newFaces;
      if font.location.None? {
        thrown := true;
        return;
      }
      disk.DeleteTree(Join(dirPath, font.location.value));
      Save(disk);
      loaded := false;
    }
  }
}
