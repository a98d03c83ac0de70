/**
 * Loader: FontLoader (FontLoader.js lines 1-97), which holds the user
 * repository and the optional document repository, registers their faces
 * with the page, and embeds user fonts into the document repository.
 */
module Loader {
  import opened Paths
  import opened Fonts
  import opened Storage
  import opened Placement
  import opened Repository
  import opened Environment
  import opened Seqs

  /** The value copy embedding makes of a user font (lines 87-88): same name and variants, no location. */
  function Detach(f: Font): Font {
    f.(location := None)
  }

  /**
   * The catalog and the `shouldSave` flag after the forEach of lines 81-94
   * has gone through the names, starting from the document catalog: a name
   * the document catalog already has, or the user catalog lacks, is skipped;
   * any other appends a detached copy of the user's first font of that name.
   */
  function Embed(doc: seq<Font>, user: seq<Font>, names: seq<string>): (r: (seq<Font>, bool))
    decreases |names|
  {
    if names == [] then (doc, false)
    else
      var n := |names| - 1;
      var prev := Embed(doc, user, names[..n]);
      if HasFont(prev.0, names[n]) then prev
      else match FindFont(user, names[n])
        case None => prev
        case Some(i) => (prev.0 + [Detach(user[i])], true)
  }

  lemma HasFontSnoc(fonts: seq<Font>, f: Font, name: string)
    ensures HasFont(fonts + [f], name) <==> HasFont(fonts, name) || f.name == name
  {
    if HasFont(fonts, name) {
      var i :| 0 <= i < |fonts| && fonts[i].name == name;
      assert (fonts + [f])[i] == fonts[i];
    }
    if f.name == name {
      assert (fonts + [f])[|fonts|] == f;
    }
    if HasFont(fonts + [f], name) && f.name != name {
      var i :| 0 <= i < |fonts + [f]| && (fonts + [f])[i].name == name;
      assert fonts[i] == (fonts + [f])[i];
    }
  }

  /**
   * Embedding only appends to the document catalog, and `shouldSave` is set
   * exactly when something was appended.
   */
  lemma {:induction false} EmbedExtends(doc: seq<Font>, user: seq<Font>, names: seq<string>)
    ensures var r := Embed(doc, user, names);
      |doc| <= |r.0| && r.0[..|doc|] == doc && (r.1 <==> |doc| < |r.0|)
    decreases |names|
  {
    if names != [] {
      var n := |names| - 1;
      EmbedExtends(doc, user, names[..n]);
      var prev := Embed(doc, user, names[..n]).0;
      forall x: Font ensures (prev + [x])[..|doc|] == doc {
        assert (prev + [x])[..|doc|] == prev[..|doc|];
      }
    }
  }

  /**
   * A font is in the document catalog after embedding exactly when it was
   * there before, or its name was asked for and the user catalog has it.
   */
  lemma {:induction false} EmbedHasFont(doc: seq<Font>, user: seq<Font>, names: seq<string>, name: string)
    ensures HasFont(Embed(doc, user, names).0, name) <==> HasFont(doc, name) || (name in names && HasFont(user, name))
    decreases |names|
  {
    if names != [] {
      var n := |names| - 1;
      var prev := Embed(doc, user, names[..n]);
      EmbedHasFont(doc, user, names[..n], name);
      assert names == names[..n] + [names[n]];
      assert name in names <==> name in names[..n] || name == names[n];
      if !HasFont(prev.0, names[n]) {
        match FindFont(user, names[n])
        case None =>
        case Some(i) =>
          HasFontSnoc(prev.0, Detach(user[i]), name);
      } else if name == names[n] {
        EmbedHasFont(doc, user, names[..n], names[n]);
      }
    }
  }

  /** A font embedding appends is a detached copy of the user's first font of a requested name. */
  predicate EmbeddedCopy(user: seq<Font>, names: seq<string>, f: Font) {
    f.name in names && FindFont(user, f.name).Some? && f == Detach(user[FindFont(user, f.name).value])
  }

  /**
   * Every appended font is a detached copy of a requested user font, and its
   * name is new: no font before it, the original document fonts included,
   * has that name. Embedding a name twice therefore yields one entry.
   */
  lemma {:induction false} EmbedAppended(doc: seq<Font>, user: seq<Font>, names: seq<string>)
    ensures var r := Embed(doc, user, names).0;
      (forall k :: |doc| <= k < |r| ==> EmbeddedCopy(user, names, r[k]))
      && (forall k, l :: 0 <= k < l < |r| && |doc| <= l ==> r[k].name != r[l].name)
    decreases |names|
  {
    EmbedExtends(doc, user, names);
    if names != [] {
      var n := |names| - 1;
      var prev := Embed(doc, user, names[..n]).0;
      EmbedAppended(doc, user, names[..n]);
      EmbedExtends(doc, user, names[..n]);
      assert names == names[..n] + [names[n]];
      forall k | |doc| <= k < |prev|
        ensures EmbeddedCopy(user, names, prev[k])
      {
        assert prev[k].name in names[..n];
      }
      if !HasFont(prev, names[n]) {
        match FindFont(user, names[n])
        case None =>
        case Some(i) =>
          var r := prev + [Detach(user[i])];
          forall k | |doc| <= k < |r|
            ensures EmbeddedCopy(user, names, r[k])
          {
            if k < |prev| {
              assert r[k] == prev[k];
            }
          }
          forall k, l | 0 <= k < l < |r| && |doc| <= l
            ensures r[k].name != r[l].name
          {
            assert r[k] == prev[k];
            if l < |prev| {
              assert r[l] == prev[l];
            }
          }
      }
    }
  }

  /** When every requested name is in the document catalog or missing from the user catalog, nothing happens. */
  lemma {:induction false} EmbedNothingNew(doc: seq<Font>, user: seq<Font>, names: seq<string>)
    requires forall name :: name in names ==> HasFont(doc, name) || !HasFont(user, name)
    ensures Embed(doc, user, names) == (doc, false)
    decreases |names|
  {
    if names != [] {
      var n := |names| - 1;
      assert forall name :: name in names[..n] ==> name in names;
      EmbedNothingNew(doc, user, names[..n]);
      assert names[n] in names;
    }
  }

  /** Embedding the same names again changes nothing and does not save. */
  lemma EmbedIdempotent(doc: seq<Font>, user: seq<Font>, names: seq<string>)
    ensures var r := Embed(doc, user, names).0;
      Embed(r, user, names) == (r, false)
  {
    var r := Embed(doc, user, names).0;
    forall name | name in names
      ensures HasFont(r, name) || !HasFont(user, name)
    {
      EmbedHasFont(doc, user, names, name);
    }
    EmbedNothingNew(r, user, names);
  }

  /** Every variant of font i is among the flattened faces, and so among any list that starts with them. */
  lemma NewFacesListed(fonts: seq<Font>, i: nat, all: seq<Variant>, rest: seq<Variant>)
    requires i < |fonts| && all == Flatten(fonts) + rest
    ensures forall v :: v in fonts[i].variants ==> v in all
  {
    forall v | v in fonts[i].variants
      ensures v in all
    {
      FlattenMembers(fonts, v);
    }
  }

  class FontLoader {
    const disk: FileSystem
    const env: FontEnvironment
    const userRepo: FontRepository
    var documentRepo: FontRepository?

    /** The two repositories are distinct objects, of the user kind and the document kind. */
    ghost predicate Valid()
      reads this
    {
      documentRepo != userRepo && userRepo.kind == User
      && (documentRepo != null ==> documentRepo.kind == Document)
    }

    /**
     * `new FontLoader()` (lines 1-4): a user repository at the user's font
     * directory and no document repository.
     */
    constructor (userDir: Path, disk: FileSystem, env: FontEnvironment)
      ensures this.disk == disk && this.env == env && documentRepo == null && Valid()
      ensures fresh(userRepo) && userRepo.dirPath == userDir && userRepo.kind == User
      ensures userRepo.fonts == [] && userRepo.faces == [] && !userRepo.loaded
    {
      this.disk := disk;
      this.env := env;
      userRepo := new FontRepository(userDir, User);
      documentRepo := null;
    }

    /**
     * `setDocumentRepoDir` (lines 5-11): a fresh document repository for a
     * present, non-empty directory; none otherwise.
     */
    method SetDocumentRepoDir(dirPath: Option<Path>)
      requires Valid()
      modifies this
      ensures Valid()
      ensures dirPath.Some? && dirPath.value != "" ==>
        documentRepo != null && fresh(documentRepo)
        && documentRepo.dirPath == dirPath.value && documentRepo.kind == Document
        && documentRepo.fonts == [] && documentRepo.faces == [] && !documentRepo.loaded
      ensures !(dirPath.Some? && dirPath.value != "") ==> documentRepo == null
    {
      if dirPath.Some? && dirPath.value != "" {
        documentRepo := new FontRepository(dirPath.value, Document);
      } else {
        documentRepo := null;
      }
    }

    /**
     * `loadFonts` (lines 12-53) up to its first step: load both
     * repositories, list the user faces then the document faces, take every
     * tagged face off the page, and start registering the list.
     */
    method LoadFonts(hasCallback: bool) returns (run: FontLoadRun)
      requires Valid()
      modifies userRepo, documentRepo, env
      ensures Valid() && documentRepo == old(documentRepo)
      ensures userRepo.fonts == LoadedFonts(userRepo.dirPath, userRepo.kind, disk.entries, disk.registries)
      ensures userRepo.faces == Flatten(userRepo.fonts)
      ensures userRepo.loaded == (old(userRepo.loaded) || ReadRegistry(disk.entries, disk.registries, userRepo.dirPath).1)
      ensures documentRepo != null ==>
        documentRepo.fonts == LoadedFonts(documentRepo.dirPath, documentRepo.kind, disk.entries, disk.registries)
        && documentRepo.faces == Flatten(documentRepo.fonts)
        && documentRepo.loaded == (old(documentRepo.loaded) || ReadRegistry(disk.entries, disk.registries, documentRepo.dirPath).1)
      ensures fresh(run) && run.env == env && run.hasCallback == hasCallback
      ensures run.faces == userRepo.faces + (if documentRepo != null then documentRepo.faces else [])
      ensures run.base == Untagged(old(env.active))
      ensures run.Valid() && run.index == 0 && (run.stage == Done <==> run.faces == [])
    {
      userRepo.Load(disk);
      if documentRepo != null {
        documentRepo.Load(disk);
      }
      var allFaces := userRepo.faces;
      if documentRepo != null {
        allFaces := allFaces + documentRepo.faces;
      }
      env.RemoveTagged();
      run := new FontLoadRun(allFaces, env, hasCallback);
      run.Next();
    }

    /** `isFontExisting` (lines 54-56): the user's first font of that name, if any. */
    function IsFontExisting(name: string): (r: Option<Font>)
      reads this, userRepo
      ensures r.Some? <==> HasFont(userRepo.fonts, name)
      ensures r.Some? ==> r.value.name == name && r.value in userRepo.fonts
    {
      userRepo.GetFont(name)
    }

    /** `getUserFonts` (lines 71-73): the user catalog as it stands, which agrees with isFontExisting. */
    function UserFonts(): (r: seq<Font>)
      reads this, userRepo
      ensures forall name :: HasFont(r, name) <==> IsFontExisting(name).Some?
    {
      userRepo.fonts
    }

    /**
     * `installNewFont` (lines 57-60): add the font to the user repository,
     * then reload and register without a callback. When the user catalog was
     * persisted, the reloaded catalog is the saved one and has the new font.
     */
    method InstallNewFont(data: NewFontRequest) returns (run: FontLoadRun)
      requires Valid()
      modifies userRepo, documentRepo, env, disk
      ensures Valid() && documentRepo == old(documentRepo)
      ensures var (fonts0, _) := old(userRepo.Working(disk.entries, disk.registries));
        var dir := userRepo.dirPath;
        var placed := PlaceAll(dir, old(disk.entries) + {dir}, fonts0 + [NewFontOf(data, User)]).0;
        disk.entries == SavedEntries(dir, old(disk.entries), fonts0 + [NewFontOf(data, User)])
        && disk.registries == old(disk.registries)[RegistryPath(dir) := Parsed(RegistryOf(placed))]
        && userRepo.fonts == LoadedFonts(dir, User, disk.entries, disk.registries)
        && (Persisted(dir, User, fonts0) ==> userRepo.fonts == placed && HasFont(userRepo.fonts, data.fontName))
        && (Persisted(dir, User, fonts0) ==>
              forall v :: v in placed[|fonts0|].variants ==> v in run.faces)
      ensures userRepo.faces == Flatten(userRepo.fonts)
      ensures documentRepo != null ==>
        documentRepo.fonts == LoadedFonts(documentRepo.dirPath, documentRepo.kind, disk.entries, disk.registries)
        && documentRepo.faces == Flatten(documentRepo.fonts)
      ensures fresh(run) && run.env == env && !run.hasCallback
      ensures run.faces == userRepo.faces + (if documentRepo != null then documentRepo.faces else [])
      ensures run.base == Untagged(old(env.active))
      ensures run.Valid() && run.index == 0 && (run.stage == Done <==> run.faces == [])
    {
      ghost var fonts0 := userRepo.Working(disk.entries, disk.registries).0;
      ghost var entries0 := disk.entries;
      ghost var registries0 := disk.registries;
      userRepo.AddFont(data, disk);
      run := LoadFonts(false);
      if Persisted(userRepo.dirPath, User, fonts0) {
        AddFontReloads(userRepo.dirPath, User, entries0, registries0, fonts0, data);
        NewFacesListed(userRepo.fonts, |fonts0|, run.faces, if documentRepo != null then documentRepo.faces else []);
      }
    }

    /**
     * `removeFont` (lines 61-70): nothing unless the user confirms; then
     * remove the font from the user repository and reload with a callback.
     * When the removal throws (a font without a location), the reload never
     * happens and no run starts.
     */
    method RemoveFont(name: string, confirmed: bool) returns (run: FontLoadRun?)
      requires Valid()
      modifies userRepo, documentRepo, env, disk
      ensures Valid() && documentRepo == old(documentRepo)
      ensures !confirmed ==>
        run == null && unchanged(userRepo, env, disk)
        && (documentRepo != null ==> unchanged(documentRepo))
      ensures confirmed ==>
        var fonts0 := old(userRepo.Working(disk.entries, disk.registries)).0;
        (run == null <==> (FindFont(fonts0, name).Some? && fonts0[FindFont(fonts0, name).value].location.None?))
      ensures run != null ==>
        fresh(run) && run.env == env && run.hasCallback
        && userRepo.fonts == LoadedFonts(userRepo.dirPath, User, disk.entries, disk.registries)
        && userRepo.faces == Flatten(userRepo.fonts)
        && (documentRepo != null ==>
              documentRepo.fonts == LoadedFonts(documentRepo.dirPath, documentRepo.kind, disk.entries, disk.registries)
              && documentRepo.faces == Flatten(documentRepo.fonts))
        && run.faces == userRepo.faces + (if documentRepo != null then documentRepo.faces else [])
        && run.base == Untagged(old(env.active))
        && run.Valid() && run.index == 0 && (run.stage == Done <==> run.faces == [])
      ensures run == null ==> env.active == old(env.active)
    {
      run := null;
      if !confirmed {
        return;
      }
      var thrown := userRepo.RemoveFont(name, disk);
      if thrown {
        return;
      }
      run := LoadFonts(true);
    }

    /**
     * `embedToDocumentRepo` (lines 74-97): create the document repository in
     * the document's temporary directory if there is none, append a detached
     * copy of each requested user font the document lacks, and save when
     * something was appended. The faces list is not extended: line 92
     * concatenates and discards the result.
     */
    method EmbedToDocumentRepo(names: seq<string>, tempDir: Path)
      requires Valid()
      modifies this, documentRepo, disk
      ensures Valid() && documentRepo != null
      ensures old(documentRepo) != null ==>
        (documentRepo == old(documentRepo)
         && documentRepo.faces == old(documentRepo.faces) && documentRepo.loaded == old(documentRepo.loaded))
      ensures old(documentRepo) == null ==>
        (fresh(documentRepo)
         && documentRepo.dirPath == Join(tempDir, "fonts") && documentRepo.kind == Document
         && documentRepo.faces == [] && !documentRepo.loaded)
      ensures var e := Embed(if old(documentRepo) == null then [] else old(documentRepo.fonts), userRepo.fonts, names);
        var dir := documentRepo.dirPath;
        if e.1 then
          documentRepo.fonts == PlaceAll(dir, old(disk.entries) + {dir}, e.0).0
          && disk.entries == SavedEntries(dir, old(disk.entries), e.0)
          && disk.registries == old(disk.registries)[RegistryPath(dir) := Parsed(RegistryOf(documentRepo.fonts))]
        else
          documentRepo.fonts == e.0 && disk.entries == old(disk.entries) && disk.registries == old(disk.registries)
    {
      if documentRepo == null {
        documentRepo := new FontRepository(Join(tempDir, "fonts"), Document);
      }
      var repo := documentRepo;
      ghost var start := repo.fonts;
      var shouldSave := false;
      var i := 0;
      while i < |names|
        invariant 0 <= i <= |names|
        invariant documentRepo == repo && repo != userRepo
        invariant (repo.fonts, shouldSave) == Embed(start, userRepo.fonts, names[..i])
        invariant old(documentRepo) != null ==> repo.faces == old(documentRepo.faces) && repo.loaded == old(documentRepo.loaded)
        invariant old(documentRepo) == null ==> repo.faces == [] && !repo.loaded
        invariant disk.entries == old(disk.entries) && disk.registries == old(disk.registries)
      {
        var name := names[i];
        TakeSnoc(names, i);
        if repo.GetFont(name).None? {
          var found := userRepo.GetFont(name);
          if found.Some? {
            repo.fonts := repo.fonts + [Detach(found.value)];
            shouldSave := true;
          }
        }
        i := i + 1;
      }
      assert names[..i] == names;
      if shouldSave {
        repo.Save(disk);
      }
    }
  }
}
