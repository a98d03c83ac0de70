# Font catalog of the Pencil editor, modelled in Dafny

Pencil keeps the fonts a user installs in a **font repository**: a directory
with one sub-directory per font and a `registry.xml` that lists every font
(name, location) and its style variants (weight, style, href). A second,
optional repository lives inside the document being edited, so that a
document can carry the fonts it uses. `FontRepository` loads, extends,
shrinks and saves one such catalog; `FontLoader` holds the user repository
and the document repository, registers their faces with the page's font set,
and copies user fonts into the document repository.

This project models both, from `app/pencil-core/common/FontLoader.js`:

- `paths.dfy` (module `Paths`): `path.join` and `path.extname` on plain strings.
- `slugs.dfy` (module `Slugs`): the directory name a new font gets (its
  *slug*: runs of spaces become one hyphen, then everything but letters,
  digits and `-` is dropped) and the candidates the collision loop tries
  after it (`slug`, `slug_1`, `slug_1_2`, ...: each retry appends to the
  previous candidate).
- `fonts.dfy` (module `Fonts`): fonts and variants as values, the fixed
  variant taxonomy, the parsed registry, the conversions between registry
  and catalog, the variants `addFont` builds, and the face filter of
  `removeFont`.
- `storage.dfy` (module `Storage`): the disk as a set of existing paths plus
  the parsed content of each registry file (`FileSystem`, a class whose
  methods create paths, write a registry and delete a tree).
- `placement.dfy` (module `Placement`): one `save` pass as functions, and the
  collision loop `ChooseLocation` proved against them; which fonts get a
  directory, which directory, and what their variants become.
- `seqs.dfy` (module `Seqs`): two sequence facts the loops use.
- `repository.dfy` (module `Repository`): the class `FontRepository` with
  `getFont`, `load`, `save`, `addFont` and `removeFont` as methods over its
  `fonts`, `faces` and `loaded` fields, and lemmas relating them (reloading
  after a save, saving right after a load, what `addFont` appends, what
  `removeFont` leaves).
- `environment.dfy` (module `Environment`): the page's font set
  (`document.fonts`) as a class, and one run of the registration sequence
  of `loadFonts` as a state machine (`FontLoadRun`) whose continuations are
  methods.
- `loader.dfy` (module `Loader`): the class `FontLoader`, and the function
  `Embed` that specifies the loop of `embedToDocumentRepo`.

Behaviours of the code that the model keeps as written:

- `save` gives a directory to every font whose location is null **or
  empty** (`!font.location`), and the collision loop appends `"_" + index`
  to the previous candidate, so the third candidate is `slug_1_2`.
- `load` sets `loaded` only when the whole registry was read; after a parse
  failure the fonts read so far stay in the catalog and `loaded` keeps its
  old value.
- `removeFont` drops only the first font of the name but every face of that
  name; for a font whose location is null, `path.join` throws after the
  catalog was trimmed, so nothing is deleted or saved and `loadFonts` is not
  reached. A font whose location is the empty string makes it delete the
  whole repository directory.
- `addFont` leaves the variants of the new font shared between `fonts` and
  `faces`, so the flattened list ends with those variants as `save` rewrote
  them.
- `embedToDocumentRepo` appends copies to the document catalog but leaves
  its `faces` untouched: line 92 concatenates and discards the result. The
  copies keep the user repository's provenance tag on their variants.

## Model

| member | source | states |
|---|---|---|
| Paths.Join | app/pencil-core/common/FontLoader.js:151 | joining with an empty segment gives the other segment; otherwise the two are separated by one `/` |
| Paths.JoinInjective | app/pencil-core/common/FontLoader.js:253-259 | under one directory, different location names give different paths |
| Paths.TrimSlashes | app/pencil-core/common/FontLoader.js:271 | `path.extname` ignores trailing separators: the path cut back to its last non-separator character |
| Paths.BaseName | app/pencil-core/common/FontLoader.js:271 | the base name `path.extname` inspects holds no separator |
| Paths.BaseExtname | app/pencil-core/common/FontLoader.js:271 | the extension of a base name is empty or a `.` with no further `.`, a proper suffix of the name, and never taken from ".." |
| Paths.Extname | app/pencil-core/common/FontLoader.js:271 | the extension is empty or a `.` followed by no `/` and no further `.`; it is a proper suffix of the base name (trailing separators ignored), which is not ".." |
| Paths.ExtnameTrailingSlash | app/pencil-core/common/FontLoader.js:271 | a trailing separator does not change the extension |
| Paths.ExtnameParent | app/pencil-core/common/FontLoader.js:271 | for every directory, the path dir/.. has no extension |
| Slugs.HyphenateSpaces | app/pencil-core/common/FontLoader.js:250 | after the first replace no space is left and the name did not grow |
| Slugs.StripDisallowed | app/pencil-core/common/FontLoader.js:250 | the second replace keeps exactly the letters, digits and hyphens, and leaves a string of only those unchanged |
| Slugs.Slug | app/pencil-core/common/FontLoader.js:250 | a slug holds only letters, digits and hyphens and is no longer than the name |
| Slugs.SlugOfSlugChars | app/pencil-core/common/FontLoader.js:250 | a name made only of allowed characters is its own slug |
| Slugs.SlugIdempotent | app/pencil-core/common/FontLoader.js:250 | slugging a slug changes nothing |
| Slugs.HyphenateConcat | app/pencil-core/common/FontLoader.js:250 | the space replace works piecewise when no run of spaces spans the join |
| Slugs.SpaceRunBecomesOneHyphen | app/pencil-core/common/FontLoader.js:250 | a whole run of spaces between two words becomes exactly one hyphen |
| Slugs.StripConcat | app/pencil-core/common/FontLoader.js:250 | the character filter works piecewise |
| Slugs.StripJunk | app/pencil-core/common/FontLoader.js:250 | text of only disallowed non-space characters vanishes |
| Slugs.SlugOfTwoWords | app/pencil-core/common/FontLoader.js:250 | two allowed words separated by spaces and followed by junk slug to the words joined by one hyphen ("My Font!" gives "My-Font") |
| Slugs.Digits | app/pencil-core/common/FontLoader.js:255 | the decimal text of the retry index is non-empty and made of digits |
| Slugs.DigitsValue | app/pencil-core/common/FontLoader.js:255 | reading the retry index's text back as a decimal numeral gives the index |
| Slugs.Candidate | app/pencil-core/common/FontLoader.js:252-256 | the k-th candidate is at least 2k characters longer than the slug |
| Slugs.CandidateChars | app/pencil-core/common/FontLoader.js:252-256 | every candidate starts with the slug and adds only underscores and digits |
| Slugs.CandidatesDistinct | app/pencil-core/common/FontLoader.js:252-256 | later candidates are strictly longer, so no candidate repeats |
| Slugs.ThirdCandidate | app/pencil-core/common/FontLoader.js:252-256 | the candidates of "My-Font" are "My-Font", "My-Font_1", "My-Font_1_2" |
| Fonts.FindFont | app/pencil-core/common/FontLoader.js:119-123 | the index found holds a font of that name and no earlier font has it; none is found exactly when no font has the name |
| Fonts.SpecIndex | app/pencil-core/common/FontLoader.js:171-176 | an index below 4 names the taxonomy entry that has this weight and style |
| Fonts.SpecIndexOfEntry | app/pencil-core/common/FontLoader.js:171-176 | a pair gets an index below 4 exactly when the taxonomy has it, and then the index of its own entry |
| Fonts.FlattenMembers | app/pencil-core/common/FontLoader.js:145-162 | a face is in the flattened list exactly when it is a variant of some font |
| Fonts.FlattenAppend | app/pencil-core/common/FontLoader.js:200-201 | appending a font appends its variants to the flattened list |
| Fonts.SaveLoadRoundTrip | app/pencil-core/common/FontLoader.js:240-281 | writing a persisted catalog to the registry and loading it back gives the same catalog |
| Fonts.LoadSaveRoundTrip | app/pencil-core/common/FontLoader.js:137-163 | loading a registry and writing it back gives the same Font and FontStyle elements |
| Fonts.LoadedIsPersisted | app/pencil-core/common/FontLoader.js:151-159 | every loaded face has the repository's kind, its href, and the file path dir/location/href |
| Fonts.HrefsDistinct | app/pencil-core/common/FontLoader.js:271 | two taxonomy entries never get the same file name under one location, whatever the extensions |
| Fonts.RequestedVariantsShape | app/pencil-core/common/FontLoader.js:185-198 | addFont builds one unsaved variant of the repository's kind per supplied file, with that entry's weight and style, in taxonomy order, and one for every supplied entry |
| Fonts.WithoutNameMembers | app/pencil-core/common/FontLoader.js:216-220 | a face survives the filter exactly when it was there and has another name |
| Fonts.WithoutNameAppend | app/pencil-core/common/FontLoader.js:216-220 | the filter keeps the order: filtering a concatenation concatenates the filtered parts |
| Fonts.WithoutNameAbsent | app/pencil-core/common/FontLoader.js:216-220 | faces of other names pass the filter unchanged |
| Fonts.WithoutNameAll | app/pencil-core/common/FontLoader.js:216-220 | faces all of that name are removed |
| Fonts.WithoutNameUnused | app/pencil-core/common/FontLoader.js:216-220 | filtering the flattened faces by a name no font has changes nothing |
| Fonts.WithoutNameRemoves | app/pencil-core/common/FontLoader.js:214-221 | with unique names, the filtered faces are exactly the flattened faces of the catalog without that font |
| Fonts.LoadedNamedFaces | app/pencil-core/common/FontLoader.js:153-154 | every loaded face carries its font's name |
| Storage.Pruned | app/pencil-core/common/FontLoader.js:223-224 | a recursive delete removes the root and what lies below it and keeps every other path |
| Storage.PrunedRegistries | app/pencil-core/common/FontLoader.js:223-224 | a recursive delete keeps exactly the registries outside the root |
| Storage.ReadRegistry | app/pencil-core/common/FontLoader.js:125-134 | a missing registry is an empty, complete read; an unparsable one an incomplete read; a complete read of an existing registry gives its Font elements |
| Storage.FileSystem.Create | app/pencil-core/common/FontLoader.js:231 | mkdir and a file copy add exactly that path |
| Storage.FileSystem.WriteRegistry | app/pencil-core/common/FontLoader.js:284 | serialising the registry creates the file and records its elements |
| Storage.FileSystem.DeleteTree | app/pencil-core/common/FontLoader.js:224 | the disk loses the tree under the root and nothing else |
| Placement.FreeIndex | app/pencil-core/common/FontLoader.js:252-256 | the loop stops at the first candidate whose directory does not exist, every earlier one exists |
| Placement.FirstFree | app/pencil-core/common/FontLoader.js:252-256 | the chosen location is not an existing directory |
| Placement.FirstFreeUnique | app/pencil-core/common/FontLoader.js:252-256 | the first free candidate is the one the loop settles on |
| Placement.ChooseLocation | app/pencil-core/common/FontLoader.js:250-256 | the collision loop terminates and returns the first free candidate of the slug |
| Placement.PlaceFont | app/pencil-core/common/FontLoader.js:248-276 | a font to copy gets a location whose directory did not exist and now does; any other font and the disk stay as they are |
| Placement.PlaceAll | app/pencil-core/common/FontLoader.js:240-282 | a save pass keeps the number, order and names of the fonts and only adds paths |
| Placement.PlaceAllNoCopies | app/pencil-core/common/FontLoader.js:245-264 | a pass over fonts that all have a location changes neither them nor the disk |
| Placement.PlaceAllAt | app/pencil-core/common/FontLoader.js:240-262 | each font is placed against the paths its predecessors left |
| Placement.PlacedGrows | app/pencil-core/common/FontLoader.js:253-261 | the existing paths only grow during a pass |
| Placement.PlaceAllFresh | app/pencil-core/common/FontLoader.js:252-261 | a font to copy gets a directory that did not exist when its turn came and exists from then on |
| Placement.PlaceAllLocations | app/pencil-core/common/FontLoader.js:248-276 | fonts with a location come out unchanged; fonts to copy get new directories, pairwise distinct |
| Placement.PlaceAllLocated | app/pencil-core/common/FontLoader.js:248-264 | after save every font has a non-empty location |
| Placement.PlaceFontPrefersSlug | app/pencil-core/common/FontLoader.js:250-256 | the slug itself is chosen when its directory is free |
| Placement.PlaceAllHrefs | app/pencil-core/common/FontLoader.js:266-276 | a copied font keeps its variants in number and order with their name, kind, weight and style; each gets href location-weight-style.ext and path dir/location/href |
| Placement.PlaceAllPersists | app/pencil-core/common/FontLoader.js:240-284 | after a save pass every font is persisted under its location, so the saved catalog reads back unchanged |
| Repository.RemoveAt | app/pencil-core/common/FontLoader.js:214 | the splice drops exactly the font at the index and keeps the others in order |
| Repository.ReloadAfterSave | app/pencil-core/common/FontLoader.js:229-289 | loading right after a save reads the saved catalog back completely |
| Repository.LoadThenSaveIsStable | app/pencil-core/common/FontLoader.js:229-289 | saving a freshly loaded catalog of located fonts copies nothing and rewrites the same registry |
| Repository.NewFontOwned | app/pencil-core/common/FontLoader.js:179-198 | the new font has no location and its variants carry its name and the repository's kind |
| Repository.AddedFont | app/pencil-core/common/FontLoader.js:177-204 | the new font is appended last with a fresh non-empty directory and one persisted variant per supplied file; earlier fonts are placed as before |
| Repository.AddFontReloads | app/pencil-core/common/FontLoader.js:177-204 | after adding to a persisted catalog, reloading gives the saved catalog, which has the new font |
| Repository.RemoveKeepsFacesInSync | app/pencil-core/common/FontLoader.js:205-228 | with unique names and located fonts, the font is gone, the save moves nothing, and the faces are the flattened faces of what remains |
| Repository.FontRepository.constructor | app/pencil-core/common/FontLoader.js:108-114 | a new repository is empty and not loaded |
| Repository.FontRepository.GetFont | app/pencil-core/common/FontLoader.js:119-123 | the first font of exactly that name, or none exactly when no font has it |
| Repository.FontRepository.Load | app/pencil-core/common/FontLoader.js:124-170 | the catalog is the fonts of the Font elements read, faces are their variants flattened in order, and loaded is set only by a complete read |
| Repository.FontRepository.LoadFont | app/pencil-core/common/FontLoader.js:137-163 | one Font element appends one font and its faces to both lists |
| Repository.FontRepository.Place | app/pencil-core/common/FontLoader.js:248-276 | placing a font to copy creates its directory and files as one step of the save pass |
| Repository.FontRepository.SaveFont | app/pencil-core/common/FontLoader.js:240-282 | one font of the save loop is handled as the save pass specifies |
| Repository.FontRepository.Save | app/pencil-core/common/FontLoader.js:229-289 | the directory exists, the fonts are the placed ones, the disk gains exactly the placed paths and the registry, which lists the fonts in order |
| Repository.FontRepository.AddFont | app/pencil-core/common/FontLoader.js:177-204 | loads if needed, appends the new font, saves, faces grow by its saved variants, loaded is false |
| Repository.FontRepository.RemoveFont | app/pencil-core/common/FontLoader.js:205-228 | no font of that name: nothing changes; otherwise the first is removed and every face of that name dropped, then either the throw on a null location or delete, save and loaded false |
| Environment.TaggedMembers | app/pencil-core/common/FontLoader.js:19-22 | a face is collected for removal exactly when it is active and tagged |
| Environment.OutsideStep | app/pencil-core/common/FontLoader.js:24-26 | deleting the collected faces one at a time deletes them all |
| Environment.OutsideTagged | app/pencil-core/common/FontLoader.js:19-26 | deleting every tagged face leaves exactly the untagged ones |
| Environment.ProbeStringShape | app/pencil-core/common/FontLoader.js:45 | the probe starts with the style and ends with the family in quotes |
| Environment.FontEnvironment.Add | app/pencil-core/common/FontLoader.js:43 | adding a face appends it to the active set |
| Environment.FontEnvironment.Delete | app/pencil-core/common/FontLoader.js:25 | deleting a face removes it from the active set |
| Environment.FontEnvironment.Probe | app/pencil-core/common/FontLoader.js:46 | a probe is recorded in order |
| Environment.FontEnvironment.RemoveTagged | app/pencil-core/common/FontLoader.js:19-26 | after the two loops exactly the untagged faces remain, in order |
| Environment.FontLoadRun.constructor | app/pencil-core/common/FontLoader.js:28 | a run starts before the first face with nothing registered and no completion |
| Environment.FontLoadRun.Next | app/pencil-core/common/FontLoader.js:29-50 | the index advances by one; past the end the callback and event fire once, otherwise the face at the index is added |
| Environment.FontLoadRun.AddSettled | app/pencil-core/common/FontLoader.js:44-49 | a successful add probes the face; a failed one moves on to the next face, which is added to the page, or finishes the run past the last face |
| Environment.FontLoadRun.ProbeSettled | app/pencil-core/common/FontLoader.js:46-48 | success and failure of the probe alike move on to the next face, which is added to the page, or finish the run past the last face |
| Environment.FinishedRun | app/pencil-core/common/FontLoader.js:31-35 | a finished run registered every face in list order and fired callback and event once |
| Environment.UnfinishedRun | app/pencil-core/common/FontLoader.js:31-35 | before the end neither the callback nor the event has fired |
| Loader.EmbedExtends | app/pencil-core/common/FontLoader.js:80-96 | embedding only appends, and shouldSave is set exactly when something was appended |
| Loader.EmbedHasFont | app/pencil-core/common/FontLoader.js:81-94 | afterwards the document has a font exactly when it had it before or the name was asked for and the user has it |
| Loader.EmbedAppended | app/pencil-core/common/FontLoader.js:83-91 | each appended font is a location-less copy of the user's first font of a requested name, and no name is appended twice or already present |
| Loader.EmbedNothingNew | app/pencil-core/common/FontLoader.js:81-96 | when every name is present or unknown, nothing is appended and nothing saved |
| Loader.EmbedIdempotent | app/pencil-core/common/FontLoader.js:74-97 | embedding the same names a second time changes nothing and does not save |
| Loader.FontLoader.constructor | app/pencil-core/common/FontLoader.js:1-4 | a user repository at the user's font directory and no document repository |
| Loader.FontLoader.SetDocumentRepoDir | app/pencil-core/common/FontLoader.js:5-11 | a present, non-empty directory gives a fresh document repository; anything else none |
| Loader.FontLoader.LoadFonts | app/pencil-core/common/FontLoader.js:12-53 | both repositories are loaded, the list is user faces then document faces, exactly the untagged faces stay on the page, and registration starts at the first face |
| Loader.FontLoader.IsFontExisting | app/pencil-core/common/FontLoader.js:54-56 | a font is returned exactly when the user catalog has one of that name |
| Loader.FontLoader.UserFonts | app/pencil-core/common/FontLoader.js:71-73 | the user catalog has a name exactly when isFontExisting finds it |
| Loader.NewFacesListed | app/pencil-core/common/FontLoader.js:57-60 | every variant of a font is in the face list loadFonts builds from its catalog |
| Loader.FontLoader.InstallNewFont | app/pencil-core/common/FontLoader.js:57-60 | the font is added and saved; both catalogs are reloaded from disk with their faces; when the user catalog was persisted it is the saved one with the new font, whose variants are all in the list being registered; registration starts at the first face on the untagged page, without a callback |
| Loader.FontLoader.RemoveFont | app/pencil-core/common/FontLoader.js:61-70 | without confirmation no repository, the page or the disk changes; a removal that throws starts no reload; otherwise both catalogs are reloaded with their faces and registration starts at the first face on the untagged page, with a callback |
| Loader.FontLoader.EmbedToDocumentRepo | app/pencil-core/common/FontLoader.js:74-97 | the document repository exists, its catalog is the embedding result, saved exactly when something was appended, and its faces are unchanged |

## Left out

- Parsing and serialising `registry.xml` (`Dom.parseFile`, `Dom.workOn`, `Dom.serializeNodeToFile`): a registry is its sequence of Font elements, and a file that fails to parse is recorded with the elements read before the failure.
- Missing XML attributes: `getAttribute` can return null; the model's records hold strings.
- File contents: copying a font file (`fs.readFileSync`/`fs.writeFileSync`) records only that the target path exists.
- I/O failures in `save`: a failing `mkdirSync` of the repository directory (lines 230-232, before the `try`) throws out of `save`, and in `addFont` and `removeFont` skips the `loaded = false` after it; a failing copy or registry write inside the `try` (lines 237-286) is caught and logged. The model's save always completes.
- `path.join` normalisation (`..`, repeated or trailing slashes, absolute second segments): `Join` only inserts one separator. `Extname` follows `path.extname` on trailing separators and "..", but not on Windows separators.
- The browser font API: `ImageData.filePathToURL`, `FontFace` construction and the promise machinery; a registered face keeps the file path, and each settlement is a method call. Several runs of `loadFonts` interleaving on the same page are not modelled.
- `Dialog.confirm` is a `confirmed` parameter; `ApplicationPane` busy/unbusy, `console` logging and the user's callback body are not modelled; `Dom.emitEvent` is a counter.
- `Config.getDataFilePath("fonts")` and `Pencil.controller.tempDir` are parameters.
- The lazy singleton getter (lines 98-106) is not modelled: it only caches one `FontLoader`.
- `deleteFileOrFolder` is not part of this model; it is taken to remove a path and everything below it.
- Repository.FontRepository.Save: keeps `faces` as it was, while in the source `save` also rewrites, through the shared variant objects, the faces of any font whose stored location was empty; the model captures this sharing only for the font `AddFont` appends.
- Loader.FontLoader.RemoveFont: after a confirmed removal it states the throw and the reload; what the removal itself does to the repository and the disk is stated by `Repository.FontRepository.RemoveFont`.
