/**
 * Placement: how `save` (FontLoader.js lines 240-282) gives each font that
 * has no location yet a directory of its own and rewrites its variants to
 * the copied files. The functions here specify one save pass; the loops of
 * FontRepository.Save and ChooseLocation are proved against them.
 */
module Placement {
  import opened Paths
  import opened Slugs
  import opened Fonts
  import Seqs

  /** An upper bound on the length of the paths of a finite set. */
  ghost function Longest(s: set<Path>): (n: nat)
    ensures forall p :: p in s ==> |p| <= n
  {
    if s == {} then 0
    else
      var p :| p in s;
      var m := Longest(s - {p});
      if |p| > m then |p| else m
  }

  lemma JoinLonger(dir: Path, a: string, b: string)
    requires |a| < |b|
    ensures |Join(dir, a)| < |Join(dir, b)|
  {
  }

  lemma JoinGrows(dir: Path, slug: string, k: nat)
    ensures |Join(dir, Candidate(slug, k))| < |Join(dir, Candidate(slug, k + 1))|
  {
    CandidatesGrow(slug, k);
    JoinLonger(dir, Candidate(slug, k), Candidate(slug, k + 1));
  }

  /**
   * The number of collisions the loop of lines 252-256 goes through starting
   * from the k-th candidate: the first candidate from k on whose directory
   * does not exist.
   */
  function FreeIndex(taken: set<Path>, dir: Path, slug: string, k: nat): (j: nat)
    ensures k <= j
    ensures Join(dir, Candidate(slug, j)) !in taken
    ensures forall i :: k <= i < j ==> Join(dir, Candidate(slug, i)) in taken
    decreases Longest(taken) - |Join(dir, Candidate(slug, k))|
  {
    if Join(dir, Candidate(slug, k)) in taken then
      JoinGrows(dir, slug, k);
      FreeIndex(taken, dir, slug, k + 1)
    else k
  }

  /** The location the collision loop settles on for a slug. */
  function FirstFree(taken: set<Path>, dir: Path, slug: string): (loc: string)
    ensures Join(dir, loc) !in taken
  {
    Candidate(slug, FreeIndex(taken, dir, slug, 0))
  }

  /** Every candidate before the first free one is taken, and that one is not: it is FirstFree. */
  lemma FirstFreeUnique(taken: set<Path>, dir: Path, slug: string, j: nat)
    requires forall i :: 0 <= i < j ==> Join(dir, Candidate(slug, i)) in taken
    requires Join(dir, Candidate(slug, j)) !in taken
    ensures FreeIndex(taken, dir, slug, 0) == j
    ensures FirstFree(taken, dir, slug) == Candidate(slug, j)
  {
  }

  lemma CandidateStep(slug: string, k: nat)
    ensures Candidate(slug, k + 1) == Candidate(slug, k) + "_" + Digits(k + 1)
  {
  }

  /**
   * The collision loop (lines 252-256): starting from the slug, append
   * "_" + index to the current candidate while its directory exists.
   */
  method ChooseLocation(taken: set<Path>, dir: Path, slug: string) returns (location: string)
    ensures location == FirstFree(taken, dir, slug)
  {
    location := slug;
    var index: nat := 0;
    while Join(dir, location) in taken
      invariant location == Candidate(slug, index)
      invariant FreeIndex(taken, dir, slug, index) == FreeIndex(taken, dir, slug, 0)
      decreases FreeIndex(taken, dir, slug, 0) - index
    {
      CandidateStep(slug, index);
      index := index + 1;
      location := location + "_" + Digits(index);
    }
  }

  /** `!font.location` (line 248): no location yet, or an empty one. */
  predicate IsCopy(f: Font) {
    f.location.None? || f.location == Some("")
  }

  /** A variant after its file has been copied into the font's new location (lines 271-275). */
  function Relocate(dir: Path, location: string, v: Variant): Variant {
    var href := Href(location, v.weight, v.style, Extname(v.filePath));
    v.(href := Some(href), filePath := Join(Join(dir, location), href))
  }

  function RelocateAll(dir: Path, location: string, vs: seq<Variant>): (r: seq<Variant>)
    ensures |r| == |vs|
  {
    seq(|vs|, i requires 0 <= i < |vs| => Relocate(dir, location, vs[i]))
  }

  lemma RelocateAllSnoc(dir: Path, location: string, vs: seq<Variant>, v: Variant)
    ensures RelocateAll(dir, location, vs + [v]) == RelocateAll(dir, location, vs) + [Relocate(dir, location, v)]
  {
    var a, b := RelocateAll(dir, location, vs + [v]), RelocateAll(dir, location, vs) + [Relocate(dir, location, v)];
    forall i | 0 <= i < |a|
      ensures a[i] == b[i]
    {
      if i < |vs| {
        assert (vs + [v])[i] == vs[i];
      }
    }
  }

  /** The paths of a list of variants. */
  function FilePaths(vs: seq<Variant>): (r: set<Path>)
    ensures forall i :: 0 <= i < |vs| ==> vs[i].filePath in r
    decreases |vs|
  {
    if vs == [] then {} else FilePaths(vs[..|vs| - 1]) + {vs[|vs| - 1].filePath}
  }

  lemma FilePathsSnoc(vs: seq<Variant>, v: Variant)
    ensures FilePaths(vs + [v]) == FilePaths(vs) + {v.filePath}
  {
    assert (vs + [v])[..|vs|] == vs;
  }

  /**
   * One iteration of save's font loop: a font to copy gets the first free
   * candidate of its slug, whose directory is created at once, and its
   * variants are copied there; any other font is left as it is.
   */
  function PlaceFont(dir: Path, taken: set<Path>, f: Font): (r: (Font, set<Path>))
    ensures taken <= r.1
    ensures r.0.name == f.name
    ensures !IsCopy(f) ==> r == (f, taken)
    ensures IsCopy(f) ==>
      (r.0.location.Some? && Join(dir, r.0.location.value) !in taken && Join(dir, r.0.location.value) in r.1)
  {
    if IsCopy(f) then
      var location := FirstFree(taken, dir, Slug(f.name));
      var vs := RelocateAll(dir, location, f.variants);
      (f.(location := Some(location), variants := vs), taken + {Join(dir, location)} + FilePaths(vs))
    else (f, taken)
  }

  /** A whole save pass over the fonts, in catalog order, threading the existing paths. */
  function PlaceAll(dir: Path, taken: set<Path>, fonts: seq<Font>): (r: (seq<Font>, set<Path>))
    ensures |r.0| == |fonts|
    ensures taken <= r.1
    ensures forall i :: 0 <= i < |fonts| ==> r.0[i].name == fonts[i].name
    decreases |fonts|
  {
    if fonts == [] then ([], taken)
    else
      var before := PlaceAll(dir, taken, fonts[..|fonts| - 1]);
      var placed := PlaceFont(dir, before.1, fonts[|fonts| - 1]);
      (before.0 + [placed.0], placed.1)
  }

  /** A save pass over one more font places it against the paths the earlier fonts left. */
  lemma PlaceAllSnoc(dir: Path, taken: set<Path>, fonts: seq<Font>, f: Font)
    ensures var before := PlaceAll(dir, taken, fonts);
      var placed := PlaceFont(dir, before.1, f);
      PlaceAll(dir, taken, fonts + [f]) == (before.0 + [placed.0], placed.1)
  {
    assert (fonts + [f])[..|fonts|] == fonts;
  }

  /** A save pass over fonts that all have a location changes neither the fonts nor the disk. */
  lemma {:induction false} PlaceAllNoCopies(dir: Path, taken: set<Path>, fonts: seq<Font>)
    requires forall i :: 0 <= i < |fonts| ==> !IsCopy(fonts[i])
    ensures PlaceAll(dir, taken, fonts) == (fonts, taken)
    decreases |fonts|
  {
    if fonts != [] {
      var n := |fonts| - 1;
      var init := fonts[..n];
      PlaceAllNoCopies(dir, taken, init);
      assert fonts == init + [fonts[n]];
      PlaceAllSnoc(dir, taken, init, fonts[n]);
    }
  }

  /** Font i is placed against the paths that exist once the fonts before it are placed. */
  lemma {:induction false} PlaceAllAt(dir: Path, taken: set<Path>, fonts: seq<Font>, i: nat)
    requires i < |fonts|
    ensures PlaceAll(dir, taken, fonts).0[i] == PlaceFont(dir, PlaceAll(dir, taken, fonts[..i]).1, fonts[i]).0
    decreases |fonts|
  {
    var n := |fonts| - 1;
    var init := fonts[..n];
    var before := PlaceAll(dir, taken, init);
    var last := PlaceFont(dir, before.1, fonts[n]);
    assert PlaceAll(dir, taken, fonts) == (before.0 + [last.0], last.1);
    if i < n {
      PlaceAllAt(dir, taken, init, i);
      assert init[..i] == fonts[..i] && init[i] == fonts[i];
      assert (before.0 + [last.0])[i] == before.0[i];
    } else {
      assert fonts[..i] == init;
    }
  }

  /** Placing one more font only adds paths. */
  lemma PlacedStep(dir: Path, taken: set<Path>, fonts: seq<Font>, m: nat)
    requires 0 < m <= |fonts|
    ensures PlaceAll(dir, taken, fonts[..m - 1]).1 <= PlaceAll(dir, taken, fonts[..m]).1
  {
    assert fonts[..m][..m - 1] == fonts[..m - 1];
  }

  /** The paths that exist only grow as a save pass goes on. */
  lemma {:induction false} PlacedGrows(dir: Path, taken: set<Path>, fonts: seq<Font>, k: nat, m: nat)
    requires k <= m <= |fonts|
    ensures PlaceAll(dir, taken, fonts[..k]).1 <= PlaceAll(dir, taken, fonts[..m]).1
    decreases m - k
  {
    if k < m {
      var low := PlaceAll(dir, taken, fonts[..k]).1;
      var mid := PlaceAll(dir, taken, fonts[..m - 1]).1;
      var high := PlaceAll(dir, taken, fonts[..m]).1;
      PlacedGrows(dir, taken, fonts, k, m - 1);
      PlacedStep(dir, taken, fonts, m);
      SubsetTrans(low, mid, high);
    }
  }

  lemma SubsetTrans(a: set<Path>, b: set<Path>, c: set<Path>)
    requires a <= b && b <= c
    ensures a <= c
  {
  }

  /**
   * Font i, when it is one to copy, gets a directory that did not exist when
   * its turn came (nor before the pass) and that exists from then on.
   */
  lemma PlaceAllFresh(dir: Path, taken: set<Path>, fonts: seq<Font>, i: nat)
    requires i < |fonts| && IsCopy(fonts[i])
    ensures var loc := PlaceAll(dir, taken, fonts).0[i].location;
      loc.Some?
      && Join(dir, loc.value) !in PlaceAll(dir, taken, fonts[..i]).1
      && Join(dir, loc.value) !in taken
      && Join(dir, loc.value) in PlaceAll(dir, taken, fonts[..i + 1]).1
      && Join(dir, loc.value) in PlaceAll(dir, taken, fonts).1
  {
    var before := PlaceAll(dir, taken, fonts[..i]);
    var placed := PlaceFont(dir, before.1, fonts[i]);
    PlaceAllAt(dir, taken, fonts, i);
    PlaceAllSnoc(dir, taken, fonts[..i], fonts[i]);
    Seqs.TakeSnoc(fonts, i);
    assert PlaceAll(dir, taken, fonts[..i + 1]).1 == placed.1;
    PlacedGrows(dir, taken, fonts, 0, i);
    PlaceAllEmpty(dir, taken, fonts);
    PlacedGrows(dir, taken, fonts, i + 1, |fonts|);
    PlaceAllWhole(dir, taken, fonts);
  }

  lemma PlaceAllEmpty(dir: Path, taken: set<Path>, fonts: seq<Font>)
    ensures PlaceAll(dir, taken, fonts[..0]).1 == taken
  {
    assert fonts[..0] == [];
  }

  lemma PlaceAllWhole(dir: Path, taken: set<Path>, fonts: seq<Font>)
    ensures PlaceAll(dir, taken, fonts[..|fonts|]) == PlaceAll(dir, taken, fonts)
  {
    assert fonts[..|fonts|] == fonts;
  }

  /**
   * A save pass gives every font to copy a directory that did not exist
   * before the pass and that exists after it, and no two such fonts the same
   * directory; every other font comes out unchanged.
   */
  lemma PlaceAllLocations(dir: Path, taken: set<Path>, fonts: seq<Font>)
    ensures var r := PlaceAll(dir, taken, fonts);
      (forall i :: 0 <= i < |fonts| && !IsCopy(fonts[i]) ==> r.0[i] == fonts[i])
      && (forall i :: 0 <= i < |fonts| && IsCopy(fonts[i]) ==>
            r.0[i].location.Some?
            && Join(dir, r.0[i].location.value) !in taken
            && Join(dir, r.0[i].location.value) in r.1)
      && (forall i, j :: 0 <= i < j < |fonts| && IsCopy(fonts[i]) && IsCopy(fonts[j]) ==>
            r.0[i].location != r.0[j].location)
  {
    var r := PlaceAll(dir, taken, fonts);
    forall i | 0 <= i < |fonts| && !IsCopy(fonts[i])
      ensures r.0[i] == fonts[i]
    {
      PlaceAllAt(dir, taken, fonts, i);
    }
    forall i | 0 <= i < |fonts| && IsCopy(fonts[i])
      ensures r.0[i].location.Some?
      ensures Join(dir, r.0[i].location.value) !in taken && Join(dir, r.0[i].location.value) in r.1
    {
      PlaceAllFresh(dir, taken, fonts, i);
    }
    forall i, j | 0 <= i < j < |fonts| && IsCopy(fonts[i]) && IsCopy(fonts[j])
      ensures r.0[i].location != r.0[j].location
    {
      PlaceAllFresh(dir, taken, fonts, i);
      PlaceAllFresh(dir, taken, fonts, j);
      PlacedGrows(dir, taken, fonts, i + 1, j);
    }
  }

  /** Once the repository directory exists, no font is placed at the empty location. */
  lemma PlaceAllLocated(dir: Path, taken: set<Path>, fonts: seq<Font>)
    requires dir in taken
    ensures var r := PlaceAll(dir, taken, fonts);
      forall i :: 0 <= i < |fonts| ==> r.0[i].location.Some? && r.0[i].location.value != ""
  {
    PlaceAllLocations(dir, taken, fonts);
    var r := PlaceAll(dir, taken, fonts);
    forall i | 0 <= i < |fonts|
      ensures r.0[i].location.Some? && r.0[i].location.value != ""
    {
      if IsCopy(fonts[i]) {
        assert Join(dir, "") == dir;
      }
    }
  }

  /** The directory of a font to copy is its slug whenever that is free. */
  lemma PlaceFontPrefersSlug(dir: Path, taken: set<Path>, f: Font)
    requires IsCopy(f) && Join(dir, Slug(f.name)) !in taken
    ensures PlaceFont(dir, taken, f).0.location == Some(Slug(f.name))
  {
    FirstFreeUnique(taken, dir, Slug(f.name), 0);
  }

  /** A font's variants are all named after it and tagged with the repository's kind. */
  predicate Owned(kind: RepoKind, f: Font) {
    forall j :: 0 <= j < |f.variants| ==> f.variants[j].name == f.name && f.variants[j].kind == kind
  }

  /**
   * A font to copy keeps its variants, in number and order, with their
   * name, kind, weight and style; each gets the file name
   * location-weight-style.ext under its new location (lines 271-275).
   */
  lemma PlaceAllHrefs(dir: Path, taken: set<Path>, fonts: seq<Font>, i: nat)
    requires i < |fonts| && IsCopy(fonts[i])
    ensures var f := PlaceAll(dir, taken, fonts).0[i];
      f.location.Some? && |f.variants| == |fonts[i].variants|
      && forall j :: 0 <= j < |f.variants| ==>
           var v, w := fonts[i].variants[j], f.variants[j];
           w.name == v.name && w.kind == v.kind && w.weight == v.weight && w.style == v.style
           && w.href == Some(Href(f.location.value, v.weight, v.style, Extname(v.filePath)))
           && w.filePath == Join(Join(dir, f.location.value), w.href.value)
  {
    PlaceAllAt(dir, taken, fonts, i);
    PlaceAllFresh(dir, taken, fonts, i);
    var f := PlaceAll(dir, taken, fonts).0[i];
    assert f.variants == RelocateAll(dir, f.location.value, fonts[i].variants);
  }

  /**
   * After a save pass over a catalog whose located fonts were persisted and
   * whose new fonts are owned by the repository, the whole catalog is
   * persisted: reading the registry back gives it unchanged.
   */
  lemma PlaceAllPersists(dir: Path, kind: RepoKind, taken: set<Path>, fonts: seq<Font>)
    requires dir in taken
    requires forall i :: 0 <= i < |fonts| && !IsCopy(fonts[i]) ==> PersistedFont(dir, kind, fonts[i])
    requires forall i :: 0 <= i < |fonts| && IsCopy(fonts[i]) ==> Owned(kind, fonts[i])
    ensures Persisted(dir, kind, PlaceAll(dir, taken, fonts).0)
    ensures FontsOf(dir, kind, RegistryOf(PlaceAll(dir, taken, fonts).0)) == PlaceAll(dir, taken, fonts).0
  {
    var r := PlaceAll(dir, taken, fonts);
    PlaceAllLocations(dir, taken, fonts);
    PlaceAllLocated(dir, taken, fonts);
    forall i | 0 <= i < |fonts|
      ensures PersistedFont(dir, kind, r.0[i])
    {
      if IsCopy(fonts[i]) {
        PlaceAllAt(dir, taken, fonts, i);
        var f := r.0[i];
        var loc := f.location.value;
        assert f.variants == RelocateAll(dir, loc, fonts[i].variants);
        forall j | 0 <= j < |f.variants|
          ensures PersistedVariant(dir, kind, f.name, loc, f.variants[j])
        {
          assert f.variants[j] == Relocate(dir, loc, fonts[i].variants[j]);
        }
      }
    }
    SaveLoadRoundTrip(dir, kind, r.0);
  }
}
