/**
 * Storage: the file system a font repository lives on, reduced to what the
 * catalog observes: which paths exist, and what each registry.xml holds once
 * parsed. File contents other than registries are not tracked.
 */
module Storage {
  import opened Paths
  import opened Fonts

  /**
   * The parsed content of a registry file. `Malformed` is a file whose
   * parsing or walking failed after the given Font elements had been read.
   */
  datatype RegistryFile = Parsed(records: seq<FontRecord>) | Malformed(readBeforeFailure: seq<FontRecord>)

  /** `path.join(dirPath, "registry.xml")` (lines 125, 236). */
  function RegistryPath(dir: Path): Path {
    Join(dir, "registry.xml")
  }

  /** p is root itself or lies somewhere below it. */
  predicate Within(p: Path, root: Path) {
    p == root || (|p| > |root| && p[..|root| + 1] == root + "/")
  }

  /** The paths left after a recursive delete of root. */
  function Pruned(entries: set<Path>, root: Path): (r: set<Path>)
    ensures r <= entries
    ensures forall p :: p in entries && !Within(p, root) ==> p in r
    ensures root !in r
    ensures forall p :: Within(p, root) ==> p !in r
  {
    set p | p in entries && !Within(p, root)
  }

  /** The registries left after a recursive delete of root. */
  function PrunedRegistries(registries: map<Path, RegistryFile>, root: Path): (r: map<Path, RegistryFile>)
    ensures r.Keys <= registries.Keys && root !in r
    ensures forall p :: p in r ==> r[p] == registries[p]
    ensures forall p :: p in registries ==> (p in r <==> !Within(p, root))
  {
    map p | p in registries && !Within(p, root) :: registries[p]
  }

  /**
   * What `load` gets out of the disk (lines 125-134): the Font elements it
   * reads and whether reading completed. A missing registry is an empty,
   * complete read; a registry path that exists but holds no parsable
   * registry is a failed read of nothing.
   */
  function ReadRegistry(entries: set<Path>, registries: map<Path, RegistryFile>, dir: Path): (r: (seq<FontRecord>, bool))
    ensures RegistryPath(dir) !in entries ==> r == ([], true)
    ensures RegistryPath(dir) in entries && RegistryPath(dir) !in registries ==> r == ([], false)
    ensures r.1 ==> RegistryPath(dir) !in entries || registries[RegistryPath(dir)] == Parsed(r.0)
  {
    var p := RegistryPath(dir);
    if p !in entries then ([], true)
    else if p !in registries then ([], false)
    else match registries[p]
      case Parsed(records) => (records, true)
      case Malformed(records) => (records, false)
  }

  class FileSystem {
    /** Every existing file and directory. */
    var entries: set<Path>
    /** The parsed content of the registry files among them. */
    var registries: map<Path, RegistryFile>

    constructor (entries: set<Path>, registries: map<Path, RegistryFile>)
      ensures this.entries == entries && this.registries == registries
    {
      this.entries := entries;
      this.registries := registries;
    }

    /** `fs.mkdirSync`, and `fs.writeFileSync` of a copied font file. */
    method Create(p: Path)
      modifies this
      ensures entries == old(entries) + {p}
      ensures registries == old(registries)
    {
      entries := entries + {p};
    }

    /** `Dom.serializeNodeToFile` of a registry document (line 284). */
    method WriteRegistry(p: Path, records: seq<FontRecord>)
      modifies this
      ensures entries == old(entries) + {p}
      ensures registries == old(registries)[p := Parsed(records)]
    {
      entries := entries + {p};
      registries := registries[p := Parsed(records)];
    }

    /** `deleteFileOrFolder` (line 224): removes root and everything below it. */
    method DeleteTree(root: Path)
      modifies this
      ensures entries == Pruned(old(entries), root)
      ensures registries == PrunedRegistries(old(registries), root)
    {
      entries := Pruned(entries, root);
      registries := PrunedRegistries(registries, root);
    }
  }
}
