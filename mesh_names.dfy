/**
 * How `read_mesh` splits a mesh path into a format extension and a prefix,
 * and how it names the two companion tag files of an XML mesh.
 */
module MeshNames {
  import opened Text

  /** `mesh_file.split('.')[-1]`. */
  function FileType(meshFile: string): string
  {
    var parts := Split(meshFile, '.');
    parts[|parts| - 1]
  }

  /** `'.'.join(mesh_file.split('.')[0:-1])`. */
  function MeshPrefix(meshFile: string): string
  {
    var parts := Split(meshFile, '.');
    Join('.', parts[..|parts| - 1])
  }

  /** `mesh_pref + '_physical_region.xml'`: the cell-tag companion. */
  function SubdomainFile(prefix: string): string
  {
    prefix + "_physical_region.xml"
  }

  /** `mesh_pref + '_facet_region.xml'`: the facet-tag companion. */
  function BoundaryFile(prefix: string): string
  {
    prefix + "_facet_region.xml"
  }

  /**
   * The extension is the text after the last '.', and prefix, '.' and
   * extension put back together give the path.
   */
  lemma ExtensionRoundTrip(meshFile: string)
    requires '.' in meshFile
    ensures '.' !in FileType(meshFile)
    ensures MeshPrefix(meshFile) + "." + FileType(meshFile) == meshFile
  {
    var parts := Split(meshFile, '.');
    SplitSingle(meshFile, '.');
    JoinSplit(meshFile, '.');
    JoinSnoc('.', parts);
  }

  /** Without a '.', the extension is the whole path and the prefix is empty. */
  lemma NoDotPath(meshFile: string)
    requires '.' !in meshFile
    ensures FileType(meshFile) == meshFile
    ensures MeshPrefix(meshFile) == ""
  {
    SplitNoSep(meshFile, '.');
  }

  /** Appending '.' and a dot-free extension to any prefix is undone by the split. */
  lemma ExtensionOf(prefix: string, ext: string)
    requires '.' !in ext
    ensures FileType(prefix + "." + ext) == ext
    ensures MeshPrefix(prefix + "." + ext) == prefix
  {
    SplitAround(prefix, ext, '.');
    SplitNoSep(ext, '.');
    var parts := Split(prefix + "." + ext, '.');
    assert parts == Split(prefix, '.') + [ext];
    assert parts[..|parts| - 1] == Split(prefix, '.');
    JoinSplit(prefix, '.');
  }
}
