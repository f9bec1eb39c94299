/**
 * common/inout.py: checkpoint read and write of a solution field in an
 * HDF5 container, and `read_mesh`, which dispatches on the extension of a
 * mesh path to the XML, HDF5 or XDMF reader and falls back to all-zero tag
 * maps when tag sources are missing.
 */
module InOut {
  import opened Wrappers
  import opened Text
  import opened Dolfin
  import opened Fs
  import opened MeshNames

  /** What `read_mesh` returns: the mesh, its cell tags and its facet tags. */
  datatype MeshBundle = MeshBundle(mesh: Mesh, subdomains: MeshFunction, boundaries: MeshFunction)

  /** The warnings `read_mesh` prints. */
  datatype Message = NoBoundaryFile(path: string) | NoBoundariesDataset(file: string)

  /** What `read_HDF5_data` yields: the field it fills and the timestamp it returns. */
  datatype Snapshot = Snapshot(field: Field, time: real)

  // ---------------------------------------------------------------- checkpoints

  /**
   * The dataset DOLFIN stores the vector of a Function named `name` under;
   * HDF5 resolves a relative `name` from the root group, so "u" and "/u" name one dataset.
   */
  function VectorName(name: string): string
  {
    AbsoluteName(name) + "/vector_0"
  }

  /** The record `hdf.write(fun, name, t)` stores. */
  function FieldRecord(fun: Field, t: real): Dataset
  {
    Dataset(FieldData(fun), map["timestamp" := t])
  }

  /** The whole content of a container after `write_HDF5_data(.., fun, name, t)`. */
  function Checkpoint(fun: Field, name: string, t: real): Container
  {
    map[VectorName(name) := FieldRecord(fun, t)]
  }

  /** `write_HDF5_data`: open in 'w' mode (truncating), then write the field with its timestamp. */
  function WriteCheckpointSpec(tr: Tree, h5file: string, fun: Field, name: string, t: real): (Outcome<Error>, Tree)
  {
    var (o, handle) := CreateHdf5Spec(tr, h5file);
    if o.Fail? then (o, handle)
    else (Pass, Hdf5PutSpec(handle, h5file, VectorName(name), FieldRecord(fun, t)))
  }

  method WriteHdf5Data(fs: FileSystem, h5file: string, fun: Field, name: string, t: real := 0.0)
    returns (o: Outcome<Error>)
    requires fs.Valid()
    modifies fs
    ensures fs.Valid()
    ensures (o, fs.tree) == WriteCheckpointSpec(old(fs.tree), h5file, fun, name, t)
  {
    o := fs.CreateHdf5(h5file);
    if o.Pass? {
      fs.Hdf5Write(h5file, VectorName(name), FieldRecord(fun, t));
    }
  }

  /** `read_HDF5_data`: the stored field and the `timestamp` attribute of `name/vector_0`, or 0. */
  function ReadCheckpoint(tr: Tree, h5file: string, name: string): Result<Snapshot, Error>
  {
    match OpenHdf5(tr, h5file)
    case Err(e) => Err(e)
    case Ok(c) =>
      var vn := VectorName(name);
      if vn !in c || !c[vn].payload.FieldData? then Err(RuntimeError(vn))
      else
        var attrs := c[vn].attrs;
        Ok(Snapshot(c[vn].payload.field, if "timestamp" in attrs then attrs["timestamp"] else 0.0))
  }

  method ReadHdf5Data(fs: FileSystem, h5file: string, name: string) returns (r: Result<Snapshot, Error>)
    ensures r == ReadCheckpoint(fs.tree, h5file, name)
  {
    var handle := OpenHdf5(fs.tree, h5file);
    if handle.Err? {
      return Err(handle.error);
    }
    var hdf := handle.value;
    var vn := VectorName(name);
    if vn !in hdf || !hdf[vn].payload.FieldData? {
      return Err(RuntimeError(vn));
    }
    var fun := hdf[vn].payload.field;
    var time := 0.0;
    if "timestamp" in hdf[vn].attrs {
      time := hdf[vn].attrs["timestamp"];
    }
    r := Ok(Snapshot(fun, time));
  }

  /**
   * Writing in 'w' mode replaces the whole container: afterwards it holds the
   * checkpoint alone, and nothing else in the tree changes. The write fails,
   * changing nothing, exactly when the path cannot be opened for writing.
   */
  lemma WriteTruncates(tr: Tree, h5file: string, fun: Field, name: string, t: real)
    ensures var (o, tr') := WriteCheckpointSpec(tr, h5file, fun, name, t);
            (o.Pass? <==> !IsDir(tr, h5file) && h5file != "" && ParentsAreDirs(tr, h5file)) &&
            (o.Fail? ==> tr' == tr) &&
            (o.Pass? ==> tr' == tr[h5file := Hdf5File(Checkpoint(fun, name, t))])
  {
    var (o, handle) := CreateHdf5Spec(tr, h5file);
    if o.Pass? {
      assert map[][VectorName(name) := FieldRecord(fun, t)] == Checkpoint(fun, name, t);
    }
  }

  /** A successful write followed by a read of the same name yields the field and `t`. */
  lemma WriteReadRoundTrip(tr: Tree, h5file: string, fun: Field, name: string, t: real)
    requires WriteCheckpointSpec(tr, h5file, fun, name, t).0.Pass?
    ensures ReadCheckpoint(WriteCheckpointSpec(tr, h5file, fun, name, t).1, h5file, name) == Ok(Snapshot(fun, t))
  {
    WriteTruncates(tr, h5file, fun, name, t);
  }

  /** After a write, every name for another dataset is gone from the container. */
  lemma WriteReplacesPrior(tr: Tree, h5file: string, fun: Field, name: string, t: real, other: string)
    requires WriteCheckpointSpec(tr, h5file, fun, name, t).0.Pass?
    requires AbsoluteName(other) != AbsoluteName(name)
    ensures ReadCheckpoint(WriteCheckpointSpec(tr, h5file, fun, name, t).1, h5file, other).Err?
  {
    WriteTruncates(tr, h5file, fun, name, t);
    var tr' := WriteCheckpointSpec(tr, h5file, fun, name, t).1;
    assert tr'[h5file] == Hdf5File(Checkpoint(fun, name, t));
    if VectorName(other) == VectorName(name) {
      VectorNameInjective(other, name);
    }
    assert VectorName(other) !in Checkpoint(fun, name, t);
  }

  /** Two names share a vector dataset exactly when they name the same group from the root. */
  lemma VectorNameInjective(a: string, b: string)
    ensures VectorName(a) == VectorName(b) <==> AbsoluteName(a) == AbsoluteName(b)
  {
    var x, y := AbsoluteName(a), AbsoluteName(b);
    if VectorName(a) == VectorName(b) {
      assert |x| == |y|;
      assert x == VectorName(a)[..|x|];
      assert y == VectorName(b)[..|y|];
    }
  }

  /** A relative name and the same name from the root reach one checkpoint. */
  lemma RelativeNameReadsSameCheckpoint(tr: Tree, h5file: string, name: string)
    requires |name| > 0 && name[0] != '/'
    ensures ReadCheckpoint(tr, h5file, name) == ReadCheckpoint(tr, h5file, "/" + name)
  {
    assert AbsoluteName("/" + name) == "/" + name;
  }

  /** A stored vector without a `timestamp` attribute reads back with time 0. */
  lemma MissingTimestampReadsZero(tr: Tree, h5file: string, name: string, fun: Field)
    requires h5file in tr && tr[h5file].Hdf5File?
    requires VectorName(name) in tr[h5file].container
    requires tr[h5file].container[VectorName(name)].payload == FieldData(fun)
    requires "timestamp" !in tr[h5file].container[VectorName(name)].attrs
    ensures ReadCheckpoint(tr, h5file, name) == Ok(Snapshot(fun, 0.0))
  {
  }

  // ------------------------------------------------------------------ read_mesh

  /**
   * A tag file is loaded as 'size_t' first and as 'int' only when that raised
   * a RuntimeError: whichever type it declares, it is loaded with that type.
   * A missing file is reported as FileNotFoundError, any other entry as RuntimeError.
   */
  function LoadTagFile(tr: Tree, path: string): (r: Result<MeshFunction, Error>)
    ensures r.Ok? <==> path in tr && tr[path].TagXml?
    ensures r.Ok? ==> r.value == MeshFunction(tr[path].file.declared, tr[path].file.dim, Loaded(tr[path].file.values))
    ensures r.Err? ==> r.error == (if path in tr then RuntimeError(path) else FileNotFound(path))
  {
    match LoadMeshFunction(tr, SizeT, path)
    case Err(RuntimeError(_)) => LoadMeshFunction(tr, Int, path)
    case other => other
  }

  /** An XML companion, with a missing file caught as FileNotFoundError and replaced by zeros. */
  function TagsOrZero(tr: Tree, path: string, zeroDim: int): Result<MeshFunction, Error>
  {
    match LoadTagFile(tr, path)
    case Err(FileNotFound(_)) => Ok(ZeroFunction(zeroDim))
    case other => other
  }

  /** The XML branch of `read_mesh`. */
  function ReadXml(tr: Tree, meshFile: string, rank: nat): (Result<MeshBundle, Error>, seq<Message>)
  {
    match OpenMesh(tr, meshFile)
    case Err(e) => (Err(e), [])
    case Ok(mesh) =>
      var pref := MeshPrefix(meshFile);
      match TagsOrZero(tr, SubdomainFile(pref), mesh.tdim)
      case Err(e) => (Err(e), [])
      case Ok(sd) =>
        var bdFile := BoundaryFile(pref);
        match TagsOrZero(tr, bdFile, mesh.tdim - 1)
        case Err(e) => (Err(e), [])
        case Ok(bd) =>
          (Ok(MeshBundle(mesh, sd, bd)), if bdFile !in tr && rank == 0 then [NoBoundaryFile(bdFile)] else [])
  }

  /** The HDF5 branch of `read_mesh`. */
  function ReadH5(tr: Tree, meshFile: string, rank: nat): (Result<MeshBundle, Error>, seq<Message>)
  {
    match OpenHdf5(tr, meshFile)
    case Err(e) => (Err(e), [])
    case Ok(c) =>
      match ReadMeshDataset(c, "/mesh")
      case Err(e) => (Err(e), [])
      case Ok(mesh) =>
        var sd0, bd0 := ZeroFunction(mesh.tdim), ZeroFunction(mesh.tdim - 1);
        var sd := if HasDataset(c, "subdomains") then ReadTags(sd0, c, "/subdomains") else Ok(sd0);
        var bd := if HasDataset(c, "boundaries") then ReadTags(bd0, c, "/boundaries") else Ok(bd0);
        if sd.Err? then (Err(sd.error), [])
        else if bd.Err? then (Err(bd.error), [])
        else (Ok(MeshBundle(mesh, sd.value, bd.value)),
              if !HasDataset(c, "boundaries") && rank == 0 then [NoBoundariesDataset(meshFile)] else [])
  }

  /** The XDMF branch of `read_mesh`: both tag maps are read without a presence check. */
  function ReadXdmf(tr: Tree, meshFile: string): Result<MeshBundle, Error>
  {
    match OpenXdmf(tr, meshFile)
    case Err(e) => Err(e)
    case Ok(x) =>
      var sd0 := MeshFunction(SizeT, x.mesh.tdim, Zero);
      var bd0 := MeshFunction(SizeT, x.mesh.tdim - 1, Zero);
      match XdmfReadTags(sd0, x)
      case Err(e) => Err(e)
      case Ok(sd) =>
        match XdmfReadTags(bd0, x)
        case Err(e) => Err(e)
        case Ok(bd) => Ok(MeshBundle(x.mesh, sd, bd))
  }

  /** `read_mesh(mesh_file)`, with the printed warnings; `rank` is the process's MPI rank. */
  function ReadMeshSpec(tr: Tree, meshFile: string, rank: nat): (Result<MeshBundle, Error>, seq<Message>)
  {
    var ext := FileType(meshFile);
    if ext == "xml" then ReadXml(tr, meshFile, rank)
    else if ext == "h5" then ReadH5(tr, meshFile, rank)
    else if ext == "xdmf" then (ReadXdmf(tr, meshFile), [])
    else (Err(UnsupportedFormat(ext)), [])
  }

  method ReadMesh(fs: FileSystem, meshFile: string, rank: nat) returns (r: Result<MeshBundle, Error>, log: seq<Message>)
    ensures (r, log) == ReadMeshSpec(fs.tree, meshFile, rank)
  {
    var tmp := Split(meshFile, '.');
    var fileType := tmp[|tmp| - 1];
    var meshPref := Join('.', tmp[..|tmp| - 1]);
    assert fileType == FileType(meshFile) && meshPref == MeshPrefix(meshFile);
    log := [];
    if fileType == "xml" {
      var m := OpenMesh(fs.tree, meshFile);
      if m.Err? {
        return Err(m.error), [];
      }
      var mesh := m.value;
      var subdomains: MeshFunction;
      var sdFile := SubdomainFile(meshPref);
      var sd := LoadMeshFunction(fs.tree, SizeT, sdFile);
      if sd.Ok? {
        subdomains := sd.value;
      } else if sd.error.RuntimeError? {
        var sdInt := LoadMeshFunction(fs.tree, Int, sdFile);
        if sdInt.Err? {
          return Err(sdInt.error), [];
        }
        subdomains := sdInt.value;
      } else {
        // FileNotFoundError
        subdomains := ZeroFunction(mesh.tdim);
      }
      assert TagsOrZero(fs.tree, sdFile, mesh.tdim) == Ok(subdomains);
      var boundaries: MeshFunction;
      var bdFile := BoundaryFile(meshPref);
      var bd := LoadMeshFunction(fs.tree, SizeT, bdFile);
      if bd.Ok? {
        boundaries := bd.value;
      } else if bd.error.RuntimeError? {
        var bdInt := LoadMeshFunction(fs.tree, Int, bdFile);
        if bdInt.Err? {
          return Err(bdInt.error), [];
        }
        boundaries := bdInt.value;
      } else {
        // FileNotFoundError
        if rank == 0 {
          log := [NoBoundaryFile(bdFile)];
        }
        boundaries := ZeroFunction(mesh.tdim - 1);
      }
      assert TagsOrZero(fs.tree, bdFile, mesh.tdim - 1) == Ok(boundaries);
      r := Ok(MeshBundle(mesh, subdomains, boundaries));
    } else if fileType == "h5" {
      var handle := OpenHdf5(fs.tree, meshFile);
      if handle.Err? {
        return Err(handle.error), [];
      }
      var hdf := handle.value;
      var m := ReadMeshDataset(hdf, "/mesh");
      if m.Err? {
        return Err(m.error), [];
      }
      var mesh := m.value;
      var subdomains := ZeroFunction(mesh.tdim);
      var boundaries := ZeroFunction(mesh.tdim - 1);
      if HasDataset(hdf, "subdomains") {
        var sd := ReadTags(subdomains, hdf, "/subdomains");
        if sd.Err? {
          return Err(sd.error), [];
        }
        subdomains := sd.value;
      }
      if HasDataset(hdf, "boundaries") {
        var bd := ReadTags(boundaries, hdf, "/boundaries");
        if bd.Err? {
          return Err(bd.error), [];
        }
        boundaries := bd.value;
      } else if rank == 0 {
        log := [NoBoundariesDataset(meshFile)];
      }
      r := Ok(MeshBundle(mesh, subdomains, boundaries));
    } else if fileType == "xdmf" {
      var handle := OpenXdmf(fs.tree, meshFile);
      if handle.Err? {
        return Err(handle.error), [];
      }
      var xf := handle.value;
      var mesh := xf.mesh;
      var subdomains := MeshFunction(SizeT, mesh.tdim, Zero);
      var boundaries := MeshFunction(SizeT, mesh.tdim - 1, Zero);
      var sd := XdmfReadTags(subdomains, xf);
      if sd.Err? {
        return Err(sd.error), [];
      }
      subdomains := sd.value;
      var bd := XdmfReadTags(boundaries, xf);
      if bd.Err? {
        return Err(bd.error), [];
      }
      boundaries := bd.value;
      r := Ok(MeshBundle(mesh, subdomains, boundaries));
      assert r == ReadXdmf(fs.tree, meshFile);
    } else {
      r := Err(UnsupportedFormat(fileType));
    }
  }

  // ------------------------------------------------------- properties of read_mesh

  /** A tag source that does not make the XML reader raise: absent, or a tag file. */
  predicate TagSourceUsable(tr: Tree, path: string)
  {
    path !in tr || tr[path].TagXml?
  }

  /** The tag map an XML companion should give: its own tags, or zeros over `zeroDim` when absent. */
  function ExpectedXmlTags(tr: Tree, path: string, zeroDim: int): MeshFunction
    requires TagSourceUsable(tr, path)
  {
    if path !in tr then ZeroFunction(zeroDim)
    else MeshFunction(tr[path].file.declared, tr[path].file.dim, Loaded(tr[path].file.values))
  }

  /**
   * An XML mesh is read exactly when the mesh file is a DOLFIN mesh and each
   * companion is absent or a tag file; the tags are then those of the
   * companions, with all-zero cell tags (dimension tdim) and facet tags
   * (dimension tdim - 1) for missing ones. The boundary warning is printed
   * exactly when the facet companion is missing and the rank is 0.
   */
  lemma ReadXmlOutcome(tr: Tree, meshFile: string, rank: nat)
    requires FileType(meshFile) == "xml"
    ensures var (r, log) := ReadMeshSpec(tr, meshFile, rank);
            var sdFile := SubdomainFile(MeshPrefix(meshFile));
            var bdFile := BoundaryFile(MeshPrefix(meshFile));
            (r.Ok? <==> OpenMesh(tr, meshFile).Ok? && TagSourceUsable(tr, sdFile) && TagSourceUsable(tr, bdFile)) &&
            (r.Ok? ==> var mesh := tr[meshFile].mesh;
                       r.value == MeshBundle(mesh, ExpectedXmlTags(tr, sdFile, mesh.tdim),
                                             ExpectedXmlTags(tr, bdFile, mesh.tdim - 1)) &&
                       log == (if bdFile !in tr && rank == 0 then [NoBoundaryFile(bdFile)] else [])) &&
            (r.Err? ==> log == [])
  {
  }

  /**
   * The scenario of a mesh whose cell-tag companion is missing while its
   * facet-tag companion exists: zero subdomains, the file's boundaries.
   */
  lemma XmlMissingSubdomainsOnly(tr: Tree, prefix: string, mesh: Mesh, facets: TagFile, rank: nat)
    requires prefix + ".xml" in tr && tr[prefix + ".xml"] == MeshXml(mesh)
    requires SubdomainFile(prefix) !in tr
    requires BoundaryFile(prefix) in tr && tr[BoundaryFile(prefix)] == TagXml(facets)
    ensures ReadMeshSpec(tr, prefix + ".xml", rank) ==
            (Ok(MeshBundle(mesh, ZeroFunction(mesh.tdim), MeshFunction(facets.declared, facets.dim, Loaded(facets.values)))), [])
  {
    ExtensionOf(prefix, "xml");
    assert prefix + "." + "xml" == prefix + ".xml";
    ReadXmlOutcome(tr, prefix + ".xml", rank);
  }

  /**
   * An HDF5 mesh is read when the container holds the mesh and any tag
   * dataset present holds tags; absent datasets leave all-zero maps, and the
   * warning is printed exactly when `boundaries` is absent and the rank is 0.
   */
  lemma ReadH5Outcome(tr: Tree, meshFile: string, rank: nat)
    requires FileType(meshFile) == "h5"
    requires meshFile in tr && tr[meshFile].Hdf5File?
    requires "/mesh" in tr[meshFile].container && tr[meshFile].container["/mesh"].payload.MeshData?
    ensures var c := tr[meshFile].container;
            var mesh := c["/mesh"].payload.mesh;
            var (r, log) := ReadMeshSpec(tr, meshFile, rank);
            (r.Ok? <==> ("/subdomains" in c ==> c["/subdomains"].payload.TagData?) &&
                        ("/boundaries" in c ==> c["/boundaries"].payload.TagData?)) &&
            (r.Ok? ==> r.value.mesh == mesh &&
                       r.value.subdomains == (if "/subdomains" in c then MeshFunction(SizeT, c["/subdomains"].payload.mf.dim, c["/subdomains"].payload.mf.tags)
                                              else ZeroFunction(mesh.tdim)) &&
                       r.value.boundaries == (if "/boundaries" in c then MeshFunction(SizeT, c["/boundaries"].payload.mf.dim, c["/boundaries"].payload.mf.tags)
                                              else ZeroFunction(mesh.tdim - 1)) &&
                       log == (if "/boundaries" !in c && rank == 0 then [NoBoundariesDataset(meshFile)] else []))
  {
    assert AbsoluteName("subdomains") == "/subdomains";
    assert AbsoluteName("boundaries") == "/boundaries";
  }

  /**
   * The XDMF reader has no presence check: a file lacking the cell or facet
   * tags makes `read_mesh` fail instead of falling back to zeros.
   */
  lemma XdmfTagsRequired(tr: Tree, meshFile: string, rank: nat)
    requires FileType(meshFile) == "xdmf"
    requires meshFile in tr && tr[meshFile].XdmfFile?
    ensures var x := tr[meshFile].data;
            var (r, log) := ReadMeshSpec(tr, meshFile, rank);
            var tdim := x.mesh.tdim;
            (r.Ok? <==> tdim in x.tags && tdim - 1 in x.tags) &&
            (r.Ok? ==> r.value == MeshBundle(x.mesh, MeshFunction(SizeT, tdim, x.tags[tdim]),
                                             MeshFunction(SizeT, tdim - 1, x.tags[tdim - 1]))) &&
            log == []
  {
  }

  /**
   * A path without '.' is its own extension, so it is rejected unless it is
   * literally one of the format names.
   */
  lemma DotlessPathRejected(tr: Tree, meshFile: string, rank: nat)
    requires '.' !in meshFile
    requires meshFile != "xml" && meshFile != "h5" && meshFile != "xdmf"
    ensures ReadMeshSpec(tr, meshFile, rank) == (Err(UnsupportedFormat(meshFile)), [])
  {
    NoDotPath(meshFile);
  }

  /** Any extension other than xml, h5 and xdmf raises, reading nothing and printing nothing. */
  lemma UnknownFormatRejected(tr: Tree, prefix: string, ext: string, rank: nat)
    requires '.' !in ext && ext != "xml" && ext != "h5" && ext != "xdmf"
    ensures ReadMeshSpec(tr, prefix + "." + ext, rank) == (Err(UnsupportedFormat(ext)), [])
  {
    ExtensionOf(prefix, ext);
  }
}
