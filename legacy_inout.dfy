/**
 * inout.py: the older copy of the input/output module. Its `read_mesh`
 * catches every exception of the XML tag loaders, hard-codes rank 0 and
 * refuses XDMF; its `read_HDF5_data` reads the timestamp of a fixed dataset.
 */
module LegacyInOut {
  import opened Wrappers
  import opened Text
  import opened Dolfin
  import opened Fs
  import opened MeshNames
  import opened InOut

  // ---------------------------------------------------------------- checkpoints

  /** The dataset whose timestamp the legacy reader returns, whatever `name` is. */
  const FixedVector := "/w/vector_0"

  /**
   * Legacy `read_HDF5_data` as written: the presence of `timestamp` is tested
   * on `name/vector_0`, but the value is taken from `/w/vector_0`.
   */
  function ReadCheckpointAsWritten(tr: Tree, h5file: string, name: string): Result<Snapshot, Error>
  {
    match OpenHdf5(tr, h5file)
    case Err(e) => Err(e)
    case Ok(c) =>
      var vn := VectorName(name);
      if vn !in c || !c[vn].payload.FieldData? then Err(RuntimeError(vn))
      else if "timestamp" !in c[vn].attrs then Ok(Snapshot(c[vn].payload.field, 0.0))
      else if FixedVector !in c then Err(RuntimeError(FixedVector))
      else if "timestamp" !in c[FixedVector].attrs then Err(KeyError("timestamp"))
      else Ok(Snapshot(c[vn].payload.field, c[FixedVector].attrs["timestamp"]))
  }

  method ReadHdf5Data(fs: FileSystem, h5file: string, name: string) returns (r: Result<Snapshot, Error>)
    ensures r == ReadCheckpointAsWritten(fs.tree, h5file, name)
  {
    var handle := OpenHdf5(fs.tree, h5file);
    if handle.Err? {
      return Err(handle.error);
    }
    var hdf := handle.value;
    var vn := VectorName(name);
    if vn !in hdf || !hdf[vn].payload.FieldData? {
      return Err(RuntimeError(vn));
    }
    var fun := hdf[vn].payload.field;
    var time := 0.0;
    if "timestamp" in hdf[vn].attrs {
      if FixedVector !in hdf {
        return Err(RuntimeError(FixedVector));
      }
      var attrs := hdf[FixedVector].attrs;
      if "timestamp" !in attrs {
        return Err(KeyError("timestamp"));
      }
      time := attrs["timestamp"];
    }
    r := Ok(Snapshot(fun, time));
  }

  /** Legacy `write_HDF5_data`: open in "w" mode, write, close; the same effect as the newer copy. */
  method WriteHdf5Data(fs: FileSystem, h5file: string, fun: Field, name: string, t: real := 0.0)
    returns (o: Outcome<Error>)
    requires fs.Valid()
    modifies fs
    ensures fs.Valid()
    ensures (o, fs.tree) == WriteCheckpointSpec(old(fs.tree), h5file, fun, name, t)
    ensures o.Pass? ==> fs.tree == old(fs.tree)[h5file := Hdf5File(Checkpoint(fun, name, t))]
  {
    o := fs.CreateHdf5(h5file);
    if o.Pass? {
      fs.Hdf5Write(h5file, VectorName(name), FieldRecord(fun, t));
    }
    WriteTruncates(old(fs.tree), h5file, fun, name, t);
  }

  /** For `/w`, or the relative `w`, the legacy reader agrees with the newer one on every tree. */
  lemma AgreesAtW(tr: Tree, h5file: string, name: string)
    requires AbsoluteName(name) == "/w"
    ensures ReadCheckpointAsWritten(tr, h5file, name) == ReadCheckpoint(tr, h5file, name)
  {
    assert VectorName(name) == FixedVector;
  }

  /**
   * For a name of any other group, a successful legacy write followed by a
   * legacy read of the same name raises, because `/w/vector_0` is not in the container.
   */
  lemma RoundTripFailsOffW(tr: Tree, h5file: string, fun: Field, name: string, t: real)
    requires WriteCheckpointSpec(tr, h5file, fun, name, t).0.Pass?
    requires AbsoluteName(name) != "/w"
    ensures ReadCheckpointAsWritten(WriteCheckpointSpec(tr, h5file, fun, name, t).1, h5file, name)
            == Err(RuntimeError(FixedVector))
  {
    WriteTruncates(tr, h5file, fun, name, t);
    assert FixedVector == VectorName("/w");
    VectorNameInjective(name, "/w");
  }

  // ------------------------------------------------------------------ read_mesh

  /** `try: MeshFunction('size_t', mesh, path) except: zero`: every failure gives zeros. */
  function TagsOrZeroAnyError(tr: Tree, path: string, zeroDim: int): MeshFunction
  {
    match LoadMeshFunction(tr, SizeT, path)
    case Ok(mf) => mf
    case Err(_) => ZeroFunction(zeroDim)
  }

  /** The XML branch; `rank = 0` is hard-coded, so the boundary warning is always printed. */
  function ReadXmlLegacy(tr: Tree, meshFile: string): (Result<MeshBundle, Error>, seq<Message>)
  {
    match OpenMesh(tr, meshFile)
    case Err(e) => (Err(e), [])
    case Ok(mesh) =>
      var pref := MeshPrefix(meshFile);
      var bdFile := BoundaryFile(pref);
      var sd := TagsOrZeroAnyError(tr, SubdomainFile(pref), mesh.tdim);
      var bd := TagsOrZeroAnyError(tr, bdFile, mesh.tdim - 1);
      (Ok(MeshBundle(mesh, sd, bd)), if LoadMeshFunction(tr, SizeT, bdFile).Err? then [NoBoundaryFile(bdFile)] else [])
  }

  const XdmfMessage := "XDMF not supported yet. Use HDF5 instead!"
  const UnknownMessage := "mesh format not recognized. try XML (serial) or HDF5"

  /** Legacy `read_mesh(mesh_file)`; its HDF5 branch is the newer one run at rank 0. */
  function ReadMeshSpec(tr: Tree, meshFile: string): (Result<MeshBundle, Error>, seq<Message>)
  {
    var ext := FileType(meshFile);
    if ext == "xml" then ReadXmlLegacy(tr, meshFile)
    else if ext == "h5" then ReadH5(tr, meshFile, 0)
    else if ext == "xdmf" || ext == "xmf" then (Err(SystemExit(XdmfMessage)), [])
    else (Err(SystemExit(UnknownMessage)), [])
  }

  /** The legacy HDF5 branch is the newer one as seen from rank 0, so the facts about `InOut.ReadH5` carry over. */
  lemma H5BranchMatchesNewer(tr: Tree, meshFile: string)
    requires FileType(meshFile) == "h5"
    ensures ReadMeshSpec(tr, meshFile) == InOut.ReadMeshSpec(tr, meshFile, 0)
  {
  }

  method ReadMesh(fs: FileSystem, meshFile: string) returns (r: Result<MeshBundle, Error>, log: seq<Message>)
    ensures (r, log) == ReadMeshSpec(fs.tree, meshFile)
  {
    var tmp := Split(meshFile, '.');
    var meshType := tmp[|tmp| - 1];
    var meshPref := Join('.', tmp[..|tmp| - 1]);
    assert meshType == FileType(meshFile) && meshPref == MeshPrefix(meshFile);
    log := [];
    if meshType == "xml" {
      var m := OpenMesh(fs.tree, meshFile);
      if m.Err? {
        return Err(m.error), [];
      }
      var mesh := m.value;
      var rank := 0;
      var subdomains: MeshFunction;
      var sd := LoadMeshFunction(fs.tree, SizeT, SubdomainFile(meshPref));
      if sd.Ok? {
        subdomains := sd.value;
      } else {
        subdomains := ZeroFunction(mesh.tdim);
      }
      var boundaries: MeshFunction;
      var bdFile := BoundaryFile(meshPref);
      var bd := LoadMeshFunction(fs.tree, SizeT, bdFile);
      if bd.Ok? {
        boundaries := bd.value;
      } else {
        if rank == 0 {
          log := [NoBoundaryFile(bdFile)];
        }
        boundaries := ZeroFunction(mesh.tdim - 1);
      }
      r := Ok(MeshBundle(mesh, subdomains, boundaries));
    } else if meshType == "h5" {
      var rank := 0;
      var handle := OpenHdf5(fs.tree, meshFile);
      if handle.Err? {
        return Err(handle.error), [];
      }
      var hdf := handle.value;
      var m := ReadMeshDataset(hdf, "/mesh");
      if m.Err? {
        return Err(m.error), [];
      }
      var mesh := m.value;
      var subdomains := ZeroFunction(mesh.tdim);
      var boundaries := ZeroFunction(mesh.tdim - 1);
      if HasDataset(hdf, "subdomains") {
        var sd := ReadTags(subdomains, hdf, "/subdomains");
        if sd.Err? {
          return Err(sd.error), [];
        }
        subdomains := sd.value;
      }
      if HasDataset(hdf, "boundaries") {
        var bd := ReadTags(boundaries, hdf, "/boundaries");
        if bd.Err? {
          return Err(bd.error), [];
        }
        boundaries := bd.value;
      } else if rank == 0 {
        log := [NoBoundariesDataset(meshFile)];
      }
      r := Ok(MeshBundle(mesh, subdomains, boundaries));
    } else if meshType == "xdmf" || meshType == "xmf" {
      r := Err(SystemExit(XdmfMessage));
    } else {
      r := Err(SystemExit(UnknownMessage));
    }
  }

  // ------------------------------------------------------- properties of read_mesh

  /** `path` holds a tag file that the 'size_t' constructor accepts. */
  predicate SizeTTagFile(tr: Tree, path: string)
  {
    path in tr && tr[path].TagXml? && tr[path].file.declared == SizeT
  }

  /**
   * The legacy XML reader never fails on a tag file: a companion that is a
   * 'size_t' tag file is loaded, and anything else (missing, 'int', not a tag
   * file) gives zeros; the warning is printed exactly when the facet tags fell back.
   */
  lemma LegacyXmlOutcome(tr: Tree, meshFile: string)
    requires FileType(meshFile) == "xml"
    requires meshFile in tr && tr[meshFile].MeshXml?
    ensures var mesh := tr[meshFile].mesh;
            var sdFile := SubdomainFile(MeshPrefix(meshFile));
            var bdFile := BoundaryFile(MeshPrefix(meshFile));
            var (r, log) := ReadMeshSpec(tr, meshFile);
            r.Ok? && r.value.mesh == mesh &&
            r.value.subdomains == (if SizeTTagFile(tr, sdFile) then MeshFunction(SizeT, tr[sdFile].file.dim, Loaded(tr[sdFile].file.values))
                                  else ZeroFunction(mesh.tdim)) &&
            r.value.boundaries == (if SizeTTagFile(tr, bdFile) then MeshFunction(SizeT, tr[bdFile].file.dim, Loaded(tr[bdFile].file.values))
                                  else ZeroFunction(mesh.tdim - 1)) &&
            log == (if SizeTTagFile(tr, bdFile) then [] else [NoBoundaryFile(bdFile)])
  {
  }

  /**
   * Where the two copies drift: a companion declaring 'int' is loaded by the
   * newer reader but silently replaced by zeros in the legacy one.
   */
  lemma IntTagsDrift(tr: Tree, meshFile: string, f: TagFile)
    requires FileType(meshFile) == "xml"
    requires meshFile in tr && tr[meshFile].MeshXml?
    requires f.declared == Int
    requires SubdomainFile(MeshPrefix(meshFile)) in tr && tr[SubdomainFile(MeshPrefix(meshFile))] == TagXml(f)
    ensures ReadMeshSpec(tr, meshFile).0.value.subdomains == ZeroFunction(tr[meshFile].mesh.tdim)
    ensures InOut.ReadMeshSpec(tr, meshFile, 0).0.Ok? ==>
            InOut.ReadMeshSpec(tr, meshFile, 0).0.value.subdomains == MeshFunction(Int, f.dim, Loaded(f.values))
  {
    LegacyXmlOutcome(tr, meshFile);
    InOut.ReadXmlOutcome(tr, meshFile, 0);
  }

  /** XDMF paths (`.xdmf` or `.xmf`) stop the program with "XDMF not supported yet". */
  lemma XdmfRefused(tr: Tree, prefix: string, ext: string)
    requires ext == "xdmf" || ext == "xmf"
    ensures ReadMeshSpec(tr, prefix + "." + ext) == (Err(SystemExit(XdmfMessage)), [])
  {
    MeshNames.ExtensionOf(prefix, ext);
  }

  /** Any other unknown extension stops the program with "mesh format not recognized". */
  lemma UnknownFormatRefused(tr: Tree, prefix: string, ext: string)
    requires '.' !in ext && ext !in {"xml", "h5", "xdmf", "xmf"}
    ensures ReadMeshSpec(tr, prefix + "." + ext) == (Err(SystemExit(UnknownMessage)), [])
  {
    MeshNames.ExtensionOf(prefix, ext);
  }
}
