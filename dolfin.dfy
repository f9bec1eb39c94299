/**
 * The parts of the DOLFIN finite-element framework that the repository's
 * glue code touches, as opaque values: meshes, tag maps (MeshFunctions),
 * solution fields and the datasets of an HDF5 container.
 */
module Dolfin {
  import opened Wrappers

  /** A mesh is opaque; only its identity and topological dimension matter here. */
  datatype Mesh = Mesh(id: nat, tdim: nat)

  /** The value type a MeshFunction is created with ('size_t' or 'int'). */
  datatype ValueType = SizeT | Int

  /** The entries of a tag map: all zero, or loaded from a tag source. */
  datatype Tags = Zero | Loaded(values: seq<int>)

  /**
   * A per-entity tag map over the entities of dimension `dim`. The dimension
   * is an `int` because the source computes `tdim - 1` without a guard.
   */
  datatype MeshFunction = MeshFunction(vtype: ValueType, dim: int, tags: Tags)

  /** `MeshFunction('size_t', mesh, dim)`: an all-zero tag map. */
  function ZeroFunction(dim: int): MeshFunction
  {
    MeshFunction(SizeT, dim, Zero)
  }

  /** The degrees of freedom of a finite-element Function. */
  datatype Field = Field(values: seq<real>)

  /** What a dataset of an HDF5 container holds. */
  datatype Payload = MeshData(mesh: Mesh) | TagData(mf: MeshFunction) | FieldData(field: Field)

  /** A dataset: its payload and its attribute map. */
  datatype Dataset = Dataset(payload: Payload, attrs: map<string, real>)

  /** An HDF5 container: dataset name to dataset. */
  type Container = map<string, Dataset>

  /** A DOLFIN XML tag file, with the value type it declares. */
  datatype TagFile = TagFile(declared: ValueType, dim: int, values: seq<int>)

  /** An XDMF file: a mesh and the tag maps stored for each entity dimension. */
  datatype XdmfData = XdmfData(mesh: Mesh, tags: map<int, Tags>)

  /** The exceptions the modelled code raises or lets through. */
  datatype Error =
    | FileNotFound(path: string)
    | FileExists(path: string)
    | NotADirectory(path: string)
    | IsADirectory(path: string)
    | SameFile(path: string)
    | RuntimeError(what: string)
    | KeyError(key: string)
    | UnsupportedFormat(ext: string)
    | WrongSuffix(suffix: string)
    | SystemExit(message: string)

  /** HDF5 resolves a dataset name relative to the root group. */
  function AbsoluteName(name: string): (n: string)
    ensures |n| > 0 && n[0] == '/'
    ensures |name| > 0 && name[0] == '/' ==> n == name
    ensures !(|name| > 0 && name[0] == '/') ==> n == "/" + name
  {
    if |name| > 0 && name[0] == '/' then name else "/" + name
  }

  /** `hdf.has_dataset(name)`. */
  predicate HasDataset(c: Container, name: string)
  {
    AbsoluteName(name) in c
  }

  /** `hdf.read(mesh, name, False)`. */
  function ReadMeshDataset(c: Container, name: string): (r: Result<Mesh, Error>)
    ensures r.Ok? <==> AbsoluteName(name) in c && c[AbsoluteName(name)].payload.MeshData?
    ensures r.Ok? ==> r.value == c[AbsoluteName(name)].payload.mesh
  {
    var n := AbsoluteName(name);
    if n in c && c[n].payload.MeshData? then Ok(c[n].payload.mesh) else Err(RuntimeError(n))
  }

  /**
   * `hdf.read(mf, name)`: fills the MeshFunction `target` from a tag dataset;
   * the value type of `target` is kept.
   */
  function ReadTags(target: MeshFunction, c: Container, name: string): (r: Result<MeshFunction, Error>)
    ensures r.Ok? <==> AbsoluteName(name) in c && c[AbsoluteName(name)].payload.TagData?
    ensures r.Ok? ==> var stored := c[AbsoluteName(name)].payload.mf;
                      r.value == MeshFunction(target.vtype, stored.dim, stored.tags)
  {
    var n := AbsoluteName(name);
    if n in c && c[n].payload.TagData? then
      Ok(MeshFunction(target.vtype, c[n].payload.mf.dim, c[n].payload.mf.tags))
    else Err(RuntimeError(n))
  }

  /** `xf.read(mf)` on an XDMF file: fills `target` from the tags stored for its dimension. */
  function XdmfReadTags(target: MeshFunction, x: XdmfData): (r: Result<MeshFunction, Error>)
    ensures r.Ok? <==> target.dim in x.tags
    ensures r.Ok? ==> r.value == MeshFunction(target.vtype, target.dim, x.tags[target.dim])
  {
    if target.dim in x.tags then Ok(MeshFunction(target.vtype, target.dim, x.tags[target.dim]))
    else Err(RuntimeError("xdmf tags"))
  }
}
