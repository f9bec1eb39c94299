/**
 * A small model of the filesystem the repository works on: a tree mapping
 * each existing path to what is stored there, and the operating-system,
 * `shutil` and DOLFIN calls that read or change it.
 */
module Fs {
  import opened Wrappers
  import opened Text
  import opened Dolfin

  /** What a path holds. `Plain` is any file none of the readers can parse. */
  datatype Entry =
    | Directory
    | Plain
    | MeshXml(mesh: Mesh)
    | TagXml(file: TagFile)
    | Hdf5File(container: Container)
    | XdmfFile(data: XdmfData)

  type Tree = map<string, Entry>

  /** The proper directory prefixes of a path: every prefix that ends before a '/'. */
  function Ancestors(p: string): set<string>
  {
    set i | 0 < i < |p| && p[i] == '/' :: p[..i]
  }

  lemma AncestorsTransitive(p: string, a: string, b: string)
    requires a in Ancestors(p) && b in Ancestors(a)
    ensures b in Ancestors(p)
  {
    var i :| 0 < i < |p| && p[i] == '/' && a == p[..i];
    var j :| 0 < j < |a| && a[j] == '/' && b == a[..j];
    assert p[j] == '/' && b == p[..j];
  }

  predicate IsDir(t: Tree, p: string)
  {
    p in t && t[p].Directory?
  }

  /** Every directory above `p` exists. */
  predicate ParentsAreDirs(t: Tree, p: string)
  {
    forall a :: a in Ancestors(p) ==> IsDir(t, a)
  }

  /** The tree invariant: the empty path names nothing, and every directory above an existing path exists. */
  predicate WellFormed(t: Tree)
  {
    "" !in t && forall p :: p in t ==> ParentsAreDirs(t, p)
  }

  /** `os.makedirs(p)` (with `exist_ok=False`): the new tree and what it raised. */
  function MakeDirsSpec(t: Tree, p: string): (Outcome<Error>, Tree)
  {
    if p == "" then (Fail(FileNotFound(p)), t)
    else if p in t then (Fail(FileExists(p)), t)
    else if exists a :: a in Ancestors(p) && a in t && !t[a].Directory? then (Fail(NotADirectory(p)), t)
    else (Pass, t + map a | a in Ancestors(p) + {p} :: Directory)
  }

  /** os.makedirs keeps the tree invariant. */
  lemma MakeDirsWellFormed(t: Tree, p: string)
    requires WellFormed(t)
    ensures WellFormed(MakeDirsSpec(t, p).1)
  {
    var (o, t') := MakeDirsSpec(t, p);
    if o.Pass? {
      forall q | q in t' ensures ParentsAreDirs(t', q) {
        forall a | a in Ancestors(q) ensures IsDir(t', a) {
          if q in Ancestors(p) {
            AncestorsTransitive(p, q, a);
          } else if q != p {
            assert IsDir(t, a);
          }
        }
      }
    }
  }

  /** os.makedirs either fails and changes nothing, or creates `p` and its missing ancestors only. */
  lemma MakeDirsFrame(t: Tree, p: string)
    ensures var (o, t') := MakeDirsSpec(t, p);
            (o.Fail? ==> t' == t) &&
            (o.Pass? ==> p !in t && IsDir(t', p) && t'.Keys == t.Keys + Ancestors(p) + {p} &&
                         (forall a :: a in Ancestors(p) ==> IsDir(t', a)) &&
                         forall q :: q in t ==> t'[q] == t[q])
  {
  }

  /** `os.path.basename(p)`. */
  function Basename(p: string): string
  {
    p[LastIndex(p, '/') + 1..]
  }

  /** `os.path.join(a, b)` for a relative `b`. */
  function PathJoin(a: string, b: string): string
  {
    if |a| > 0 && a[|a| - 1] == '/' then a + b else a + "/" + b
  }

  /** Where `shutil.copy(src, dst)` writes. */
  function CopyTarget(t: Tree, src: string, dst: string): string
  {
    if IsDir(t, dst) then PathJoin(dst, Basename(src)) else dst
  }

  /** `shutil.copy(src, dst)`: the new tree and what it raised. */
  function CopySpec(t: Tree, src: string, dst: string): (Outcome<Error>, Tree)
  {
    var target := CopyTarget(t, src, dst);
    if src !in t then (Fail(FileNotFound(src)), t)
    else if t[src].Directory? then (Fail(IsADirectory(src)), t)
    else if target == src then (Fail(SameFile(src)), t)
    else if IsDir(t, target) then (Fail(IsADirectory(target)), t)
    else if target == "" || !ParentsAreDirs(t, target) then (Fail(FileNotFound(target)), t)
    else (Pass, t[target := t[src]])
  }

  /** shutil.copy keeps the tree invariant. */
  lemma CopyWellFormed(t: Tree, src: string, dst: string)
    requires WellFormed(t)
    ensures WellFormed(CopySpec(t, src, dst).1)
  {
    var (o, t') := CopySpec(t, src, dst);
    if o.Pass? {
      var target := CopyTarget(t, src, dst);
      forall q | q in t' ensures ParentsAreDirs(t', q) {
        forall a | a in Ancestors(q) ensures IsDir(t', a) {
          if q != target {
            assert IsDir(t, a);
          }
        }
      }
    }
  }

  /** `HDF5File(comm, p, 'w')`: truncates `p` to an empty container. */
  function CreateHdf5Spec(t: Tree, p: string): (Outcome<Error>, Tree)
  {
    if IsDir(t, p) then (Fail(IsADirectory(p)), t)
    else if p == "" || !ParentsAreDirs(t, p) then (Fail(FileNotFound(p)), t)
    else (Pass, t[p := Hdf5File(map[])])
  }

  /** Opening for writing keeps the tree invariant. */
  lemma CreateHdf5WellFormed(t: Tree, p: string)
    requires WellFormed(t)
    ensures WellFormed(CreateHdf5Spec(t, p).1)
  {
    var (o, t') := CreateHdf5Spec(t, p);
    if o.Pass? {
      forall q | q in t' ensures ParentsAreDirs(t', q) {
        forall a | a in Ancestors(q) ensures IsDir(t', a) {
          if q != p {
            assert IsDir(t, a);
          }
        }
      }
    }
  }

  /** `hdf.write(x, name)` into the open container at `p`. */
  function Hdf5PutSpec(t: Tree, p: string, name: string, d: Dataset): Tree
    requires p in t && t[p].Hdf5File?
  {
    t[p := Hdf5File(t[p].container[name := d])]
  }

  /** `Mesh(path)` on a DOLFIN XML mesh file. */
  function OpenMesh(t: Tree, path: string): (r: Result<Mesh, Error>)
    ensures r.Ok? <==> path in t && t[path].MeshXml?
    ensures r.Ok? ==> r.value == t[path].mesh
  {
    if path !in t then Err(FileNotFound(path))
    else if t[path].MeshXml? then Ok(t[path].mesh)
    else Err(RuntimeError(path))
  }

  /** `MeshFunction(vtype, mesh, path)` on a DOLFIN XML tag file. */
  function LoadMeshFunction(t: Tree, vtype: ValueType, path: string): (r: Result<MeshFunction, Error>)
    ensures r.Ok? <==> path in t && t[path].TagXml? && t[path].file.declared == vtype
    ensures r.Err? ==> r.error == (if path in t then RuntimeError(path) else FileNotFound(path))
    ensures r.Ok? ==> r.value == MeshFunction(vtype, t[path].file.dim, Loaded(t[path].file.values))
  {
    if path !in t then Err(FileNotFound(path))
    else if t[path].TagXml? && t[path].file.declared == vtype then
      Ok(MeshFunction(vtype, t[path].file.dim, Loaded(t[path].file.values)))
    else Err(RuntimeError(path))
  }

  /** `HDF5File(comm, path, 'r')`. */
  function OpenHdf5(t: Tree, path: string): (r: Result<Container, Error>)
    ensures r.Ok? <==> path in t && t[path].Hdf5File?
    ensures r.Ok? ==> r.value == t[path].container
  {
    if path !in t then Err(FileNotFound(path))
    else if t[path].Hdf5File? then Ok(t[path].container)
    else Err(RuntimeError(path))
  }

  /** `XDMFFile(path)` followed by `xf.read(mesh)`. */
  function OpenXdmf(t: Tree, path: string): (r: Result<XdmfData, Error>)
    ensures r.Ok? <==> path in t && t[path].XdmfFile?
    ensures r.Ok? ==> r.value == t[path].data
  {
    if path !in t then Err(FileNotFound(path))
    else if t[path].XdmfFile? then Ok(t[path].data)
    else Err(RuntimeError(path))
  }

  /** The filesystem as mutable state; each method is one call into the OS or the framework. */
  class FileSystem {
    var tree: Tree

    ghost predicate Valid()
      reads this
    {
      WellFormed(tree)
    }

    constructor (t: Tree)
      requires WellFormed(t)
      ensures Valid() && tree == t
    {
      tree := t;
    }

    method MakeDirs(p: string) returns (o: Outcome<Error>)
      requires Valid()
      modifies this
      ensures Valid()
      ensures (o, tree) == MakeDirsSpec(old(tree), p)
    {
      MakeDirsWellFormed(tree, p);
      var (o', t') := MakeDirsSpec(tree, p);
      o, tree := o', t';
    }

    method Copy(src: string, dst: string) returns (o: Outcome<Error>)
      requires Valid()
      modifies this
      ensures Valid()
      ensures (o, tree) == CopySpec(old(tree), src, dst)
    {
      CopyWellFormed(tree, src, dst);
      var (o', t') := CopySpec(tree, src, dst);
      o, tree := o', t';
    }

    method CreateHdf5(p: string) returns (o: Outcome<Error>)
      requires Valid()
      modifies this
      ensures Valid()
      ensures (o, tree) == CreateHdf5Spec(old(tree), p)
    {
      CreateHdf5WellFormed(tree, p);
      var (o', t') := CreateHdf5Spec(tree, p);
      o, tree := o', t';
    }

    method Hdf5Write(p: string, name: string, d: Dataset)
      requires Valid() && p in tree && tree[p].Hdf5File?
      modifies this
      ensures Valid()
      ensures tree == Hdf5PutSpec(old(tree), p, name, d)
    {
      tree := Hdf5PutSpec(tree, p, name, d);
      assert forall q :: q in old(tree) <==> q in tree;
      assert forall q :: q in tree && q != p ==> tree[q] == old(tree)[q];
    }
  }
}
