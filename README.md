# chimera-common core, modelled in Dafny

chimera-common is a collection of helpers for finite-element simulations built on DOLFIN. This project models the repository's own logic and proves properties of it:

- mesh reading in both copies of the input/output module. The reader picks a mesh format from the extension, probes the subdomain and boundary companion files of an XML mesh, and falls back to all-zero tag maps.
- checkpoint writing and reading of solution fields in HDF5 containers.
- the XML→HDF5 mesh converter.
- cluster detection from the host name, mesh staging in `/dev/shm`, and the "create the directory unless it already exists" helper.
- the PGSE gradient pulse sequence.

The external world is a value. A `Tree` (module `Fs`) maps every existing path to what it holds:

- a directory,
- a DOLFIN XML mesh,
- an XML tag file,
- an HDF5 container (a map from dataset names to datasets with attributes),
- an XDMF file,
- any other file.

A `FileSystem` class holds that tree as mutable state. Its methods (`MakeDirs`, `Copy`, `CreateHdf5`, `Hdf5Write`) are the OS, `shutil` and DOLFIN calls the core makes. Each method is proved against a specification function over the tree.

The core's operations follow one pattern. Each one that changes files is a method whose body follows the Python statement by statement, proved equal to a specification function, such as `ConvertSpec`, `TryMkdirSpec` or `WriteCheckpointSpec`. Each read-only operation is a function. `read_mesh` and `read_HDF5_data` are also written as read-only methods, and each method is proved to return what its function gives. The properties are lemmas over those functions.

Host name, working directory and MPI rank are parameters. They stand for `platform.uname()[1]`, `os.getcwd()` and `mesh.mpi_comm().Get_rank()`. The printed messages are returned as a log.

Modules:

- `Wrappers`: `Option`, `Result`, `Outcome`.
- `Text`: Python's `str.split` and `str.join` on one character, and `rfind`.
- `Dolfin`: the framework values (mesh, mesh functions, fields, datasets) and the reads of HDF5 and XDMF data.
- `Fs`: the tree, its well-formedness invariant, and `os.makedirs`, `shutil.copy` and `HDF5File(..., 'w')` as specification functions with the `FileSystem` class.
- `MeshNames`: the extension and prefix that `read_mesh` derives from a path, and the companion names.
- `InOut`: `common/inout.py`.
- `LegacyInOut`: `inout.py`, the older copy.
- `Xml2Hdf5`: `common/xml2hdf5.py`.
- `Utils`: `common/utils.py` and `utils.py`. `on_cluster` and `trymkdir` are identical in both files.
- `PulseSequences`: `pulse_sequences.py`.

Two behaviours of the code are easy to misread:

- Off the cluster, `prep_mesh` returns the mesh name unchanged. It is not resolved against a local mesh directory.
- The newer `read_mesh` raises a generic exception for an unknown extension, and the older one calls `sys.exit`. No typed "unsupported format" error is raised; `UnsupportedFormat` and `SystemExit` only stand for those two exceptions.

## Model

| member | source | states |
|---|---|---|
| Text.Split | common/inout.py:56 | `str.split('.')` gives at least one piece, and no piece holds the separator |
| Text.JoinSplit | common/inout.py:56-58 | joining the pieces of a split with the same separator gives back the string |
| Text.SplitNoSep | common/inout.py:56 | a string without the separator splits into itself alone |
| Text.SplitSingle | common/inout.py:56 | the split has exactly one piece iff the separator does not occur |
| Text.SplitAround | common/inout.py:56 | splitting `a + sep + b` is the split of `a` followed by the split of `b` |
| Text.JoinSnoc | common/inout.py:58 | joining pieces plus one more is the join, the separator and the last piece |
| Text.LastIndex | common/xml2hdf5.py:30 | the index of the last occurrence of a character, or -1; nothing after it matches |
| MeshNames.ExtensionRoundTrip | common/inout.py:56-58 | for a path with a '.', the file type has no '.' and prefix + "." + file type is the path |
| MeshNames.NoDotPath | common/inout.py:56-58 | without a '.', the file type is the whole path and the prefix is empty |
| MeshNames.ExtensionOf | inout.py:56-58 | for a dot-free `ext`, the path `prefix.ext` has file type `ext` and prefix `prefix` |
| Dolfin.AbsoluteName | common/inout.py:96-100 | dataset names are taken relative to the root group: a name starting with '/' is kept and any other name gets '/' in front, so `subdomains` is `/subdomains` |
| Dolfin.ReadMeshDataset | common/inout.py:91 | `hdf.read(mesh, '/mesh')` succeeds iff that dataset holds a mesh, and yields it |
| Dolfin.ReadTags | common/inout.py:97 | `hdf.read(mf, name)` succeeds iff the dataset holds tags, and yields them with the target's value type |
| Dolfin.XdmfReadTags | common/inout.py:116-117 | `xf.read(mf)` succeeds iff the file stores tags for the target's dimension |
| Fs.MakeDirsFrame | common/utils.py:36 | `os.makedirs` either fails and changes nothing, or adds the path and its ancestors, all of them directories afterwards, and keeps every old entry |
| Fs.MakeDirsWellFormed | common/utils.py:36 | `os.makedirs` keeps every existing path's parents directories |
| Fs.CopyWellFormed | common/utils.py:24 | `shutil.copy` keeps the tree well formed |
| Fs.CreateHdf5WellFormed | common/inout.py:39 | opening an HDF5 file in 'w' mode keeps the tree well formed |
| Fs.OpenMesh | common/inout.py:61 | `Mesh(path)` succeeds iff the path is an XML mesh, and then yields the mesh stored there |
| Fs.LoadMeshFunction | common/inout.py:63-64 | `MeshFunction(type, mesh, path)` succeeds iff the path is a tag file declaring that type, and then yields that file's dimension and values with that type. Otherwise it raises FileNotFoundError when the path is absent and RuntimeError when it exists |
| Fs.OpenHdf5 | common/inout.py:18 | `HDF5File(comm, path, 'r')` succeeds iff the path is an HDF5 container, and then yields the container stored there |
| Fs.OpenXdmf | common/inout.py:110-111 | `XDMFFile(path)` succeeds iff the path is an XDMF file, and then yields the data stored there |
| InOut.WriteTruncates | common/inout.py:27-40 | `write_HDF5_data` succeeds iff the path is not a directory and its parents exist. Then the file holds that checkpoint alone: 'w' mode truncates. A failure changes nothing |
| InOut.WriteReadRoundTrip | common/inout.py:4-40 | after a successful write of `fun` at time `t` under `name`, `read_HDF5_data` of `name` yields `fun` and `t` |
| InOut.WriteReplacesPrior | common/inout.py:39-40 | after a write, reading any name of a different group (after resolving from the root) from that file fails |
| InOut.VectorNameInjective | common/inout.py:21-22 | two checkpoint names use the same `name/vector_0` dataset iff they name the same group from the root |
| InOut.RelativeNameReadsSameCheckpoint | common/inout.py:18-22 | reading the name `u` gives exactly what reading `/u` gives |
| InOut.MissingTimestampReadsZero | common/inout.py:20-22 | a stored vector of `fun` without a `timestamp` attribute reads back as `fun` at time 0 |
| InOut.WriteHdf5Data | common/inout.py:27-40 | the imperative writer opens in 'w' mode and writes the field, leaving the tree that the write specification gives, and keeps the tree well formed |
| InOut.ReadHdf5Data | common/inout.py:4-24 | the imperative reader returns exactly the specified checkpoint read |
| InOut.ReadMesh | common/inout.py:43-126 | the imperative reader dispatches on the file type as the source does, and its result and printed lines are those of the read specification |
| InOut.LoadTagFile | common/inout.py:62-67 | loading as 'size_t' and then, after a RuntimeError, as 'int' succeeds iff the path is a tag file, whatever type it declares. The error is FileNotFound for an absent path and RuntimeError otherwise |
| InOut.ReadXmlOutcome | common/inout.py:60-85 | an XML mesh is read iff the mesh loads and each companion is absent or a tag file. Absent companions give zeros of dimension tdim and tdim−1. The warning is printed iff the facet file is absent and the rank is 0. A failure prints nothing |
| InOut.XmlMissingSubdomainsOnly | common/inout.py:60-85 | with the cell-tag companion absent and the facet companion present, the result has zero subdomains and the companion's boundaries |
| InOut.ReadH5Outcome | common/inout.py:87-104 | an HDF5 mesh is read iff each tag dataset that is present holds tags. Present datasets are read as 'size_t' and absent ones give zeros. The warning is printed iff `boundaries` is absent and the rank is 0 |
| InOut.XdmfTagsRequired | common/inout.py:106-117 | an XDMF mesh is read iff the file stores tags of both dimensions: there is no fallback. The result is the stored mesh with those tags as 'size_t' maps, and nothing is printed |
| InOut.DotlessPathRejected | common/inout.py:56-57 | a path without '.' is its own file type, so it is rejected unless it is literally a format name |
| InOut.UnknownFormatRejected | common/inout.py:119-121 | any extension other than xml, h5 and xdmf raises, and nothing is printed |
| LegacyInOut.AgreesAtW | inout.py:4-21 | for the names `/w` and `w` the legacy checkpoint reader equals the corrected one on every tree |
| LegacyInOut.RoundTripFailsOffW | inout.py:17-18 | for any name whose group is not `/w`, a legacy write followed by a legacy read of that name raises, because `/w/vector_0` is not in the file |
| LegacyInOut.ReadHdf5Data | inout.py:4-21 | the imperative legacy reader returns exactly the as-written checkpoint read |
| LegacyInOut.WriteHdf5Data | inout.py:24-38 | the legacy writer has the same effect as the newer one: after success the file holds the checkpoint alone |
| LegacyInOut.H5BranchMatchesNewer | inout.py:80-99 | for an "h5" path the legacy `read_mesh` gives exactly what the newer one gives at rank 0 |
| LegacyInOut.ReadMesh | inout.py:41-112 | the imperative legacy reader returns the legacy read specification's result and printed lines |
| LegacyInOut.LegacyXmlOutcome | inout.py:60-79 | the legacy XML reader never fails once the mesh loads. A companion that is a 'size_t' tag file is loaded and anything else gives zeros. The warning is printed iff the facet tags fell back |
| LegacyInOut.IntTagsDrift | inout.py:64-71 | a cell-tag companion declaring 'int' is replaced by zeros in the legacy reader but loaded by the newer one |
| LegacyInOut.XdmfRefused | inout.py:103-105 | `.xdmf` and `.xmf` paths exit with "XDMF not supported yet. Use HDF5 instead!" |
| LegacyInOut.UnknownFormatRefused | inout.py:106-108 | any other unknown extension exits with "mesh format not recognized. try XML (serial) or HDF5" |
| Xml2Hdf5.XmlSuffixNames | common/xml2hdf5.py:21-30 | an input with suffix ".xml" is its stem path plus ".xml". The output is that stem path plus ".h5" and the companions are the stem path plus their suffixes |
| Xml2Hdf5.ConverterMatchesReader | common/xml2hdf5.py:30-56 | the converter and `read_mesh` agree: the input is an "xml" path with the same companions, and the output is an "h5" path with the same prefix |
| Xml2Hdf5.CompanionsAreNotOutput | common/xml2hdf5.py:30-56 | the output path differs from both companion paths |
| Xml2Hdf5.ConvertChecksFirst | common/xml2hdf5.py:14-33 | a missing input, a suffix other than ".xml" or a mesh that fails to load raises with the tree unchanged |
| Xml2Hdf5.TagStep | common/xml2hdf5.py:39-53 | one tag block changes at most the output file, which stays an HDF5 container |
| Xml2Hdf5.TagStepOutcome | common/xml2hdf5.py:39-53 | one tag block passes iff its companion is absent or a tag file. Then the output gains the companion's tags if it was found, and one line is printed. A failure prints nothing and changes nothing |
| Xml2Hdf5.TagBlocksOutcome | common/xml2hdf5.py:35-69 | both tag blocks change only the output and keep its other datasets. They pass iff each companion is absent or a tag file, and then add each found companion's tags and print one line per block |
| Xml2Hdf5.TagsAddedFrame | common/xml2hdf5.py:39-53 | what a tag block loads does not depend on what the output path held |
| Xml2Hdf5.BothTagsAdded | common/xml2hdf5.py:35-69 | after both blocks the output holds its old datasets plus `/subdomains` and `/boundaries` exactly for the companions found, with their tags |
| Xml2Hdf5.ConvertAfterOpen | common/xml2hdf5.py:25-69 | once the mesh is read and the output opened, `convert` is `/mesh` written into the fresh file, followed by the two tag blocks |
| Xml2Hdf5.H5ReadBack | common/xml2hdf5.py:30-69 | a file holding the mesh and each found companion's tags reads back through `read_mesh` as that mesh with the tags re-typed 'size_t', or zeros |
| Xml2Hdf5.ConvertFrame | common/xml2hdf5.py:8-69 | `convert` changes no path except its output |
| Xml2Hdf5.ConvertOutcome | common/xml2hdf5.py:27-69 | once the output is opened, `/mesh` holds the mesh. The conversion succeeds iff each companion is absent or a tag file. Then each tag dataset is written iff its companion exists, holding that companion's tags. The printed lines are fixed |
| Xml2Hdf5.ConvertPassed | common/xml2hdf5.py:14-32 | a successful conversion had an XML mesh with suffix ".xml" and could open its output |
| Xml2Hdf5.TagsReadBack | common/xml2hdf5.py:45-50 | a tag dataset written from a companion reads back as that companion's tags re-typed 'size_t' |
| Xml2Hdf5.ConvertedXmlReads | common/xml2hdf5.py:21-69 | the input of a successful conversion is an XML mesh that `read_mesh` reads, with its companions' tags or zeros |
| Xml2Hdf5.ConvertedH5Reads | common/xml2hdf5.py:30-69 | reading the output of a successful conversion gives the input's mesh and tags re-typed 'size_t' |
| Xml2Hdf5.WriteTagBlocks | common/xml2hdf5.py:35-69 | the imperative pair of tag blocks leaves the outcome, printed lines and tree that the tag-block specification gives |
| Xml2Hdf5.WriteTags | common/xml2hdf5.py:39-53 | one companion block: it is skipped with a message when the companion is missing, raises when the companion does not load, and otherwise is written to the output |
| Xml2Hdf5.Convert | common/xml2hdf5.py:8-69 | the imperative converter leaves the outcome, printed lines and tree that the conversion specification gives |
| Xml2Hdf5.ConvertThenRead | common/xml2hdf5.py:8-69 | after a successful conversion, `read_mesh` on the output gives the mesh and tags that `read_mesh` gives on the input, with 'int' tags read back as 'size_t' |
| Utils.Literal | common/utils.py:13 | literal atoms of a pattern stand character for character for the text |
| Utils.MatchPrefixIff | common/utils.py:13-14 | `re.match` of a sequence of atoms succeeds iff the string is at least as long and each atom matches the character at its position |
| Utils.OnClusterIff | common/utils.py:9-14 | `on_cluster` holds iff the host name starts with "leftraru" and a digit, or with "cn" and three digits |
| Utils.OnClusterPrefixOnly | utils.py:9-10 | only the start of the host name is matched: anything may follow a matching name |
| Utils.OnClusterRejectsShortNames | utils.py:9 | "leftraru", "leftraru-login" and "cn12" are not cluster nodes |
| Utils.PrepMesh | common/utils.py:17-29 | the imperative `prep_mesh` gives the result and tree of its specification and keeps the tree well formed |
| Utils.PrepMeshLocal | common/utils.py:17-29 | off the cluster, `prep_mesh` returns the mesh name unchanged and touches nothing |
| Utils.PrepMeshOnCluster | common/utils.py:18-24 | on the cluster, a failed copy changes nothing. Success means the source existed and the result is `/dev/shm/` + the name. Unless that is a directory, it then holds a copy of `cwd/` + the name and nothing else changes |
| Utils.TryMkdir | common/utils.py:32-39 | the imperative `trymkdir` calls `os.makedirs` and swallows the error only when the path is a directory, leaving the tree of its specification |
| Utils.TryMkdirMakesDir | common/utils.py:32-39 | after a successful `trymkdir` the path is a directory |
| Utils.TryMkdirIdempotent | utils.py:13-20 | on an existing directory `trymkdir` succeeds and changes nothing, so a second call repeats the first |
| Utils.TryMkdirFails | common/utils.py:35-39 | `trymkdir` raises iff the path is empty, exists as a non-directory, or is new below a non-directory ancestor. Then nothing changes |
| Utils.TryMkdirFrame | utils.py:13-20 | `trymkdir` keeps the tree well formed. Success adds only the path and its ancestors and keeps every old entry |
| PulseSequences.PGSE | pulse_sequences.py:4-11 | the gradient is 1, −1 or 0, and it is 1 iff `t < dt1` |
| PulseSequences.FirstLobeWins | pulse_sequences.py:6-7 | where the lobes overlap, the first lobe's +1 wins |
| PulseSequences.SecondLobe | pulse_sequences.py:6-9 | the gradient is −1 iff `t >= dt1` and `dt2 < t < dt1 + dt2` |
| PulseSequences.SecondLobeOpensStrictly | pulse_sequences.py:6-11 | with `dt2 >= dt1`, the gradient is 0 at `t = dt2` |
| PulseSequences.SecondLobeClosesStrictly | pulse_sequences.py:6-11 | with `dt2 >= 0`, the gradient is 0 at `t = dt1 + dt2` |
| PulseSequences.AfterEcho | pulse_sequences.py:10-11 | after both lobes the gradient is 0 |
| PulseSequences.Refocusing | pulse_sequences.py:4-11 | for `0 < t < dt1 <= dt2`, the gradient at `t + dt2` is the negation of the gradient at `t` |

## Left out

- YAML parameter files (`read_parameters`, `dump_parameters`, `print_parameters`), the git revision hash, the logger, the mesh-generation scripts and the solver scripts are not part of this model. They are thin wrappers over external libraries.
- MPI: every process is assumed to see the same files. Parallel HDF5 access and collective I/O are not modelled; the rank is only a parameter that decides whether a warning is printed.
- Host name, working directory and rank are parameters, for `platform.uname()[1]`, `os.getcwd()` and `get_rank()`. Printed messages are returned as a log.
- DOLFIN and HDF5 internals are not modelled: a mesh is an opaque value with a topological dimension. Tag files, datasets and fields are stored values, so the model covers no file encoding, no tag values checked against the mesh, and no floating-point data.
- A `MeshFunction` built from a dimension (`CellFunction`, `FacetFunction`, `MeshFunction('size_t', mesh, dim)`) is taken to hold zeros everywhere. For the constructor without an initial value, DOLFIN leaves the contents uninitialised.
- `hdf.read(mf, name)` and `xf.read(mf)` fill a mesh function in place, and `hdf.read(fun, name)` fills the field `fun` in place. The model returns the stored value instead (for a checkpoint, the stored field as the snapshot's field). So aliasing of the target, and the target field's function space, are not captured.
- A tag file or mesh file that exists but does not parse raises RuntimeError, as DOLFIN does. A missing tag file is taken to raise FileNotFoundError, which is what the handlers of the newer reader and of the converter catch.
- `Path.resolve()` in the converter is taken to raise FileNotFoundError exactly when the path does not exist. Its non-strict behaviour (it succeeds on missing paths) and symbolic links are not modelled. Paths are compared as strings, with no normalisation of `..`, `.` or repeated '/'. HDF5 dataset names get a leading '/' when they lack one, but repeated or trailing '/' in them are not normalised.
- Closing HDF5 and XDMF handles is not modelled. A 'w' open truncates at once, and a write that raises leaves what was already written.
- `shutil.copy` is modelled by where it writes and what it raises. Permissions, file metadata and symbolic links are not modelled.
- Dolfin.ReadTags: tag values are taken to be non-negative. Re-typing 'int' tags as 'size_t' (reading a stored map into a 'size_t' target, as the HDF5 readers and the converter's read-back do) is assumed to keep every value. Negative 'int' tags, which a 'size_t' mesh function cannot hold, are not modelled. So `ReadTags`, `InOut.ReadH5Outcome`, `Xml2Hdf5.TagsReadBack`, `Xml2Hdf5.H5ReadBack`, `Xml2Hdf5.ConvertedH5Reads` and `Xml2Hdf5.ConvertThenRead` describe the program only for non-negative tags.
- Utils.IsDigit: the regex `\d` is taken to match '0'..'9' only. Python also matches other Unicode decimal digits.
- Utils.PrepMeshOnCluster: when `/dev/shm/` + the mesh name is itself a directory, the contract states only that the result names that directory. It does not describe the file copied into it.
- PulseSequences.PGSE: times are mathematical reals; floating-point rounding at the lobe boundaries is not modelled.

## Findings

| source | as written | input that shows it | evidently intended | confidence | as-written member | corrected member |
|---|---|---|---|---|---|---|
| inout.py:17-18 | `read_HDF5_data` checks for `timestamp` on `name + '/vector_0'` but reads it from the fixed dataset `/w/vector_0` | a file written by `write_HDF5_data(h5file, comm, fun, "/u", 1.0)` and then read back with name "/u" (or any name whose group is not `/w`; "w" does work): the read raises because `/w/vector_0` does not exist | read the timestamp of `name + '/vector_0'`, as common/inout.py:21-22 does | not executed | LegacyInOut.RoundTripFailsOffW | InOut.WriteReadRoundTrip |
