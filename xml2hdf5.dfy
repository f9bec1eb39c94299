/**
 * common/xml2hdf5.py: `convert(infile)` turns a DOLFIN XML mesh, with its
 * optional subdomain and boundary tag companions, into one HDF5 container
 * next to it.
 */
module Xml2Hdf5 {
  import opened Wrappers
  import opened Text
  import opened Dolfin
  import opened Fs
  import MeshNames
  import InOut

  // ------------------------------------------------------------- pathlib names

  /** `Path(p).name`: the text after the last '/'. */
  function Name(p: string): string
  {
    p[LastIndex(p, '/') + 1..]
  }

  /** The directory part of `p`, up to and including the last '/'; `Path(p).parent / x` is `Parent(p) + x`. */
  function Parent(p: string): string
  {
    p[..LastIndex(p, '/') + 1]
  }

  /** `Path(p).suffix`: from the last '.' of the name, unless that '.' is its first or last character. */
  function Suffix(p: string): string
  {
    var n := Name(p);
    var i := LastIndex(n, '.');
    if 0 < i < |n| - 1 then n[i..] else ""
  }

  /** `Path(p).stem`: the name without its suffix. */
  function Stem(p: string): string
  {
    var n := Name(p);
    var i := LastIndex(n, '.');
    if 0 < i < |n| - 1 then n[..i] else n
  }

  /** `fin.parent / (fin.stem + '.h5')`. */
  function OutputPath(infile: string): string
  {
    Parent(infile) + Stem(infile) + ".h5"
  }

  /** `fin.parent / (fin.stem + '_physical_region.xml')`. */
  function SubdomainCompanion(infile: string): string
  {
    Parent(infile) + Stem(infile) + "_physical_region.xml"
  }

  /** `fin.parent / (fin.stem + '_facet_region.xml')`. */
  function BoundaryCompanion(infile: string): string
  {
    Parent(infile) + Stem(infile) + "_facet_region.xml"
  }

  /**
   * A path that passes the suffix check is its stem path plus ".xml"; the
   * output and both companions sit next to it, named after that stem path.
   */
  lemma XmlSuffixNames(infile: string)
    requires Suffix(infile) == ".xml"
    ensures |infile| >= 5
    ensures infile == infile[..|infile| - 4] + ".xml"
    ensures OutputPath(infile) == infile[..|infile| - 4] + ".h5"
    ensures SubdomainCompanion(infile) == infile[..|infile| - 4] + "_physical_region.xml"
    ensures BoundaryCompanion(infile) == infile[..|infile| - 4] + "_facet_region.xml"
  {
    var k := LastIndex(infile, '/') + 1;
    var n := Name(infile);
    var i := LastIndex(n, '.');
    assert n == infile[k..] && Parent(infile) == infile[..k];
    assert 0 < i < |n| - 1 && Suffix(infile) == n[i..];
    assert |n| == i + 4 && n[i..] == ".xml";
    assert Stem(infile) == n[..i];
    var stemPath := infile[..|infile| - 4];
    assert |infile| - 4 == k + i;
    assert stemPath == Parent(infile) + Stem(infile) by {
      assert infile[..k + i] == infile[..k] + infile[k..][..i];
    }
    assert infile == stemPath + ".xml" by {
      assert infile[k + i..] == n[i..];
      assert infile == infile[..k + i] + infile[k + i..];
    }
  }

  /**
   * The converter and `read_mesh` agree on names: an input accepted by the
   * converter is an "xml" path for `read_mesh` with the same companions, and
   * the output is an "h5" path with the same prefix.
   */
  lemma ConverterMatchesReader(infile: string)
    requires Suffix(infile) == ".xml"
    ensures MeshNames.FileType(infile) == "xml"
    ensures MeshNames.SubdomainFile(MeshNames.MeshPrefix(infile)) == SubdomainCompanion(infile)
    ensures MeshNames.BoundaryFile(MeshNames.MeshPrefix(infile)) == BoundaryCompanion(infile)
    ensures MeshNames.FileType(OutputPath(infile)) == "h5"
    ensures MeshNames.MeshPrefix(OutputPath(infile)) == MeshNames.MeshPrefix(infile)
  {
    XmlSuffixNames(infile);
    var stemPath := infile[..|infile| - 4];
    assert infile == stemPath + "." + "xml";
    assert OutputPath(infile) == stemPath + "." + "h5";
    MeshNames.ExtensionOf(stemPath, "xml");
    MeshNames.ExtensionOf(stemPath, "h5");
  }

  // ------------------------------------------------------------------- convert

  /** The progress lines `convert` prints. */
  datatype Message =
    | ReadingMesh(path: string)
    | WritingMesh(path: string)
    | WritingSubdomainTags
    | NoSubdomainTags
    | WritingBoundaryTags
    | NoBoundaryTags

  /** What a call of `convert` leaves behind. */
  datatype Conversion = Conversion(outcome: Outcome<Error>, log: seq<Message>, tree: Tree)

  /** One optional tag block: skipped when the companion is not found, written when it loads. */
  function TagStep(tr: Tree, fout: string, companion: string, dataset: string,
                   writing: Message, missing: Message): (r: (Outcome<Error>, seq<Message>, Tree))
    requires fout in tr && tr[fout].Hdf5File?
    ensures fout in r.2 && r.2[fout].Hdf5File? && r.2 == tr[fout := r.2[fout]]
  {
    if companion !in tr then (Pass, [missing], tr)
    else match InOut.LoadTagFile(tr, companion)
      case Err(e) => (Fail(e), [], tr)
      case Ok(mf) => (Pass, [writing], Hdf5PutSpec(tr, fout, dataset, Dataset(TagData(mf), map[])))
  }

  /** `convert(infile)`. Exceptions after the output is opened leave what was written so far. */
  function ConvertSpec(tr: Tree, infile: string): Conversion
  {
    if infile !in tr then Conversion(Fail(FileNotFound(infile)), [], tr)
    else if Suffix(infile) != ".xml" then Conversion(Fail(WrongSuffix(Suffix(infile))), [], tr)
    else
      var log0 := [ReadingMesh(infile)];
      match OpenMesh(tr, infile)
      case Err(e) => Conversion(Fail(e), log0, tr)
      case Ok(mesh) =>
        var fout := OutputPath(infile);
        var log1 := log0 + [WritingMesh(fout)];
        var (created, tr1) := CreateHdf5Spec(tr, fout);
        if created.Fail? then Conversion(created, log1, tr1)
        else
          var tr2 := Hdf5PutSpec(tr1, fout, "/mesh", Dataset(MeshData(mesh), map[]));
          TagBlocks(tr2, fout, SubdomainCompanion(infile), BoundaryCompanion(infile), log1)
  }

  /** The two `try` blocks of `convert`, on the open output `fout`, after the lines `log` were printed. */
  function TagBlocks(tr: Tree, fout: string, sdFile: string, bdFile: string, log: seq<Message>): Conversion
    requires fout in tr && tr[fout].Hdf5File?
  {
    var (o3, log3, tr3) := TagStep(tr, fout, sdFile, "/subdomains", WritingSubdomainTags, NoSubdomainTags);
    if o3.Fail? then Conversion(o3, log + log3, tr3)
    else
      var (o4, log4, tr4) := TagStep(tr3, fout, bdFile, "/boundaries", WritingBoundaryTags, NoBoundaryTags);
      Conversion(o4, log + log3 + log4, tr4)
  }

  /**
   * One `try` block of `convert`: the companion is probed, loaded as 'size_t'
   * or else 'int', and written to `dataset` of the open output.
   */
  method WriteTags(fs: FileSystem, fout: string, companion: string, dataset: string,
                   writing: Message, missing: Message) returns (o: Outcome<Error>, log: seq<Message>)
    requires fs.Valid() && fout in fs.tree && fs.tree[fout].Hdf5File?
    modifies fs
    ensures fs.Valid()
    ensures (o, log, fs.tree) == TagStep(old(fs.tree), fout, companion, dataset, writing, missing)
    ensures fout in fs.tree && fs.tree[fout].Hdf5File?
  {
    if companion !in fs.tree {
      return Pass, [missing];
    }
    var tags := InOut.LoadTagFile(fs.tree, companion);
    if tags.Err? {
      return Fail(tags.error), [];
    }
    fs.Hdf5Write(fout, dataset, Dataset(TagData(tags.value), map[]));
    o, log := Pass, [writing];
  }

  /** Both `try` blocks of `convert`, on the open output `fout`, continuing the printed lines `log0`. */
  method WriteTagBlocks(fs: FileSystem, fout: string, sdFile: string, bdFile: string, log0: seq<Message>)
    returns (o: Outcome<Error>, log: seq<Message>)
    requires fs.Valid() && fout in fs.tree && fs.tree[fout].Hdf5File?
    modifies fs
    ensures fs.Valid()
    ensures Conversion(o, log, fs.tree) == TagBlocks(old(fs.tree), fout, sdFile, bdFile, log0)
  {
    var subdomainLog, boundaryLog;
    o, subdomainLog := WriteTags(fs, fout, sdFile, "/subdomains", WritingSubdomainTags, NoSubdomainTags);
    log := log0 + subdomainLog;
    if o.Fail? {
      return;
    }
    o, boundaryLog := WriteTags(fs, fout, bdFile, "/boundaries", WritingBoundaryTags, NoBoundaryTags);
    log := log + boundaryLog;
  }

  method Convert(fs: FileSystem, infile: string) returns (o: Outcome<Error>, log: seq<Message>)
    requires fs.Valid()
    modifies fs
    ensures fs.Valid()
    ensures Conversion(o, log, fs.tree) == ConvertSpec(old(fs.tree), infile)
  {
    var fin := infile;
    log := [];
    if fin !in fs.tree {
      return Fail(FileNotFound(fin)), log;
    }
    if Suffix(fin) != ".xml" {
      return Fail(WrongSuffix(Suffix(fin))), log;
    }
    log := log + [ReadingMesh(fin)];
    var m := OpenMesh(fs.tree, fin);
    if m.Err? {
      return Fail(m.error), log;
    }
    var mesh := m.value;
    var fout := OutputPath(fin);
    log := log + [WritingMesh(fout)];
    o := fs.CreateHdf5(fout);
    if o.Fail? {
      return;
    }
    fs.Hdf5Write(fout, "/mesh", Dataset(MeshData(mesh), map[]));
    ConvertAfterOpen(old(fs.tree), fin);
    assert fs.tree == old(fs.tree)[fout := Hdf5File(map["/mesh" := Dataset(MeshData(mesh), map[])])];
    assert log == [ReadingMesh(fin), WritingMesh(fout)];
    o, log := WriteTagBlocks(fs, fout, SubdomainCompanion(fin), BoundaryCompanion(fin), log);
  }

  // ---------------------------------------------------- properties of convert

  /** The output and the companions are different paths. */
  lemma CompanionsAreNotOutput(infile: string)
    ensures SubdomainCompanion(infile) != OutputPath(infile)
    ensures BoundaryCompanion(infile) != OutputPath(infile)
  {
    var p := Parent(infile) + Stem(infile);
    assert SubdomainCompanion(infile)[|p|] == '_' && OutputPath(infile)[|p|] == '.';
    assert BoundaryCompanion(infile)[|p|] == '_';
  }

  /**
   * Nothing is read or written before the checks: a missing input or a
   * suffix other than ".xml" raises with the tree untouched, and so does a
   * mesh that does not load, since the output is opened only after the mesh is read.
   */
  lemma ConvertChecksFirst(tr: Tree, infile: string)
    ensures var conv := ConvertSpec(tr, infile);
            (infile !in tr ==> conv == Conversion(Fail(FileNotFound(infile)), [], tr)) &&
            (infile in tr && Suffix(infile) != ".xml" ==> conv == Conversion(Fail(WrongSuffix(Suffix(infile))), [], tr)) &&
            (OpenMesh(tr, infile).Err? ==> conv.outcome.Fail? && conv.tree == tr)
  {
  }

  /** `convert` changes no path but its output. */
  lemma ConvertFrame(tr: Tree, infile: string)
    ensures var tr' := ConvertSpec(tr, infile).tree;
            tr' == tr || (OutputPath(infile) in tr' && tr' == tr[OutputPath(infile) := tr'[OutputPath(infile)]])
  {
    var fout := OutputPath(infile);
    if infile in tr && Suffix(infile) == ".xml" && OpenMesh(tr, infile).Ok? && CreateHdf5Spec(tr, fout).0.Pass? {
      var tr2 := Hdf5PutSpec(CreateHdf5Spec(tr, fout).1, fout, "/mesh", Dataset(MeshData(tr[infile].mesh), map[]));
      assert tr2 == tr[fout := tr2[fout]];
      CompanionsAreNotOutput(infile);
      TagBlocksOutcome(tr2, fout, SubdomainCompanion(infile), BoundaryCompanion(infile), [ReadingMesh(infile), WritingMesh(fout)]);
    }
  }

  /**
   * Once the mesh is read and the output opened, `/mesh` is always written.
   * The conversion succeeds exactly when each companion is either not found
   * or a tag file, and then `/subdomains` and `/boundaries` are written each
   * exactly when its own companion is found, holding that companion's tags
   * (loaded as 'size_t', else as 'int').
   */
  lemma ConvertOutcome(tr: Tree, infile: string)
    requires infile in tr && Suffix(infile) == ".xml" && tr[infile].MeshXml?
    requires CreateHdf5Spec(tr, OutputPath(infile)).0.Pass?
    ensures var conv := ConvertSpec(tr, infile);
            var fout := OutputPath(infile);
            var sdFile, bdFile := SubdomainCompanion(infile), BoundaryCompanion(infile);
            fout in conv.tree && conv.tree[fout].Hdf5File? &&
            var c := conv.tree[fout].container;
            "/mesh" in c && c["/mesh"] == Dataset(MeshData(tr[infile].mesh), map[]) &&
            (conv.outcome.Pass? <==> InOut.TagSourceUsable(tr, sdFile) && InOut.TagSourceUsable(tr, bdFile)) &&
            (conv.outcome.Pass? ==>
               c.Keys == {"/mesh"} + (if sdFile in tr then {"/subdomains"} else {})
                                   + (if bdFile in tr then {"/boundaries"} else {}) &&
               (sdFile in tr ==> c["/subdomains"] == Dataset(TagData(InOut.LoadTagFile(tr, sdFile).value), map[])) &&
               (bdFile in tr ==> c["/boundaries"] == Dataset(TagData(InOut.LoadTagFile(tr, bdFile).value), map[])) &&
               conv.log == [ReadingMesh(infile), WritingMesh(fout),
                            if sdFile in tr then WritingSubdomainTags else NoSubdomainTags,
                            if bdFile in tr then WritingBoundaryTags else NoBoundaryTags])
  {
    var fout := OutputPath(infile);
    var sdFile, bdFile := SubdomainCompanion(infile), BoundaryCompanion(infile);
    var log1 := [ReadingMesh(infile), WritingMesh(fout)];
    var c2 := map["/mesh" := Dataset(MeshData(tr[infile].mesh), map[])];
    var tr2 := tr[fout := Hdf5File(c2)];
    CompanionsAreNotOutput(infile);
    ConvertAfterOpen(tr, infile);
    TagBlocksOutcome(tr2, fout, sdFile, bdFile, log1);
    TagsAddedFrame(tr, fout, Hdf5File(c2), sdFile, c2, "/subdomains");
    TagsAddedFrame(tr, fout, Hdf5File(c2), bdFile, c2, "/boundaries");
    var conv := TagBlocks(tr2, fout, sdFile, bdFile, log1);
    var c := conv.tree[fout].container;
    assert c2.Keys == {"/mesh"};
    assert "/mesh" in c2 && tr2[fout].container == c2;
    if conv.outcome.Pass? {
      var c3 := TagsAdded(c2, tr, sdFile, "/subdomains");
      TagsAddedFrame(tr, fout, Hdf5File(c2), bdFile, c3, "/boundaries");
      assert c == TagsAdded(c3, tr, bdFile, "/boundaries");
      BothTagsAdded(c2, tr, sdFile, bdFile);
      assert conv.log == log1 + [if sdFile in tr then WritingSubdomainTags else NoSubdomainTags,
                                 if bdFile in tr then WritingBoundaryTags else NoBoundaryTags];
    }
  }

  /** Once the mesh is read and the output opened, `convert` writes `/mesh` and runs the two tag blocks. */
  lemma ConvertAfterOpen(tr: Tree, infile: string)
    requires infile in tr && Suffix(infile) == ".xml" && tr[infile].MeshXml?
    requires CreateHdf5Spec(tr, OutputPath(infile)).0.Pass?
    ensures var fout := OutputPath(infile);
            ConvertSpec(tr, infile) ==
            TagBlocks(tr[fout := Hdf5File(map["/mesh" := Dataset(MeshData(tr[infile].mesh), map[])])], fout,
                      SubdomainCompanion(infile), BoundaryCompanion(infile), [ReadingMesh(infile), WritingMesh(fout)])
  {
    var fout := OutputPath(infile);
    assert Hdf5PutSpec(CreateHdf5Spec(tr, fout).1, fout, "/mesh", Dataset(MeshData(tr[infile].mesh), map[]))
        == tr[fout := Hdf5File(map["/mesh" := Dataset(MeshData(tr[infile].mesh), map[])])];
  }

  /** A tag block does not depend on what the output path held. */
  lemma TagsAddedFrame(tr: Tree, p: string, e: Entry, companion: string, c: Container, dataset: string)
    requires companion != p
    ensures InOut.TagSourceUsable(tr[p := e], companion) == InOut.TagSourceUsable(tr, companion)
    ensures companion in tr[p := e] <==> companion in tr
    ensures InOut.TagSourceUsable(tr, companion) ==>
            TagsAdded(c, tr[p := e], companion, dataset) == TagsAdded(c, tr, companion, dataset)
  {
    if companion in tr {
      assert InOut.LoadTagFile(tr[p := e], companion) == InOut.LoadTagFile(tr, companion);
    }
  }

  /** After both tag blocks the output holds its old datasets plus the tags of each companion found. */
  lemma BothTagsAdded(c: Container, tr: Tree, sdFile: string, bdFile: string)
    requires InOut.TagSourceUsable(tr, sdFile) && InOut.TagSourceUsable(tr, bdFile)
    ensures var c' := TagsAdded(TagsAdded(c, tr, sdFile, "/subdomains"), tr, bdFile, "/boundaries");
            c'.Keys == c.Keys + (if sdFile in tr then {"/subdomains"} else {})
                              + (if bdFile in tr then {"/boundaries"} else {}) &&
            (sdFile in tr ==> c'["/subdomains"] == Dataset(TagData(InOut.LoadTagFile(tr, sdFile).value), map[])) &&
            (bdFile in tr ==> c'["/boundaries"] == Dataset(TagData(InOut.LoadTagFile(tr, bdFile).value), map[])) &&
            forall k :: k in c && k != "/subdomains" && k != "/boundaries" ==> c'[k] == c[k]
  {
  }

  /** The container `c` after a tag block: `dataset` holds the companion's tags if the companion was found. */
  function TagsAdded(c: Container, tr: Tree, companion: string, dataset: string): Container
    requires InOut.TagSourceUsable(tr, companion)
  {
    if companion in tr then c[dataset := Dataset(TagData(InOut.LoadTagFile(tr, companion).value), map[])] else c
  }

  /**
   * One tag block: it passes exactly when the companion is not found or is a
   * tag file; then the output gains the companion's tags under `dataset` if
   * it was found, and the block prints one line. A failure changes nothing.
   */
  lemma TagStepOutcome(tr: Tree, fout: string, companion: string, dataset: string, writing: Message, missing: Message)
    requires fout in tr && tr[fout].Hdf5File? && companion != fout
    ensures var (o, log, tr') := TagStep(tr, fout, companion, dataset, writing, missing);
            (o.Pass? <==> InOut.TagSourceUsable(tr, companion)) &&
            (o.Fail? ==> log == [] && tr' == tr) &&
            (o.Pass? ==> log == [if companion in tr then writing else missing] &&
                         tr' == tr[fout := Hdf5File(TagsAdded(tr[fout].container, tr, companion, dataset))])
  {
    if companion !in tr {
      assert tr[fout := Hdf5File(tr[fout].container)] == tr;
    }
  }

  /**
   * Both tag blocks: they change only the output, pass exactly when each
   * companion is not found or a tag file, and then add each found
   * companion's tags and print one line per block.
   */
  lemma TagBlocksOutcome(tr: Tree, fout: string, sdFile: string, bdFile: string, log: seq<Message>)
    requires fout in tr && tr[fout].Hdf5File? && sdFile != fout && bdFile != fout
    ensures var conv := TagBlocks(tr, fout, sdFile, bdFile, log);
            fout in conv.tree && conv.tree[fout].Hdf5File? && conv.tree == tr[fout := conv.tree[fout]] &&
            (forall k :: k in tr[fout].container && k != "/subdomains" && k != "/boundaries" ==>
                         k in conv.tree[fout].container && conv.tree[fout].container[k] == tr[fout].container[k]) &&
            (conv.outcome.Pass? <==> InOut.TagSourceUsable(tr, sdFile) && InOut.TagSourceUsable(tr, bdFile)) &&
            (conv.outcome.Pass? ==>
               conv.tree[fout].container ==
                 TagsAdded(TagsAdded(tr[fout].container, tr, sdFile, "/subdomains"), tr, bdFile, "/boundaries") &&
               conv.log == log + [if sdFile in tr then WritingSubdomainTags else NoSubdomainTags,
                                  if bdFile in tr then WritingBoundaryTags else NoBoundaryTags])
  {
    TagStepOutcome(tr, fout, sdFile, "/subdomains", WritingSubdomainTags, NoSubdomainTags);
    var (o3, log3, tr3) := TagStep(tr, fout, sdFile, "/subdomains", WritingSubdomainTags, NoSubdomainTags);
    if o3.Pass? {
      TagStepOutcome(tr3, fout, bdFile, "/boundaries", WritingBoundaryTags, NoBoundaryTags);
      assert InOut.TagSourceUsable(tr3, bdFile) == InOut.TagSourceUsable(tr, bdFile);
      if InOut.TagSourceUsable(tr, bdFile) {
        assert InOut.LoadTagFile(tr3, bdFile) == InOut.LoadTagFile(tr, bdFile);
      }
    }
  }

  /** A mesh bundle with both tag maps re-typed as 'size_t', as reading them from HDF5 does. */
  function StoredAsSizeT(b: InOut.MeshBundle): InOut.MeshBundle
  {
    InOut.MeshBundle(b.mesh, b.subdomains.(vtype := SizeT), b.boundaries.(vtype := SizeT))
  }

  /**
   * What the converter is for: after a successful conversion, `read_mesh`
   * on the HDF5 output gives the mesh and tags that `read_mesh` gives on the
   * XML input (zeros where a companion was missing), with 'int' tags read back as 'size_t'.
   */
  lemma ConvertThenRead(tr: Tree, infile: string, rank: nat)
    requires ConvertSpec(tr, infile).outcome.Pass?
    ensures var xml := InOut.ReadMeshSpec(tr, infile, rank).0;
            var h5 := InOut.ReadMeshSpec(ConvertSpec(tr, infile).tree, OutputPath(infile), rank).0;
            xml.Ok? && h5 == Ok(StoredAsSizeT(xml.value))
  {
    ConvertedXmlReads(tr, infile, rank);
    ConvertedH5Reads(tr, infile, rank);
  }

  /** The input of a successful conversion is a readable XML mesh. */
  lemma ConvertedXmlReads(tr: Tree, infile: string, rank: nat)
    requires ConvertSpec(tr, infile).outcome.Pass?
    ensures infile in tr && tr[infile].MeshXml?
    ensures InOut.TagSourceUsable(tr, SubdomainCompanion(infile)) && InOut.TagSourceUsable(tr, BoundaryCompanion(infile))
    ensures var mesh := tr[infile].mesh;
            InOut.ReadMeshSpec(tr, infile, rank).0 ==
            Ok(InOut.MeshBundle(mesh, InOut.ExpectedXmlTags(tr, SubdomainCompanion(infile), mesh.tdim),
                                InOut.ExpectedXmlTags(tr, BoundaryCompanion(infile), mesh.tdim - 1)))
  {
    ConverterMatchesReader(infile);
    ConvertPassed(tr, infile);
    ConvertOutcome(tr, infile);
    InOut.ReadXmlOutcome(tr, infile, rank);
  }

  /** The output of a successful conversion reads back as the input's tags re-typed 'size_t'. */
  lemma ConvertedH5Reads(tr: Tree, infile: string, rank: nat)
    requires ConvertSpec(tr, infile).outcome.Pass?
    ensures infile in tr && tr[infile].MeshXml?
    ensures InOut.TagSourceUsable(tr, SubdomainCompanion(infile)) && InOut.TagSourceUsable(tr, BoundaryCompanion(infile))
    ensures var mesh := tr[infile].mesh;
            InOut.ReadMeshSpec(ConvertSpec(tr, infile).tree, OutputPath(infile), rank).0 ==
            Ok(InOut.MeshBundle(mesh, InOut.ExpectedXmlTags(tr, SubdomainCompanion(infile), mesh.tdim).(vtype := SizeT),
                                InOut.ExpectedXmlTags(tr, BoundaryCompanion(infile), mesh.tdim - 1).(vtype := SizeT)))
  {
    ConvertPassed(tr, infile);
    var conv := ConvertSpec(tr, infile);
    var fout := OutputPath(infile);
    var sdFile, bdFile := SubdomainCompanion(infile), BoundaryCompanion(infile);
    assert MeshNames.FileType(fout) == "h5" by {
      ConverterMatchesReader(infile);
    }
    assert fout in conv.tree && conv.tree[fout].Hdf5File? &&
           InOut.TagSourceUsable(tr, sdFile) && InOut.TagSourceUsable(tr, bdFile) &&
           HoldsConversion(conv.tree[fout].container, tr, tr[infile].mesh, sdFile, bdFile) by {
      ConvertOutcome(tr, infile);
    }
    H5ReadBack(tr, conv.tree, fout, rank, tr[infile].mesh, sdFile, bdFile);
  }

  /** A container holds `mesh` under `/mesh` and, for each companion found, its tags under the matching dataset. */
  predicate HoldsConversion(c: Container, tr: Tree, mesh: Mesh, sdFile: string, bdFile: string)
  {
    "/mesh" in c && c["/mesh"].payload == MeshData(mesh) &&
    ("/subdomains" in c <==> sdFile in tr) &&
    (sdFile in tr ==> InOut.LoadTagFile(tr, sdFile).Ok? &&
                      c["/subdomains"] == Dataset(TagData(InOut.LoadTagFile(tr, sdFile).value), map[])) &&
    ("/boundaries" in c <==> bdFile in tr) &&
    (bdFile in tr ==> InOut.LoadTagFile(tr, bdFile).Ok? &&
                      c["/boundaries"] == Dataset(TagData(InOut.LoadTagFile(tr, bdFile).value), map[]))
  }

  /**
   * An HDF5 container holding a mesh and, for each companion that is found,
   * its tags under the matching dataset, reads back through `read_mesh` as
   * that mesh with the companions' tags re-typed 'size_t' (zeros where one is missing).
   */
  lemma H5ReadBack(tr: Tree, written: Tree, fout: string, rank: nat, mesh: Mesh, sdFile: string, bdFile: string)
    requires MeshNames.FileType(fout) == "h5"
    requires fout in written && written[fout].Hdf5File?
    requires InOut.TagSourceUsable(tr, sdFile) && InOut.TagSourceUsable(tr, bdFile)
    requires HoldsConversion(written[fout].container, tr, mesh, sdFile, bdFile)
    ensures InOut.ReadMeshSpec(written, fout, rank).0 ==
            Ok(InOut.MeshBundle(mesh, InOut.ExpectedXmlTags(tr, sdFile, mesh.tdim).(vtype := SizeT),
                                InOut.ExpectedXmlTags(tr, bdFile, mesh.tdim - 1).(vtype := SizeT)))
  {
    var c := written[fout].container;
    InOut.ReadH5Outcome(written, fout, rank);
    TagsReadBack(tr, c, sdFile, "/subdomains", mesh.tdim);
    TagsReadBack(tr, c, bdFile, "/boundaries", mesh.tdim - 1);
  }

  /** A successful conversion read a mesh and opened its output. */
  lemma ConvertPassed(tr: Tree, infile: string)
    requires ConvertSpec(tr, infile).outcome.Pass?
    ensures infile in tr && Suffix(infile) == ".xml" && tr[infile].MeshXml?
    ensures CreateHdf5Spec(tr, OutputPath(infile)).0.Pass?
  {
  }

  /** A tag dataset written from a companion reads back as that companion's tags in 'size_t'. */
  lemma TagsReadBack(tr: Tree, c: Container, companion: string, dataset: string, zeroDim: int)
    requires InOut.TagSourceUsable(tr, companion)
    requires dataset in c <==> companion in tr
    requires companion in tr ==> c[dataset] == Dataset(TagData(InOut.LoadTagFile(tr, companion).value), map[])
    ensures (if dataset in c then MeshFunction(SizeT, c[dataset].payload.mf.dim, c[dataset].payload.mf.tags)
             else ZeroFunction(zeroDim))
            == InOut.ExpectedXmlTags(tr, companion, zeroDim).(vtype := SizeT)
  {
  }
}
