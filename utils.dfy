/**
 * common/utils.py and utils.py: detecting the NLHPC cluster from the host
 * name, staging a mesh file in the node's shared memory there, and creating
 * an output directory that may already exist.
 */
module Utils {
  import opened Wrappers
  import opened Dolfin
  import opened Fs

  // ------------------------------------------------------------- on_cluster

  /** One element of a regular expression without repetition: a literal character or `\d`. */
  datatype Atom = Lit(c: char) | Digit

  predicate IsDigit(c: char)
  {
    '0' <= c <= '9'
  }

  predicate AtomMatches(a: Atom, c: char)
  {
    match a
    case Lit(l) => c == l
    case Digit => IsDigit(c)
  }

  /** The atoms matching the characters of `s` literally. */
  function Literal(s: string): (pat: seq<Atom>)
    ensures |pat| == |s|
    ensures forall i :: 0 <= i < |s| ==> pat[i] == Lit(s[i])
  {
    if s == [] then [] else [Lit(s[0])] + Literal(s[1..])
  }

  /** `re.match` of a concatenation of atoms: it must match a prefix of `s`. */
  function MatchPrefix(pat: seq<Atom>, s: string): bool
    decreases |pat|
  {
    if pat == [] then true
    else s != [] && AtomMatches(pat[0], s[0]) && MatchPrefix(pat[1..], s[1..])
  }

  /** `re.match` of an alternation: some alternative matches a prefix. */
  function MatchAny(alternatives: seq<seq<Atom>>, s: string): bool
    decreases |alternatives|
  {
    alternatives != [] && (MatchPrefix(alternatives[0], s) || MatchAny(alternatives[1..], s))
  }

  /** `^(leftraru\d)|(cn\d\d\d)`; `re.match` anchors both alternatives at the start. */
  const ClusterPattern: seq<seq<Atom>> := [Literal("leftraru") + [Digit], Literal("cn") + [Digit, Digit, Digit]]

  /** `on_cluster()`, for the host name that `platform.uname()[1]` reports. */
  predicate OnCluster(hostname: string)
  {
    MatchAny(ClusterPattern, hostname)
  }

  lemma {:induction false} MatchPrefixIff(pat: seq<Atom>, s: string)
    ensures MatchPrefix(pat, s) <==> |pat| <= |s| && forall i :: 0 <= i < |pat| ==> AtomMatches(pat[i], s[i])
    decreases |pat|
  {
    if pat != [] && s != [] {
      MatchPrefixIff(pat[1..], s[1..]);
      if AtomMatches(pat[0], s[0]) && MatchPrefix(pat[1..], s[1..]) {
        forall i | 0 <= i < |pat| ensures AtomMatches(pat[i], s[i]) {
          if i > 0 {
            assert pat[1..][i - 1] == pat[i] && s[1..][i - 1] == s[i];
          }
        }
      }
      if |pat| <= |s| && forall i :: 0 <= i < |pat| ==> AtomMatches(pat[i], s[i]) {
        forall i | 0 <= i < |pat| - 1 ensures AtomMatches(pat[1..][i], s[1..][i]) {
          assert pat[1..][i] == pat[i + 1] && s[1..][i] == s[i + 1];
        }
      }
    }
  }

  predicate LeftraruNode(h: string)
  {
    |h| >= 9 && h[..8] == "leftraru" && IsDigit(h[8])
  }

  predicate CnNode(h: string)
  {
    |h| >= 5 && h[..2] == "cn" && IsDigit(h[2]) && IsDigit(h[3]) && IsDigit(h[4])
  }

  /**
   * The host is a cluster node exactly when its name starts with "leftraru"
   * and a digit, or with "cn" and three digits; what follows is not looked at.
   */
  lemma OnClusterIff(hostname: string)
    ensures OnCluster(hostname) <==> LeftraruNode(hostname) || CnNode(hostname)
  {
    var p1, p2 := ClusterPattern[0], ClusterPattern[1];
    MatchPrefixIff(p1, hostname);
    MatchPrefixIff(p2, hostname);
    assert ClusterPattern[1..] == [p2];
    assert [p2][1..] == ClusterPattern[2..];
    assert MatchAny([p2], hostname) == MatchPrefix(p2, hostname);
    if |hostname| >= 9 {
      assert (forall i :: 0 <= i < 8 ==> AtomMatches(p1[i], hostname[i])) <==> hostname[..8] == "leftraru" by {
        if forall i :: 0 <= i < 8 ==> AtomMatches(p1[i], hostname[i]) {
          assert forall i :: 0 <= i < 8 ==> hostname[..8][i] == "leftraru"[i];
        }
      }
    }
    if |hostname| >= 5 {
      assert (forall i :: 0 <= i < 2 ==> AtomMatches(p2[i], hostname[i])) <==> hostname[..2] == "cn" by {
        if forall i :: 0 <= i < 2 ==> AtomMatches(p2[i], hostname[i]) {
          assert forall i :: 0 <= i < 2 ==> hostname[..2][i] == "cn"[i];
        }
      }
    }
  }

  /** Only a prefix is matched: anything may follow a matching host name. */
  lemma OnClusterPrefixOnly(hostname: string, rest: string)
    requires OnCluster(hostname)
    ensures OnCluster(hostname + rest)
  {
    OnClusterIff(hostname);
    OnClusterIff(hostname + rest);
    assert (hostname + rest)[..|hostname|] == hostname;
    if LeftraruNode(hostname) {
      assert (hostname + rest)[..8] == hostname[..8];
    } else {
      assert (hostname + rest)[..2] == hostname[..2];
    }
  }

  /** "leftraru" without a digit, and "cn" with fewer than three digits, are not cluster nodes. */
  lemma OnClusterRejectsShortNames(hostname: string)
    requires hostname == "leftraru" || hostname == "cn12" || hostname == "leftraru-login"
    ensures !OnCluster(hostname)
  {
    OnClusterIff(hostname);
    if hostname == "leftraru-login" {
      assert !IsDigit(hostname[8]);
    }
  }

  // -------------------------------------------------------------- prep_mesh

  const Scratch := "/dev/shm/"

  /**
   * `prep_mesh(mesh_file)`: on the cluster, copy `cwd/mesh_file` to the
   * node's shared memory and return that path; elsewhere return the name.
   */
  function PrepMeshSpec(tr: Tree, hostname: string, cwd: string, meshFile: string): (Result<string, Error>, Tree)
  {
    if OnCluster(hostname) then
      var mfile := cwd + "/" + meshFile;
      var mesh := Scratch + meshFile;
      var (o, tr') := CopySpec(tr, mfile, mesh);
      if o.Fail? then (Err(o.error), tr') else (Ok(mesh), tr')
    else (Ok(meshFile), tr)
  }

  /** `hostname` stands for `platform.uname()[1]`, `cwd` for `os.getcwd()`. */
  method PrepMesh(fs: FileSystem, hostname: string, cwd: string, meshFile: string) returns (r: Result<string, Error>)
    requires fs.Valid()
    modifies fs
    ensures fs.Valid()
    ensures (r, fs.tree) == PrepMeshSpec(old(fs.tree), hostname, cwd, meshFile)
  {
    var mesh: string;
    if OnCluster(hostname) {
      var mfile := cwd + "/" + meshFile;
      mesh := Scratch + meshFile;
      var o := fs.Copy(mfile, mesh);
      if o.Fail? {
        return Err(o.error);
      }
    } else {
      mesh := meshFile;
    }
    r := Ok(mesh);
  }

  /** Off the cluster the name comes back unchanged and nothing is touched. */
  lemma PrepMeshLocal(tr: Tree, hostname: string, cwd: string, meshFile: string)
    requires !LeftraruNode(hostname) && !CnNode(hostname)
    ensures PrepMeshSpec(tr, hostname, cwd, meshFile) == (Ok(meshFile), tr)
  {
    OnClusterIff(hostname);
  }

  /**
   * On the cluster the result is `/dev/shm/` + the name, holding a copy of
   * `cwd/` + the name, and nothing else changes; when the copy raises, the
   * error comes back and nothing changes.
   */
  lemma PrepMeshOnCluster(tr: Tree, hostname: string, cwd: string, meshFile: string)
    requires OnCluster(hostname)
    ensures var (r, tr') := PrepMeshSpec(tr, hostname, cwd, meshFile);
            var src, dst := cwd + "/" + meshFile, Scratch + meshFile;
            (r.Err? ==> tr' == tr) &&
            (r.Ok? ==> r.value == dst && src in tr &&
                       (!IsDir(tr, dst) ==> tr' == tr[dst := tr[src]]))
  {
  }

  // --------------------------------------------------------------- trymkdir

  /** `trymkdir(path)`: `os.makedirs(path)`, with an OSError ignored when `path` is a directory. */
  function TryMkdirSpec(tr: Tree, path: string): (Outcome<Error>, Tree)
  {
    var (o, tr') := MakeDirsSpec(tr, path);
    if o.Pass? || IsDir(tr', path) then (Pass, tr') else (o, tr')
  }

  method TryMkdir(fs: FileSystem, path: string) returns (o: Outcome<Error>)
    requires fs.Valid()
    modifies fs
    ensures fs.Valid()
    ensures (o, fs.tree) == TryMkdirSpec(old(fs.tree), path)
  {
    o := fs.MakeDirs(path);
    if o.Fail? {
      if IsDir(fs.tree, path) {
        o := Pass;
      }
    }
  }

  /** After a successful `trymkdir`, `path` is a directory. */
  lemma TryMkdirMakesDir(tr: Tree, path: string)
    ensures var (o, tr') := TryMkdirSpec(tr, path);
            o.Pass? ==> IsDir(tr', path)
  {
    MakeDirsFrame(tr, path);
  }

  /** On an existing directory `trymkdir` succeeds and changes nothing, so a second call repeats the first. */
  lemma TryMkdirIdempotent(tr: Tree, path: string)
    ensures IsDir(tr, path) ==> TryMkdirSpec(tr, path) == (Pass, tr)
    ensures var (o, tr') := TryMkdirSpec(tr, path);
            o.Pass? ==> TryMkdirSpec(tr', path) == (Pass, tr')
  {
    TryMkdirMakesDir(tr, path);
  }

  /**
   * `trymkdir` raises, changing nothing, exactly when `path` is empty, exists
   * but is not a directory, or lies below an existing path that is not a directory.
   */
  lemma TryMkdirFails(tr: Tree, path: string)
    requires WellFormed(tr)
    ensures var (o, tr') := TryMkdirSpec(tr, path);
            (o.Fail? <==> path == "" || (path in tr && !tr[path].Directory?) ||
                          (path !in tr && exists a :: a in Ancestors(path) && a in tr && !tr[a].Directory?)) &&
            (o.Fail? ==> tr' == tr)
  {
    MakeDirsFrame(tr, path);
  }

  /** A successful `trymkdir` adds `path` and its missing ancestors and keeps everything else. */
  lemma TryMkdirFrame(tr: Tree, path: string)
    requires WellFormed(tr)
    ensures var (o, tr') := TryMkdirSpec(tr, path);
            WellFormed(tr') &&
            (o.Pass? ==> tr'.Keys <= tr.Keys + Ancestors(path) + {path} &&
                         forall q :: q in tr ==> tr'[q] == tr[q])
  {
    MakeDirsFrame(tr, path);
    MakeDirsWellFormed(tr, path);
  }
}
