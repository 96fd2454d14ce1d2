/** The first stage of the resolver: walk up from the base directory to the
    nearest directory holding a Bower marker, and read the dependency
    directory's name from `.bowerrc` there. */
module RootDiscovery {
  import opened Wrappers
  import opened Paths
  import opened FileSystem

  const DefaultDirectory: string := "bower_components"
  const ProjectManifest: string := "bower.json"
  const ConfigFile: string := ".bowerrc"

  /** A listing that shows the directory is a Bower project root. */
  predicate HasMarker(files: seq<string>) {
    ProjectManifest in files || ConfigFile in files || DefaultDirectory in files
  }

  /** Every prefix of `p` longer than `lo` segments can be listed and holds no marker. */
  ghost predicate Unmarked(fs: Fs, p: Path, lo: nat) {
    forall k :: lo < k <= |p| ==> p[..k] in fs.dirs && !HasMarker(fs.dirs[p[..k]])
  }

  /** The upward walk: try `p`, then `p` without its last segment, and so on,
      stopping at the first listing with a marker. Ok(None) when every
      non-empty prefix was listed without finding one. */
  function Walk(fs: Fs, p: Path): (r: Result<Option<Path>, Error>)
    ensures r.Ok? && r.value.Some? ==> r.value.value in fs.dirs && HasMarker(fs.dirs[r.value.value])
    ensures r.Err? ==> r.error.Unlistable?
    decreases |p|
  {
    if |p| == 0 then Ok(None)
    else if p !in fs.dirs then Err(Unlistable(p))
    else if HasMarker(fs.dirs[p]) then Ok(Some(p))
    else Walk(fs, p[..|p| - 1])
  }

  /** The dependency directory of the project rooted at `b`: `.bowerrc`'s
      `directory` when `.bowerrc` is listed there and that field is a
      non-empty string, `bower_components` otherwise. */
  function DependencyDirectory(fs: Fs, b: Path): (r: Result<string, Error>)
    requires b in fs.dirs
    ensures r.Ok? ==> r.value != ""
    ensures ConfigFile !in fs.dirs[b] ==> r == Ok(DefaultDirectory)
    ensures r.Ok? && r.value != DefaultDirectory ==>
      ConfigFile in fs.dirs[b] && b + [ConfigFile] in fs.files && fs.files[b + [ConfigFile]].Document? &&
      fs.files[b + [ConfigFile]].directory == Some(r.value)
    ensures r.Err? ==> IsFsError(r.error)
    ensures ConfigFile in fs.dirs[b] ==>
      (r == Err(Unreadable(b + [ConfigFile])) <==> b + [ConfigFile] !in fs.files) &&
      (r == Err(Malformed(b + [ConfigFile])) <==> b + [ConfigFile] in fs.files && fs.files[b + [ConfigFile]].Unparsable?)
    ensures ConfigFile in fs.dirs[b] && b + [ConfigFile] in fs.files && fs.files[b + [ConfigFile]].Document? ==>
      var d := fs.files[b + [ConfigFile]].directory;
      r == Ok(if d.Some? && d.value != "" then d.value else DefaultDirectory)
  {
    if ConfigFile !in fs.dirs[b] then Ok(DefaultDirectory)
    else match ReadJson(fs, b + [ConfigFile])
      case Err(e) => Err(e)
      case Ok(rc) =>
        if rc.directory.Some? && rc.directory.value != "" then Ok(rc.directory.value)
        else Ok(DefaultDirectory)
  }

  /** Where the walk ended: whether a marker was found, the last path it
      listed, and the dependency directory's name. */
  datatype Root = Root(found: bool, base: Path, dir: string)

  /** Root discovery from a base directory, as a function of the filesystem. */
  function Discover(fs: Fs, baseDir: string): (r: Result<Root, Error>)
    ensures r.Err? ==> IsFsError(r.error)
  {
    var segs := Split(baseDir);
    match Walk(fs, segs)
    case Err(e) => Err(e)
    case Ok(None) => Ok(Root(false, segs[..1], DefaultDirectory))
    case Ok(Some(b)) =>
      match DependencyDirectory(fs, b)
      case Err(e) => Err(e)
      case Ok(d) => Ok(Root(true, b, d))
  }

  /** The walk of index.js, popping one segment per iteration. */
  method FindRoot(fs: Fs, baseDir: string) returns (r: Result<Root, Error>)
    ensures r == Discover(fs, baseDir)
  {
    var pathAsArr := Split(baseDir);
    ghost var segs := pathAsArr;
    var basePath := pathAsArr;
    var found := false;
    var dir := DefaultDirectory;
    assert segs[..|segs|] == segs;
    while |pathAsArr| > 0
      invariant |pathAsArr| <= |segs| && pathAsArr == segs[..|pathAsArr|]
      invariant Walk(fs, pathAsArr) == Walk(fs, segs)
      invariant |pathAsArr| < |segs| ==> basePath == segs[..|pathAsArr| + 1]
      invariant !found && dir == DefaultDirectory
      decreases |pathAsArr|
    {
      basePath := pathAsArr;
      if basePath !in fs.dirs {
        return Err(Unlistable(basePath));
      }
      var files := fs.dirs[basePath];
      if HasMarker(files) {
        found := true;
        var configured := DependencyDirectory(fs, basePath);
        if configured.Err? {
          return Err(configured.error);
        }
        dir := configured.value;
        break;
      }
      pathAsArr := pathAsArr[..|pathAsArr| - 1];
    }
    r := Ok(Root(found, basePath, dir));
  }

  /** Dropping the last segment of `p` keeps every shorter prefix. */
  lemma UnmarkedStep(fs: Fs, p: Path, lo: nat)
    requires lo < |p|
    ensures Unmarked(fs, p, lo) <==>
      p in fs.dirs && !HasMarker(fs.dirs[p]) && Unmarked(fs, p[..|p| - 1], lo)
  {
    var p' := p[..|p| - 1];
    assert p[..|p|] == p;
    assert forall k :: 0 <= k <= |p'| ==> p'[..k] == p[..k];
  }

  /** The walk finds `b` exactly when `b` is the longest prefix of `p` whose
      listing has a marker, every longer prefix being listable. */
  lemma {:induction false} WalkFindsNearest(fs: Fs, p: Path, b: Path)
    ensures Walk(fs, p) == Ok(Some(b)) <==>
      1 <= |b| <= |p| && b == p[..|b|] && b in fs.dirs && HasMarker(fs.dirs[b]) && Unmarked(fs, p, |b|)
    decreases |p|
  {
    if |p| > 0 {
      assert p[..|p|] == p;
      if p in fs.dirs && !HasMarker(fs.dirs[p]) {
        var p' := p[..|p| - 1];
        WalkFindsNearest(fs, p', b);
        if |b| < |p| {
          UnmarkedStep(fs, p, |b|);
          assert p'[..|b|] == p[..|b|];
        }
      }
    }
  }

  /** The walk finds nothing exactly when every non-empty prefix of `p` can
      be listed and none holds a marker. */
  lemma {:induction false} WalkNotFound(fs: Fs, p: Path)
    ensures Walk(fs, p) == Ok(None) <==> Unmarked(fs, p, 0)
    decreases |p|
  {
    if |p| > 0 {
      UnmarkedStep(fs, p, 0);
      if p in fs.dirs && !HasMarker(fs.dirs[p]) {
        WalkNotFound(fs, p[..|p| - 1]);
      }
    }
  }

  /** The walk fails on `q` exactly when `q` is the longest prefix of `p`
      that cannot be listed, and no longer prefix holds a marker. */
  lemma {:induction false} WalkUnlistable(fs: Fs, p: Path, q: Path)
    ensures Walk(fs, p) == Err(Unlistable(q)) <==>
      1 <= |q| <= |p| && q == p[..|q|] && q !in fs.dirs && Unmarked(fs, p, |q|)
    decreases |p|
  {
    if |p| > 0 {
      assert p[..|p|] == p;
      if p in fs.dirs && !HasMarker(fs.dirs[p]) {
        var p' := p[..|p| - 1];
        WalkUnlistable(fs, p', q);
        if |q| < |p| {
          UnmarkedStep(fs, p, |q|);
          assert p'[..|q|] == p[..|q|];
        }
      }
    }
  }

  /** What root discovery reports: the nearest ancestor of the base directory
      with a marker and the directory `.bowerrc` names there, or, when no
      ancestor has one, the first segment of the base directory with the
      default directory. */
  lemma DiscoverFindsNearestRoot(fs: Fs, baseDir: string, root: Root)
    requires Discover(fs, baseDir) == Ok(root)
    ensures var segs := Split(baseDir);
      if root.found then
        1 <= |root.base| <= |segs| && root.base == segs[..|root.base|] &&
        root.base in fs.dirs && HasMarker(fs.dirs[root.base]) && Unmarked(fs, segs, |root.base|) &&
        DependencyDirectory(fs, root.base) == Ok(root.dir)
      else
        Unmarked(fs, segs, 0) && root.base == segs[..1] && root.dir == DefaultDirectory
  {
    var segs := Split(baseDir);
    if root.found {
      WalkFindsNearest(fs, segs, root.base);
    } else {
      WalkNotFound(fs, segs);
    }
  }

  /** The converse of DiscoverFindsNearestRoot: when `b` is the nearest
      ancestor of the base directory with a marker, discovery reports `b`
      as the root, with `bower_components` unless `.bowerrc` is listed there.
      A readable `.bowerrc` whose `directory` is a non-empty string renames
      the dependency directory; one that cannot be read or parsed makes
      discovery throw. */
  lemma {:induction false} DiscoverReadsBowerrc(fs: Fs, baseDir: string, b: Path)
    requires var segs := Split(baseDir);
      1 <= |b| <= |segs| && b == segs[..|b|] && b in fs.dirs && HasMarker(fs.dirs[b]) && Unmarked(fs, segs, |b|)
    ensures ConfigFile !in fs.dirs[b] ==> Discover(fs, baseDir) == Ok(Root(true, b, DefaultDirectory))
    ensures ConfigFile in fs.dirs[b] && b + [ConfigFile] in fs.files ==>
      match fs.files[b + [ConfigFile]]
      case Unparsable => Discover(fs, baseDir) == Err(Malformed(b + [ConfigFile]))
      case Document(_, Some(x)) =>
        Discover(fs, baseDir) == Ok(Root(true, b, if x != "" then x else DefaultDirectory))
      case Document(_, None) => Discover(fs, baseDir) == Ok(Root(true, b, DefaultDirectory))
    ensures ConfigFile in fs.dirs[b] && b + [ConfigFile] !in fs.files ==>
      Discover(fs, baseDir) == Err(Unreadable(b + [ConfigFile]))
  {
    WalkFindsNearest(fs, Split(baseDir), b);
  }

  /** On an absolute POSIX path the first segment is "", which readdirSync
      cannot list: there the walk either finds a root or throws, and the
      not-found outcome cannot occur. */
  lemma PosixWalkNeverEndsUnfound(fs: Fs, baseDir: string)
    requires |baseDir| > 0 && baseDir[0] == '/'
    requires [""] !in fs.dirs
    ensures Discover(fs, baseDir).Ok? ==> Discover(fs, baseDir).value.found
  {
    var segs := Split(baseDir);
    assert segs[..1] == [""];
    WalkNotFound(fs, segs);
  }
}
