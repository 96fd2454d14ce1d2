/** bowerResolveSync: reject a name with a separator, find the project root,
    expand `*` into every installed package, and merge each package's paths
    with `_.union`. */
module Resolver {
  import opened Wrappers
  import opened Paths
  import opened FileSystem
  import opened OrderedUnion
  import opened RootDiscovery
  import opened Packages

  const Wildcard: string := "*"

  /** A Bower reference to a single script: an http(s) URL ending in `.js`. */
  predicate IsScriptUrl(ref: string): (b: bool)
    ensures b ==> |ref| >= |"http://"| + |".js"| && ref[|ref| - 3..] == ".js"
  {
    var b := (StartsWith(ref, "http://") || StartsWith(ref, "https://")) && EndsWith(ref, ".js");
    assert b ==> ref[|ref| - 3] == '.' && forall k :: 0 <= k < 7 ==> ref[k] != '.';
    b
  }

  /** The paths of every package in `names`, concatenated in order; the first
      package whose resolution throws ends it. */
  function Gather(fs: Fs, base: Path, dir: string, names: seq<string>): (r: Result<seq<Path>, Error>)
    ensures r.Err? ==> IsFsError(r.error)
    decreases |names|
  {
    if names == [] then Ok([])
    else match Gather(fs, base, dir, names[..|names| - 1])
      case Err(e) => Err(e)
      case Ok(ps) =>
        match PackagePaths(fs, base, dir, names[|names| - 1])
        case Err(e) => Err(e)
        case Ok(q) => Ok(ps + q)
  }

  /** The result of bowerResolveSync(moduleName, moduleBowerRef, {basedir}),
      where `baseDir` is the already resolved base directory. */
  function Resolve(fs: Fs, moduleName: string, moduleBowerRef: string, baseDir: string): (r: Result<seq<Path>, Error>)
    ensures r.Ok? ==> NoDuplicates(r.value)
    ensures !HasSeparator(moduleName) && Discover(fs, baseDir).Err? ==> r == Err(Discover(fs, baseDir).error)
  {
    SplitCount(moduleName);
    if |Split(moduleName)| > 1 then Err(RelativeName)
    else match Discover(fs, baseDir)
      case Err(e) => Err(e)
      case Ok(root) =>
        if !root.found then
          Ok(if IsScriptUrl(moduleBowerRef) then [root.base + [root.dir, moduleName, "index.js"]] else [])
        else if moduleName == Wildcard then
          var depDir := root.base + [root.dir];
          if depDir !in fs.dirs then Err(Unlistable(depDir))
          else
            match Gather(fs, root.base, root.dir, fs.dirs[depDir])
            case Err(e) => Err(e)
            case Ok(ps) => Ok(Dedup(ps))
        else
          match PackagePaths(fs, root.base, root.dir, moduleName)
          case Err(e) => Err(e)
          case Ok(ps) => Ok(Union([], ps))
  }

  /** bowerResolveSync of index.js. */
  method ResolveSync(fs: Fs, moduleName: string, moduleBowerRef: string, baseDir: string)
    returns (r: Result<seq<Path>, Error>)
    ensures r == Resolve(fs, moduleName, moduleBowerRef, baseDir)
  {
    if |Split(moduleName)| > 1 {
      return Err(RelativeName);
    }
    var discovered := FindRoot(fs, baseDir);
    if discovered.Err? {
      return Err(discovered.error);
    }
    var Root(found, basePath, bowerDirRelPath) := discovered.value;
    var returnPaths: seq<Path> := [];
    if found {
      if moduleName == Wildcard {
        var depDir := basePath + [bowerDirRelPath];
        if depDir !in fs.dirs {
          return Err(Unlistable(depDir));
        }
        var modules := fs.dirs[depDir];
        var i := 0;
        while i < |modules|
          invariant 0 <= i <= |modules|
          invariant Gather(fs, basePath, bowerDirRelPath, modules[..i]).Ok?
          invariant returnPaths == Dedup(Gather(fs, basePath, bowerDirRelPath, modules[..i]).value)
        {
          var paths := ModulePaths(fs, basePath, bowerDirRelPath, modules[i]);
          assert modules[..i + 1][..i] == modules[..i];
          if paths.Err? {
            GatherStopsAtError(fs, basePath, bowerDirRelPath, modules, i + 1);
            return Err(paths.error);
          }
          DedupAppend(Gather(fs, basePath, bowerDirRelPath, modules[..i]).value, paths.value);
          returnPaths := Union(returnPaths, paths.value);
          i := i + 1;
        }
        assert modules[..i] == modules;
      } else {
        var paths := ModulePaths(fs, basePath, bowerDirRelPath, moduleName);
        if paths.Err? {
          return Err(paths.error);
        }
        returnPaths := Union(returnPaths, paths.value);
      }
    } else if IsScriptUrl(moduleBowerRef) {
      returnPaths := returnPaths + [basePath + [bowerDirRelPath, moduleName, "index.js"]];
      assert returnPaths == [basePath + [bowerDirRelPath, moduleName, "index.js"]];
    }
    return Ok(returnPaths);
  }

  /** Once a prefix of the listing fails, the whole listing fails the same way. */
  lemma {:induction false} GatherStopsAtError(fs: Fs, base: Path, dir: string, names: seq<string>, k: nat)
    requires k <= |names|
    requires Gather(fs, base, dir, names[..k]).Err?
    ensures Gather(fs, base, dir, names) == Gather(fs, base, dir, names[..k])
    decreases |names|
  {
    if k < |names| {
      var names' := names[..|names| - 1];
      assert names'[..k] == names[..k];
      GatherStopsAtError(fs, base, dir, names', k);
    } else {
      assert names[..k] == names;
    }
  }

  /** Gathering succeeds exactly when every listed package resolves, and then
      holds exactly the paths of the listed packages. */
  lemma {:induction false} GatherCollectsEveryPackage(fs: Fs, base: Path, dir: string, names: seq<string>)
    ensures Gather(fs, base, dir, names).Ok? <==>
      forall i :: 0 <= i < |names| ==> PackagePaths(fs, base, dir, names[i]).Ok?
    ensures Gather(fs, base, dir, names).Ok? ==> forall x ::
      x in Gather(fs, base, dir, names).value <==>
      exists i :: 0 <= i < |names| && x in PackagePaths(fs, base, dir, names[i]).value
    decreases |names|
  {
    if names != [] {
      var names' := names[..|names| - 1];
      GatherCollectsEveryPackage(fs, base, dir, names');
      assert forall i :: 0 <= i < |names'| ==> names'[i] == names[i];
      var last := |names| - 1;
      if Gather(fs, base, dir, names).Ok? {
        var g := Gather(fs, base, dir, names).value;
        forall x ensures x in g <==> exists i :: 0 <= i < |names| && x in PackagePaths(fs, base, dir, names[i]).value {
          if x in g && x !in Gather(fs, base, dir, names').value {
            assert x in PackagePaths(fs, base, dir, names[last]).value;
          }
        }
      }
    }
  }

  /** A module name is rejected before any filesystem work exactly when it
      holds `/` or `\`. */
  lemma RelativeNameRejected(fs: Fs, moduleName: string, moduleBowerRef: string, baseDir: string)
    ensures Resolve(fs, moduleName, moduleBowerRef, baseDir) == Err(RelativeName) <==> HasSeparator(moduleName)
  {
    SplitCount(moduleName);
  }

  /** `*` resolves every entry of the dependency directory: it succeeds
      exactly when each entry does, and then yields each path of each entry
      once, in order of first occurrence along the listing. */
  lemma WildcardResolvesEveryEntry(fs: Fs, moduleBowerRef: string, baseDir: string, root: Root)
    requires Discover(fs, baseDir) == Ok(root) && root.found
    requires root.base + [root.dir] in fs.dirs
    ensures var names := fs.dirs[root.base + [root.dir]];
      var r := Resolve(fs, Wildcard, moduleBowerRef, baseDir);
      (r.Ok? <==> forall i :: 0 <= i < |names| ==> PackagePaths(fs, root.base, root.dir, names[i]).Ok?) &&
      (r.Ok? ==>
        NoDuplicates(r.value) &&
        (forall x :: x in r.value <==> exists i :: 0 <= i < |names| && x in PackagePaths(fs, root.base, root.dir, names[i]).value) &&
        r.value == Dedup(Gather(fs, root.base, root.dir, names).value))
  {
    SplitCount(Wildcard);
    GatherCollectsEveryPackage(fs, root.base, root.dir, fs.dirs[root.base + [root.dir]]);
  }

  /** `*` in a project without a dependency directory throws, as readdirSync does. */
  lemma WildcardNeedsDependencyDirectory(fs: Fs, moduleBowerRef: string, baseDir: string, root: Root)
    requires Discover(fs, baseDir) == Ok(root) && root.found
    requires root.base + [root.dir] !in fs.dirs
    ensures Resolve(fs, Wildcard, moduleBowerRef, baseDir) == Err(Unlistable(root.base + [root.dir]))
  {
  }

  /** A name that passes the separator check and has no manifest always
      resolves to `<root>/<dir>/<name>/<name>`. */
  lemma BareNameWithoutManifest(fs: Fs, moduleName: string, moduleBowerRef: string, baseDir: string, root: Root)
    requires !HasSeparator(moduleName) && moduleName != Wildcard
    requires Discover(fs, baseDir) == Ok(root) && root.found
    requires ManifestOf(fs, PackageDir(root.base, root.dir, moduleName)).None?
    ensures Resolve(fs, moduleName, moduleBowerRef, baseDir) == Ok([root.base + [root.dir, moduleName, moduleName]])
  {
    assert '/' !in moduleName by {
      forall i | 0 <= i < |moduleName| ensures moduleName[i] != '/' {
        assert !IsSeparator(moduleName[i]);
      }
    }
    var p := root.base + [root.dir, moduleName, moduleName];
    NoManifestPaths(fs, root.base, root.dir, moduleName);
    assert PackageDir(root.base, root.dir, moduleName) + [moduleName] == p;
    assert PackagePaths(fs, root.base, root.dir, moduleName) == Ok([p]);
    ResolveNamed(fs, moduleName, moduleBowerRef, baseDir, root);
    DedupOfDistinct([p]);
  }

  /** For a single package name, Resolve is that package's paths,
      deduplicated, and an error reading its manifest escapes the call. */
  lemma ResolveNamed(fs: Fs, moduleName: string, moduleBowerRef: string, baseDir: string, root: Root)
    requires !HasSeparator(moduleName) && moduleName != Wildcard
    requires Discover(fs, baseDir) == Ok(root) && root.found
    ensures PackagePaths(fs, root.base, root.dir, moduleName).Ok? ==>
      Resolve(fs, moduleName, moduleBowerRef, baseDir) == Ok(Dedup(PackagePaths(fs, root.base, root.dir, moduleName).value))
    ensures PackagePaths(fs, root.base, root.dir, moduleName).Err? ==>
      Resolve(fs, moduleName, moduleBowerRef, baseDir) == Err(PackagePaths(fs, root.base, root.dir, moduleName).error)
  {
    SplitCount(moduleName);
    var r := PackagePaths(fs, root.base, root.dir, moduleName);
    if r.Ok? {
      assert [] + r.value == r.value;
    }
  }

  /** A manifest whose `main` lists distinct entries resolves to one path per
      entry, in list order. */
  lemma ListedMainResolvesInOrder(fs: Fs, moduleName: string, moduleBowerRef: string, baseDir: string, root: Root)
    requires !HasSeparator(moduleName) && moduleName != Wildcard
    requires Discover(fs, baseDir) == Ok(root) && root.found
    requires var m := ManifestOf(fs, PackageDir(root.base, root.dir, moduleName));
      m.Some? && m.value in fs.files && fs.files[m.value].Document? &&
      (fs.files[m.value].main.Arr? || fs.files[m.value].main.Obj?) &&
      NoDuplicates(fs.files[m.value].main.entries)
    ensures var pkg := PackageDir(root.base, root.dir, moduleName);
      var entries := fs.files[ManifestOf(fs, pkg).value].main.entries;
      var r := Resolve(fs, moduleName, moduleBowerRef, baseDir);
      r.Ok? && |r.value| == |entries| &&
      forall i :: 0 <= i < |entries| ==> r.value[i] == pkg + [entries[i]]
  {
    var pkg := PackageDir(root.base, root.dir, moduleName);
    var entries := fs.files[ManifestOf(fs, pkg).value].main.entries;
    var ps := JoinEach(pkg, entries);
    assert PackagePaths(fs, root.base, root.dir, moduleName) == Ok(ps);
    ResolveNamed(fs, moduleName, moduleBowerRef, baseDir, root);
    JoinEachDistinct(pkg, entries);
    DedupOfDistinct(ps);
  }

  /** With no marker anywhere above the base directory, the result is the
      one speculative `index.js` path for an http(s) `.js` reference, and
      empty otherwise. That path is built from the last prefix the walk
      listed, the first segment of the base directory. */
  lemma NoRootFallback(fs: Fs, moduleName: string, moduleBowerRef: string, baseDir: string)
    requires !HasSeparator(moduleName)
    requires Unmarked(fs, Split(baseDir), 0)
    ensures Resolve(fs, moduleName, moduleBowerRef, baseDir) ==
      Ok(if IsScriptUrl(moduleBowerRef) then [Split(baseDir)[..1] + [DefaultDirectory, moduleName, "index.js"]] else [])
  {
    SplitCount(moduleName);
    WalkNotFound(fs, Split(baseDir));
  }

  /** Outside any Bower project, an absolute POSIX base directory makes the
      call throw: the walk reaches the first segment "", which readdirSync
      cannot list, so the `index.js` fallback is never returned. */
  lemma PosixOutsideProjectThrows(fs: Fs, moduleName: string, moduleBowerRef: string, baseDir: string)
    requires !HasSeparator(moduleName)
    requires |baseDir| > 0 && baseDir[0] == '/'
    requires [""] !in fs.dirs
    requires Unmarked(fs, Split(baseDir), 1)
    ensures Resolve(fs, moduleName, moduleBowerRef, baseDir) == Err(Unlistable([""]))
  {
    var segs := Split(baseDir);
    assert segs[..1] == [""];
    WalkUnlistable(fs, segs, [""]);
  }
}
