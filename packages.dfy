/** The per-package stage of the resolver (`getModulePaths`): pick the
    package's manifest and turn its `main` field into paths, with no check
    that those paths exist. */
module Packages {
  import opened Wrappers
  import opened Paths
  import opened FileSystem
  import opened OrderedUnion

  const HiddenManifest: string := ".bower.json"
  const VisibleManifest: string := "bower.json"

  function PackageDir(base: Path, dir: string, name: string): Path {
    base + [dir, name]
  }

  /** The manifest read for the package in `pkg`: `.bower.json` when it
      exists, else `bower.json` when that exists, else none. */
  function ManifestOf(fs: Fs, pkg: Path): (r: Option<Path>)
    ensures Exists(fs, pkg + [HiddenManifest]) ==> r == Some(pkg + [HiddenManifest])
    ensures !Exists(fs, pkg + [HiddenManifest]) && Exists(fs, pkg + [VisibleManifest]) ==> r == Some(pkg + [VisibleManifest])
    ensures r.None? <==> !Exists(fs, pkg + [HiddenManifest]) && !Exists(fs, pkg + [VisibleManifest])
  {
    if Exists(fs, pkg + [HiddenManifest]) then Some(pkg + [HiddenManifest])
    else if Exists(fs, pkg + [VisibleManifest]) then Some(pkg + [VisibleManifest])
    else None
  }

  /** Each entry joined onto the package directory. */
  function JoinEach(pkg: Path, entries: seq<string>): (r: seq<Path>)
    ensures |r| == |entries|
    ensures forall i :: 0 <= i < |r| ==> r[i] == pkg + [entries[i]]
    decreases |entries|
  {
    if entries == [] then []
    else JoinEach(pkg, entries[..|entries| - 1]) + [pkg + [entries[|entries| - 1]]]
  }

  /** Distinct entries give distinct paths. */
  lemma JoinEachDistinct(pkg: Path, entries: seq<string>)
    requires NoDuplicates(entries)
    ensures NoDuplicates(JoinEach(pkg, entries))
  {
    var ps := JoinEach(pkg, entries);
    forall i, j | 0 <= i < j < |ps| ensures ps[i] != ps[j] {
      assert ps[i][|pkg|] == entries[i] && ps[j][|pkg|] == entries[j];
    }
  }

  /** The paths a `main` field names: every entry of an array or object, the
      string itself, or nothing. */
  function MainPaths(pkg: Path, main: MainField): (r: seq<Path>)
    ensures forall i :: 0 <= i < |r| ==> |r[i]| == |pkg| + 1 && r[i][..|pkg|] == pkg
    ensures main.Arr? || main.Obj? ==>
      |r| == |main.entries| && forall i :: 0 <= i < |r| ==> r[i] == pkg + [main.entries[i]]
    ensures main.Str? ==> r == [pkg + [main.s]]
    ensures !main.Arr? && !main.Obj? && !main.Str? ==> r == []
  {
    match main
    case Arr(es) => JoinEach(pkg, es)
    case Obj(es) => JoinEach(pkg, es)
    case Str(s) => [pkg + [s]]
    case _ => []
  }

  /** The paths `getModulePaths(name)` returns. Without a manifest, a name
      with no `/` gives `<pkg>/<name>`: the source's `nameHasPath` is true
      exactly when the name has NO `/`. */
  function PackagePaths(fs: Fs, base: Path, dir: string, name: string): (r: Result<seq<Path>, Error>)
    ensures r.Err? ==> IsFsError(r.error)
    ensures var m := ManifestOf(fs, PackageDir(base, dir, name));
      (r.Err? <==> m.Some? && (m.value !in fs.files || fs.files[m.value].Unparsable?)) &&
      (m.Some? && m.value !in fs.files ==> r == Err(Unreadable(m.value))) &&
      (m.Some? && m.value in fs.files && fs.files[m.value].Unparsable? ==> r == Err(Malformed(m.value)))
  {
    var pkg := PackageDir(base, dir, name);
    match ManifestOf(fs, pkg)
    case Some(m) =>
      (match ReadJson(fs, m)
       case Err(e) => Err(e)
       case Ok(doc) => Ok(MainPaths(pkg, doc.main)))
    case None =>
      if '/' !in name then Ok([pkg + [name]]) else Ok([])
  }

  /** getModulePaths of index.js, building its list with one push per entry. */
  method ModulePaths(fs: Fs, basePath: Path, dir: string, name: string) returns (r: Result<seq<Path>, Error>)
    ensures r == PackagePaths(fs, basePath, dir, name)
  {
    var pkg := basePath + [dir, name];
    var moduleConfig: Option<Json> := None;
    if Exists(fs, pkg + [HiddenManifest]) {
      var doc := ReadJson(fs, pkg + [HiddenManifest]);
      if doc.Err? {
        return Err(doc.error);
      }
      moduleConfig := Some(doc.value);
    } else if Exists(fs, pkg + [VisibleManifest]) {
      var doc := ReadJson(fs, pkg + [VisibleManifest]);
      if doc.Err? {
        return Err(doc.error);
      }
      moduleConfig := Some(doc.value);
    }
    var nameHasPath := '/' !in name;
    var relFilePaths: seq<Path> := [];
    if moduleConfig.Some? {
      var mains := moduleConfig.value.main;
      if mains.Arr? || mains.Obj? {
        var i := 0;
        while i < |mains.entries|
          invariant 0 <= i <= |mains.entries|
          invariant relFilePaths == JoinEach(pkg, mains.entries[..i])
        {
          assert mains.entries[..i + 1][..i] == mains.entries[..i];
          relFilePaths := relFilePaths + [pkg + [mains.entries[i]]];
          i := i + 1;
        }
        assert mains.entries[..i] == mains.entries;
      } else if mains.Str? {
        relFilePaths := relFilePaths + [pkg + [mains.s]];
      }
      assert relFilePaths == MainPaths(pkg, mains);
    } else if nameHasPath {
      relFilePaths := relFilePaths + [pkg + [name]];
    }
    assert moduleConfig.None? ==> relFilePaths == (if '/' !in name then [pkg + [name]] else []);
    return Ok(relFilePaths);
  }

  /** Every path produced for a package is the package directory plus one
      `main` entry (or the name) as a single segment. */
  lemma PathsInsidePackage(fs: Fs, base: Path, dir: string, name: string)
    requires PackagePaths(fs, base, dir, name).Ok?
    ensures var pkg := PackageDir(base, dir, name);
      forall x :: x in PackagePaths(fs, base, dir, name).value ==> |x| == |pkg| + 1 && x[..|pkg|] == pkg
  {
  }

  /** The paths depend on the chosen manifest alone: when `.bower.json`
      exists, `bower.json` is never consulted, and no entry of `main` is
      checked for existence. Two filesystems that agree on which manifest
      is chosen and on its contents give the same paths. */
  lemma ManifestDecides(fs1: Fs, fs2: Fs, base: Path, dir: string, name: string)
    requires var pkg := PackageDir(base, dir, name);
      ManifestOf(fs1, pkg) == ManifestOf(fs2, pkg) &&
      (ManifestOf(fs1, pkg).Some? ==> var m := ManifestOf(fs1, pkg).value;
        (m in fs1.files <==> m in fs2.files) && (m in fs1.files ==> fs1.files[m] == fs2.files[m]))
    ensures PackagePaths(fs1, base, dir, name) == PackagePaths(fs2, base, dir, name)
  {
  }

  /** `.bower.json` wins: once it exists, adding, changing or removing
      `bower.json` changes nothing. */
  lemma HiddenManifestPreferred(fs: Fs, base: Path, dir: string, name: string, visible: Option<Json>)
    requires Exists(fs, PackageDir(base, dir, name) + [HiddenManifest])
    ensures var v := PackageDir(base, dir, name) + [VisibleManifest];
      var fs' := fs.(files := if visible.Some? then fs.files[v := visible.value] else fs.files - {v},
                     dirs := fs.dirs - {v});
      PackagePaths(fs', base, dir, name) == PackagePaths(fs, base, dir, name)
  {
    var pkg := PackageDir(base, dir, name);
    assert pkg + [HiddenManifest] != pkg + [VisibleManifest] by {
      assert (pkg + [HiddenManifest])[|pkg|] != (pkg + [VisibleManifest])[|pkg|];
    }
  }

  /** With a manifest, the paths follow `main`: one per entry of an array or
      object, in order; exactly one for a string; none otherwise. */
  lemma MainFieldPaths(fs: Fs, base: Path, dir: string, name: string)
    requires var m := ManifestOf(fs, PackageDir(base, dir, name));
      m.Some? && m.value in fs.files && fs.files[m.value].Document?
    ensures var pkg := PackageDir(base, dir, name);
      var main := fs.files[ManifestOf(fs, pkg).value].main;
      var r := PackagePaths(fs, base, dir, name);
      r.Ok? &&
      (main.Arr? || main.Obj? ==>
        |r.value| == |main.entries| && forall i :: 0 <= i < |main.entries| ==> r.value[i] == pkg + [main.entries[i]]) &&
      (main.Str? ==> r.value == [pkg + [main.s]]) &&
      (main.Absent? || main.Scalar? ==> r.value == [])
  {
  }

  /** Without a manifest, a name holding no `/` gives exactly
      `<pkg>/<name>`, and any other name gives nothing. */
  lemma NoManifestPaths(fs: Fs, base: Path, dir: string, name: string)
    requires ManifestOf(fs, PackageDir(base, dir, name)).None?
    ensures PackagePaths(fs, base, dir, name) ==
      Ok(if '/' in name then [] else [PackageDir(base, dir, name) + [name]])
  {
  }
}
