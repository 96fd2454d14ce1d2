/** bowerRequire: the main file of an installed package, looked up in the
    package map that `init` caches (the result of `bower list --map`). */
module BowerRequire {
  import opened Wrappers
  import opened Paths
  import opened FileSystem

  /** One entry of the cached map: the package's directory and its metadata,
      of which only `main` is read; None when the package has no metadata. */
  datatype Package = Package(canonicalDir: Path, pkgMeta: Option<MainField>)

  /** The module-level cache: unset until `init` has stored the map. */
  datatype Registry = Uninitialized | Initialized(dependencies: map<string, Package>)

  datatype RequireError =
    | NotInitialized // `init` was not called first
    | MainNotString  // path.join was handed a main that is not a string

  /** What `mainModule` ends up holding. */
  datatype MainChoice = File(file: string) | Undefined | NotAString

  /** The test `/\.js$/`. */
  predicate IsScript(file: string) {
    EndsWith(file, ".js")
  }

  /** JavaScript truthiness of a `main` value. */
  predicate Truthy(main: MainField) {
    match main
    case Absent => false
    case Str(s) => s != ""
    case Arr(_) => true
    case Obj(_) => true
    case Scalar(t) => t
  }

  /** `entries.filter(f => /\.js$/.test(f))[0]`. */
  function FirstScript(entries: seq<string>): (r: Option<string>)
    ensures r.None? <==> forall i :: 0 <= i < |entries| ==> !IsScript(entries[i])
    ensures r.Some? ==> exists i :: 0 <= i < |entries| && entries[i] == r.value && IsScript(r.value) &&
                                   forall j :: 0 <= j < i ==> !IsScript(entries[j])
    decreases |entries|
  {
    if entries == [] then None
    else if IsScript(entries[0]) then Some(entries[0])
    else
      var r := FirstScript(entries[1..]);
      assert forall i :: 1 <= i < |entries| ==> entries[i] == entries[1..][i - 1];
      r
  }

  /** The main-module choice: the first `.js` entry of an array, a string as
      it is, any other truthy value as it is, and `<moduleName>.js` when there
      is no metadata or `main` is falsy. */
  function MainModule(moduleName: string, pkgMeta: Option<MainField>): (r: MainChoice)
    ensures r.File? ==> IsScript(r.file) || (pkgMeta == Some(Str(r.file)) && r.file != "")
    ensures r.Undefined? <==>
      pkgMeta.Some? && pkgMeta.value.Arr? &&
      forall i :: 0 <= i < |pkgMeta.value.entries| ==> !IsScript(pkgMeta.value.entries[i])
    ensures r.NotAString? <==> pkgMeta.Some? && Truthy(pkgMeta.value) && !pkgMeta.value.Arr? && !pkgMeta.value.Str?
  {
    if pkgMeta.Some? && Truthy(pkgMeta.value) then
      match pkgMeta.value
      case Arr(es) => (match FirstScript(es) case Some(f) => File(f) case None => Undefined)
      case Str(s) => File(s)
      case _ => NotAString
    else File(moduleName + ".js")
  }

  /** bowerRequire(moduleName): None when the name is empty or not installed. */
  function Require(registry: Registry, moduleName: string): (r: Result<Option<Path>, RequireError>)
    ensures r == Ok(None) <==> registry.Initialized? && (moduleName == "" || moduleName !in registry.dependencies)
    ensures r.Ok? && r.value.Some? ==>
      registry.Initialized? && moduleName != "" && moduleName in registry.dependencies &&
      var d := registry.dependencies[moduleName].canonicalDir;
      |r.value.value| == |d| + 1 && r.value.value[..|d|] == d
  {
    match registry
    case Uninitialized => Err(NotInitialized)
    case Initialized(deps) =>
      if moduleName == "" || moduleName !in deps then Ok(None)
      else
        var pkg := deps[moduleName];
        match MainModule(moduleName, pkg.pkgMeta)
        case File(f) => Ok(Some(pkg.canonicalDir + [f]))
        case _ => Err(MainNotString)
  }

  /** Require throws "You must call the #init method first" exactly when the
      cache is unset, whatever the name. */
  lemma RequireNeedsInit(registry: Registry, moduleName: string)
    ensures Require(registry, moduleName) == Err(NotInitialized) <==> registry.Uninitialized?
  {
  }

  /** Which file bowerRequire picks for an installed package: the first
      `.js` entry of an array `main`, a non-empty string `main` as it is,
      and `<moduleName>.js` when there is no metadata or `main` is falsy.
      An empty or uninstalled name gives nothing. */
  lemma RequireChoosesMain(registry: Registry, moduleName: string)
    requires registry.Initialized?
    ensures moduleName == "" || moduleName !in registry.dependencies ==> Require(registry, moduleName) == Ok(None)
    ensures moduleName != "" && moduleName in registry.dependencies ==>
      var pkg := registry.dependencies[moduleName];
      var d := pkg.canonicalDir;
      (pkg.pkgMeta.None? || !Truthy(pkg.pkgMeta.value) ==>
        Require(registry, moduleName) == Ok(Some(d + [moduleName + ".js"]))) &&
      (forall s :: pkg.pkgMeta == Some(Str(s)) && s != "" ==>
        Require(registry, moduleName) == Ok(Some(d + [s]))) &&
      (pkg.pkgMeta.Some? && pkg.pkgMeta.value.Arr? ==>
        var es := pkg.pkgMeta.value.entries;
        forall i :: 0 <= i < |es| && IsScript(es[i]) && (forall j :: 0 <= j < i ==> !IsScript(es[j])) ==>
          Require(registry, moduleName) == Ok(Some(d + [es[i]])))
  {
  }

  /** An array `main` with no `.js` entry, or a truthy `main` that is
      neither a string nor an array, makes bowerRequire throw. */
  lemma RequireRejectsNonStringMain(registry: Registry, moduleName: string)
    requires registry.Initialized? && moduleName != "" && moduleName in registry.dependencies
    requires var meta := registry.dependencies[moduleName].pkgMeta;
      meta.Some? && Truthy(meta.value) && !meta.value.Str? &&
      (meta.value.Arr? ==> forall i :: 0 <= i < |meta.value.entries| ==> !IsScript(meta.value.entries[i]))
    ensures Require(registry, moduleName) == Err(MainNotString)
  {
  }
}
