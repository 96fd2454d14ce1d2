# bower-resolve, modelled in Dafny

This project models the resolver of `bower-resolve`, a Node module that finds
the entry-point files of packages installed by Bower into a flat dependency
directory (`bower_components` by default, one sub-directory per package).

It models two operations of `index.js`:

- **`bowerResolveSync(moduleName, moduleBowerRef, {basedir})`**. It runs in
  four stages:
  1. It rejects a module name that contains `/` or `\`.
  2. It walks up from the base directory. It stops at the nearest directory
     whose listing holds `bower.json`, `.bowerrc` or `bower_components`. If
     `.bowerrc` is there, its `directory` field renames the dependency
     directory.
  3. It expands `*` into every entry of the dependency directory.
  4. For each package it reads `.bower.json`, else `bower.json`. It turns the
     `main` field into paths. The results are merged with lodash's `_.union`.
  If no directory has a marker, an http(s) reference ending in `.js` yields
  one speculative `index.js` path.
- **`bowerRequire(moduleName)`**. It picks a package's main file from the
  package map that `init` cached.

The filesystem is an immutable value (`FileSystem.Fs`):

- a map from directory path to its listing, in `readdirSync` order;
- a map from file path to what `JSON.parse` makes of the file.

A path is a sequence of segments (`Paths.Path`). Joining paths is
concatenation.

Every exception the code lets escape is an `Err` of the result. For
`bowerResolveSync` these are:

- a name with a separator;
- `readdirSync` on a path that cannot be listed;
- `readFileSync` on a path that is not a readable file (here: a path that is
  not in the file map);
- `JSON.parse` on malformed text.

For `bowerRequire` they are the missing-`init` error (index.js:21) and
`path.join` on a `main` that is not a string (index.js:36).

The imperative parts keep their form. Each is a method proved equal to a
specification function, and the lemmas state what the source promises about
that function:

- `RootDiscovery.FindRoot` is the popping `while` loop.
- `Packages.ModulePaths` is `getModulePaths` with its push loop.
- `Resolver.ResolveSync` runs the `_.union` loop over the listing.

Every specification function depends only on the filesystem value and the
arguments. Two calls on the same filesystem with the same arguments therefore
give the same ordered result.

`bowerRequire`'s main-file selection is pure, so it is modelled as functions
(`BowerRequire.MainModule`, `BowerRequire.Require`).

The model follows `index.js` where the package's documented behaviour differs
from it:

- No `main` entry is checked for existence.
- There is no `dist/` fallback.
- No `<name>.js` or `dist/<name>.min.js` is probed.
- The variable `nameHasPath` is true when the name has NO `/`. So a package
  without a manifest always yields `<root>/<dir>/<name>/<name>`.
- A malformed manifest or `.bowerrc` makes the call throw. It is not treated
  as a missing file.
- When no root is found, the speculative path starts from the last prefix the
  walk listed. That prefix is the first segment of the base directory. It is
  not the base directory itself.
- On an absolute POSIX base directory the first segment is `""`, and Node's
  `readdirSync("")` throws. So on POSIX the walk either finds a root or
  throws, and the `index.js` fallback (index.js:149-151) is never reached.
  Only a path whose first segment can be listed, such as a Windows drive
  path, can get there. `RootDiscovery.PosixWalkNeverEndsUnfound` and `Resolver.PosixOutsideProjectThrows` state this
  for a filesystem that does not list `""`.

Modules: `Wrappers` (Option, Result), `Paths`, `OrderedUnion` (`_.union`),
`FileSystem`, `RootDiscovery`, `Packages`, `Resolver`, `BowerRequire`.

## Model

| member | source | states |
|---|---|---|
| `Paths.Split` | index.js:84 | splitting on `/` and `\` always yields at least one piece |
| `Paths.SplitCount` | index.js:87-89 | a name splits into more than one piece exactly when it contains `/` or `\` |
| `Paths.SplitPiecesHaveNoSeparator` | index.js:84 | no piece of the split base directory contains a separator |
| `Paths.JoinSplit` | index.js:93 | joining the split pieces with `/` gives back the path, with backslashes written as slashes |
| `Paths.SplitJoin` | index.js:93 | splitting separator-free pieces joined with `/` gives back the pieces |
| `OrderedUnion.Dedup` | index.js:111-114 | the merged list has no duplicates and holds exactly the values of its input |
| `OrderedUnion.DedupFirstOccurrenceOrder` | index.js:111-114 | the merged list keeps values in the order of their first occurrence |
| `OrderedUnion.DedupUnique` | index.js:111-114 | any duplicate-free list of the input's values in first-occurrence order equals the merged list |
| `OrderedUnion.DedupOfDistinct` | index.js:114 | a list without duplicates passes through the union unchanged |
| `OrderedUnion.DedupAppend` | index.js:110-112 | merging package by package gives the same list as merging all paths at once |
| `OrderedUnion.Union` | index.js:111 | `_.union(a, b)` has no duplicates and holds exactly the values of `a` and `b` |
| `OrderedUnion.UnionExtends` | index.js:111 | `_.union(a, b)` keeps a duplicate-free `a` as its prefix and holds exactly the values of `a` and `b` |
| `FileSystem.Exists` | index.js:121-123 | `existsSync` holds for a path that is a listable directory or a readable file |
| `FileSystem.ReadJson` | index.js:98-131 | reading fails with the unreadable error exactly when the path is not a file, with the parse error exactly when the file does not parse, and otherwise returns the parsed document |
| `RootDiscovery.HasMarker` | index.js:95 | a listing marks a Bower root when it holds `bower.json`, `.bowerrc` or `bower_components` |
| `RootDiscovery.Walk` | index.js:92-104 | a found root can be listed and has a marker; the only error of the walk is an unlistable directory |
| `RootDiscovery.DependencyDirectory` | index.js:97-100 | without a listed `.bowerrc` the directory is `bower_components`; a listed, readable `.bowerrc` gives its `directory` when that is a non-empty string and `bower_components` otherwise; a listed `.bowerrc` that is not a file or does not parse is the error |
| `RootDiscovery.Discover` | index.js:81-104 | root discovery fails only with a filesystem or parse error |
| `RootDiscovery.FindRoot` | index.js:79-104 | the popping loop computes exactly the root discovery of the base directory |
| `RootDiscovery.WalkFindsNearest` | index.js:92-104 | the walk stops at `b` iff `b` is the longest prefix whose listing has a marker and every longer prefix is listable |
| `RootDiscovery.WalkNotFound` | index.js:92-104 | the walk finds nothing iff every non-empty prefix is listable and none has a marker |
| `RootDiscovery.WalkUnlistable` | index.js:92-94 | the walk throws on `q` iff `q` is the longest unlistable prefix and no longer prefix has a marker |
| `RootDiscovery.DiscoverReadsBowerrc` | index.js:92-104 | when `b` is the nearest marked ancestor, discovery reports root `b` with `.bowerrc`'s non-empty `directory` (for instance `custom_components`), or `bower_components` when `.bowerrc` is absent or names none; an unreadable or malformed `.bowerrc` makes it throw |
| `RootDiscovery.PosixWalkNeverEndsUnfound` | index.js:84-151 | for an absolute POSIX base directory on a filesystem that cannot list `""`, discovery either finds a root or throws: the not-found branch is unreachable |
| `RootDiscovery.DiscoverFindsNearestRoot` | index.js:81-104 | a found root is the nearest marked ancestor, with the dependency directory read there; otherwise the base is the first segment and the directory is the default |
| `Packages.ManifestOf` | index.js:121-125 | `.bower.json` is chosen whenever it exists, `bower.json` only when it exists and `.bower.json` does not, and none exactly when neither exists |
| `Packages.MainPaths` | index.js:130-141 | each path is the package directory plus one segment; an array or object gives `<pkg>/<entry i>` at position i for every entry, a string exactly `<pkg>/<main>`, anything else nothing |
| `Packages.JoinEach` | index.js:135-137 | one path `<pkg>/<entry>` per entry, in entry order |
| `Packages.JoinEachDistinct` | index.js:135-137 | distinct `main` entries give distinct paths |
| `Packages.PackagePaths` | index.js:117-147 | a package's resolution throws exactly when its chosen manifest cannot be read (the unreadable error for that manifest) or does not parse (the parse error for that manifest); it throws nothing else |
| `Packages.ModulePaths` | index.js:117-147 | the push loop computes exactly the package's paths |
| `Packages.PathsInsidePackage` | index.js:136-144 | every path produced for a package is the package directory `<root>/<dir>/<name>` plus one `main` entry (or the name) as a single segment |
| `Packages.ManifestDecides` | index.js:121-141 | the paths depend only on which manifest is chosen and what it holds; no entry is checked for existence |
| `Packages.HiddenManifestPreferred` | index.js:121-125 | once `.bower.json` exists, adding, changing or removing `bower.json` changes nothing |
| `Packages.MainFieldPaths` | index.js:130-141 | an array or object `main` gives one path per entry in order; a string gives exactly one; anything else gives none |
| `Packages.NoManifestPaths` | index.js:126-145 | without a manifest, a name with no `/` gives exactly `<pkg>/<name>`; any other name gives nothing |
| `Resolver.IsScriptUrl` | index.js:149 | a reference that passes the http(s)-and-`.js` test ends in `.js` and is at least as long as `http://` plus `.js` |
| `Resolver.Gather` | index.js:110-112 | expanding the listing fails only with a filesystem or parse error |
| `Resolver.Resolve` | index.js:78-154 | a successful resolution never contains a path twice; for an accepted name, an error thrown by root discovery (an unlistable ancestor, a bad `.bowerrc`) is the call's error |
| `Resolver.ResolveSync` | index.js:78-154 | the imperative resolver computes exactly `Resolve` |
| `Resolver.GatherStopsAtError` | index.js:110-112 | once one package throws, the whole expansion throws the same error |
| `Resolver.GatherCollectsEveryPackage` | index.js:108-112 | expansion succeeds iff every listed package resolves, and then holds exactly their paths |
| `Resolver.RelativeNameRejected` | index.js:87-89 | resolution throws the relative-path error iff the name contains `/` or `\`, whatever the filesystem |
| `Resolver.WildcardResolvesEveryEntry` | index.js:108-112 | `*` succeeds iff every entry of the dependency directory resolves; its result is their duplicate-free union in listing order |
| `Resolver.WildcardNeedsDependencyDirectory` | index.js:109 | `*` throws when the dependency directory cannot be listed |
| `Resolver.ResolveNamed` | index.js:113-115 | a single name resolves to its package's paths without duplicates, and an error from the package's resolution is the call's error |
| `Resolver.BareNameWithoutManifest` | index.js:143-145 | any name that passes the separator check and has no manifest resolves to exactly `<root>/<dir>/<name>/<name>` |
| `Resolver.ListedMainResolvesInOrder` | index.js:134-137 | a `main` list of distinct entries resolves to exactly one path per entry, in list order |
| `Resolver.NoRootFallback` | index.js:149-151 | with no marker anywhere, the result is one `index.js` path for an http(s) `.js` reference, built from the first segment and `bower_components`, and empty otherwise |
| `Resolver.PosixOutsideProjectThrows` | index.js:92-104 | outside any Bower project, an absolute POSIX base directory makes the call throw the unlistable error for `""`, so the `index.js` fallback is never returned |
| `BowerRequire.IsScript` | index.js:29 | the test `/\.js$/`: the name ends in `.js` |
| `BowerRequire.Truthy` | index.js:27 | `pkgMeta.main` is truthy unless it is missing, the empty string, or a falsy scalar; arrays and objects are always truthy |
| `BowerRequire.FirstScript` | index.js:28-30 | the selection is the first entry ending in `.js`; there is none iff no entry ends in `.js` |
| `BowerRequire.RequireNeedsInit` | index.js:21 | `bowerRequire` throws the init error iff the package map is not cached, whatever the name |
| `BowerRequire.MainModule` | index.js:27-35 | a chosen file ends in `.js` unless it is the non-empty string `main`; the choice is undefined exactly for an array with no `.js` entry, and not a string exactly for a truthy `main` that is neither string nor array |
| `BowerRequire.Require` | index.js:20-40 | nothing is returned exactly when the map is cached and the name is empty or not installed; a returned path is the package directory plus one segment |
| `BowerRequire.RequireChoosesMain` | index.js:22-37 | an empty or uninstalled name gives nothing; an installed package gives `<dir>/<moduleName>.js` without metadata or with a falsy `main`, `<dir>/<main>` for a non-empty string, and `<dir>/<first .js entry>` for an array |
| `BowerRequire.RequireRejectsNonStringMain` | index.js:27-36 | an array `main` without a `.js` entry, or a truthy non-string non-array `main`, makes the call throw |

## Left out

- `readBowerModules` (index.js:8-18) is an asynchronous call into the external bower library. Its result is the `BowerRequire.Registry` value: `Uninitialized` or the cached package map.
- `fastReadBowerModules` (index.js:42-51) is not modelled. It calls `bowerResolveSync(moduleArg, opts)` through `setTimeout`. The options land in the `moduleBowerRef` slot and `inOpts` is undefined, so `basedir` is ignored and the walk starts at `process.cwd()`. When no root is found, `.startsWith` is called on the options object and throws inside the timer, so the callback is never called.
- `bowerResolveAll` (index.js:53-76) loads a JSON file with `require()` and logs. Per key it only calls the resolver.
- `console.log` diagnostics are not modelled.
- Node's path normalisation (`path.join`, `path.resolve`, `path.relative`, `.` and `..`) is not modelled. So two different segment sequences that would join to the same string count as two paths, and `_.union` keeps both.
- `process.cwd()` and `path.resolve(process.cwd(), basedir)` are not modelled. `baseDir` is a parameter holding the already resolved directory.
- `BowerRequire.Require`: the final rewrite through `path.resolve`, `path.relative` and `process.cwd()` (index.js:36-37) is not modelled. The result is the package directory joined with the main file.
- `BowerRequire.Require` does not model names that match only through the object's prototype chain (such as `constructor`).
- A `main` entry such as `dist/app.js` or `../x.js` is kept as one segment. Node's `path.join` would place it deeper in, or outside, the package directory. `Packages.PathsInsidePackage` is stated over this segment representation.
- Array and object `main` entries are strings in the model. A non-string entry, on which `path.join` throws, is not modelled.
- A truthy non-string `directory` in `.bowerrc` is not modelled. The field is absent or a string.
- `readFileSync` throwing on an existing file it may not read (EACCES) is not modelled. A path in the file map is always readable.
- A falsy entry of the cached package map (the `if (bModule)` test at index.js:24) is not modelled. Every installed name maps to a package record.
- The filesystem value is not constrained to what Node can list: it may list `""`, which Node's `readdirSync` refuses. Over such a value the `index.js` fallback is reachable from an absolute POSIX path, which it never is in Node (see `RootDiscovery.PosixWalkNeverEndsUnfound`).
- A `moduleBowerRef` that is not a string is not modelled. The source throws on it when no root is found.
- File contents are the parsed JSON. Reading a file and parsing it are one step (`FileSystem.ReadJson`).
