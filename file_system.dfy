/** The filesystem as the resolver sees it, frozen for the length of one call:
    directory listings, which paths exist, and what JSON.parse makes of a file. */
module FileSystem {
  import opened Wrappers
  import opened Paths

  /** The value of a manifest's `main` field, as JavaScript classifies it. */
  datatype MainField =
    | Absent                        // no `main` key: undefined
    | Str(s: string)                // typeof 'string'
    | Arr(entries: seq<string>)     // an array of strings
    | Obj(entries: seq<string>)     // any other object: its string values, in key order
    | Scalar(truthy: bool)          // a number, a boolean or null, and whether it is truthy

  /** A file after JSON.parse: either parsing throws (or yields null, whose
      fields cannot be read), or it is a value of which the resolver reads
      `main` (package manifests) and `directory` (`.bowerrc`). */
  datatype Json = Unparsable | Document(main: MainField, directory: Option<string>)

  /** A snapshot of the filesystem. `dirs` gives what readdirSync lists, in
      its order, for each path it can list; `files` gives each readable
      file's parsed contents. */
  datatype Fs = Fs(dirs: map<Path, seq<string>>, files: map<Path, Json>)

  /** The errors the resolver throws. */
  datatype Error =
    | RelativeName          // the module name holds a path separator
    | Unlistable(dir: Path) // readdirSync throws
    | Unreadable(file: Path) // readFileSync throws (the path is a directory)
    | Malformed(file: Path) // JSON.parse throws

  predicate IsFsError(e: Error) {
    e.Unlistable? || e.Unreadable? || e.Malformed?
  }

  /** existsSync: a directory or a file is there. */
  predicate Exists(fs: Fs, p: Path) {
    p in fs.dirs || p in fs.files
  }

  /** `JSON.parse(fs.readFileSync(p))`. */
  function ReadJson(fs: Fs, p: Path): (r: Result<Json, Error>)
    ensures r.Ok? ==> r.value.Document?
    ensures r.Err? ==> IsFsError(r.error)
    ensures r == Err(Unreadable(p)) <==> p !in fs.files
    ensures r == Err(Malformed(p)) <==> p in fs.files && fs.files[p].Unparsable?
    ensures r.Ok? ==> p in fs.files && r.value == fs.files[p]
  {
    if p !in fs.files then Err(Unreadable(p))
    else if fs.files[p].Unparsable? then Err(Malformed(p))
    else Ok(fs.files[p])
  }
}
