/** backend/app/main.py: readiness, and the model directory endpoints. The environment
    variables are a `Settings` record and the filesystem an abstract `FileSystem` whose
    queries take resolved paths. */
module Service {
  import opened Wrappers
  import opened PyText
  import opened PyValues
  import opened Http
  import opened Paths
  import opened Sorting

  /** The environment variables `main.py` reads; `None` when unset. */
  datatype Settings = Settings(
    mode: Option<string>,
    databasePath: Option<string>,
    indexDir: Option<string>,
    modelDir: Option<string>)

  /** What the handlers ask of the filesystem, keyed by resolved path: the working directory,
      `exists`, `is_file`, `is_dir`, the entry names `iterdir` yields, `st_size` and `st_mtime`. */
  datatype FileSystem = FileSystem(
    cwd: seq<string>,
    present: seq<string> -> bool,
    isFile: seq<string> -> bool,
    isDir: seq<string> -> bool,
    entries: seq<string> -> seq<string>,
    size: seq<string> -> int,
    mtime: seq<string> -> real)

  const DefaultMode: string := "local"
  const DefaultDatabasePath: string := "data/db.sqlite"
  const DefaultIndexDir: string := "data/indexes"
  const DefaultModelDir: string := "models"

  /** `os.getenv(name, fallback)` */
  function Getenv(v: Option<string>, fallback: string): string
  {
    if v.Some? then v.value else fallback
  }

  function Mode(s: Settings): string
  {
    Getenv(s.mode, DefaultMode)
  }

  function DatabasePath(s: Settings): Path
  {
    Parse(Getenv(s.databasePath, DefaultDatabasePath))
  }

  function IndexPath(s: Settings): Path
  {
    Parse(Getenv(s.indexDir, DefaultIndexDir))
  }

  /** `path.exists()` for a path relative to the working directory or absolute. */
  predicate Exists(fs: FileSystem, p: Path)
  {
    fs.present(Resolve(fs.cwd, p))
  }

  // ---------------------------------------------------------------- readiness

  datatype Readiness = Readiness(ok: bool, details: Dict)

  /** The service is ready in "local" mode, and in any other mode exactly when both the
      database file and the index directory exist. */
  predicate ReadyState(s: Settings, fs: FileSystem)
  {
    Mode(s) == "local" || (Exists(fs, DatabasePath(s)) && Exists(fs, IndexPath(s)))
  }

  /** The diagnostics of local mode: no checks are made. */
  function LocalDetails(mode: string): (d: Dict)
    ensures d.Keys == {"mode", "db_ok", "indexes_ok"} && "status" !in d
    ensures d["mode"] == VStr(mode) && d["db_ok"] == VNone && d["indexes_ok"] == VNone
  {
    map["mode" := VStr(mode), "db_ok" := VNone, "indexes_ok" := VNone]
  }

  /** The diagnostics of the other modes: both paths and whether they exist. */
  function CheckedDetails(mode: string, dbPath: string, indexDir: string, dbOk: bool, indexesOk: bool)
    : (d: Dict)
    ensures d.Keys == {"mode", "db_path", "index_dir", "db_ok", "indexes_ok"} && "status" !in d
    ensures d["mode"] == VStr(mode) && d["db_path"] == VStr(dbPath) && d["index_dir"] == VStr(indexDir)
    ensures d["db_ok"] == VBool(dbOk) && d["indexes_ok"] == VBool(indexesOk)
  {
    map["mode" := VStr(mode), "db_path" := VStr(dbPath), "index_dir" := VStr(indexDir),
        "db_ok" := VBool(dbOk), "indexes_ok" := VBool(indexesOk)]
  }

  /** The diagnostics `check_readiness` reports. */
  function ReadinessDetails(s: Settings, fs: FileSystem): (d: Dict)
    ensures "mode" in d && d["mode"] == VStr(Mode(s))
    ensures Mode(s) == "local" ==> d.Keys == {"mode", "db_ok", "indexes_ok"}
                                   && d["db_ok"] == VNone && d["indexes_ok"] == VNone
    ensures Mode(s) != "local" ==>
      && d.Keys == {"mode", "db_path", "index_dir", "db_ok", "indexes_ok"}
      && d["db_path"] == VStr(PathText(DatabasePath(s)))
      && d["index_dir"] == VStr(PathText(IndexPath(s)))
      && d["db_ok"] == VBool(Exists(fs, DatabasePath(s)))
      && d["indexes_ok"] == VBool(Exists(fs, IndexPath(s)))
    ensures "status" !in d
  {
    if Mode(s) == "local" then LocalDetails(Mode(s))
    else
      CheckedDetails(Mode(s), PathText(DatabasePath(s)), PathText(IndexPath(s)),
                     Exists(fs, DatabasePath(s)), Exists(fs, IndexPath(s)))
  }

  /** `check_readiness`: the details are filled in step by step. */
  method CheckReadiness(s: Settings, fs: FileSystem) returns (r: Readiness)
    ensures r.ok <==> ReadyState(s, fs)
    ensures r.details == ReadinessDetails(s, fs)
  {
    var mode := Getenv(s.mode, DefaultMode);
    var details: Dict := map["mode" := VStr(mode)];
    if mode == "local" {
      details := details["db_ok" := VNone];
      details := details["indexes_ok" := VNone];
      return Readiness(true, details);
    }
    var dbPath := Parse(Getenv(s.databasePath, DefaultDatabasePath));
    var indexDir := Parse(Getenv(s.indexDir, DefaultIndexDir));
    details := details["db_path" := VStr(PathText(dbPath))];
    details := details["index_dir" := VStr(PathText(indexDir))];
    details := details["db_ok" := VBool(Exists(fs, dbPath))];
    details := details["indexes_ok" := VBool(Exists(fs, indexDir))];
    // `details["db_ok"] and details["indexes_ok"]`, both booleans here
    var ok := Truthy(details["db_ok"]) && Truthy(details["indexes_ok"]);
    return Readiness(ok, details);
  }

  datatype JsonResponse = JsonResponse(status: int, body: Dict)

  /** `ready`: 200 "ready" or 503 "not-ready", with the details merged into the body. */
  method Ready(s: Settings, fs: FileSystem) returns (resp: JsonResponse)
    ensures resp.status == (if ReadyState(s, fs) then 200 else 503)
    ensures "status" in resp.body && resp.body["status"] == VStr(if ReadyState(s, fs) then "ready" else "not-ready")
    ensures forall k :: k in ReadinessDetails(s, fs) ==> k in resp.body && resp.body[k] == ReadinessDetails(s, fs)[k]
    ensures resp.body.Keys == {"status"} + ReadinessDetails(s, fs).Keys
  {
    var result := CheckReadiness(s, fs);
    if result.ok {
      return JsonResponse(200, map["status" := VStr("ready")] + result.details);
    }
    return JsonResponse(503, map["status" := VStr("not-ready")] + result.details);
  }

  /** Local mode is always ready and reports no checks. */
  lemma LocalModeReady(s: Settings, fs: FileSystem)
    requires s.mode.None? || s.mode == Some("local")
    ensures ReadyState(s, fs)
    ensures ReadinessDetails(s, fs)["db_ok"] == VNone
  {
  }

  /** In any other mode, a missing database makes the service not ready, and the details
      say which check failed. */
  lemma MissingDatabaseNotReady(s: Settings, fs: FileSystem)
    requires Mode(s) != "local"
    requires !Exists(fs, DatabasePath(s))
    ensures !ReadyState(s, fs)
    ensures ReadinessDetails(s, fs)["db_ok"] == VBool(false)
  {
  }

  /** Outside local mode, readiness is exactly the conjunction of the two reported checks. */
  lemma ReadyIffChecksPass(s: Settings, fs: FileSystem)
    requires Mode(s) != "local"
    ensures ReadyState(s, fs) <==>
      ReadinessDetails(s, fs)["db_ok"] == VBool(true) && ReadinessDetails(s, fs)["indexes_ok"] == VBool(true)
  {
  }

  // ---------------------------------------------------------------- models

  /** The metadata returned for a model file. */
  datatype ModelInfo = ModelInfo(name: string, size: int, modified: real)

  const InvalidModelName: string := "invalid model name"
  const ModelNotFound: string := "model not found"

  function ModelDirPath(s: Settings): Path
  {
    Parse(Getenv(s.modelDir, DefaultModelDir))
  }

  /** `Path(MODEL_DIR).resolve()` */
  function ModelDir(s: Settings, fs: FileSystem): (d: seq<string>)
    ensures Canonical(d)
  {
    Resolve(fs.cwd, ModelDirPath(s))
  }

  /** `(model_dir / name).resolve()` */
  function ModelPath(s: Settings, fs: FileSystem, name: string): (p: seq<string>)
    ensures Canonical(p)
  {
    Resolve(fs.cwd, Join(Path(true, ModelDir(s, fs)), name))
  }

  /** `p.name`: the last component, "" for the root. */
  function BaseName(p: seq<string>): string
  {
    if p == [] then "" else p[|p| - 1]
  }

  function Info(fs: FileSystem, p: seq<string>): ModelInfo
  {
    ModelInfo(BaseName(p), fs.size(p), fs.mtime(p))
  }

  /** `get_model`: refuse a name that resolves outside the model directory, before looking
      at the filesystem; then require an existing regular file. */
  function GetModel(s: Settings, fs: FileSystem, name: string): (r: Result<ModelInfo, Failure>)
    ensures r == Err(HttpError(Forbidden, InvalidModelName)) <==> !IsWithin(ModelPath(s, fs, name), ModelDir(s, fs))
    ensures r == Err(HttpError(NotFound, ModelNotFound)) <==>
      IsWithin(ModelPath(s, fs, name), ModelDir(s, fs)) &&
      !(fs.present(ModelPath(s, fs, name)) && fs.isFile(ModelPath(s, fs, name)))
    ensures r.Ok? ==> r.value == Info(fs, ModelPath(s, fs, name))
  {
    var dir := ModelDir(s, fs);
    var p := ModelPath(s, fs, name);
    if !IsWithin(p, dir) then Err(HttpError(Forbidden, InvalidModelName))
    else if !fs.present(p) || !fs.isFile(p) then Err(HttpError(NotFound, ModelNotFound))
    else Ok(Info(fs, p))
  }

  /** The 403 decision depends on the working directory and the names only: no file is
      consulted before a traversal is refused. */
  lemma ForbiddenIgnoresFiles(s: Settings, fs1: FileSystem, fs2: FileSystem, name: string)
    requires fs1.cwd == fs2.cwd
    ensures GetModel(s, fs1, name) == Err(HttpError(Forbidden, InvalidModelName))
        <==> GetModel(s, fs2, name) == Err(HttpError(Forbidden, InvalidModelName))
  {
  }

  /** A plain file name is looked up as the directory's entry of that name. */
  lemma PlainNameLookup(s: Settings, fs: FileSystem, name: string)
    requires name != "" && name != "." && name != ".." && NoSeparator(name, IsSlash)
    ensures var p := ModelDir(s, fs) + [name];
            && (GetModel(s, fs, name).Ok? <==> fs.present(p) && fs.isFile(p))
            && (GetModel(s, fs, name).Ok? ==> GetModel(s, fs, name).value == ModelInfo(name, fs.size(p), fs.mtime(p)))
  {
    PlainNameStaysInside(fs.cwd, ModelDir(s, fs), name);
  }

  /** ".." is refused unless the model directory is the root. */
  lemma ParentNameForbidden(s: Settings, fs: FileSystem)
    requires ModelDir(s, fs) != []
    ensures GetModel(s, fs, "..") == Err(HttpError(Forbidden, InvalidModelName))
  {
    ParentEscapes(fs.cwd, ModelDir(s, fs));
  }

  /** An absolute name outside the model directory is refused. */
  lemma AbsoluteNameForbidden(s: Settings, fs: FileSystem, name: string)
    requires |name| > 0 && name[0] == '/'
    requires !IsWithin(Normalize([], Parse(name).parts), ModelDir(s, fs))
    ensures GetModel(s, fs, name) == Err(HttpError(Forbidden, InvalidModelName))
  {
    ResolveJoin(fs.cwd, ModelDir(s, fs), name);
  }

  // ---------------------------------------------------------------- listing

  /** The regular files among `names`, entries of `dir`, in the order given. */
  function FileNames(fs: FileSystem, dir: seq<string>, names: seq<string>): (r: seq<string>)
    ensures forall k :: 0 <= k < |r| ==> r[k] in names && fs.isFile(dir + [r[k]])
    decreases |names|
  {
    if names == [] then []
    else
      var last := names[|names| - 1];
      var rest := FileNames(fs, dir, names[..|names| - 1]);
      if fs.isFile(dir + [last]) then rest + [last] else rest
  }

  /** The entries `list_models` produces for `names`, taken in that order. */
  function ModelEntries(fs: FileSystem, dir: seq<string>, names: seq<string>): seq<ModelInfo>
    decreases |names|
  {
    if names == [] then []
    else
      var last := names[|names| - 1];
      var rest := ModelEntries(fs, dir, names[..|names| - 1]);
      if fs.isFile(dir + [last]) then rest + [Info(fs, dir + [last])] else rest
  }

  /** `list_models`: nothing when the directory is missing or not a directory; otherwise
      the regular files among its entries, in sorted order. */
  method ListModels(s: Settings, fs: FileSystem) returns (result: seq<ModelInfo>)
    ensures var dir := Resolve(fs.cwd, ModelDirPath(s));
            && (!(fs.present(dir) && fs.isDir(dir)) ==> result == [])
            && (fs.present(dir) && fs.isDir(dir) ==> result == ModelEntries(fs, dir, Sort(fs.entries(dir))))
  {
    var modelDir := ModelDirPath(s);
    var dir := Resolve(fs.cwd, modelDir);
    if !fs.present(dir) || !fs.isDir(dir) {
      return [];
    }
    result := [];
    var names := Sort(fs.entries(dir));
    for i := 0 to |names|
      invariant result == ModelEntries(fs, dir, names[..i])
    {
      assert names[..i + 1][..i] == names[..i];
      var p := dir + [names[i]];
      if fs.isFile(p) {
        result := result + [ModelInfo(names[i], fs.size(p), fs.mtime(p))];
      }
    }
    assert names[..|names|] == names;
  }

  // ---------------------------------------------------------------- listing properties

  /** Each listed entry describes the regular file of that name: the entries are the
      regular files among `names`, one each, in the same order. */
  lemma {:induction false} EntriesDescribeFiles(fs: FileSystem, dir: seq<string>, names: seq<string>)
    ensures |ModelEntries(fs, dir, names)| == |FileNames(fs, dir, names)|
    ensures forall k :: 0 <= k < |FileNames(fs, dir, names)| ==>
      ModelEntries(fs, dir, names)[k] == ModelInfo(FileNames(fs, dir, names)[k],
                                                   fs.size(dir + [FileNames(fs, dir, names)[k]]),
                                                   fs.mtime(dir + [FileNames(fs, dir, names)[k]]))
    decreases |names|
  {
    if names != [] {
      EntriesDescribeFiles(fs, dir, names[..|names| - 1]);
    }
  }

  /** Keeping only the regular files keeps a sorted list sorted. */
  lemma {:induction false} FileNamesSorted(fs: FileSystem, dir: seq<string>, names: seq<string>)
    requires Sorted(names)
    ensures Sorted(FileNames(fs, dir, names))
    decreases |names|
  {
    if names != [] {
      var init := names[..|names| - 1];
      assert Sorted(init);
      FileNamesSorted(fs, dir, init);
      var rest := FileNames(fs, dir, init);
      var last := names[|names| - 1];
      forall k | 0 <= k < |rest|
        ensures StrLeq(rest[k], last)
      {
        var j :| 0 <= j < |init| && init[j] == rest[k];
      }
    }
  }

  /** How often each name survives the filter: as often as in `names` when it is a regular
      file, never otherwise. */
  lemma {:induction false} FileNamesCount(fs: FileSystem, dir: seq<string>, names: seq<string>, n: string)
    ensures multiset(FileNames(fs, dir, names))[n] == if fs.isFile(dir + [n]) then multiset(names)[n] else 0
    decreases |names|
  {
    if names != [] {
      var init := names[..|names| - 1];
      FileNamesCount(fs, dir, init, n);
      assert names == init + [names[|names| - 1]];
    }
  }

  /** The listing is the sorted list of the directory's regular files, whatever order the
      directory yields its entries in. */
  lemma ListingIsSortedFiles(fs: FileSystem, dir: seq<string>)
    ensures FileNames(fs, dir, Sort(fs.entries(dir))) == Sort(FileNames(fs, dir, fs.entries(dir)))
  {
    var e := fs.entries(dir);
    FileNamesSorted(fs, dir, Sort(e));
    forall n: string
      ensures multiset(FileNames(fs, dir, Sort(e)))[n] == multiset(FileNames(fs, dir, e))[n]
    {
      FileNamesCount(fs, dir, Sort(e), n);
      FileNamesCount(fs, dir, e, n);
    }
    assert multiset(FileNames(fs, dir, Sort(e))) == multiset(FileNames(fs, dir, e));
    SortedUnique(FileNames(fs, dir, Sort(e)), Sort(FileNames(fs, dir, e)));
  }
}
