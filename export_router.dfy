/** The export endpoints of app/router/export_router.py: the checks
    `download_export` makes before serving a file, the download links the
    export endpoints return, and the delayed clean-ups they schedule. Writing
    the CSV files (app/services/export.py) is not part of this model: each
    endpoint receives what the exporter returned or raised. Resolving a path
    against the file system, whether a file exists, the files `os.walk` finds
    and the text `str(e)` of an exception are parameters. */
module ExportRouter {
  import opened Common

  /** The delay, in seconds, of the clean-up after a full export. */
  const FullExportDelay := 86400
  /** `delayed_cleanup`'s default delay, used by the per-asset exports. */
  const DefaultCleanupDelay := 3600

  const DownloadPrefix := "/export/download/"
  const InvalidFilePath := HttpError(400, "Invalid file path")
  const CsvMediaType := "text/csv"

  /** A scheduled `delayed_cleanup(path, delay)`. */
  datatype Cleanup = Cleanup(path: string, delay: int)

  /** The `BackgroundTasks` of one request: the clean-ups added, in order. */
  class BackgroundTasks {
    var tasks: seq<Cleanup>

    constructor ()
      ensures tasks == []
    {
      tasks := [];
    }

    /** `background_tasks.add_task(delayed_cleanup, path, delay)` */
    method AddTask(c: Cleanup)
      modifies this
      ensures tasks == old(tasks) + [c]
    {
      tasks := tasks + [c];
    }
  }

  predicate HasPrefix(s: string, prefix: string) {
    |prefix| <= |s| && s[..|prefix|] == prefix
  }

  /** pathlib's `base / rel`: an absolute `rel` replaces the base, an empty one
      leaves it, any other is appended after a separator. */
  function JoinPath(base: string, rel: string): string {
    if rel == "" then base
    else if rel[0] == '/' then rel
    else base + "/" + rel
  }

  /** `PurePath(p).relative_to(root)` succeeds exactly when `p` is `root` or lies
      below it, component by component. */
  predicate IsWithin(p: string, root: string) {
    p == root || HasPrefix(p, if root == "/" then root else root + "/")
  }

  /** `Path(p).name`: the longest suffix of `p` without a separator. */
  function BaseName(p: string): (r: string)
    ensures EndsWith(p, r) && '/' !in r
    ensures |r| < |p| ==> p[|p| - |r| - 1] == '/'
  {
    if |p| == 0 then ""
    else if p[|p| - 1] == '/' then ""
    else
      var r := BaseName(p[..|p| - 1]);
      assert p[..|p| - 1][|p| - 1 - |r|..] == p[|p| - 1 - |r|..|p| - 1];
      r + [p[|p| - 1]]
  }

  /** The `available_files` of the 404 answer: the walked files that end in
      `.csv`, in walk order. */
  function CsvFiles(walked: seq<string>): (r: seq<string>)
    ensures forall f :: f in r <==> f in walked && EndsWith(f, ".csv")
    ensures |r| <= |walked|
  {
    if |walked| == 0 then []
    else
      var init := CsvFiles(walked[..|walked| - 1]);
      var last := walked[|walked| - 1];
      assert walked == walked[..|walked| - 1] + [last];
      if EndsWith(last, ".csv") then init + [last] else init
  }

  /** The loop of the 404 branch, collecting the `.csv` files `os.walk` reports. */
  method AvailableFiles(walked: seq<string>) returns (r: seq<string>)
    ensures r == CsvFiles(walked)
  {
    r := [];
    var i := 0;
    while i < |walked|
      invariant 0 <= i <= |walked|
      invariant r == CsvFiles(walked[..i])
    {
      assert walked[..i + 1][..i] == walked[..i];
      if EndsWith(walked[i], ".csv") {
        r := r + [walked[i]];
      }
      i := i + 1;
    }
    assert walked[..i] == walked;
  }

  /** The file `download_export` answers with. */
  datatype FileResponse = FileResponse(path: string, mediaType: string, filename: string)

  /** What `download_export` returns or raises. */
  datatype DownloadResult =
    | Serve(file: FileResponse)
    | Refuse(error: Error)                      // HTTPException(400) or HTTPException(500)
    | FileNotFound(availableFiles: seq<string>) // HTTPException(404) listing the CSV files

  /** How `download_export` answers an exception raised while resolving: a
      `ValueError` is the 400 of the inner `except`, any other error the 500 of
      the outer one, carrying its text. */
  function ErrorOutcome(e: Error, describe: Error -> string): (r: Outcome)
    ensures r.Fail?
    ensures r.error == InvalidFilePath <==> e.ValueError?
    ensures !e.ValueError? ==> r.error == HttpError(500, describe(e))
  {
    if e.ValueError? then Fail(InvalidFilePath) else Fail(HttpError(500, describe(e)))
  }

  /** The path checks of `download_export`: the name must end in `.csv` and not
      contain `..`; then the joined path and the export directory are resolved,
      and the first must lie within the second. A `ValueError` from resolving,
      like a failed `relative_to`, is a 400; any other error is a 500 carrying
      its text. */
  function CheckPath(filepath: string, exportDir: string, resolve: string -> Result<string>,
                     describe: Error -> string)
    : (r: Outcome)
    ensures !EndsWith(filepath, ".csv") || HasSubstring(filepath, "..") ==> r == Fail(InvalidFilePath)
    ensures r.Pass? <==>
              && EndsWith(filepath, ".csv") && !HasSubstring(filepath, "..")
              && resolve(JoinPath(exportDir, filepath)).Ok? && resolve(exportDir).Ok?
              && IsWithin(resolve(JoinPath(exportDir, filepath)).value, resolve(exportDir).value)
    ensures r.Fail? ==> r.error == InvalidFilePath || (r.error.HttpError? && r.error.status == 500)
    ensures EndsWith(filepath, ".csv") && !HasSubstring(filepath, "..") ==>
              var full := resolve(JoinPath(exportDir, filepath));
              var root := resolve(exportDir);
              && (full.Err? ==> r == ErrorOutcome(full.error, describe))
              && (full.Ok? && root.Err? ==> r == ErrorOutcome(root.error, describe))
              && (full.Ok? && root.Ok? && !IsWithin(full.value, root.value) ==> r == Fail(InvalidFilePath))
  {
    if !EndsWith(filepath, ".csv") || HasSubstring(filepath, "..") then Fail(InvalidFilePath)
    else
      match resolve(JoinPath(exportDir, filepath))
      case Err(e) => ErrorOutcome(e, describe)
      case Ok(full) =>
        match resolve(exportDir)
        case Err(e) => ErrorOutcome(e, describe)
        case Ok(root) => if IsWithin(full, root) then Pass else Fail(InvalidFilePath)
  }

  /** `download_export` as a whole: the checks, then a 404 listing the CSV files
      when the path does not exist, else the file as `text/csv`. */
  function Download(filepath: string, exportDir: string, resolve: string -> Result<string>,
                    pathExists: string -> bool, walked: seq<string>, describe: Error -> string)
    : (r: DownloadResult)
  {
    match CheckPath(filepath, exportDir, resolve, describe)
    case Fail(e) => Refuse(e)
    case Pass =>
      var full := JoinPath(exportDir, filepath);
      if !pathExists(full) then FileNotFound(CsvFiles(walked))
      else Serve(FileResponse(full, CsvMediaType, BaseName(full)))
  }

  /** Only a CSV file whose request names no `..` and which resolves inside the
      export directory is ever served; an exception surfaces as a 400 or a 500
      and nothing else; a missing file lists exactly the CSV files walked. */
  lemma DownloadSpec(filepath: string, exportDir: string, resolve: string -> Result<string>,
                     pathExists: string -> bool, walked: seq<string>, describe: Error -> string)
    ensures var r := Download(filepath, exportDir, resolve, pathExists, walked, describe);
            var full := JoinPath(exportDir, filepath);
            && (r.Serve? ==>
                  && EndsWith(filepath, ".csv") && !HasSubstring(filepath, "..")
                  && resolve(full).Ok? && resolve(exportDir).Ok?
                  && IsWithin(resolve(full).value, resolve(exportDir).value)
                  && pathExists(full)
                  && r.file == FileResponse(full, CsvMediaType, BaseName(full)))
            && (r.Refuse? ==> r.error == InvalidFilePath
                              || (r.error.HttpError? && r.error.status == 500))
            && (r.FileNotFound? ==> !pathExists(full)
                                    && forall f :: f in r.availableFiles <==> f in walked && EndsWith(f, ".csv"))
            && (r.Refuse? <==> CheckPath(filepath, exportDir, resolve, describe).Fail?)
  {
  }

  /** `download_export` as the endpoint runs it: the same answer as `Download`,
      with the `os.walk` loop of the 404 branch written as the loop of
      AvailableFiles, which runs only when the file does not exist. */
  method DownloadExport(filepath: string, exportDir: string, resolve: string -> Result<string>,
                        pathExists: string -> bool, walked: seq<string>, describe: Error -> string)
    returns (r: DownloadResult)
    ensures r == Download(filepath, exportDir, resolve, pathExists, walked, describe)
  {
    var check := CheckPath(filepath, exportDir, resolve, describe);
    if check.Fail? {
      return Refuse(check.error);
    }
    var full := JoinPath(exportDir, filepath);
    if !pathExists(full) {
      var available := AvailableFiles(walked);
      return FileNotFound(available);
    }
    r := Serve(FileResponse(full, CsvMediaType, BaseName(full)));
  }

  /** `f"/export/download/{rel_path}"` */
  function DownloadUrl(rel: string): (r: string)
    ensures HasPrefix(r, DownloadPrefix) && r[|DownloadPrefix|..] == rel
  {
    DownloadPrefix + rel
  }

  /** The `filepath` the route `/export/download/{filepath:path}` hands to
      `download_export` for a request path, None when the route does not match. */
  function RoutedPath(url: string): (r: Option<string>)
    ensures r.Some? <==> HasPrefix(url, DownloadPrefix)
    ensures r.Some? ==> DownloadPrefix + r.value == url
  {
    if HasPrefix(url, DownloadPrefix) then Some(url[|DownloadPrefix|..]) else None
  }

  /** A download link leads back to the path it was built from: the route hands
      `download_export` exactly that relative path. */
  lemma DownloadUrlRoutesBack(rel: string)
    ensures RoutedPath(DownloadUrl(rel)) == Some(rel)
  {
    assert HasPrefix(DownloadUrl(rel), DownloadPrefix);
  }

  /** One entry of a full export's answer. */
  datatype ExportLink = ExportLink(name: string, filename: string, downloadUrl: string)

  /** The `exports` mapping of the answer: for each exported table its file
      and the link to download it, in the exporter's order. */
  function Links(exports: seq<(string, string)>): (r: seq<ExportLink>)
    ensures |r| == |exports|
    ensures forall i :: 0 <= i < |exports| ==>
              r[i] == ExportLink(exports[i].0, exports[i].1, DownloadUrl(exports[i].1))
  {
    seq(|exports|, i requires 0 <= i < |exports| =>
      ExportLink(exports[i].0, exports[i].1, DownloadUrl(exports[i].1)))
  }

  /** The clean-ups a full export schedules: one per file, a day later. */
  function FullCleanups(exportDir: string, exports: seq<(string, string)>): (r: seq<Cleanup>)
    ensures |r| == |exports|
    ensures forall i :: 0 <= i < |exports| ==>
              r[i] == Cleanup(JoinPath(exportDir, exports[i].1), FullExportDelay)
  {
    seq(|exports|, i requires 0 <= i < |exports| =>
      Cleanup(JoinPath(exportDir, exports[i].1), FullExportDelay))
  }

  /** `full_export`: an exporter failure is a 500 with its text and schedules
      nothing; otherwise one clean-up per exported file, then the links. */
  method FullExport(bg: BackgroundTasks, exportDir: string, exported: Result<seq<(string, string)>>,
                    describe: Error -> string)
    returns (r: Result<seq<ExportLink>>)
    modifies bg
    ensures exported.Err? ==> r == Err(HttpError(500, describe(exported.error))) && bg.tasks == old(bg.tasks)
    ensures exported.Ok? ==> r == Ok(Links(exported.value))
                             && bg.tasks == old(bg.tasks) + FullCleanups(exportDir, exported.value)
  {
    if exported.Err? {
      return Err(HttpError(500, describe(exported.error)));
    }
    var exports := exported.value;
    var i := 0;
    while i < |exports|
      invariant 0 <= i <= |exports|
      invariant bg.tasks == old(bg.tasks) + FullCleanups(exportDir, exports[..i])
    {
      assert FullCleanups(exportDir, exports[..i + 1])
             == FullCleanups(exportDir, exports[..i]) + [Cleanup(JoinPath(exportDir, exports[i].1), FullExportDelay)];
      bg.AddTask(Cleanup(JoinPath(exportDir, exports[i].1), FullExportDelay));
      i := i + 1;
    }
    assert exports[..i] == exports;
    r := Ok(Links(exports));
  }

  /** The answer of a per-asset export. */
  datatype AssetExport = AssetExport(filename: string, downloadUrl: string)

  /** `export_asset_data` on `/export/assets/{asset_id}`: the exporter returns a
      path relative to the export directory; its clean-up uses the default delay. */
  method ExportAssetData(bg: BackgroundTasks, exportDir: string, exported: Result<string>,
                         describe: Error -> string)
    returns (r: Result<AssetExport>)
    modifies bg
    ensures exported.Err? ==> r == Err(HttpError(500, describe(exported.error))) && bg.tasks == old(bg.tasks)
    ensures exported.Ok? ==>
              && r == Ok(AssetExport(exported.value, DownloadUrl(exported.value)))
              && bg.tasks == old(bg.tasks) + [Cleanup(JoinPath(exportDir, exported.value), DefaultCleanupDelay)]
  {
    if exported.Err? {
      return Err(HttpError(500, describe(exported.error)));
    }
    bg.AddTask(Cleanup(JoinPath(exportDir, exported.value), DefaultCleanupDelay));
    r := Ok(AssetExport(exported.value, DownloadUrl(exported.value)));
  }

  /** `filepath.relative_to(export_dir)` for the paths the exporter returns. */
  function RelativeTo(p: string, base: string): (r: Option<string>)
    ensures r.Some? <==> IsWithin(p, base)
    ensures r.Some? && p != base ==> p == (if base == "/" then base else base + "/") + r.value
  {
    if p == base then Some(".")
    else if base == "/" && HasPrefix(p, "/") then Some(p[1..])
    else if HasPrefix(p, base + "/") then
      assert p == base + "/" + p[|base| + 1..];
      Some(p[|base| + 1..])
    else None
  }

  /** `export_asset_data` on `/export/assets_all/{asset_id}`: the exporter returns
      an absolute path, and the clean-up is added to the request's task list
      before `relative_to` builds the link. A path outside the export directory
      makes `relative_to` raise, which answers 500; the task list is then never
      run, because the tasks only run after a response the endpoint returns. */
  method ExportAssetDataAll(bg: BackgroundTasks, exportDir: string, exported: Result<string>,
                            describe: Error -> string)
    returns (r: Result<AssetExport>)
    modifies bg
    ensures exported.Err? ==> r == Err(HttpError(500, describe(exported.error))) && bg.tasks == old(bg.tasks)
    ensures exported.Ok? ==> bg.tasks == old(bg.tasks) + [Cleanup(exported.value, DefaultCleanupDelay)]
    ensures exported.Ok? && IsWithin(exported.value, exportDir) ==>
              r == Ok(AssetExport(BaseName(exported.value),
                                  DownloadUrl(RelativeTo(exported.value, exportDir).value)))
    ensures exported.Ok? && !IsWithin(exported.value, exportDir) ==>
              r == Err(HttpError(500, describe(ValueError(exported.value))))
  {
    if exported.Err? {
      return Err(HttpError(500, describe(exported.error)));
    }
    var filepath := exported.value;
    bg.AddTask(Cleanup(filepath, DefaultCleanupDelay));
    var rel := RelativeTo(filepath, exportDir);
    if rel.None? {
      return Err(HttpError(500, describe(ValueError(filepath))));
    }
    r := Ok(AssetExport(BaseName(filepath), DownloadUrl(rel.value)));
  }

  /** A link a full export hands out leads back to its file: the path after the
      prefix is the exported relative path, and it passes the download checks
      whenever it names a `.csv` file without `..` and resolves inside the export
      directory. */
  lemma ExportedLinksPassChecks(exports: seq<(string, string)>, i: nat, exportDir: string,
                                resolve: string -> Result<string>, describe: Error -> string)
    requires i < |exports|
    requires EndsWith(exports[i].1, ".csv") && !HasSubstring(exports[i].1, "..")
    requires resolve(JoinPath(exportDir, exports[i].1)).Ok? && resolve(exportDir).Ok?
    requires IsWithin(resolve(JoinPath(exportDir, exports[i].1)).value, resolve(exportDir).value)
    ensures var link := Links(exports)[i];
            var requested := link.downloadUrl[|DownloadPrefix|..];
            && requested == link.filename == exports[i].1
            && CheckPath(requested, exportDir, resolve, describe).Pass?
            && FullCleanups(exportDir, exports)[i].path == JoinPath(exportDir, requested)
  {
    var link := Links(exports)[i];
    assert link.downloadUrl == DownloadUrl(exports[i].1);
  }
}
