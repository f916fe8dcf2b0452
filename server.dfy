/** The HTTP layer of the back end: the job table `JOB_RESULT` of background
    ingestions and the endpoint handlers that answer from it or delegate to
    the system operations. The HTTP framework, the background-task runner and
    `uuid.uuid4` are outside the model: a handler is a method, a background
    task is a later method call, and the fresh job id is a parameter. */
module Server {
  import opened Text
  import opened Config
  import opened Database
  import opened System

  /** An entry of `JOB_RESULT`: `{"status": "processing"}` or the result
      dictionary of the ingestion. */
  datatype JobResult = Processing | Done(report: Report)

  /** The `status` field of a job answer. */
  function JobStatus(j: JobResult): (s: string)
    ensures s == "processing" || s == "completed" || s == "error"
    ensures s == "processing" <==> j.Processing?
    ensures s == "completed" <==> j.Done? && j.report.Completed?
  {
    if j.Processing? then "processing" else ReportStatus(j.report)
  }

  /** `GET /job/{job_id}`: the entry of that job; an id the table does not
      know reads as still processing. */
  function GetJobStatus(jobs: map<string, JobResult>, jobId: string): (r: JobResult)
    ensures jobId !in jobs ==> r == Processing
    ensures jobId in jobs ==> r == jobs[jobId]
  {
    if jobId in jobs then jobs[jobId] else Processing
  }

  /** Recording one job's entry changes the answer for that job alone. */
  lemma RecordIsolated(jobs: map<string, JobResult>, jobId: string, j: JobResult, other: string)
    ensures GetJobStatus(jobs[jobId := j], jobId) == j
    ensures other != jobId ==> GetJobStatus(jobs[jobId := j], other) == GetJobStatus(jobs, other)
  {
  }

  /** The answer of `DELETE /library/{serial}`. */
  function DeleteReply(removed: bool): (r: Reply)
    ensures r.status == "success" <==> removed
    ensures r.status == (if removed then "success" else "error") && r.path.None?
  {
    if removed then Reply("success", "Game removed", None) else Reply("error", "Failed to remove game", None)
  }

  const SetDeviceFailed := "Failed to set storage device"

  class Server {
    /** `JOB_RESULT`. */
    var jobs: map<string, JobResult>

    constructor ()
      ensures jobs == map[]
    {
      jobs := map[];
    }

    /** `POST /upload`: the uploaded bytes are written to the uploads folder
        under the file's name (replacing a file of that name), and the new job
        is recorded as processing; its id is the answer. */
    method UploadGame(cfg: Settings, h: Host, filename: string, data: FileData, jobId: string)
      returns (tempPath: string, id: string)
      modifies this, h
      ensures tempPath == Join(cfg.uploadsPath, filename) && id == jobId
      ensures h.files == old(h.files)[tempPath := data] && h.dirs == old(h.dirs)
      ensures jobs == old(jobs)[jobId := Processing]
    {
      tempPath := Join(cfg.uploadsPath, filename);
      h.files := h.files[tempPath := data];
      jobs := jobs[jobId := Processing];
      id := jobId;
    }

    /** `process_upload_wrapper(temp_path, job_id)`, the background task. An
        exception escaping `ProcessUpload` (`raised`, its text; such an
        exception arises before the ingestion changes anything) deletes the
        temp file and records the error. When the temp file is already gone,
        that deletion raises in turn and the task dies: the job stays as it
        was. Otherwise the ingestion's report is recorded. Only this job's
        entry changes. */
    method ProcessUploadWrapper(cfg: Settings, h: Host, lib: Library, tempPath: string, jobId: string,
                                raised: Option<string>, copy: CopyResult, coverBytes: Option<nat>)
      requires lib.config == cfg && lib.Valid()
      modifies this, h, lib
      ensures lib.Valid() && lib.titleMap == old(lib.titleMap)
      ensures raised.Some? ==> h.dirs == old(h.dirs) && lib.files == old(lib.files)
      ensures raised.Some? && tempPath in old(h.files) ==>
                jobs == old(jobs)[jobId := Done(Failed(Raised(raised.value)))] && h.files == old(h.files) - {tempPath}
      ensures raised.Some? && tempPath !in old(h.files) ==> jobs == old(jobs) && h.files == old(h.files)
      ensures raised.None? ==>
                var e := Ingest(cfg.libPath, cfg.coversUrl, lib.titleMap, old(h.files), old(h.dirs), old(lib.files),
                                tempPath, copy, coverBytes);
                jobs == old(jobs)[jobId := Done(e.report)] && Effect(h.files, h.dirs, lib.files, e.report) == e
    {
      if raised.Some? {
        if tempPath !in h.files {
          return;
        }
        h.files := h.files - {tempPath};
        jobs := jobs[jobId := Done(Failed(Raised(raised.value)))];
        return;
      }
      var r := ProcessUpload(cfg, h, lib, tempPath, copy, coverBytes);
      jobs := jobs[jobId := Done(r)];
    }

    /** `DELETE /library/{serial}`. */
    method DeleteGame(cfg: Settings, h: Host, lib: Library, serial: string) returns (reply: Reply)
      requires lib.config == cfg && lib.Valid()
      modifies h, lib
      ensures lib.Valid() && lib.titleMap == old(lib.titleMap) && h.dirs == old(h.dirs)
      ensures reply == DeleteReply(old(lib.QueryLibrary(serial)).Some?)
      ensures reply.status == "error" ==> h.files == old(h.files) && lib.files == old(lib.files)
      ensures reply.status == "success" ==>
                var iso := old(lib.QueryLibrary(serial)).value.filepath;
                && h.files == old(h.files) - (if iso == [] then {} else {iso}) - {CoverPath(cfg.libPath, serial)}
                && lib.files == RemovedFrom(old(lib.files), DbPath(cfg.libPath), serial)
                && lib.QueryLibrary(serial).None?
      ensures forall s :: s != serial ==> lib.QueryLibrary(s) == old(lib.QueryLibrary(s))
    {
      var ok := RemoveFromLibrary(cfg, h, lib, serial);
      reply := DeleteReply(ok);
    }

    /** `POST /set-device`: the path must pass `VerifyDir` (which may create
        the library structure); a path that fails gets the fixed error and
        changes nothing. Otherwise `set_library_path` decides the answer: it
        resolves and checks the path once more, then saves it. */
    method SetDevice(cfg: Settings, h: Host, lib: Library, path: string, saveError: Option<string>)
      returns (reply: Reply)
      requires lib.config == cfg && lib.Valid()
      modifies h, lib, cfg
      ensures lib.Valid() && lib.titleMap == old(lib.titleMap) && h.files == old(h.files)
      ensures !(h.resolve(path) in old(h.dirs) && DeviceFound(h, path)) ==>
                && reply == Reply("error", SetDeviceFailed, None)
                && h.dirs == old(h.dirs) && cfg.libPath == old(cfg.libPath) && lib.files == old(lib.files)
      ensures h.resolve(path) in old(h.dirs) && DeviceFound(h, path) ==>
                var resolved := h.resolve(path);
                var dirs1 := old(h.dirs) + Targets(path, cfg.fileStructure);
                var verified := h.resolve(resolved) in dirs1 && DeviceFound(h, resolved);
                && h.dirs == (if verified then dirs1 + Targets(resolved, cfg.fileStructure) else dirs1)
                && (!verified ==>
                      && reply == Reply("error", if h.resolve(resolved) !in dirs1 then NoDirectory else NoDevice, None)
                      && cfg.libPath == old(cfg.libPath) && lib.files == old(lib.files))
                && (verified && saveError.Some? ==>
                      reply == Reply("error", saveError.value, None) && cfg.libPath == old(cfg.libPath)
                      && lib.files == old(lib.files))
                && (verified && saveError.None? ==>
                      && reply == Reply("success", PathUpdated, Some(resolved)) && cfg.libPath == resolved
                      && lib.files == Initialized(old(lib.files), DbPath(resolved)))
    {
      var ok, _ := VerifyDir(cfg, h, path);
      if !ok {
        return Reply("error", SetDeviceFailed, None);
      }
      reply := SetLibraryPath(cfg, h, lib, path, saveError);
    }
  }
}
