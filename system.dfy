/** The back end's ingestion and storage logic: how an uploaded image is
    named and filed, how the storage device of a library root is found and
    checked, how a game is removed, and how the library root is changed.

    The operating system is a `Host`: the directories and files that exist
    (paths compared as strings), the partition table, and the platform calls
    the code cannot see into (path resolution, disk usage, drive labels) as
    given functions. */
module System {
  import opened Text
  import opened Config
  import opened Database
  import opened Iso

  // ---------------------------------------------------------------------------
  // Naming an ingested game

  const UnknownGame := "Unknown Game"

  /** The characters removed from a title: invalid in Windows and exFAT names. */
  const Forbidden: set<char> := {'<', '>', ':', '"', '/', '\\', '|', '?', '*'}

  function Allowed(c: char): bool {
    c !in Forbidden
  }

  /** `query_title_by_serial(serial) or "Unknown Game"`: a missing or empty
      title becomes "Unknown Game", any other is kept. */
  function TitleOrUnknown(t: Option<string>): (r: string)
    ensures r != []
    ensures t.Some? && t.value != [] ==> r == t.value
    ensures t.None? || t.value == [] ==> r == UnknownGame
  {
    if t.Some? && t.value != [] then t.value else UnknownGame
  }

  /** The sanitised title: the forbidden characters deleted, then surrounding
      whitespace stripped. */
  function CleanTitle(t: string): string {
    Strip(Filter(t, Allowed))
  }

  /** The sanitised title holds no forbidden character and no whitespace at
      either end, and every character of it comes from the title. */
  lemma CleanTitleShape(t: string)
    ensures var r := CleanTitle(t);
            && (forall i :: 0 <= i < |r| ==> Allowed(r[i]))
            && (r == [] || (!IsSpace(r[0]) && !IsSpace(r[|r| - 1])))
            && (forall i :: 0 <= i < |r| ==> r[i] in t)
  {
    var kept := Filter(t, Allowed);
    StripKeepsFrom(kept);
    var r := Strip(kept);
    forall i | 0 <= i < |r|
      ensures Allowed(r[i]) && r[i] in t
    {
      var j :| 0 <= j < |kept| && kept[j] == r[i];
    }
  }

  /** Dots are not forbidden: the sanitised title has exactly the title's dots. */
  lemma CleanTitleKeepsDots(t: string)
    ensures Count(CleanTitle(t), '.') == Count(t, '.')
  {
    FilterKeepsCount(t, Allowed, '.');
    StripKeepsCount(Filter(t, Allowed), '.');
  }

  /** Sanitising a sanitised title changes nothing. */
  lemma CleanTitleIdempotent(t: string)
    ensures CleanTitle(CleanTitle(t)) == CleanTitle(t)
  {
    var c := CleanTitle(t);
    CleanTitleShape(t);
    FilterKeepsAll(c, Allowed);
    StripIdempotent(Filter(t, Allowed));
  }

  /** The OPL file name `SERIAL.Title.iso`. */
  function OplName(serial: string, title: string): string {
    serial + "." + title + ".iso"
  }

  /** The name is the serial, a dot, the title and `.iso`. */
  lemma OplNameShape(serial: string, title: string)
    ensures var r := OplName(serial, title);
            && |r| == |serial| + |title| + 5
            && r[..|serial|] == serial && r[|serial|] == '.'
            && r[|serial| + 1..|serial| + 1 + |title|] == title
            && r[|r| - 4..] == ".iso"
  {
  }

  /** Serials of the same length (such as the eleven characters of `SLUS_200.02`)
      make different games get different file names. */
  lemma OplNameInjective(s1: string, t1: string, s2: string, t2: string)
    requires |s1| == |s2|
    requires OplName(s1, t1) == OplName(s2, t2)
    ensures s1 == s2 && t1 == t2
  {
    var n := OplName(s1, t1);
    OplNameShape(s1, t1);
    OplNameShape(s2, t2);
    assert |t1| == |t2|;
    assert s1 == n[..|s1|] == s2;
    assert t1 == n[|s1| + 1..|s1| + 1 + |t1|] == t2;
  }

  /** The CD/DVD cutoff, 734003200 bytes (700 MiB, 700 * 1024 * 1024). */
  const CdLimit := 734003200

  /** The subfolder an image goes to: DVD exactly when larger than the cutoff. */
  function DiscFolder(size: int): (r: string)
    ensures r == "CD" || r == "DVD"
    ensures r == "DVD" <==> size > CdLimit
  {
    if size > CdLimit then "DVD" else "CD"
  }

  /** The destination folder of an image of `size` bytes. */
  function DestDir(libPath: string, size: int): string {
    Join(libPath, DiscFolder(size))
  }

  /** The destination path of the image: its OPL name inside the CD or DVD folder. */
  function DestPath(libPath: string, serial: string, title: string, size: int): string {
    Join(DestDir(libPath, size), OplName(serial, title))
  }

  /** The image file is named by its OPL name and lies in the CD or DVD folder,
      unless the serial starts with `/`: then the join discards the folder and
      the image is written at the bare file name, outside the library. */
  lemma DestPathInFolder(libPath: string, serial: string, title: string, size: int)
    ensures var n := OplName(serial, title);
            var r := DestPath(libPath, serial, title, size);
            |n| <= |r| && r[|r| - |n|..] == n
    ensures serial == [] || serial[0] != '/' ==> DestDir(libPath, size) <= DestPath(libPath, serial, title, size)
    ensures serial != [] && serial[0] == '/' ==> DestPath(libPath, serial, title, size) == OplName(serial, title)
  {
    JoinShape(DestDir(libPath, size), OplName(serial, title));
  }

  /** The cover image URL stored for a game: `COVERS_URL/<clean serial>.jpg`. */
  function CoverUrl(coversUrl: string, serial: string): string {
    coversUrl + "/" + CleanSerial(serial) + ".jpg"
  }

  /** The URL is the covers base, a slash, the cleaned serial and `.jpg`. */
  lemma CoverUrlShape(coversUrl: string, serial: string)
    ensures var r := CoverUrl(coversUrl, serial);
            && coversUrl + "/" <= r
            && |r| == |coversUrl| + 1 + |CleanSerial(serial)| + 4
            && r[|coversUrl| + 1..|r| - 4] == CleanSerial(serial) && r[|r| - 4..] == ".jpg"
  {
    var r := CoverUrl(coversUrl, serial);
    assert r[..|coversUrl| + 1] == coversUrl + "/";
  }

  /** The cover file name, `<clean serial>_COV.jpg`. */
  function CoverFileName(serial: string): string {
    CleanSerial(serial) + "_COV.jpg"
  }

  /** Where the cover of a game is saved and deleted: `LIB_PATH/ART/<file name>`. */
  function CoverPath(libPath: string, serial: string): string {
    Join(Join(libPath, "ART"), CoverFileName(serial))
  }

  /** The cover file is named `<clean serial>_COV.jpg` and lies in the ART
      folder, unless the cleaned serial starts with `/`, which makes the join
      discard the folder. */
  lemma CoverPathInArt(libPath: string, serial: string)
    ensures var n := CoverFileName(serial);
            var r := CoverPath(libPath, serial);
            && CleanSerial(serial) <= n && |n| == |CleanSerial(serial)| + 8 && n[|n| - 8..] == "_COV.jpg"
            && |n| <= |r| && r[|r| - |n|..] == n
    ensures CleanSerial(serial) == [] || CleanSerial(serial)[0] != '/' ==> Join(libPath, "ART") <= CoverPath(libPath, serial)
    ensures CleanSerial(serial) != [] && CleanSerial(serial)[0] == '/' ==> CoverPath(libPath, serial) == CoverFileName(serial)
  {
    JoinShape(Join(libPath, "ART"), CoverFileName(serial));
  }

  /** Serials that clean to the same key share one cover URL and one cover file. */
  lemma CoverSharedByCleanKey(coversUrl: string, libPath: string, s1: string, s2: string)
    requires CleanSerial(s1) == CleanSerial(s2)
    ensures CoverUrl(coversUrl, s1) == CoverUrl(coversUrl, s2)
    ensures CoverPath(libPath, s1) == CoverPath(libPath, s2)
  {
  }

  // ---------------------------------------------------------------------------
  // The host

  /** A regular file: its size, and the text of its `SYSTEM.CNF` when it is an
      image from which that file can be read and decoded. */
  datatype FileData = FileData(size: nat, systemCnf: Option<string>)

  /** An entry of `psutil.disk_partitions(all=True)`. */
  datatype Partition = Partition(device: string, mountpoint: string, fstype: string)

  /** `psutil.disk_usage`. */
  datatype Usage = Usage(free: nat, total: nat)

  /** The device description `get_storage_device` returns. */
  datatype Device = Device(volumeLabel: string, fileSystem: string, spaceFree: nat, totalSpace: nat, path: string)

  class Host {
    var dirs: set<string>
    var files: map<string, FileData>
    /** `os.name == 'nt'`. */
    const windows: bool
    const partitions: seq<Partition>
    /** `os.path.realpath`. */
    const resolve: string -> string
    /** `psutil.disk_usage` of a mount point, `None` when it raises. */
    const usageOf: string -> Option<Usage>
    /** `get_drive_label(part.device, part.mountpoint)`. */
    const labelOf: Partition -> string

    constructor (dirs: set<string>, files: map<string, FileData>, windows: bool, partitions: seq<Partition>,
                 resolve: string -> string, usageOf: string -> Option<Usage>, labelOf: Partition -> string)
      ensures this.dirs == dirs && this.files == files && this.windows == windows
      ensures this.partitions == partitions && this.resolve == resolve
      ensures this.usageOf == usageOf && this.labelOf == labelOf
    {
      this.dirs := dirs;
      this.files := files;
      this.windows := windows;
      this.partitions := partitions;
      this.resolve := resolve;
      this.usageOf := usageOf;
      this.labelOf := labelOf;
    }

    /** `os.path.exists`. */
    predicate Exists(p: string)
      reads this
    {
      p in dirs || p in files
    }
  }

  // ---------------------------------------------------------------------------
  // Finding the storage device of a path

  /** The mount point is a prefix of the path, ignoring ASCII case on Windows. */
  predicate Mounts(mountpoint: string, path: string, windows: bool) {
    if windows then Lower(mountpoint) <= Lower(path) else mountpoint <= path
  }

  /** A partition the loop can select: mounted at a prefix of the path, and with
      a mount point longer than the initial empty best match. */
  predicate Candidate(p: Partition, path: string, windows: bool) {
    Mounts(p.mountpoint, path, windows) && |p.mountpoint| > 0
  }

  /** Partition `k` is the selection: a candidate with a mount point as long as
      any matching one, and strictly longer than every earlier matching one. */
  ghost predicate IsBest(parts: seq<Partition>, path: string, windows: bool, k: int) {
    && 0 <= k < |parts|
    && Candidate(parts[k], path, windows)
    && (forall j :: 0 <= j < |parts| && Mounts(parts[j].mountpoint, path, windows) ==>
          |parts[j].mountpoint| <= |parts[k].mountpoint|)
    && (forall j :: 0 <= j < k && Mounts(parts[j].mountpoint, path, windows) ==>
          |parts[j].mountpoint| < |parts[k].mountpoint|)
  }

  /** At most one partition is the selection. */
  lemma BestUnique(parts: seq<Partition>, path: string, windows: bool, k1: int, k2: int)
    requires IsBest(parts, path, windows, k1) && IsBest(parts, path, windows, k2)
    ensures k1 == k2
  {
  }

  /** A prefix is also a prefix once both sides are lower-cased: any partition
      matched on Unix is matched on Windows too. */
  lemma PrefixSurvivesLower(mountpoint: string, path: string)
    requires mountpoint <= path
    ensures Lower(mountpoint) <= Lower(path)
  {
    assert Lower(mountpoint) == Lower(path)[..|mountpoint|];
  }

  /** The loop of `get_storage_device` over the partitions: the index of the
      partition with the longest mount point that prefixes the path (the
      earliest among equals), or `None` when no non-empty mount point does. */
  method SelectPartition(parts: seq<Partition>, path: string, windows: bool) returns (sel: Option<nat>)
    ensures sel.None? <==> forall i :: 0 <= i < |parts| ==> !Candidate(parts[i], path, windows)
    ensures sel.Some? ==> IsBest(parts, path, windows, sel.value)
  {
    var best := "";
    sel := None;
    var i := 0;
    while i < |parts|
      invariant 0 <= i <= |parts|
      invariant sel.None? ==> best == [] && forall j :: 0 <= j < i ==> !Candidate(parts[j], path, windows)
      invariant sel.Some? ==>
                  && sel.value < i && best == parts[sel.value].mountpoint
                  && Candidate(parts[sel.value], path, windows)
                  && (forall j :: 0 <= j < i && Mounts(parts[j].mountpoint, path, windows) ==>
                        |parts[j].mountpoint| <= |best|)
                  && (forall j :: 0 <= j < sel.value && Mounts(parts[j].mountpoint, path, windows) ==>
                        |parts[j].mountpoint| < |best|)
    {
      var mp := parts[i].mountpoint;
      var matches := if windows then Lower(mp) <= Lower(path) else mp <= path;
      if matches && |mp| > |best| {
        best := mp;
        sel := Some(i);
      }
      i := i + 1;
    }
  }

  /** The device description built from selected partition `k`. */
  function DeviceAt(h: Host, k: nat, u: Usage, path: string): Device
    requires k < |h.partitions|
  {
    Device(h.labelOf(h.partitions[k]), h.partitions[k].fstype, u.free, u.total, path)
  }

  /** The resolved path has a selected partition whose usage can be read. */
  ghost predicate DeviceFound(h: Host, path: string) {
    exists k :: IsBest(h.partitions, h.resolve(path), h.windows, k) && h.usageOf(h.partitions[k].mountpoint).Some?
  }

  /** `get_storage_device(path)`: nothing when the resolved path does not exist,
      when no partition is selected, or when its usage cannot be read; otherwise
      the description of the selected partition, carrying the path as given. */
  method GetStorageDevice(h: Host, path: string) returns (d: Option<Device>)
    ensures d.Some? <==> h.Exists(h.resolve(path)) && DeviceFound(h, path)
    ensures d.Some? ==> exists k :: && IsBest(h.partitions, h.resolve(path), h.windows, k)
                                    && h.usageOf(h.partitions[k].mountpoint).Some?
                                    && d.value == DeviceAt(h, k, h.usageOf(h.partitions[k].mountpoint).value, path)
  {
    var resolved := h.resolve(path);
    if !h.Exists(resolved) {
      return None;
    }
    var sel := SelectPartition(h.partitions, resolved, h.windows);
    if sel.None? {
      return None;
    }
    var k := sel.value;
    var usage := h.usageOf(h.partitions[k].mountpoint);
    if usage.None? {
      forall k' | IsBest(h.partitions, resolved, h.windows, k')
        ensures h.usageOf(h.partitions[k'].mountpoint).None?
      {
        BestUnique(h.partitions, resolved, h.windows, k, k');
      }
      return None;
    }
    return Some(DeviceAt(h, k, usage.value, path));
  }

  // ---------------------------------------------------------------------------
  // Checking a library root

  const NoDirectory := "Directory does not exist."
  const NoDevice := "Storage device not detected."
  const DirVerified := "Directory Verified."

  /** The folders of the library structure under `path`. */
  ghost function Targets(path: string, folders: seq<string>): set<string> {
    set i | 0 <= i < |folders| :: Join(path, folders[i])
  }

  /** One more folder adds its own path. */
  lemma TargetsSnoc(path: string, folders: seq<string>, f: string)
    ensures Targets(path, folders + [f]) == Targets(path, folders) + {Join(path, f)}
  {
    var ext := folders + [f];
    assert ext[|folders|] == f;
    forall x | x in Targets(path, ext) ensures x in Targets(path, folders) + {Join(path, f)} {
      var i :| 0 <= i < |ext| && x == Join(path, ext[i]);
      if i < |folders| {
        assert ext[i] == folders[i];
      }
    }
    forall x | x in Targets(path, folders) ensures x in Targets(path, ext) {
      var i :| 0 <= i < |folders| && x == Join(path, folders[i]);
      assert ext[i] == folders[i];
    }
  }

  /** `CreateStructure(path)`: every folder of the structure is created. */
  method CreateStructure(cfg: Settings, h: Host, path: string)
    modifies h
    ensures h.dirs == old(h.dirs) + Targets(path, cfg.fileStructure)
    ensures h.files == old(h.files)
  {
    var fs := cfg.fileStructure;
    var i := 0;
    while i < |fs|
      invariant 0 <= i <= |fs|
      invariant h.dirs == old(h.dirs) + Targets(path, fs[..i])
      invariant h.files == old(h.files)
    {
      assert fs[..i + 1] == fs[..i] + [fs[i]];
      TargetsSnoc(path, fs[..i], fs[i]);
      h.dirs := h.dirs + {Join(path, fs[i])};
      i := i + 1;
    }
    assert fs[..i] == fs;
  }

  /** `VerifyDir(path)`: the resolved path must be a directory and have a
      storage device; the file-system type is not checked (it only warns).
      A verified root has every folder of the structure afterwards. */
  method VerifyDir(cfg: Settings, h: Host, path: string) returns (ok: bool, msg: string)
    modifies h
    ensures h.files == old(h.files)
    ensures h.resolve(path) !in old(h.dirs) ==> !ok && msg == NoDirectory && h.dirs == old(h.dirs)
    ensures h.resolve(path) in old(h.dirs) && !DeviceFound(h, path) ==>
              !ok && msg == NoDevice && h.dirs == old(h.dirs)
    ensures h.resolve(path) in old(h.dirs) && DeviceFound(h, path) ==>
              ok && msg == DirVerified && h.dirs == old(h.dirs) + Targets(path, cfg.fileStructure)
  {
    var resolved := h.resolve(path);
    if resolved !in h.dirs {
      return false, NoDirectory;
    }
    var device := GetStorageDevice(h, path);
    if device.None? {
      return false, NoDevice;
    }
    var fs := cfg.fileStructure;
    var i := 0;
    while i < |fs|
      invariant 0 <= i <= |fs|
      invariant h.files == old(h.files)
      invariant || h.dirs == old(h.dirs) + Targets(path, fs)
                || (h.dirs == old(h.dirs) && forall j :: 0 <= j < i ==> Join(path, fs[j]) in h.dirs)
    {
      if Join(path, fs[i]) !in h.dirs {
        CreateStructure(cfg, h, path);
      }
      i := i + 1;
    }
    assert Targets(path, fs) <= old(h.dirs) || h.dirs == old(h.dirs) + Targets(path, fs);
    return true, DirVerified;
  }

  // ---------------------------------------------------------------------------
  // Ingesting an upload

  /** Why an ingestion failed: the temp file was missing, the image had no
      serial, the copy raised (with the exception's text), the copy's size
      differed from the image's, or an exception escaped the ingestion
      altogether (with its text; the background task records it). */
  datatype Cause = TempMissing | NoSerial | CopyError(text: string) | SizeMismatch | Raised(text: string)

  /** The result dictionary of `ProcessUpload`: its `status` is `ReportStatus`,
      its `message` is `Message`, and a completed one carries the title and
      the cover URL. */
  datatype Report = Completed(title: string, coverUrl: string) | Failed(cause: Cause)

  function ReportStatus(r: Report): string {
    if r.Completed? then "completed" else "error"
  }

  const TransferFailed := "Failed to transfer to USB: "

  /** The `message` of a result dictionary. */
  function Message(r: Report): string {
    match r
    case Completed(title, _) => title + " Added To Library"
    case Failed(TempMissing) => "Upload failed: Temp file not found."
    case Failed(NoSerial) => "Game Lacks Valid Serial Number"
    case Failed(CopyError(text)) => TransferFailed + text
    case Failed(SizeMismatch) => TransferFailed + "Copy validation failed: Destination size mismatch."
    case Failed(Raised(text)) => text
  }

  /** What `shutil.copy2` did: copied, leaving a destination of `size` bytes, or
      raised with that message. */
  datatype CopyResult = Copied(size: nat) | CopyRaised(message: string)

  /** The files after the failure clean-up: the destination and the temp file removed. */
  function CleanedUp(files: map<string, FileData>, dest: string, temp: string): (r: map<string, FileData>)
    ensures r.Keys == files.Keys - {dest, temp}
    ensures forall p :: p in r ==> r[p] == files[p]
  {
    files - {dest, temp}
  }

  /** `download_cover(serial)`: the ART folder is created, and when the request
      for the cover URL succeeds (`fetched`, its size in bytes) the image is saved
      as the game's cover file and its path returned; any failure gives `None`. */
  method DownloadCover(cfg: Settings, h: Host, serial: string, fetched: Option<nat>) returns (saved: Option<string>)
    modifies h
    ensures h.dirs == old(h.dirs) + {Join(cfg.libPath, "ART")}
    ensures fetched.None? ==> saved.None? && h.files == old(h.files)
    ensures fetched.Some? ==> saved == Some(CoverPath(cfg.libPath, serial))
                              && h.files == old(h.files)[CoverPath(cfg.libPath, serial) := FileData(fetched.value, None)]
  {
    var artDir := Join(cfg.libPath, "ART");
    h.dirs := h.dirs + {artDir};
    var savePath := Join(artDir, CoverFileName(serial));
    if fetched.None? {
      return None;
    }
    h.files := h.files[savePath := FileData(fetched.value, None)];
    return Some(savePath);
  }

  /** The state an ingestion step leaves behind (files, directories and
      database files) together with the result dictionary it returns. */
  datatype Effect = Effect(files: map<string, FileData>, dirs: set<string>, db: map<string, DbFile>, report: Report)

  /** The effect of steps 4 to 10 of the ingestion on files, directories and
      database files `files0`, `dirs0`, `db0`, for the image `image` at `temp`
      with serial `serial`, filed under the sanitised title `title`. The
      destination folder is created first. A copy that raises, or one whose
      size differs from the image's, is an error after which neither the
      destination nor the temp file remains. A good copy moves the image to its
      destination, records the game in the library table (an add that fails is
      ignored), creates the ART folder, saves the cover when it could be
      fetched, and completes. */
  function StoreEffect(libPath: string, coversUrl: string,
                       files0: map<string, FileData>, dirs0: set<string>, db0: map<string, DbFile>,
                       temp: string, serial: string, title: string, image: FileData,
                       copy: CopyResult, coverBytes: Option<nat>): Effect
  {
    var dest := DestPath(libPath, serial, title, image.size);
    var dirs1 := dirs0 + {DestDir(libPath, image.size)};
    var cover := CoverUrl(coversUrl, serial);
    if copy.CopyRaised? || copy.size != image.size then
      Effect(CleanedUp(files0, dest, temp), dirs1, db0,
             Failed(if copy.CopyRaised? then CopyError(copy.message) else SizeMismatch))
    else
      var moved := files0[dest := image] - {temp};
      Effect(if coverBytes.Some? then moved[CoverPath(libPath, serial) := FileData(coverBytes.value, None)] else moved,
             dirs1 + {Join(libPath, "ART")},
             AddedTo(db0, DbPath(libPath), Row(serial, title, dest, Some(image.size), Some(cover))),
             Completed(title, cover))
  }

  /** Steps 4 to 10 of `ProcessUpload`: copy, check, move, record, fetch the cover. */
  method Store(cfg: Settings, h: Host, lib: Library, temp: string, serial: string, title: string, image: FileData,
               copy: CopyResult, coverBytes: Option<nat>) returns (r: Report)
    requires lib.config == cfg && lib.Valid()
    modifies h, lib
    ensures lib.Valid() && lib.titleMap == old(lib.titleMap)
    ensures Effect(h.files, h.dirs, lib.files, r)
            == StoreEffect(cfg.libPath, cfg.coversUrl, old(h.files), old(h.dirs), old(lib.files),
                           temp, serial, title, image, copy, coverBytes)
  {
    var size := image.size;
    var destDir := DestDir(cfg.libPath, size);
    var dest := DestPath(cfg.libPath, serial, title, size);
    h.dirs := h.dirs + {destDir};
    match copy
    case CopyRaised(m) =>
      h.files := CleanedUp(h.files, dest, temp);
      return Failed(CopyError(m));
    case Copied(n) =>
      h.files := h.files[dest := FileData(n, image.systemCnf)];
      if n != size {
        h.files := CleanedUp(h.files, dest, temp);
        return Failed(SizeMismatch);
      }
      assert FileData(n, image.systemCnf) == image;
      h.files := h.files - {temp};
      var cover := CoverUrl(cfg.coversUrl, serial);
      var _ := lib.AddGame(Row(serial, title, dest, Some(size), Some(cover)));
      var _ := DownloadCover(cfg, h, serial, coverBytes);
      return Completed(title, cover);
  }

  /** The title a game is filed under: the title map's entry for its cleaned
      serial, "Unknown Game" when there is none, sanitised. */
  function GameTitle(titleMap: Option<map<string, string>>, serial: string): string {
    CleanTitle(TitleOrUnknown(TitleIn(titleMap, serial)))
  }

  /** The effect of `ProcessUpload(temp_path)` on files, directories and
      database files. A missing temp file is an error that changes nothing; an
      image without a serial is an error and is deleted. Otherwise the game's
      title comes from the title map (by the cleaned serial), falls back to
      "Unknown Game", is sanitised, and the image is stored as `StoreEffect`
      says. */
  function Ingest(libPath: string, coversUrl: string, titleMap: Option<map<string, string>>,
                  files0: map<string, FileData>, dirs0: set<string>, db0: map<string, DbFile>,
                  temp: string, copy: CopyResult, coverBytes: Option<nat>): Effect
  {
    if temp !in files0 then
      Effect(files0, dirs0, db0, Failed(TempMissing))
    else
      var serial := SerialOfImage(files0[temp].systemCnf);
      if serial.None? then
        Effect(files0 - {temp}, dirs0, db0, Failed(NoSerial))
      else
        var title := GameTitle(titleMap, serial.value);
        StoreEffect(libPath, coversUrl, files0, dirs0, db0, temp, serial.value, title, files0[temp], copy, coverBytes)
  }

  /** `ProcessUpload(temp_path)`, with the outcome of the copy and of the cover
      request given. */
  method ProcessUpload(cfg: Settings, h: Host, lib: Library, tempPath: string, copy: CopyResult, coverBytes: Option<nat>)
    returns (r: Report)
    requires lib.config == cfg && lib.Valid()
    modifies h, lib
    ensures lib.Valid() && lib.titleMap == old(lib.titleMap)
    ensures Effect(h.files, h.dirs, lib.files, r)
            == Ingest(cfg.libPath, cfg.coversUrl, lib.titleMap, old(h.files), old(h.dirs), old(lib.files),
                      tempPath, copy, coverBytes)
  {
    if tempPath !in h.files {
      return Failed(TempMissing);
    }
    var image := h.files[tempPath];
    var serial := SerialOfImage(image.systemCnf);
    if serial.None? {
      h.files := h.files - {tempPath};
      return Failed(NoSerial);
    }
    var title := CleanTitle(TitleOrUnknown(lib.QueryTitle(serial.value)));
    r := Store(cfg, h, lib, tempPath, serial.value, title, image, copy, coverBytes);
  }

  /** A store completes exactly when the copy reproduced the image's size; a
      failed store leaves no temp file behind and does not touch the library
      table. */
  lemma StoreOutcome(libPath: string, coversUrl: string,
                     files0: map<string, FileData>, dirs0: set<string>, db0: map<string, DbFile>,
                     temp: string, serial: string, title: string, image: FileData,
                     copy: CopyResult, coverBytes: Option<nat>)
    ensures var e := StoreEffect(libPath, coversUrl, files0, dirs0, db0, temp, serial, title, image, copy, coverBytes);
            && (e.report.Completed? <==> copy.Copied? && copy.size == image.size)
            && (e.report.Failed? ==> temp !in e.files && e.db == db0)
  {
  }

  /** An ingestion completes exactly when the temp file is there, its image has
      a serial and the copy reproduced the image's size. A failed ingestion
      leaves no temp file behind and does not touch the library table. */
  lemma IngestOutcome(libPath: string, coversUrl: string, titleMap: Option<map<string, string>>,
                      files0: map<string, FileData>, dirs0: set<string>, db0: map<string, DbFile>,
                      temp: string, copy: CopyResult, coverBytes: Option<nat>)
    ensures var e := Ingest(libPath, coversUrl, titleMap, files0, dirs0, db0, temp, copy, coverBytes);
            && (e.report.Completed? <==>
                  temp in files0 && SerialOfImage(files0[temp].systemCnf).Some?
                  && copy.Copied? && copy.size == files0[temp].size)
            && (e.report.Failed? ==> temp !in e.files && e.db == db0)
  {
    var e := Ingest(libPath, coversUrl, titleMap, files0, dirs0, db0, temp, copy, coverBytes);
    if temp !in files0 {
      assert e == Effect(files0, dirs0, db0, Failed(TempMissing));
    } else {
      var serial := SerialOfImage(files0[temp].systemCnf);
      if serial.None? {
        assert e == Effect(files0 - {temp}, dirs0, db0, Failed(NoSerial));
      } else {
        var title := GameTitle(titleMap, serial.value);
        assert e == StoreEffect(libPath, coversUrl, files0, dirs0, db0, temp, serial.value, title, files0[temp], copy, coverBytes);
        StoreOutcome(libPath, coversUrl, files0, dirs0, db0, temp, serial.value, title, files0[temp], copy, coverBytes);
      }
    }
  }

  /** A completed store had a copy of the image's size; it announces the title
      and its cover URL, keeps the image at its destination (unless that path
      is the temp file itself or the cover was saved over it), and records the
      game in the library table under its raw serial. */
  lemma StoreCompleted(libPath: string, coversUrl: string,
                       files0: map<string, FileData>, dirs0: set<string>, db0: map<string, DbFile>,
                       temp: string, serial: string, title: string, image: FileData,
                       copy: CopyResult, coverBytes: Option<nat>)
    requires StoreEffect(libPath, coversUrl, files0, dirs0, db0, temp, serial, title, image, copy, coverBytes).report.Completed?
    ensures copy == Copied(image.size)
    ensures var dest := DestPath(libPath, serial, title, image.size);
            var e := StoreEffect(libPath, coversUrl, files0, dirs0, db0, temp, serial, title, image, copy, coverBytes);
            && e.report == Completed(title, CoverUrl(coversUrl, serial))
            && (dest != temp && (dest != CoverPath(libPath, serial) || coverBytes.None?) ==>
                  dest in e.files && e.files[dest] == image)
            && e.db == AddedTo(db0, DbPath(libPath), Row(serial, title, dest, Some(image.size), Some(CoverUrl(coversUrl, serial))))
  {
    var dest := DestPath(libPath, serial, title, image.size);
    var coverFile := CoverPath(libPath, serial);
    var moved := files0[dest := image] - {temp};
    var e := StoreEffect(libPath, coversUrl, files0, dirs0, db0, temp, serial, title, image, copy, coverBytes);
    assert copy.Copied? && copy.size == image.size;
    assert e.files == if coverBytes.Some? then moved[coverFile := FileData(coverBytes.value, None)] else moved;
    if dest != temp && (dest != coverFile || coverBytes.None?) {
      assert dest in moved && moved[dest] == image;
    }
  }

  /** A completed ingestion had a temp file whose image has a serial; it is
      the store of that image under the sanitised mapped title. */
  lemma IngestCompleted(libPath: string, coversUrl: string, titleMap: Option<map<string, string>>,
                        files0: map<string, FileData>, dirs0: set<string>, db0: map<string, DbFile>,
                        temp: string, copy: CopyResult, coverBytes: Option<nat>)
    requires Ingest(libPath, coversUrl, titleMap, files0, dirs0, db0, temp, copy, coverBytes).report.Completed?
    ensures temp in files0 && SerialOfImage(files0[temp].systemCnf).Some?
    ensures var serial := SerialOfImage(files0[temp].systemCnf).value;
            var title := GameTitle(titleMap, serial);
            Ingest(libPath, coversUrl, titleMap, files0, dirs0, db0, temp, copy, coverBytes)
            == StoreEffect(libPath, coversUrl, files0, dirs0, db0, temp, serial, title, files0[temp], copy, coverBytes)
  {
  }

  /** "Unknown Game" survives sanitising, so a game missing from the title map
      is announced and filed as "Unknown Game". */
  lemma UnknownGameIsClean()
    ensures CleanTitle(UnknownGame) == UnknownGame
  {
    var u := UnknownGame;
    assert forall i :: 0 <= i < |u| ==> u[i] in "UnknowGame ";
    assert forall c :: c in "UnknowGame " ==> Allowed(c);
    CleanTitleOfClean(u);
  }

  /** A title with no forbidden character and no surrounding whitespace is its
      own sanitised form. */
  lemma CleanTitleOfClean(t: string)
    requires forall i :: 0 <= i < |t| ==> Allowed(t[i])
    requires t == [] || (!IsSpace(t[0]) && !IsSpace(t[|t| - 1]))
    ensures CleanTitle(t) == t
  {
    FilterKeepsAll(t, Allowed);
    StripStripped(t);
  }

  // ---------------------------------------------------------------------------
  // Removing a game

  /** The files of `h` once `path` is deleted if it names a file. */
  method DeleteIfFile(h: Host, path: string)
    modifies h
    ensures h.files == old(h.files) - {path} && h.dirs == old(h.dirs)
  {
    if path in h.files {
      h.files := h.files - {path};
    }
  }

  /** The file steps of `remove_from_library`: the image file, when its path
      is not empty and names a file, then the cover file. */
  method DeleteGameFiles(h: Host, iso: string, cover: string)
    modifies h
    ensures h.files == old(h.files) - (if iso == [] then {} else {iso}) - {cover} && h.dirs == old(h.dirs)
  {
    if iso != [] {
      DeleteIfFile(h, iso);
    }
    DeleteIfFile(h, cover);
  }

  /** `remove_from_library(serial)`: false, changing nothing, when the library
      table has no row under this serial; otherwise the row's image file (when
      its path is not empty and names a file) and the game's cover file are
      deleted, the row is removed, and the answer is true. */
  method RemoveFromLibrary(cfg: Settings, h: Host, lib: Library, serial: string) returns (ok: bool)
    requires lib.config == cfg && lib.Valid()
    modifies h, lib
    ensures lib.Valid() && lib.titleMap == old(lib.titleMap) && h.dirs == old(h.dirs)
    ensures ok <==> old(lib.QueryLibrary(serial)).Some?
    ensures !ok ==> h.files == old(h.files) && lib.files == old(lib.files)
    ensures ok ==>
              var iso := old(lib.QueryLibrary(serial)).value.filepath;
              && h.files == old(h.files) - (if iso == [] then {} else {iso}) - {CoverPath(cfg.libPath, serial)}
              && lib.files == RemovedFrom(old(lib.files), DbPath(cfg.libPath), serial)
              && lib.QueryLibrary(serial).None?
    ensures forall s :: s != serial ==> lib.QueryLibrary(s) == old(lib.QueryLibrary(s))
  {
    var row := lib.QueryLibrary(serial);
    if row.None? {
      return false;
    }
    DeleteGameFiles(h, row.value.filepath, CoverPath(cfg.libPath, serial));
    var _ := lib.RemoveGame(serial);
    return true;
  }

  // ---------------------------------------------------------------------------
  // Changing the library root

  /** A status/message answer, with the new path on a successful path change. */
  datatype Reply = Reply(status: string, message: string, path: Option<string>)

  const PathUpdated := "Storage path updated successfully"

  /** `set_library_path(new_path)`: the resolved path must pass `VerifyDir`
      (its message is the error); saving the settings may fail (`saveError`,
      the exception's text), leaving the live settings as they were; otherwise
      the live library path becomes the resolved path and its database is
      initialised. */
  method SetLibraryPath(cfg: Settings, h: Host, lib: Library, newPath: string, saveError: Option<string>)
    returns (reply: Reply)
    requires lib.config == cfg && lib.Valid()
    modifies h, lib, cfg
    ensures lib.Valid() && lib.titleMap == old(lib.titleMap) && h.files == old(h.files)
    ensures var resolved := h.resolve(newPath);
            var verified := h.resolve(resolved) in old(h.dirs) && DeviceFound(h, resolved);
            && h.dirs == (if verified then old(h.dirs) + Targets(resolved, cfg.fileStructure) else old(h.dirs))
            && (!verified ==>
                  && reply == Reply("error", if h.resolve(resolved) !in old(h.dirs) then NoDirectory else NoDevice, None)
                  && cfg.libPath == old(cfg.libPath) && lib.files == old(lib.files))
            && (verified && saveError.Some? ==>
                  reply == Reply("error", saveError.value, None) && cfg.libPath == old(cfg.libPath)
                  && lib.files == old(lib.files))
            && (verified && saveError.None? ==>
                  && reply == Reply("success", PathUpdated, Some(resolved)) && cfg.libPath == resolved
                  && lib.files == Initialized(old(lib.files), DbPath(resolved))
                  && (resolved != [] ==> lib.Table().Some?))
  {
    var resolved := h.resolve(newPath);
    var ok, msg := VerifyDir(cfg, h, resolved);
    if !ok {
      return Reply("error", msg, None);
    }
    if saveError.Some? {
      return Reply("error", saveError.value, None);
    }
    cfg.libPath := resolved;
    lib.InitializeLibrary();
    return Reply("success", PathUpdated, Some(resolved));
  }
}
