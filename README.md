# romen_ps2 — a verified model of the upload and ingestion path

romen_ps2 puts PlayStation 2 disc images on a USB drive in the layout the
Open PS2 Loader (OPL) expects. A React front end queues the images the user
drops and uploads them concurrently to a FastAPI back end: each dropped image
starts its own upload at once. The back end stores
each upload in a temporary folder and starts a background job. The job reads
the serial from the image's SYSTEM.CNF and looks the title up in a local
title map. It then files the image as `SERIAL.Title.iso` in the CD or DVD
folder of the library, records it in the library's SQLite database and
fetches its cover.

This project models that path in Dafny and proves what each step promises:

- `Uploads` covers `useGameUploads.ts`. The upload queue is a class holding
  the item list. `updateItem`, `uploadFiles`, `removeFile` and
  `clearCompleted` are methods, each specified by a pure function on the
  list. `processFile` is a `Transfer` object that is advanced one event at a
  time: upload progress, the upload's answer, the end of a wait, a poll
  answer, or a failed request.
- `Server` covers `server.py`. It holds the job table `JOB_RESULT`, its
  three writers and readers, and the answers of the delete and set-device
  endpoints.
- `System` covers the ingestion steps of `system.py`:
  - naming: title sanitising, the OPL name, the CD/DVD split, the cover URL and cover path;
  - the copy and clean-up decisions of `ProcessUpload`;
  - `download_cover`, `remove_from_library` and `set_library_path`;
  - the partition selection of `get_storage_device`;
  - `VerifyDir` and `CreateStructure`.

  An ingestion's result is a `Report`: completed with a title and cover URL,
  or failed with a `Cause`. `Message` gives the exact message text of each.

  The operating system is a `Host` object: its directories and files, plus
  the platform calls (realpath, disk usage, drive label) as given functions.
- `Database` covers `database.py`: `clean_serial`, `get_db_path`, the title
  lookup, and the `library` table. The table is a map keyed by its
  `serial TEXT PRIMARY KEY`, with INSERT OR REPLACE and DELETE semantics.
- `Iso` covers the search for `cdrom0:\s?\\(.*?);` in `get_serial`. It is a
  scan of the decoded SYSTEM.CNF text: case-insensitive, leftmost match, and
  `.` does not match a newline.
- `Grid` covers the search filter of `Grid.tsx` and its choice of empty state.
- `Protocol` connects the two halves. It shows how the front end's poll loop
  reads each answer the job table can give.
- `Text` and `Config` hold shared helpers and the settings object:
  - ASCII case maps;
  - Python's whitespace and `strip`;
  - POSIX `os.path.join`;
  - substring search;
  - an order-preserving filter.

## Model

Source paths are relative to the repository root.

| member | source | states |
|---|---|---|
| Config.Settings.constructor | romen-ps2-server/config.py:1-14 | the settings object carries the library path, uploads path, folder structure and covers URL it is built from |
| Text.Lower | romen-ps2-front/src/components/Grid.tsx:15 | `toLowerCase` keeps the length and lower-cases each ASCII letter in place |
| Text.Upper | romen-ps2-server/database.py:206 | `upper` keeps the length and upper-cases each ASCII letter in place |
| Text.ReplaceChar | romen-ps2-server/database.py:206 | `replace` of one character keeps the length and swaps exactly the matching positions |
| Text.Contains | romen-ps2-front/src/components/Grid.tsx:15 | defines `includes` as a scan: the pattern is a prefix here or occurs in the rest; ContainsIff ties it to an occurrence at an index |
| Text.ContainsIff | romen-ps2-front/src/components/Grid.tsx:15 | `includes` holds exactly when the pattern occurs at some index of the text |
| Text.Strip | romen-ps2-server/system.py:92 | `strip()` leaves no whitespace at either end |
| Text.StripSlice | romen-ps2-server/system.py:92 | the strip is a slice of the input, and everything dropped before and after it is whitespace |
| Text.StripIdempotent | romen-ps2-server/system.py:92 | stripping twice is stripping once |
| Text.Join | romen-ps2-server/database.py:22 | defines POSIX `os.path.join` of two parts: an absolute second part replaces the first, otherwise one `/` separates them; JoinShape states its shape |
| Text.JoinShape | romen-ps2-server/database.py:22 | `os.path.join(a, b)` ends with `b`; it starts with `a` unless `b` is absolute, and is then `b` itself |
| Uploads.Controller.constructor | romen-ps2-front/src/hooks/useGameUploads.ts:96 | a new `AbortController` starts unaborted |
| Uploads.Controller.Abort | romen-ps2-front/src/hooks/useGameUploads.ts:120 | after `abort()` the controller is aborted |
| Uploads.Merge | romen-ps2-front/src/hooks/useGameUploads.ts:24 | `{...item, ...update}`: each field the update gives replaces the item's, every other field (file, controller included) is kept |
| Uploads.MergeIdempotent | romen-ps2-front/src/hooks/useGameUploads.ts:24 | applying the same update twice is applying it once |
| Uploads.UpdateByName | romen-ps2-front/src/hooks/useGameUploads.ts:22-26 | same length and order; every item with the name, duplicates included, gets the update; every other item is unchanged |
| Uploads.UpdateAbsentIsNoOp | romen-ps2-front/src/hooks/useGameUploads.ts:22-26 | an update for a name no item carries leaves the queue as it was |
| Uploads.FindFirst | romen-ps2-front/src/hooks/useGameUploads.ts:116 | `find` yields the index of an item with the name, and no earlier item has it; `None` means no item has it |
| Uploads.Without | romen-ps2-front/src/hooks/useGameUploads.ts:124 | defines the filter of `removeFile`, dropping the items with the name; RemoveByName states what it keeps |
| Uploads.RemoveByName | romen-ps2-front/src/hooks/useGameUploads.ts:124 | the filter drops every item with the name and keeps every other item as often as before, in order |
| Uploads.RemoveAbsentIsNoOp | romen-ps2-front/src/hooks/useGameUploads.ts:113-125 | removing an absent name keeps the queue and aborts no controller |
| Uploads.LateUpdateAfterRemove | romen-ps2-front/src/hooks/useGameUploads.ts:22-26 | after a removal, a late update from the cancelled task for that name changes nothing |
| Uploads.WithoutCompleted | romen-ps2-front/src/hooks/useGameUploads.ts:130 | defines the filter of `clearCompleted`, dropping the completed items; ClearCompletedKeepsOthers states what it keeps |
| Uploads.ClearCompletedKeepsOthers | romen-ps2-front/src/hooks/useGameUploads.ts:129-131 | exactly the completed items go; pending, uploading, processing and failed items stay, as often as before and in order |
| Uploads.ClearCompletedIdempotent | romen-ps2-front/src/hooks/useGameUploads.ts:129-131 | clearing twice is clearing once |
| Uploads.Started | romen-ps2-front/src/hooks/useGameUploads.ts:33 | defines the queue after each submitted file's synchronous start update `updateItem(name, uploading, 0)`, in submission order, before the append; StartedShape and StartedFreshNames state its effect |
| Uploads.StartedShape | romen-ps2-front/src/hooks/useGameUploads.ts:33 | the synchronous start updates reach only items already queued under a submitted file's name; the list is not lengthened |
| Uploads.StartedFreshNames | romen-ps2-front/src/hooks/useGameUploads.ts:33 | with no earlier item under a submitted name, the start updates are no-ops, because the new items are appended only afterwards |
| Uploads.EffectiveTotal | romen-ps2-front/src/hooks/useGameUploads.ts:39 | defines `e.total \|\| file.size`: a missing or zero total falls back to the file size |
| Uploads.RoundPercent | romen-ps2-front/src/hooks/useGameUploads.ts:40 | defines `Math.round(loaded * 100 / total)` with halves rounding up, non-finite for a total of 0; the RoundPercent lemmas state its properties |
| Uploads.RoundPercentIsNearest | romen-ps2-front/src/hooks/useGameUploads.ts:39-40 | the percentage is the integer nearest to loaded * 100 / total, where `e.total` falls back to the file size and halves round up |
| Uploads.RoundPercentInRange | romen-ps2-front/src/hooks/useGameUploads.ts:40 | with 0 <= loaded <= total and total > 0, the percentage lies in 0..100 |
| Uploads.RoundPercentMonotone | romen-ps2-front/src/hooks/useGameUploads.ts:40 | more bytes sent never gives a smaller percentage |
| Uploads.RoundPercentReaches100 | romen-ps2-front/src/hooks/useGameUploads.ts:40-42 | the rounded percentage is 100, the value that turns the item to processing, exactly once 99.5% of the bytes are sent |
| Uploads.Next | romen-ps2-front/src/hooks/useGameUploads.ts:28-89 | defines one resumption of `processFile`: the phase it moves to and the queue update it issues for each event; NextMovesForward, NextPatchOrigin, PollAnswer and AbortedTaskEndsSilently state its properties |
| Uploads.NextMovesForward | romen-ps2-front/src/hooks/useGameUploads.ts:28-89 | a task never goes back from polling to uploading; a finished task stays finished and issues no update; polling keeps the job id |
| Uploads.NextPatchOrigin | romen-ps2-front/src/hooks/useGameUploads.ts:38-87 | no update sets pending; a completed status comes only from a completed or success answer; processing comes only from progress 100; `{error, 0}` comes only from a failure that is not a cancellation |
| Uploads.PollAnswer | romen-ps2-front/src/hooks/useGameUploads.ts:50-77 | completed or success completes the item with the answer's title and cover; error fails it; any other answer goes back to waiting, or ends silently once aborted |
| Uploads.AbortedTaskEndsSilently | romen-ps2-front/src/hooks/useGameUploads.ts:51-57 | an aborted task stops at its next check with no update, and a cancelled request produces none |
| Uploads.UploadQueue.UpdateItem | romen-ps2-front/src/hooks/useGameUploads.ts:22-26 | the new queue is `UpdateByName` of the old |
| Uploads.UploadQueue.UploadFiles | romen-ps2-front/src/hooks/useGameUploads.ts:91-110 | null files change nothing. Otherwise there is one fresh task per file, in order, each with its own fresh unaborted controller. The queue is the old one after the start updates, followed by one pending item with progress 0 per file |
| Uploads.UploadQueue.NewTasks | romen-ps2-front/src/hooks/useGameUploads.ts:94-107 | one fresh task per file, in order, posting, with pairwise distinct fresh controllers |
| Uploads.UploadQueue.RemoveFile | romen-ps2-front/src/hooks/useGameUploads.ts:113-126 | the queue loses every item with the name; the first such item's controller is aborted and no other controller changes |
| Uploads.UploadQueue.ClearCompleted | romen-ps2-front/src/hooks/useGameUploads.ts:129-131 | the queue loses exactly its completed items |
| Uploads.Transfer.Step | romen-ps2-front/src/hooks/useGameUploads.ts:28-89 | one resumption of `processFile` moves the phase and updates the queue as the step function `Next` says, reading the controller's abort flag |
| Grid.Shows | romen-ps2-front/src/components/Grid.tsx:13-15 | defines the test of `games.filter`: no filter shows every game, otherwise the lower-cased title must contain the lower-cased filter |
| Grid.Visible | romen-ps2-front/src/components/Grid.tsx:13-16 | defines `filteredGames`; NoFilterShowsAll, ShowsIff and VisibleExactly state what it keeps |
| Grid.NoFilterShowsAll | romen-ps2-front/src/components/Grid.tsx:13-14 | a null or empty filter shows every game in library order |
| Grid.ShowsIff | romen-ps2-front/src/components/Grid.tsx:15 | a non-empty filter shows a game exactly when the lower-cased filter occurs in the lower-cased title |
| Grid.VisibleExactly | romen-ps2-front/src/components/Grid.tsx:13-16 | only matching games are shown, each matching game as often as in the library, in order |
| Grid.CaseInsensitive | romen-ps2-front/src/components/Grid.tsx:15 | filters that differ only in letter case show the same games |
| Grid.Render | romen-ps2-front/src/components/Grid.tsx:21-58 | cards when something is shown; "Got Games?" for an empty library; "No matches found" exactly when a non-empty library is filtered to nothing |
| Iso.CaptureStart | romen-ps2-server/iso.py:17 | defines where the group begins: after `cdrom0:` in any case, at most one whitespace character and a backslash, when these match at the position |
| Iso.MatchAt | romen-ps2-server/iso.py:17 | defines the group of a match starting at a position, when the pattern matches there; MatchShape states its shape |
| Iso.SearchFrom | romen-ps2-server/iso.py:17 | defines `re.search` from a position on, trying each position in turn; SearchFromLeftmost states that it finds the leftmost match |
| Iso.GetSerial | romen-ps2-server/iso.py:17-22 | defines the serial as `match.group(1)` of the whole text, or `None`; GetSerialLeftmost states its properties |
| Iso.SerialOfImage | romen-ps2-server/iso.py:5-24 | defines `get_serial` of the image: a SYSTEM.CNF that could not be read gives `None`, otherwise the serial of its text |
| Iso.CaptureEnd | romen-ps2-server/iso.py:17 | the lazy `(.*?);` ends at the first `;` with no newline before it, or finds none |
| Iso.SearchFromLeftmost | romen-ps2-server/iso.py:17 | the search finds the match at the first position where the pattern matches, and nothing when it matches nowhere |
| Iso.GetSerialLeftmost | romen-ps2-server/iso.py:17-22 | the serial is the group of the leftmost match; `None` exactly when the pattern matches nowhere |
| Iso.MatchShape | romen-ps2-server/iso.py:17-20 | a match is `cdrom0:` (any case), at most one whitespace character and a backslash; its group runs up to the next `;` |
| Iso.SerialHasNoTerminator | romen-ps2-server/iso.py:17-20 | the serial holds neither `;` nor a newline |
| Iso.SearchSkips | romen-ps2-server/iso.py:17 | the search passes over positions where nothing matches |
| Iso.CaptureEndAt | romen-ps2-server/iso.py:17 | the capture ends at a `;` when no `;` or newline comes before it |
| Iso.MatchAtKey | romen-ps2-server/iso.py:17-20 | `cdrom0:\` followed by a serial and `;` matches there and captures exactly that serial |
| Iso.Boot2NoEarlierMatch | romen-ps2-server/iso.py:15 | nothing matches before the `cdrom0:` of the example BOOT2 line |
| Iso.Boot2MatchAt8 | romen-ps2-server/iso.py:15-17 | the example line matches at its `cdrom0:` |
| Iso.ExampleBoot2 | romen-ps2-server/iso.py:15-20 | `BOOT2 = cdrom0:\SLUS_200.02;1` yields `SLUS_200.02` |
| Database.CleanSerial | romen-ps2-server/database.py:204-206 | defines `clean_serial`: the empty serial gives ""; otherwise `_` becomes `-`, dots go and letters are upper-cased; the CleanSerial lemmas state its properties |
| Database.CleanSerialShape | romen-ps2-server/database.py:204-206 | an empty serial cleans to ""; a cleaned serial holds no `_`, no `.` and no lower-case letter |
| Database.CleanSerialIsScan | romen-ps2-server/database.py:206 | cleaning keeps each character except `.`, in order, with `_` turned into `-` and letters upper-cased |
| Database.CleanSerialLength | romen-ps2-server/database.py:206 | the cleaned serial is as long as the input less its dots |
| Database.ScanLength | romen-ps2-server/database.py:206 | the character scan drops exactly the dots |
| Database.ScanOfClean | romen-ps2-server/database.py:206 | a serial that is already clean scans to itself |
| Database.CleanSerialIdempotent | romen-ps2-server/database.py:204-206 | cleaning twice is cleaning once |
| Database.DbPath | romen-ps2-server/database.py:15-22 | no database path exactly when the library path is empty |
| Database.DbPathShape | romen-ps2-server/database.py:22 | the database path starts with the library root and ends with `romen_ps2.db` |
| Database.Upsert | romen-ps2-server/database.py:162-165 | INSERT OR REPLACE: the serial's row is the new one, every other row is kept, and rows stay keyed by their serial |
| Database.Delete | romen-ps2-server/database.py:188 | DELETE: that serial's row is gone and every other row is kept |
| Database.DeleteUndoesUpsert | romen-ps2-server/database.py:162-188 | adding a row and then deleting its serial leaves the other serials' rows as before |
| Database.TableAt | romen-ps2-server/database.py:104-116 | a table is read only with a path, a database file there, and the `library` table in it |
| Database.AddedTo | romen-ps2-server/database.py:152-175 | no path: nothing changes. A missing file is created without the table. A file without the table is unchanged. Otherwise the row is upserted. Other files are untouched |
| Database.RemovedFrom | romen-ps2-server/database.py:177-201 | with a readable table, only that serial's row is deleted; otherwise nothing changes |
| Database.AddThenLookup | romen-ps2-server/database.py:152-175 | after an add, a readable table holds the new row under its serial and every other serial reads as before |
| Database.RemoveThenLookup | romen-ps2-server/database.py:177-201 | after a remove, the serial is gone and every other serial reads as before |
| Database.TitleIn | romen-ps2-server/database.py:88-99 | the title is the map's entry for the cleaned serial, and nothing when the map is missing or lacks that key |
| Database.Library.QueryTitle | romen-ps2-server/database.py:88-99 | defines `query_title_by_serial` as the title map's entry for the cleaned serial; TitleIn states it |
| Database.Library.QueryKeepsSerial | romen-ps2-server/database.py:101-116 | in a valid library, the row found for a serial carries that serial, as `WHERE serial = ?` on the primary key gives |
| Database.Library.constructor | romen-ps2-server/database.py:43-49 | a library opened over tables that key each row by its serial, as the primary key demands, is valid |
| Database.Library.QueryLibrary | romen-ps2-server/database.py:101-116 | the row is found exactly when the table is readable and holds the raw serial |
| Database.Library.TitleKeyIsClean | romen-ps2-server/database.py:89-94 | serials that clean to the same key get the same title |
| Database.Initialized | romen-ps2-server/database.py:26-55 | without a database path nothing changes; otherwise the database file holds the `library` table, a table already there is kept with its rows, and every other file is unchanged |
| Database.Library.InitializeLibrary | romen-ps2-server/database.py:26-55 | the database files become `Initialized` of the old ones for the current database path, so the table exists afterwards and rows already there are kept |
| Database.Library.AddGame | romen-ps2-server/database.py:152-175 | true exactly when the table was readable; the row is then found under its serial; other serials are unchanged |
| Database.Library.RemoveGame | romen-ps2-server/database.py:177-201 | true exactly when the table was readable, whether or not the row existed; the serial is then absent; other serials are unchanged |
| System.CleanTitle | romen-ps2-server/system.py:92 | defines the sanitised title: the characters `<>:"/\|?*` deleted, then surrounding whitespace stripped; CleanTitleShape and the lemmas after it state its properties |
| System.OplName | romen-ps2-server/system.py:95 | defines the OPL file name `SERIAL.Title.iso`; OplNameShape and OplNameInjective state its properties |
| System.DestPath | romen-ps2-server/system.py:105-107 | defines the destination as the OPL name joined into the CD or DVD folder of the library; DestPathInFolder states where it lies |
| System.CoverUrl | romen-ps2-server/system.py:133-134 | defines the stored cover URL from the covers base and the cleaned serial; CoverUrlShape states its shape |
| System.CoverPath | romen-ps2-server/system.py:166-173 | defines the cover file path in the library's ART folder; CoverPathInArt states where it lies |
| System.TitleOrUnknown | romen-ps2-server/system.py:90 | a missing or empty title becomes "Unknown Game"; any other title is kept |
| System.CleanTitleShape | romen-ps2-server/system.py:91-92 | the sanitised title holds none of `<>:"/\|?*` and no whitespace at either end, and only characters of the title |
| System.CleanTitleKeepsDots | romen-ps2-server/system.py:91-92 | the sanitised title has exactly the title's dots, although the comment says dots are removed |
| System.CleanTitleIdempotent | romen-ps2-server/system.py:92 | sanitising twice is sanitising once |
| System.CleanTitleOfClean | romen-ps2-server/system.py:92 | a title with no forbidden character and no surrounding whitespace is kept as it is |
| System.UnknownGameIsClean | romen-ps2-server/system.py:90-92 | "Unknown Game" survives sanitising |
| System.OplNameShape | romen-ps2-server/system.py:95 | the file name is the serial, `.`, the title and `.iso` |
| System.OplNameInjective | romen-ps2-server/system.py:95 | for serials of equal length, different games get different file names |
| System.DiscFolder | romen-ps2-server/system.py:99-103 | "DVD" exactly when the size exceeds the cutoff (the cutoff itself is CD); otherwise "CD" |
| System.DestPathInFolder | romen-ps2-server/system.py:106-107 | the image lands under its OPL name in the CD or DVD folder, unless the serial starts with `/`, which puts it outside the library |
| System.CoverUrlShape | romen-ps2-server/system.py:133-134 | the cover URL is the covers base, `/`, the cleaned serial and `.jpg` |
| System.CoverPathInArt | romen-ps2-server/system.py:166-173 | the cover file is `<clean serial>_COV.jpg` in the ART folder, unless the cleaned serial starts with `/` |
| System.CoverSharedByCleanKey | romen-ps2-server/system.py:133-173 | serials that clean to the same key share one cover URL and one cover file |
| System.BestUnique | romen-ps2-server/system.py:245-257 | at most one partition is the selection |
| System.PrefixSurvivesLower | romen-ps2-server/system.py:248-251 | a partition matched case-sensitively is matched on Windows too |
| System.SelectPartition | romen-ps2-server/system.py:242-259 | `None` exactly when no non-empty mount point prefixes the path. Otherwise the pick has the longest matching mount point, strictly longer than every earlier match |
| System.GetStorageDevice | romen-ps2-server/system.py:235-277 | a device exactly when the resolved path exists, a partition is selected and its usage can be read; it then describes that partition and carries the path as given |
| System.TargetsSnoc | romen-ps2-server/system.py:48-50 | one more folder in the structure adds exactly its joined path |
| System.CreateStructure | romen-ps2-server/system.py:47-50 | every folder of the structure exists afterwards, and nothing else changes |
| System.VerifyDir | romen-ps2-server/system.py:23-45 | a path that is not a directory gives "Directory does not exist.", and no device gives "Storage device not detected.", both changing nothing. Otherwise the result is "Directory Verified." and the whole structure exists |
| System.CleanedUp | romen-ps2-server/system.py:148-160 | the failure clean-up removes exactly the destination and the temp file |
| System.DownloadCover | romen-ps2-server/system.py:164-186 | the ART folder is created; a fetched cover is saved at the cover path and that path is returned; a failed fetch saves nothing |
| System.StoreEffect | romen-ps2-server/system.py:109-162 | defines the new files, directories, database and report of the copy and record step; StoreOutcome and StoreCompleted state its outcomes |
| System.Store | romen-ps2-server/system.py:109-162 | the new files, directories, database and report are those `StoreEffect` gives for the old state: the destination folder is created; a raising or size-mismatched copy fails, removing destination and temp; a good copy moves the image, records the row, fetches the cover and completes |
| System.StoreOutcome | romen-ps2-server/system.py:111-162 | the store completes exactly when the copy succeeded with the image's size; a failed store leaves no temp file and the database as it was |
| System.StoreCompleted | romen-ps2-server/system.py:119-146 | a completed store announces the title and the cover URL of the serial, keeps the image at its destination (unless that is the temp path or the cover was saved over it) and records the row under the raw serial |
| System.Ingest | romen-ps2-server/system.py:77-162 | defines the new files, directories, database and report of a whole ingestion; IngestOutcome and IngestCompleted state its outcomes |
| System.ProcessUpload | romen-ps2-server/system.py:77-162 | the new files, directories, database and report are those `Ingest` gives for the old state: a missing temp file fails and changes nothing; no serial fails and deletes the image; otherwise the image is stored under its mapped, defaulted, sanitised title |
| System.IngestOutcome | romen-ps2-server/system.py:77-162 | the ingestion completes exactly when the temp file exists, its SYSTEM.CNF has a serial and the copy succeeded with the image's size; every failure leaves no temp file and the database as it was |
| System.IngestCompleted | romen-ps2-server/system.py:77-107 | a completed ingestion had its temp file and a serial, and is the store of that image under the title found for that serial |
| System.DeleteGameFiles | romen-ps2-server/system.py:205-225 | the image file (when the row names one) and the cover file are gone; every other file and every directory stays |
| System.DeleteIfFile | romen-ps2-server/system.py:207-225 | a path naming a file is deleted; nothing else changes |
| System.RemoveFromLibrary | romen-ps2-server/system.py:192-233 | false and no change without a row. Otherwise the row's image file (when named) and the cover file are deleted, the row is removed, and the answer is true |
| System.SetLibraryPath | romen-ps2-server/system.py:319-354 | the path is resolved and passed to VerifyDir, which creates the folder structure exactly when it verifies. An unverified path gives VerifyDir's message; a failed save gives its text; both keep the live path and the database files. Otherwise the live path becomes the resolved path and its database is initialised as `Initialized` says |
| Server.JobStatus | romen-ps2-server/server.py:53-68 | a job answer's status is processing, completed or error, processing exactly before the result is in |
| Server.GetJobStatus | romen-ps2-server/server.py:73-79 | the stored entry for a known id, processing for an unknown one |
| Server.RecordIsolated | romen-ps2-server/server.py:53-68 | recording an entry changes the answer for that job alone |
| Server.DeleteReply | romen-ps2-server/server.py:89-95 | success exactly when the removal succeeded, error otherwise |
| Server.Server.UploadGame | romen-ps2-server/server.py:58-71 | the upload is saved in the uploads folder under its file name, the new id is registered as processing, and the id is returned |
| Server.Server.ProcessUploadWrapper | romen-ps2-server/server.py:49-56 | without an exception the host and library change as `Ingest` says and the job's entry becomes its report. An escaping exception deletes the temp file and stores the error text, or changes nothing when the temp file is gone. Every other job's entry stays as it was |
| Server.Server.DeleteGame | romen-ps2-server/server.py:87-95 | the answer is the delete reply of the library removal. An error answer means nothing changed. On success the row's image file (when named) and the cover file are deleted, the row is deleted, and the serial is gone from the library. Directories and every other serial's row are unchanged |
| Server.Server.SetDevice | romen-ps2-server/server.py:104-108 | a path failing the first VerifyDir gets the fixed error and changes nothing. Otherwise that call created the folder structure under the path, and `set_library_path` then acts on that new state: its second check, the save and the database initialisation decide the answer, the directories, the live path and the database files |
| Protocol.Answer | romen-ps2-server/server.py:73-79 | the job answer carries the entry's status, and a title and cover URL exactly for a completed report |
| Protocol.PollReadsJob | romen-ps2-front/src/hooks/useGameUploads.ts:60-76 | a processing job makes the poller wait again; a completed report completes the item with the report's title and cover URL; an error report fails it |
| Protocol.PollFinishesIffDone | romen-ps2-server/server.py:73-79 | the poller finishes with an update exactly when the job is done; an unknown id keeps it polling until aborted |

## Left out

- I/O and platform calls are parameters of the model:
  - the copy outcome of `shutil.copy2` (`CopyResult`), and the bytes of the cover request (`requests.get`);
  - the decoded SYSTEM.CNF (pycdlib reading), `os.path.realpath`, `psutil` partitions and usage, and `get_drive_label`;
  - `uuid.uuid4` (the job id) and the exception text that escapes `ProcessUpload`;
  - the outcome of writing `settings.json` in `set_library_path`.
- `os.makedirs` also creates missing parent directories. The model adds only the leaf directory (`CreateStructure`, `Store` and `DownloadCover`; romen-ps2-server/system.py:50, 113, 171).
- A failing `open(temp_path, 'wb')` in `upload_game` is not modelled: `UploadGame` always stores the file (romen-ps2-server/server.py:64).
- A cover download that fails partway is not modelled. The source leaves a partial cover file behind (romen-ps2-server/system.py:179-181); in the model a cover is either fully saved or not saved at all.
- System.SetLibraryPath: an exception other than `OperationalError` or `OSError` that escapes `initialize_library` is not modelled. In the source the answer is then an error although the live path was already updated (romen-ps2-server/system.py:343-354).
- System.SerialOfImage: a failed image read is taken to give `None`. pycdlib's `close()` in the `finally` (romen-ps2-server/iso.py:27) may raise after a failed `open`, and the upload would then end in the background task's exception branch.
- Exceptions from `os.makedirs`, `sqlite3.connect` and `os.remove` are not modelled. One consequence is hidden: when `connect` raises in `add_game_to_library`, its `finally` reads the unbound `conn`.
- `remove_from_library` returning false after an unexpected exception is not modelled.
- Server.Server.ProcessUploadWrapper: an exception that escapes `ProcessUpload` is taken to arise before the ingestion changes anything, as the reads of the image size and the title map do.
- A temp path that names a directory is not modelled: the host's files and directories are separate sets.
- Case maps, `strip` and `\s` cover ASCII only; strings are sequences of characters, with no Unicode case folding or decoding.
- `os.path.join` is POSIX's: Windows drive letters and backslashes are not modelled.
- `Math.round` is integer arithmetic over the exact quotient. A total of 0 gives a non-finite progress value instead of a floating-point NaN or Infinity.
- Real concurrency, React batching, the `wait` timer and the transport-level effect of aborting are not modelled. A task is advanced by events one at a time; an event that cannot arrive in a task's phase leaves it unchanged.
- `get_library`/`get_all_games`, `get_device`, `CheckDatabases`, `initialize_map`, the static file serving and the app start-up are not modelled; they are plumbing or foreign I/O.
- The filesystem-type warning of `VerifyDir` only prints, so it has no counterpart.
- The comment at romen-ps2-server/system.py:91 says dots are removed from titles. The code does not remove them, and the model follows the code (System.CleanTitleKeepsDots).
