/** The library database helpers: serial normalisation, the location of the
    library database on the storage device, the `library` table (keyed by its
    `serial TEXT PRIMARY KEY`) and the read-only title map. */
module Database {
  import opened Text
  import opened Config

  // ---------------------------------------------------------------------------
  // Serial normalisation

  function NotDot(c: char): bool {
    c != '.'
  }

  /** `clean_serial`: an empty serial gives ""; otherwise every `_` becomes `-`,
      every `.` is deleted and the result is upper-cased. */
  function CleanSerial(s: string): string {
    if s == [] then [] else Upper(Filter(ReplaceChar(s, '_', '-'), NotDot))
  }

  /** A cleaned serial holds no `_`, no `.` and no lower-case letter; the empty
      serial stays empty. */
  lemma CleanSerialShape(s: string)
    ensures s == [] ==> CleanSerial(s) == []
    ensures '_' !in CleanSerial(s) && '.' !in CleanSerial(s)
    ensures forall i :: 0 <= i < |CleanSerial(s)| ==> !('a' <= CleanSerial(s)[i] <= 'z')
  {
  }

  /** What `clean_serial` does to one character that it keeps. */
  function CleanChar(c: char): char {
    if c == '_' then '-' else UpperChar(c)
  }

  /** A character-by-character reading of `clean_serial`, scanned from the left. */
  function CleanSerialScan(s: string): string {
    if s == [] then [] else (if s[0] == '.' then [] else [CleanChar(s[0])]) + CleanSerialScan(s[1..])
  }

  /** `clean_serial` agrees with the scan: each character other than `.` is kept,
      in order, as its cleaned form. */
  lemma {:induction false} CleanSerialIsScan(s: string)
    ensures CleanSerial(s) == CleanSerialScan(s)
  {
    if s != [] {
      var rest := s[1..];
      CleanSerialIsScan(rest);
      var rep := ReplaceChar(s, '_', '-');
      var repRest := ReplaceChar(rest, '_', '-');
      assert rep[1..] == repRest;
      var head := if NotDot(rep[0]) then [rep[0]] else [];
      var tail := Filter(repRest, NotDot);
      assert Filter(rep, NotDot) == head + tail;
      assert CleanSerial(rest) == Upper(tail);
      UpperAppend(head, tail);
      assert Upper(head) == if s[0] == '.' then [] else [CleanChar(s[0])];
    }
  }

  /** The cleaned serial is as long as the input less its dots. */
  lemma CleanSerialLength(s: string)
    ensures |CleanSerial(s)| == |s| - Count(s, '.')
  {
    CleanSerialIsScan(s);
    ScanLength(s);
  }

  lemma {:induction false} ScanLength(s: string)
    ensures |CleanSerialScan(s)| == |s| - Count(s, '.')
  {
    if s != [] {
      ScanLength(s[1..]);
    }
  }

  /** A serial that is already clean is left as it is. */
  lemma {:induction false} ScanOfClean(s: string)
    requires '_' !in s && '.' !in s
    requires forall i :: 0 <= i < |s| ==> !('a' <= s[i] <= 'z')
    ensures CleanSerialScan(s) == s
  {
    if s != [] {
      var t := s[1..];
      assert forall i :: 0 <= i < |t| ==> t[i] == s[i + 1];
      assert '_' !in t && '.' !in t by {
        assert forall x :: x in t ==> x in s;
      }
      ScanOfClean(t);
      assert s[0] != '_' && s[0] != '.' by {
        assert s[0] in s;
      }
      assert CleanChar(s[0]) == s[0];
      assert s == [s[0]] + t;
    }
  }

  /** Cleaning a serial twice is cleaning it once. */
  lemma CleanSerialIdempotent(s: string)
    ensures CleanSerial(CleanSerial(s)) == CleanSerial(s)
  {
    CleanSerialShape(s);
    CleanSerialIsScan(CleanSerial(s));
    ScanOfClean(CleanSerial(s));
  }

  // ---------------------------------------------------------------------------
  // The library database file

  const DbName := "romen_ps2.db"

  /** `get_db_path`: no database without a library path, otherwise the file
      `romen_ps2.db` in the library root. */
  function DbPath(libPath: string): (r: Option<string>)
    ensures r.None? <==> libPath == []
  {
    if libPath == [] then None else Some(Join(libPath, DbName))
  }

  /** The database file lies in the library root and is named `romen_ps2.db`. */
  lemma DbPathShape(libPath: string)
    requires libPath != []
    ensures libPath <= DbPath(libPath).value
    ensures |DbName| <= |DbPath(libPath).value| <= |libPath| + 1 + |DbName|
    ensures DbPath(libPath).value[|DbPath(libPath).value| - |DbName|..] == DbName
  {
    JoinShape(libPath, DbName);
  }

  /** A row of the `library` table. */
  datatype Row = Row(serial: string, title: string, filepath: string, size: Option<int>, coverUrl: Option<string>)

  /** A database file as sqlite sees it: created by a connection but without the
      `library` table yet, or holding the table (its rows by primary key). A path
      that is not in a `Library`'s `files` has no database file. */
  datatype DbFile = NoTable | Ready(rows: map<string, Row>)

  /** Every row is stored under its own serial. */
  ghost predicate KeyedBySerial(rows: map<string, Row>) {
    forall k :: k in rows ==> rows[k].serial == k
  }

  /** `INSERT OR REPLACE`: the row for its serial is replaced or added. */
  function Upsert(rows: map<string, Row>, row: Row): (r: map<string, Row>)
    ensures r.Keys == rows.Keys + {row.serial}
    ensures r[row.serial] == row
    ensures forall k :: k in rows && k != row.serial ==> r[k] == rows[k]
    ensures KeyedBySerial(rows) ==> KeyedBySerial(r)
  {
    rows[row.serial := row]
  }

  /** `DELETE ... WHERE serial = ?`: that serial's row is gone, every other row stays. */
  function Delete(rows: map<string, Row>, serial: string): (r: map<string, Row>)
    ensures r.Keys == rows.Keys - {serial}
    ensures forall k :: k in r ==> r[k] == rows[k]
    ensures KeyedBySerial(rows) ==> KeyedBySerial(r)
  {
    rows - {serial}
  }

  /** Adding a row and then deleting its serial leaves the rows of every other
      serial as they were. */
  lemma DeleteUndoesUpsert(rows: map<string, Row>, row: Row)
    ensures Delete(Upsert(rows, row), row.serial) == Delete(rows, row.serial)
  {
  }

  /** The `library` table of the database file at `path`, when there is a path,
      a file there and the table in it. */
  function TableAt(files: map<string, DbFile>, path: Option<string>): (r: Option<map<string, Row>>)
    ensures r.Some? <==> path.Some? && path.value in files && files[path.value].Ready?
    ensures r.Some? ==> r.value == files[path.value].rows
  {
    if path.Some? && path.value in files && files[path.value].Ready? then Some(files[path.value].rows) else None
  }

  /** The database files after an `add_game_to_library` of `row`. */
  function AddedTo(files: map<string, DbFile>, path: Option<string>, row: Row): (r: map<string, DbFile>)
    ensures forall q :: q in files && (path.None? || q != path.value) ==> q in r && r[q] == files[q]
    ensures r.Keys == files.Keys + (if path.Some? then {path.value} else {})
    ensures TableAt(files, path).Some? ==> r[path.value] == Ready(Upsert(TableAt(files, path).value, row))
    ensures TableAt(files, path).None? && path.Some? ==> r[path.value] == NoTable
  {
    match path
    case None => files
    case Some(p) =>
      if p !in files then files[p := NoTable]
      else match files[p]
        case NoTable => files
        case Ready(rows) => files[p := Ready(Upsert(rows, row))]
  }

  /** The database files after a `remove_game_from_library` of `serial`. */
  function RemovedFrom(files: map<string, DbFile>, path: Option<string>, serial: string): (r: map<string, DbFile>)
    ensures forall q :: q in files && (path.None? || q != path.value) ==> q in r && r[q] == files[q]
    ensures r.Keys == files.Keys
    ensures TableAt(files, path).Some? ==> r[path.value] == Ready(Delete(TableAt(files, path).value, serial))
    ensures TableAt(files, path).None? ==> r == files
  {
    match TableAt(files, path)
    case None => files
    case Some(rows) => files[path.value := Ready(Delete(rows, serial))]
  }

  /** After an add, the table holds the new row under its serial exactly when
      it was readable before; every other serial reads as before. */
  lemma AddThenLookup(files: map<string, DbFile>, path: Option<string>, row: Row, s: string)
    ensures TableAt(AddedTo(files, path, row), path).Some? <==> TableAt(files, path).Some?
    ensures TableAt(files, path).Some? ==> TableAt(AddedTo(files, path, row), path).value[row.serial] == row
    ensures TableAt(files, path).Some? && s != row.serial ==>
              (s in TableAt(AddedTo(files, path, row), path).value <==> s in TableAt(files, path).value)
  {
  }

  /** After a remove, the serial is gone and every other serial reads as before. */
  lemma RemoveThenLookup(files: map<string, DbFile>, path: Option<string>, serial: string, s: string)
    ensures TableAt(RemovedFrom(files, path, serial), path).Some? <==> TableAt(files, path).Some?
    ensures TableAt(files, path).Some? ==> serial !in TableAt(RemovedFrom(files, path, serial), path).value
    ensures TableAt(files, path).Some? && s != serial && s in TableAt(files, path).value ==>
              TableAt(RemovedFrom(files, path, serial), path).value[s] == TableAt(files, path).value[s]
  {
  }

  /** The database helpers, over the database files of every possible library
      root and the title map that ships with the application. */
  /** The title mapped to the cleaned serial, if the title map can be read. */
  function TitleIn(titleMap: Option<map<string, string>>, serial: string): (r: Option<string>)
    ensures r.Some? <==> titleMap.Some? && CleanSerial(serial) in titleMap.value
    ensures r.Some? ==> r.value == titleMap.value[CleanSerial(serial)]
  {
    if titleMap.Some? && CleanSerial(serial) in titleMap.value then Some(titleMap.value[CleanSerial(serial)])
    else None
  }

  /** The database files after `initialize_library` with database path `path`:
      without a path nothing changes; a missing file, or one without the
      `library` table, then holds an empty table; a table already there is
      kept with its rows. */
  function Initialized(files: map<string, DbFile>, path: Option<string>): (r: map<string, DbFile>)
    ensures path.None? ==> r == files
    ensures path.Some? ==> path.value in r && r[path.value].Ready?
    ensures path.Some? && path.value in files && files[path.value].Ready? ==> r == files
    ensures path.Some? ==> forall p :: p != path.value ==> (p in r <==> p in files) && (p in r ==> r[p] == files[p])
  {
    if path.None? || (path.value in files && files[path.value].Ready?) then files
    else files[path.value := Ready(map[])]
  }

  class Library {
    const config: Settings
    /** The sqlite files that exist, by path. */
    var files: map<string, DbFile>
    /** The `title_map` table of the local map database, `None` when that file
        or its table is missing (both make the lookup give nothing). */
    var titleMap: Option<map<string, string>>

    /** Opening the library over database files whose `library` tables key
        every row by its own serial, as the `serial` primary key does. */
    constructor (config: Settings, files: map<string, DbFile>, titleMap: Option<map<string, string>>)
      requires forall p :: p in files && files[p].Ready? ==> KeyedBySerial(files[p].rows)
      ensures this.config == config && this.files == files && this.titleMap == titleMap
      ensures Valid()
    {
      this.config := config;
      this.files := files;
      this.titleMap := titleMap;
    }

    /** Every `library` table keeps each row under its own serial. */
    ghost predicate Valid()
      reads this
    {
      forall p :: p in files && files[p].Ready? ==> KeyedBySerial(files[p].rows)
    }

    /** The `library` table of the current library database, if it can be read. */
    function Table(): Option<map<string, Row>>
      reads this, config
    {
      TableAt(files, DbPath(config.libPath))
    }

    /** `query_library_by_serial`: the row stored under exactly this serial, if
        there is a readable library table; a missing path, a missing file and a
        missing table all give nothing. */
    function QueryLibrary(serial: string): (r: Option<Row>)
      reads this, config
      ensures r.Some? <==> Table().Some? && serial in Table().value
      ensures r.Some? ==> r.value == Table().value[serial]
    {
      match Table()
      case None => None
      case Some(rows) => if serial in rows then Some(rows[serial]) else None
    }

    /** In a valid library, the row found under a serial carries that serial. */
    lemma QueryKeepsSerial(serial: string)
      requires Valid()
      ensures QueryLibrary(serial).Some? ==> QueryLibrary(serial).value.serial == serial
    {
    }

    /** `query_title_by_serial`. */
    function QueryTitle(serial: string): Option<string>
      reads this
    {
      TitleIn(titleMap, serial)
    }

    /** Serials that clean to the same key get the same title; the library table,
        keyed by the raw serial, can still tell them apart. */
    lemma TitleKeyIsClean(s1: string, s2: string)
      requires CleanSerial(s1) == CleanSerial(s2)
      ensures QueryTitle(s1) == QueryTitle(s2)
    {
    }

    /** `initialize_library`: with a library path, make sure its database file
        holds the `library` table (creating the file if needed); rows already
        there are kept. */
    method InitializeLibrary()
      requires Valid()
      modifies this
      ensures Valid() && titleMap == old(titleMap)
      ensures files == Initialized(old(files), DbPath(config.libPath))
      ensures DbPath(config.libPath).Some? ==> Table().Some?
      ensures forall s :: old(QueryLibrary(s)).Some? ==> QueryLibrary(s) == old(QueryLibrary(s))
    {
      var path := DbPath(config.libPath);
      if path.Some? {
        var p := path.value;
        if !(p in files && files[p].Ready?) {
          files := files[p := Ready(map[])];
        }
      }
    }

    /** `add_game_to_library`: without a library path nothing happens and the
        answer is false. A connection to a missing file creates it empty, and the
        insert then fails for want of the table: false. With the table, the row
        is inserted or replaces the one of the same serial: true. */
    method AddGame(row: Row) returns (ok: bool)
      requires Valid()
      modifies this
      ensures Valid() && titleMap == old(titleMap)
      ensures ok <==> old(Table()).Some?
      ensures files == AddedTo(old(files), DbPath(config.libPath), row)
      ensures ok ==> QueryLibrary(row.serial) == Some(row)
      ensures forall s :: s != row.serial ==> QueryLibrary(s) == old(QueryLibrary(s))
    {
      ok := Table().Some?;
      files := AddedTo(files, DbPath(config.libPath), row);
    }

    /** `remove_game_from_library`: false without a path or a database file, and
        false when the delete fails for want of the table; otherwise the row of
        that serial is deleted and the answer is true whether or not it existed. */
    method RemoveGame(serial: string) returns (ok: bool)
      requires Valid()
      modifies this
      ensures Valid() && titleMap == old(titleMap)
      ensures ok <==> old(Table()).Some?
      ensures files == RemovedFrom(old(files), DbPath(config.libPath), serial)
      ensures QueryLibrary(serial).None?
      ensures forall s :: s != serial ==> QueryLibrary(s) == old(QueryLibrary(s))
    {
      ok := Table().Some?;
      files := RemovedFrom(files, DbPath(config.libPath), serial);
    }
  }
}
