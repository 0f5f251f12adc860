/** The accident-data batch script: load the configured CSV extracts, label each by
    severity, concatenate them, keep the rows located in the target city, validate the
    coordinates and drop the rows that cannot be placed on a map. */
module AccidentPipeline {
  import opened Wrappers
  import opened Text
  import opened Filtering

  // Column names, labels and the target city, as the script spells them.
  const LOCATION_COLUMN := "發生地點"
  const LAT_COLUMN := "緯度"
  const LON_COLUMN := "經度"
  const CATEGORY_COLUMN := "事故類型"
  const CLEAN_LAT_COLUMN := "clean_lat"
  const CLEAN_LON_COLUMN := "clean_lon"
  const FATAL_MARKER := "A1"
  const FATAL_LABEL := "A1(死亡)"
  const INJURY_LABEL := "A2(受傷)"
  const TARGET_CITY := "臺南"

  // Inclusive bounds of a plausible coordinate in Taiwan.
  const LAT_MIN: real := 21.0
  const LAT_MAX: real := 26.0
  const LON_MIN: real := 119.0
  const LON_MAX: real := 123.0

  /** The configured input files, in processing order. */
  const FILE_LIST: seq<string> := [
    "110年度A1交通事故資料.csv",
    "110年度A2交通事故資料(110年1月-6月).csv",
    "110年度A2交通事故資料(110年7月-12月).csv"
  ]

  /** One accident row. `lat` and `lon` are what `float()` makes of the raw cells
      (`None`: the cell is missing or does not parse to a finite number); `category`,
      `cleanLat` and `cleanLon` are the columns the script adds. */
  datatype Record = Record(
    location: Option<string>,
    lat: Option<real>,
    lon: Option<real>,
    category: Option<string>,
    cleanLat: Option<real>,
    cleanLon: Option<real>)

  /** A table: the names of its columns and its rows, in order. */
  datatype Frame = Frame(columns: set<string>, rows: seq<Record>)

  /** What reading an existing input file yields: a table, or an error that the
      script does not catch (both encodings fail, or the text is not valid CSV). */
  datatype Source = Readable(frame: Frame) | Unreadable

  /** How a run of the script ends. */
  datatype Outcome =
    | ReadFailed(file: string)          // reading a file raised; the run aborts
    | NoData                            // no file was loaded; the run stops before output
    | MissingLocationColumn             // the merged table has no location column (KeyError)
    | Exported(table: Frame, removed: Option<int>)  // the table written out; the reported drop count

  // ---------------------------------------------------------------------------
  // Coordinate validation

  /** `clean_lat`: the parsed latitude if it lies in [21, 26], otherwise missing. */
  function CleanLat(v: Option<real>): (r: Option<real>)
    ensures r.Some? <==> v.Some? && LAT_MIN <= v.value <= LAT_MAX
    ensures r.Some? ==> r == v
  {
    match v
    case None => None
    case Some(x) => if LAT_MIN <= x <= LAT_MAX then Some(x) else None
  }

  /** `clean_lon`: the parsed longitude if it lies in [119, 123], otherwise missing. */
  function CleanLon(v: Option<real>): (r: Option<real>)
    ensures r.Some? <==> v.Some? && LON_MIN <= v.value <= LON_MAX
    ensures r.Some? ==> r == v
  {
    match v
    case None => None
    case Some(x) => if LON_MIN <= x <= LON_MAX then Some(x) else None
  }

  // ---------------------------------------------------------------------------
  // Labelling

  /** The severity label of a file, decided by its name alone. */
  function LabelFor(name: string): (tag: string)
    ensures tag == FATAL_LABEL || tag == INJURY_LABEL
    ensures tag == FATAL_LABEL <==> exists i: nat :: OccursAt(name, FATAL_MARKER, i)
  {
    ContainsIff(name, FATAL_MARKER);
    assert FATAL_LABEL[1] != INJURY_LABEL[1];
    if Contains(name, FATAL_MARKER) then FATAL_LABEL else INJURY_LABEL
  }

  /** Adds the category column to a loaded table, every row getting its file's label. */
  function Label(f: Frame, name: string): (g: Frame)
    ensures g.columns == f.columns + {CATEGORY_COLUMN}
    ensures |g.rows| == |f.rows|
    ensures forall r :: r in g.rows ==> r.category == Some(LabelFor(name))
    ensures forall i :: 0 <= i < |f.rows| ==> g.rows[i].(category := f.rows[i].category) == f.rows[i]
  {
    var tag := LabelFor(name);
    Frame(f.columns + {CATEGORY_COLUMN},
          seq(|f.rows|, i requires 0 <= i < |f.rows| => f.rows[i].(category := Some(tag))))
  }

  // ---------------------------------------------------------------------------
  // Loading and concatenation

  /** The labelled tables of the files processed in order, or the name of the first
      existing file whose reading raised. Files that do not exist are skipped. */
  function Collect(names: seq<string>, disk: map<string, Source>): Result<seq<Frame>, string>
    decreases |names|
  {
    if names == [] then Ok([])
    else
      var prev := Collect(names[..|names| - 1], disk);
      var name := names[|names| - 1];
      if prev.Fail? || name !in disk then prev
      else match disk[name]
        case Unreadable => Fail(name)
        case Readable(f) => Ok(prev.value + [Label(f, name)])
  }

  /** The names of the files that exist, in list order. */
  function Present(names: seq<string>, disk: map<string, Source>): seq<string>
  {
    Where(names, (n: string) => n in disk)
  }

  /** Total number of rows in the readable files among `names` (a file listed twice counts twice). */
  function LoadedRowCount(names: seq<string>, disk: map<string, Source>): nat
    decreases |names|
  {
    if names == [] then 0
    else
      var name := names[|names| - 1];
      LoadedRowCount(names[..|names| - 1], disk) +
        (if name in disk && disk[name].Readable? then |disk[name].frame.rows| else 0)
  }

  /** Total number of rows in a list of tables. */
  function TotalRows(frames: seq<Frame>): nat
    decreases |frames|
  {
    if frames == [] then 0
    else TotalRows(frames[..|frames| - 1]) + |frames[|frames| - 1].rows|
  }

  /** `pd.concat`: the rows of all tables stacked in list order; the columns are the union. */
  function Concat(frames: seq<Frame>): Frame
    decreases |frames|
  {
    if frames == [] then Frame({}, [])
    else
      var init := Concat(frames[..|frames| - 1]);
      var last := frames[|frames| - 1];
      Frame(init.columns + last.columns, init.rows + last.rows)
  }

  /** The file loop: reads every existing file, labels it and accumulates the tables. */
  method LoadFiles(names: seq<string>, disk: map<string, Source>) returns (r: Result<seq<Frame>, string>)
    ensures r == Collect(names, disk)
    ensures r.Ok? ==> TotalRows(r.value) == LoadedRowCount(names, disk)
  {
    var frames: seq<Frame> := [];
    var i := 0;
    while i < |names|
      invariant 0 <= i <= |names|
      invariant Collect(names[..i], disk) == Ok(frames)
      invariant TotalRows(frames) == LoadedRowCount(names[..i], disk)
    {
      var name := names[i];
      assert names[..i + 1][..i] == names[..i];
      if name in disk {
        match disk[name]
        case Unreadable =>
          CollectFailPersists(names, disk, i + 1);
          return Fail(name);
        case Readable(f) =>
          var labelled := Label(f, name);
          assert (frames + [labelled])[..|frames|] == frames;
          frames := frames + [labelled];
      }
      i := i + 1;
    }
    assert names[..i] == names;
    r := Ok(frames);
  }

  /** Once a prefix of the file list has raised, the whole run has raised with the same file. */
  lemma {:induction false} CollectFailPersists(names: seq<string>, disk: map<string, Source>, k: nat)
    requires k <= |names| && Collect(names[..k], disk).Fail?
    ensures Collect(names, disk) == Collect(names[..k], disk)
    decreases |names|
  {
    if k == |names| {
      assert names[..k] == names;
    } else {
      var init := names[..|names| - 1];
      assert init[..k] == names[..k];
      CollectFailPersists(init, disk, k);
    }
  }

  // ---------------------------------------------------------------------------
  // Filtering to the target city

  /** The location text contains the target city; a missing location never does. */
  predicate InTargetCity(r: Record)
  {
    r.location.Some? && Contains(r.location.value, TARGET_CITY)
  }

  /** The rows of the merged table located in the target city. */
  function FilterCity(all: Frame): Frame
  {
    Frame(all.columns, Where(all.rows, InTargetCity))
  }

  // ---------------------------------------------------------------------------
  // Coordinate cleaning

  /** Adds the validated coordinate columns to one row. */
  function CleanRow(r: Record): Record
  {
    r.(cleanLat := CleanLat(r.lat), cleanLon := CleanLon(r.lon))
  }

  /** `apply(clean_lat)` and `apply(clean_lon)` over every row. */
  function Clean(rows: seq<Record>): seq<Record>
  {
    if rows == [] then [] else [CleanRow(rows[0])] + Clean(rows[1..])
  }

  /** `dropna(subset=['clean_lat', 'clean_lon'])` keeps a row when both are present. */
  predicate HasCoordinates(r: Record)
  {
    r.cleanLat.Some? && r.cleanLon.Some?
  }

  /** The raw parsed coordinates of a row are both within bounds. */
  predicate ValidCoordinates(r: Record)
  {
    r.lat.Some? && LAT_MIN <= r.lat.value <= LAT_MAX &&
    r.lon.Some? && LON_MIN <= r.lon.value <= LON_MAX
  }

  /** The cleaning step: runs only when both coordinate columns exist, and then yields the
      surviving rows and the reported `before_drop - after_drop`. */
  function CleanCoordinates(t: Frame): (Frame, Option<int>)
  {
    if LAT_COLUMN in t.columns && LON_COLUMN in t.columns then
      var kept := Where(Clean(t.rows), HasCoordinates);
      (Frame(t.columns + {CLEAN_LAT_COLUMN, CLEAN_LON_COLUMN}, kept), Some(|t.rows| - |kept|))
    else
      (t, None)
  }

  // ---------------------------------------------------------------------------
  // The whole run

  /** Everything after the file loop: the no-data exit, the city filter and the cleaning. */
  function Process(frames: seq<Frame>): Outcome
  {
    if frames == [] then NoData
    else
      var all := Concat(frames);
      if LOCATION_COLUMN !in all.columns then MissingLocationColumn
      else
        var cleaned := CleanCoordinates(FilterCity(all));
        Exported(cleaned.0, cleaned.1)
  }

  /** The outcome of running the script over `names` against the files in `disk`. */
  function Pipeline(names: seq<string>, disk: map<string, Source>): Outcome
  {
    match Collect(names, disk)
    case Fail(name) => ReadFailed(name)
    case Ok(frames) => Process(frames)
  }

  /** The script's top level: the file loop, then the table steps. */
  method Run(names: seq<string>, disk: map<string, Source>) returns (o: Outcome)
    ensures o == Pipeline(names, disk)
  {
    var loaded := LoadFiles(names, disk);
    match loaded
    case Fail(name) =>
      o := ReadFailed(name);
    case Ok(frames) =>
      o := Process(frames);
  }

  // ---------------------------------------------------------------------------
  // Properties of labelling and loading

  /** The first configured file is labelled fatal. */
  lemma FatalFileLabel()
    ensures LabelFor(FILE_LIST[0]) == FATAL_LABEL
  {
    assert OccursAt(FILE_LIST[0], FATAL_MARKER, 5);
  }

  /** The second configured file is labelled injury. */
  lemma FirstInjuryFileLabel()
    ensures LabelFor(FILE_LIST[1]) == INJURY_LABEL
  {
    NoPairOccurrence(FILE_LIST[1], FATAL_MARKER);
  }

  /** The third configured file is labelled injury. */
  lemma SecondInjuryFileLabel()
    ensures LabelFor(FILE_LIST[2]) == INJURY_LABEL
  {
    NoPairOccurrence(FILE_LIST[2], FATAL_MARKER);
  }

  /** The row count of the concatenation is the sum of the tables' row counts. */
  lemma {:induction false} ConcatRows(frames: seq<Frame>)
    ensures |Concat(frames).rows| == TotalRows(frames)
    decreases |frames|
  {
    if frames != [] {
      ConcatRows(frames[..|frames| - 1]);
    }
  }

  /** Concatenating two lists of tables stacks their concatenations. */
  lemma {:induction false} ConcatAppend(a: seq<Frame>, b: seq<Frame>)
    ensures Concat(a + b).rows == Concat(a).rows + Concat(b).rows
    ensures Concat(a + b).columns == Concat(a).columns + Concat(b).columns
    decreases |b|
  {
    if b == [] {
      assert a + b == a;
    } else {
      var init := b[..|b| - 1];
      assert (a + b)[..|a + b| - 1] == a + init;
      ConcatAppend(a, init);
    }
  }

  /** The rows of table `k` sit after the rows of every earlier table and before
      those of every later one, in their own order. */
  lemma ConcatOrder(frames: seq<Frame>, k: nat)
    requires k < |frames|
    ensures Concat(frames).rows == Concat(frames[..k]).rows + frames[k].rows + Concat(frames[k + 1..]).rows
    ensures |Concat(frames[..k]).rows| == TotalRows(frames[..k])
  {
    assert frames == frames[..k] + [frames[k]] + frames[k + 1..];
    ConcatAppend(frames[..k] + [frames[k]], frames[k + 1..]);
    ConcatAppend(frames[..k], [frames[k]]);
    assert [frames[k]][..0] == [];
    ConcatRows(frames[..k]);
  }

  /** When loading succeeds, the labelled tables hold exactly as many rows as the readable files. */
  lemma {:induction false} CollectRowCount(names: seq<string>, disk: map<string, Source>)
    requires Collect(names, disk).Ok?
    ensures TotalRows(Collect(names, disk).value) == LoadedRowCount(names, disk)
    decreases |names|
  {
    if names != [] {
      var init := names[..|names| - 1];
      CollectRowCount(init, disk);
      var fs := Collect(init, disk).value;
      var name := names[|names| - 1];
      if name in disk {
        var g := Label(disk[name].frame, name);
        assert (fs + [g])[..|fs|] == fs;
      }
    }
  }

  /** Loading succeeds exactly when no existing file in the list raises on reading. */
  lemma {:induction false} CollectOkIff(names: seq<string>, disk: map<string, Source>)
    ensures Collect(names, disk).Ok? <==> forall n :: n in names && n in disk ==> disk[n].Readable?
    decreases |names|
  {
    if names != [] {
      var init := names[..|names| - 1];
      CollectOkIff(init, disk);
      assert names == init + [names[|names| - 1]];
    }
  }

  /** A failed load names a file from the list that exists and could not be read. */
  lemma {:induction false} CollectFailedFile(names: seq<string>, disk: map<string, Source>)
    requires Collect(names, disk).Fail?
    ensures var n := Collect(names, disk).error; n in names && n in disk && disk[n].Unreadable?
    decreases |names|
  {
    var init := names[..|names| - 1];
    if Collect(init, disk).Fail? {
      CollectFailedFile(init, disk);
      var n := Collect(init, disk).error;
      assert n in init;
    }
  }

  /** Missing files contribute nothing: on success, the loaded tables are, in list order,
      the labelled tables of exactly the files that exist. */
  lemma {:induction false} CollectFrames(names: seq<string>, disk: map<string, Source>)
    requires Collect(names, disk).Ok?
    ensures var fs := Collect(names, disk).value; var present := Present(names, disk);
      |fs| == |present| &&
      forall k :: 0 <= k < |fs| ==>
        present[k] in disk && disk[present[k]].Readable? &&
        fs[k] == Label(disk[present[k]].frame, present[k])
    decreases |names|
  {
    if names != [] {
      var init := names[..|names| - 1];
      var name := names[|names| - 1];
      var keep := (n: string) => n in disk;
      CollectFrames(init, disk);
      assert names == init + [name];
      WhereAppend(init, [name], keep);
      assert Where([name], keep) == if name in disk then [name] else [];
      WhereMembers(init, keep);
    }
  }

  // ---------------------------------------------------------------------------
  // Properties of filtering and cleaning

  /** The city filter keeps a row exactly when its location contains the target city,
      without reordering, and never lengthens the table. */
  lemma FilterCityProperties(all: Frame)
    ensures FilterCity(all).columns == all.columns
    ensures IsSubsequence(FilterCity(all).rows, all.rows)
    ensures |FilterCity(all).rows| <= |all.rows|
    ensures forall r :: r in FilterCity(all).rows <==> r in all.rows && InTargetCity(r)
  {
    WhereIsSubsequence(all.rows, InTargetCity);
    WhereLength(all.rows, InTargetCity);
    WhereMembers(all.rows, InTargetCity);
  }

  /** Cleaning changes only the two derived columns of each row. */
  lemma {:induction false} CleanAt(rows: seq<Record>, i: nat)
    requires i < |rows|
    ensures |Clean(rows)| == |rows|
    ensures Clean(rows)[i] == rows[i].(cleanLat := CleanLat(rows[i].lat), cleanLon := CleanLon(rows[i].lon))
    decreases |rows|
  {
    if i > 0 {
      CleanAt(rows[1..], i - 1);
    } else if |rows| > 1 {
      CleanAt(rows[1..], 0);
    } else {
      assert rows[1..] == [];
    }
  }

  /** A cleaned row keeps both derived values exactly when its raw coordinates are in bounds. */
  lemma HasCoordinatesIff(r: Record)
    ensures HasCoordinates(CleanRow(r)) <==> ValidCoordinates(r)
  {
  }

  /** Dropping incomplete cleaned rows equals cleaning the rows whose raw coordinates are valid. */
  lemma {:induction false} DropAfterClean(rows: seq<Record>)
    ensures Where(Clean(rows), HasCoordinates) == Clean(Where(rows, ValidCoordinates))
    decreases |rows|
  {
    if rows != [] {
      DropAfterClean(rows[1..]);
      HasCoordinatesIff(rows[0]);
      var rest := Where(rows[1..], ValidCoordinates);
      if ValidCoordinates(rows[0]) {
        assert Where(rows, ValidCoordinates) == [rows[0]] + rest;
        assert ([rows[0]] + rest)[1..] == rest;
      } else {
        assert Where(rows, ValidCoordinates) == rest;
      }
    }
  }

  /** Every row of a cleaned list has both derived values inside their bounds. */
  lemma {:induction false} CleanedInBounds(rows: seq<Record>)
    ensures forall r :: r in Clean(rows) && HasCoordinates(r) ==>
      LAT_MIN <= r.cleanLat.value <= LAT_MAX && LON_MIN <= r.cleanLon.value <= LON_MAX
    decreases |rows|
  {
    if rows != [] {
      CleanedInBounds(rows[1..]);
    }
  }

  /** What the cleaning step guarantees when both coordinate columns exist: the survivors
      are, in order, the cleaned rows with in-bounds coordinates, and the reported count is
      the number of rows whose latitude or longitude is missing or out of bounds. */
  lemma CleanCoordinatesProperties(t: Frame)
    requires LAT_COLUMN in t.columns && LON_COLUMN in t.columns
    ensures var (out, removed) := CleanCoordinates(t);
      out.columns == t.columns + {CLEAN_LAT_COLUMN, CLEAN_LON_COLUMN} &&
      IsSubsequence(out.rows, Clean(t.rows)) &&
      out.rows == Clean(Where(t.rows, ValidCoordinates)) &&
      (forall r :: r in out.rows ==>
         r.cleanLat.Some? && LAT_MIN <= r.cleanLat.value <= LAT_MAX &&
         r.cleanLon.Some? && LON_MIN <= r.cleanLon.value <= LON_MAX) &&
      removed == Some(|Where(t.rows, (r: Record) => !ValidCoordinates(r))|) &&
      removed.value >= 0
  {
    var cleaned := Clean(t.rows);
    var kept := Where(cleaned, HasCoordinates);
    WhereIsSubsequence(cleaned, HasCoordinates);
    WhereMembers(cleaned, HasCoordinates);
    CleanedInBounds(t.rows);
    DropAfterClean(t.rows);
    if t.rows != [] {
      CleanAt(t.rows, 0);
    }
    CleanLength(Where(t.rows, ValidCoordinates));
    WherePartition(t.rows, ValidCoordinates, (r: Record) => !ValidCoordinates(r));
  }

  /** Cleaning preserves the number of rows. */
  lemma CleanLength(rows: seq<Record>)
    ensures |Clean(rows)| == |rows|
  {
    if rows != [] {
      CleanAt(rows, 0);
    }
  }

  // ---------------------------------------------------------------------------
  // Properties of a whole run

  /** The run stops for lack of data exactly when none of the listed files exists. */
  lemma NoDataIff(names: seq<string>, disk: map<string, Source>)
    ensures Pipeline(names, disk) == NoData <==> forall n :: n in names ==> n !in disk
  {
    CollectOkIff(names, disk);
    if Collect(names, disk).Ok? {
      CollectFrames(names, disk);
      var keep := (n: string) => n in disk;
      if exists n :: n in names && n in disk {
        var n :| n in names && n in disk;
        WhereMembers(names, keep);
        assert n in Present(names, disk);
      } else {
        WhereNone(names, keep);
      }
    }
  }

  /** The run aborts on a read error exactly when some existing listed file cannot be read,
      and then names such a file. */
  lemma ReadFailedIff(names: seq<string>, disk: map<string, Source>)
    ensures Pipeline(names, disk).ReadFailed? <==> exists n :: n in names && n in disk && disk[n].Unreadable?
    ensures Pipeline(names, disk).ReadFailed? ==>
      var n := Pipeline(names, disk).file; n in names && n in disk && disk[n].Unreadable?
  {
    CollectOkIff(names, disk);
    if Collect(names, disk).Fail? {
      CollectFailedFile(names, disk);
    }
  }

  /** What the exported table guarantees: every row lies in the target city; if both
      coordinate columns exist, every row has validated coordinates in bounds and the
      reported count is the number of city rows dropped, otherwise the city rows pass
      through unchanged; and the table is never longer than the loaded files together. */
  lemma ExportedProperties(names: seq<string>, disk: map<string, Source>)
    requires Pipeline(names, disk).Exported?
    ensures var out := Pipeline(names, disk);
      var all := Concat(Collect(names, disk).value);
      var city := FilterCity(all);
      (forall r :: r in out.table.rows ==> r.location.Some? && Contains(r.location.value, TARGET_CITY)) &&
      (out.removed.Some? <==> LAT_COLUMN in all.columns && LON_COLUMN in all.columns) &&
      (out.removed.Some? ==>
         (forall r :: r in out.table.rows ==>
            r.cleanLat.Some? && LAT_MIN <= r.cleanLat.value <= LAT_MAX &&
            r.cleanLon.Some? && LON_MIN <= r.cleanLon.value <= LON_MAX) &&
         0 <= out.removed.value == |city.rows| - |out.table.rows|) &&
      (out.removed.None? ==> out.table == city) &&
      |out.table.rows| <= |city.rows| <= |all.rows| == LoadedRowCount(names, disk)
  {
    var frames := Collect(names, disk).value;
    var all := Concat(frames);
    var city := FilterCity(all);
    CollectRowCount(names, disk);
    ConcatRows(frames);
    FilterCityProperties(all);
    if LAT_COLUMN in city.columns && LON_COLUMN in city.columns {
      CleanCoordinatesProperties(city);
      var kept := CleanCoordinates(city).0.rows;
      forall r | r in kept
        ensures r.location.Some? && Contains(r.location.value, TARGET_CITY)
      {
        CleanMembers(city.rows, r);
      }
      WhereLength(Clean(city.rows), HasCoordinates);
      CleanLength(city.rows);
    }
  }

  /** Every cleaned row comes from an input row with the same location. */
  lemma {:induction false} CleanMembers(rows: seq<Record>, x: Record)
    requires x in Clean(rows) || x in Where(Clean(rows), HasCoordinates)
    ensures exists r :: r in rows && r.location == x.location
    decreases |rows|
  {
    WhereMembers(Clean(rows), HasCoordinates);
    if x != CleanRow(rows[0]) {
      assert x in Clean(rows[1..]);
      CleanMembers(rows[1..], x);
    }
  }

  // ---------------------------------------------------------------------------
  // Concrete scenarios

  /** Of a Tainan row and a Taipei row, only the Tainan row passes the city filter. */
  lemma CityFilterScenario()
    ensures var tainan := Record(Some("臺南市X區"), Some(23.0), Some(120.2), None, None, None);
      var taipei := Record(Some("臺北市Y區"), Some(25.0), Some(121.5), None, None, None);
      FilterCity(Frame({LOCATION_COLUMN}, [tainan, taipei])).rows == [tainan]
  {
    assert OccursAt("臺南市X區", TARGET_CITY, 0);
    ContainsAt("臺南市X區", TARGET_CITY, 0);
    NoPairOccurrence("臺北市Y區", TARGET_CITY);
  }

  /** A row whose latitude does not parse is dropped and counted once. */
  lemma UnparsableLatitudeScenario()
    ensures var bad := Record(Some("臺南市X區"), None, Some(120.2), None, None, None);
      var good := Record(Some("臺南市Y區"), Some(23.0), Some(120.2), None, None, None);
      var cleaned := CleanCoordinates(Frame({LOCATION_COLUMN, LAT_COLUMN, LON_COLUMN}, [bad, good]));
      cleaned.0.rows == [CleanRow(good)] && cleaned.1 == Some(1)
  {
    var bad := Record(Some("臺南市X區"), None, Some(120.2), None, None, None);
    var good := Record(Some("臺南市Y區"), Some(23.0), Some(120.2), None, None, None);
    CleanAt([bad, good], 0);
    CleanAt([bad, good], 1);
    assert Clean([bad, good]) == [CleanRow(bad), CleanRow(good)];
    assert [CleanRow(bad), CleanRow(good)][1..] == [CleanRow(good)];
    assert [CleanRow(good)][1..] == [];
    assert !HasCoordinates(CleanRow(bad)) && HasCoordinates(CleanRow(good));
    assert Where([CleanRow(good)], HasCoordinates) == [CleanRow(good)];
    assert Where([CleanRow(bad), CleanRow(good)], HasCoordinates) == [CleanRow(good)];
    var t := Frame({LOCATION_COLUMN, LAT_COLUMN, LON_COLUMN}, [bad, good]);
    assert LAT_COLUMN in t.columns && LON_COLUMN in t.columns;
    assert CleanCoordinates(t).0.rows == [CleanRow(good)];
  }
}
