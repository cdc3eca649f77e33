/** The logic of `KMZ/make_kmz_vel.py` behind the Google Earth rendering: symbol labels
    built from the velocity bounds, the longitude/latitude filter, the optional point-number
    column, the validation of the command-line inputs and the classification of every
    velocity into a coloured bucket. */
module KmzVel {
  import opened Wrappers
  import opened Seqs
  import opened Text

  // ---------------------------------------------------------------- symbol names

  /** `f"{lo}~{hi}"` for two integer bounds. */
  function Label(lo: int, hi: int): string
  {
    Flatten([IntToString(lo), "~", IntToString(hi)])
  }

  lemma LabelText(lo: int, hi: int)
    ensures Label(lo, hi) == IntToString(lo) + ['~'] + IntToString(hi)
  {
    var parts := [IntToString(lo), "~", IntToString(hi)];
    FlattenCons(parts);
    FlattenCons(parts[1..]);
    FlattenSingle(IntToString(hi));
    assert parts[1..][1..] == [IntToString(hi)];
  }

  lemma TildeNotInNumber(i: int)
    ensures '~' !in IntToString(i)
  {
    var s := IntToString(i);
    forall k | 0 <= k < |s|
      ensures s[k] != '~'
    {
    }
  }

  /** Different bound pairs give different labels. */
  lemma LabelInjective(a: int, b: int, c: int, d: int)
    requires Label(a, b) == Label(c, d)
    ensures a == c && b == d
  {
    LabelText(a, b);
    LabelText(c, d);
    TildeNotInNumber(a);
    TildeNotInNumber(c);
    JoinInjective(IntToString(a), IntToString(b), IntToString(c), IntToString(d), '~');
    IntToStringInjective(a, c);
    IntToStringInjective(b, d);
  }

  /** The label of bucket `i`, the half-open range from `bounds[i]` to `bounds[i + 1]`. */
  function SymbolName(bounds: seq<int>, i: nat): string
    requires i + 1 < |bounds|
  {
    Label(bounds[i], bounds[i + 1])
  }

  /** `len(bounds) - 1` as a loop count: `range` of a negative number is empty. */
  function Buckets(bounds: seq<int>): nat
  {
    if bounds == [] then 0 else |bounds| - 1
  }

  /** gen_symbol_name: one label per bucket, in bucket order. */
  method GenSymbolName(bounds: seq<int>) returns (names: seq<string>)
    ensures |names| == Buckets(bounds)
    ensures forall i :: 0 <= i < |names| ==> names[i] == SymbolName(bounds, i)
  {
    names := [];
    var i := 0;
    while i < |bounds| - 1
      invariant 0 <= i <= Buckets(bounds)
      invariant |names| == i
      invariant forall k :: 0 <= k < i ==> names[k] == SymbolName(bounds, k)
    {
      names := names + [Label(bounds[i], bounds[i + 1])];
      i := i + 1;
    }
  }

  /** Ascending bounds without repeats, as `sorted` makes the literal list of the script. */
  predicate StrictlyIncreasing(bounds: seq<int>)
  {
    forall i, j :: 0 <= i < j < |bounds| ==> bounds[i] < bounds[j]
  }

  /** With strictly increasing bounds no two buckets share a label. */
  lemma SymbolNamesDistinct(bounds: seq<int>, i: nat, j: nat)
    requires StrictlyIncreasing(bounds)
    requires i < j && j + 1 < |bounds|
    ensures SymbolName(bounds, i) != SymbolName(bounds, j)
  {
    if SymbolName(bounds, i) == SymbolName(bounds, j) {
      LabelInjective(bounds[i], bounds[i + 1], bounds[j], bounds[j + 1]);
    }
  }

  // ---------------------------------------------------------------- filter_data

  /** The `-l W E S N` window. */
  datatype LonLat = LonLat(lonMin: real, lonMax: real, latMin: real, latMax: real)

  /** The window that check_inps lets through: non-empty in both directions. */
  predicate ValidWindow(w: LonLat)
  {
    w.lonMin < w.lonMax && w.latMin < w.latMax
  }

  predicate Inside(lon: real, lat: real, w: LonLat)
  {
    w.lonMin < lon < w.lonMax && w.latMin < lat < w.latMax
  }

  /** One coordinate test of filter_data: `(x > lo) == (x < hi)`. */
  predicate KeepCoordinate(x: real, lo: real, hi: real)
  {
    (x > lo) == (x < hi)
  }

  /** With the ends the wrong way round the test keeps the closed range between them. */
  lemma KeepCoordinateReversed(x: real, lo: real, hi: real)
    requires hi <= lo
    ensures KeepCoordinate(x, lo, hi) <==> hi <= x <= lo
  {
  }

  /** filter_data: the mask of the points to keep; inside a valid window it keeps exactly the
      points strictly inside it, so points on the border are dropped. */
  function FilterData(lons: seq<real>, lats: seq<real>, w: LonLat): (index: seq<bool>)
    requires |lons| == |lats|
    ensures |index| == |lons|
    ensures ValidWindow(w) ==> forall k :: 0 <= k < |index| ==> (index[k] <==> Inside(lons[k], lats[k], w))
  {
    seq(|lons|, k requires 0 <= k < |lons| =>
      KeepCoordinate(lons[k], w.lonMin, w.lonMax) && KeepCoordinate(lats[k], w.latMin, w.latMax))
  }

  // ---------------------------------------------------------------- load_data

  /** What the data file can hold: rows of numbers (the text parsing of np.loadtxt is not
      part of this model). */
  type Table = seq<seq<real>>

  predicate Rectangular(table: Table, width: nat)
  {
    forall k :: 0 <= k < |table| ==> |table[k]| == width
  }

  /** `np.hstack((np.arange(0, n).reshape(-1, 1), data))`: the row number as a new first column. */
  function Numbered(table: Table): (r: Table)
    ensures |r| == |table|
    ensures forall k :: 0 <= k < |r| ==> |r[k]| == |table[k]| + 1 && r[k][0] == k as real && r[k][1..] == table[k]
  {
    if table == [] then []
    else Numbered(table[..|table| - 1]) + [[(|table| - 1) as real] + table[|table| - 1]]
  }

  /** Column `c` of a table whose rows all have more than `c` entries: `data[:, c]`. */
  function Column(table: Table, c: nat): (col: seq<real>)
    requires forall k :: 0 <= k < |table| ==> c < |table[k]|
    ensures |col| == |table|
  {
    seq(|table|, k requires 0 <= k < |table| => table[k][c])
  }

  /** The positions whose mask entry is true, ascending. */
  function Kept(mask: seq<bool>): (pos: seq<nat>)
    ensures forall j :: 0 <= j < |pos| ==> pos[j] < |mask|
  {
    if mask == [] then []
    else
      var n := |mask| - 1;
      Kept(mask[..n]) + (if mask[n] then [n] else [])
  }

  /** The kept positions are the true positions of the mask, each once, in increasing order. */
  lemma {:induction false} KeptPositions(mask: seq<bool>)
    ensures var pos := Kept(mask);
            && (forall j :: 0 <= j < |pos| ==> mask[pos[j]])
            && (forall j, l :: 0 <= j < l < |pos| ==> pos[j] < pos[l])
            && (forall k :: 0 <= k < |mask| && mask[k] ==> k in pos)
  {
    if mask != [] {
      var n := |mask| - 1;
      KeptPositions(mask[..n]);
      assert forall k :: 0 <= k < n ==> mask[..n][k] == mask[k];
      assert Kept(mask) == Kept(mask[..n]) + (if mask[n] then [n] else []);
    }
  }

  /** `data[index, :]`: the rows whose mask entry is true. */
  function Select<T>(rows: seq<T>, mask: seq<bool>): (r: seq<T>)
    requires |rows| == |mask|
    ensures |r| <= |rows|
  {
    if rows == [] then []
    else
      var n := |rows| - 1;
      Select(rows[..n], mask[..n]) + (if mask[n] then [rows[n]] else [])
  }

  /** The selected rows are the masked rows, each once, in their order: row `j` of the result
      is the row at the `j`-th masked position. */
  lemma {:induction false} SelectPositions<T>(rows: seq<T>, mask: seq<bool>)
    requires |rows| == |mask|
    ensures |Select(rows, mask)| == |Kept(mask)|
    ensures forall j :: 0 <= j < |Kept(mask)| ==> Select(rows, mask)[j] == rows[Kept(mask)[j]]
  {
    if rows != [] {
      var n := |rows| - 1;
      var front, pos := Select(rows[..n], mask[..n]), Kept(mask[..n]);
      SelectPositions(rows[..n], mask[..n]);
      KeptPositions(mask[..n]);
      var all, kept := Select(rows, mask), Kept(mask);
      if mask[n] {
        assert all == front + [rows[n]] && kept == pos + [n];
      } else {
        assert all == front && kept == pos;
      }
      assert forall j :: 0 <= j < |pos| ==> all[j] == front[j] && kept[j] == pos[j];
      assert forall j :: 0 <= j < |pos| ==> rows[..n][pos[j]] == rows[pos[j]];
    }
  }

  /** The selected rows are the masked rows and nothing else. */
  lemma SelectMembers<T>(rows: seq<T>, mask: seq<bool>)
    requires |rows| == |mask|
    ensures forall k :: 0 <= k < |rows| && mask[k] ==> rows[k] in Select(rows, mask)
    ensures forall x :: x in Select(rows, mask) ==> exists k :: 0 <= k < |rows| && mask[k] && rows[k] == x
  {
    var r := Select(rows, mask);
    var pos := Kept(mask);
    SelectPositions(rows, mask);
    KeptPositions(mask);
    forall k | 0 <= k < |rows| && mask[k]
      ensures rows[k] in r
    {
      var j :| 0 <= j < |pos| && pos[j] == k;
      assert r[j] == rows[k];
    }
    forall x | x in r
      ensures exists k :: 0 <= k < |rows| && mask[k] && rows[k] == x
    {
      var j :| 0 <= j < |r| && r[j] == x;
      assert mask[pos[j]] && rows[pos[j]] == x;
    }
  }

  /** A mask computed from each row by `p` selects what `p` filters. */
  lemma {:induction false} SelectFilter<T>(p: T -> bool, rows: seq<T>, mask: seq<bool>)
    requires |rows| == |mask|
    requires forall k :: 0 <= k < |rows| ==> mask[k] == p(rows[k])
    ensures Select(rows, mask) == Filter(p, rows)
  {
    if rows != [] {
      var n := |rows| - 1;
      var front, last := rows[..n], [rows[n]];
      assert forall k :: 0 <= k < n ==> front[k] == rows[k] && mask[..n][k] == mask[k];
      SelectFilter(p, front, mask[..n]);
      assert rows == front + last;
      FilterAppend(p, front, last);
      assert Filter(p, last) == (if p(rows[n]) then last else []) + Filter(p, []);
      assert Select(rows, mask) == Select(front, mask[..n]) + (if mask[n] then last else []);
    }
  }

  /** Why write_kmz gives up. */
  datatype KmzError =
    | LengthMismatch  // len(colors) != len(bounds) - 1
    | FormatError     // anything raised while loading and slicing the data
    | UnboundId       // a placemark refers to `id` before any bucket was assigned

  /** The exit status: `sys.exit()` exits 0, an uncaught exception exits 1. */
  function KmzExitStatus(e: KmzError): nat
  {
    if e == UnboundId then 1 else 0
  }

  /** The rows load_data returns, all of `width` entries. */
  datatype Loaded = Loaded(rows: Table, width: nat)

  /** The table load_data works on: with the flag `'f'` the point numbers come first. */
  function WithNumbers(table: Table, numberFlag: string): Table
  {
    if numberFlag == "f" then Numbered(table) else table
  }

  /** Numbering adds one column to every row and keeps the number of rows. */
  lemma WithNumbersShape(table: Table, numberFlag: string, width: nat)
    requires Rectangular(table, width)
    ensures |WithNumbers(table, numberFlag)| == |table|
    ensures Rectangular(WithNumbers(table, numberFlag), width + (if numberFlag == "f" then 1 else 0))
  {
  }

  /** `data[index, :]` with the mask of filter_data on columns 1 and 2. */
  function FilterRows(data: Table, width: nat, w: LonLat): (rows: Table)
    requires Rectangular(data, width) && 3 <= width
    ensures Rectangular(rows, width)
    ensures forall row :: row in rows ==> row in data
    ensures ValidWindow(w) ==> forall row :: row in rows ==> Inside(row[1], row[2], w)
  {
    var index := FilterData(Column(data, 1), Column(data, 2), w);
    SelectMembers(data, index);
    var rows := Select(data, index);
    assert forall k :: 0 <= k < |rows| ==> rows[k] in rows;
    rows
  }

  /** load_data: np.loadtxt squeezes a table with a single row or a single column to one
      dimension (and reads an empty file as an empty one), so `np.hstack` or `data[:, 1]` then
      raises; a table of rows of different lengths is refused by np.loadtxt itself, and one
      without a column 2 fails at `data[:, 2]`. Otherwise the rows of the (numbered) table
      whose point passes filter_data are kept, in order. */
  function LoadData(table: Table, numberFlag: string, w: LonLat): (r: Result<Loaded, KmzError>)
    ensures r.Ok? <==> 2 <= |table| && Rectangular(table, |table[0]|) &&
                       |table[0]| >= (if numberFlag == "f" then 2 else 3)
    ensures r.Err? ==> r.error == FormatError
    ensures r.Ok? ==> r.value.width == |table[0]| + (if numberFlag == "f" then 1 else 0)
    ensures r.Ok? ==> 3 <= r.value.width && Rectangular(r.value.rows, r.value.width)
    ensures r.Ok? ==> forall row :: row in r.value.rows ==> row in WithNumbers(table, numberFlag)
    ensures r.Ok? && ValidWindow(w) ==> forall row :: row in r.value.rows ==> Inside(row[1], row[2], w)
  {
    if |table| < 2 || !Rectangular(table, |table[0]|) || |table[0]| < 2 then Err(FormatError)
    else
      var width := |table[0]| + (if numberFlag == "f" then 1 else 0);
      WithNumbersShape(table, numberFlag, |table[0]|);
      if width < 3 then Err(FormatError)
      else Ok(Loaded(FilterRows(WithNumbers(table, numberFlag), width, w), width))
  }

  /** A row of at least three entries whose point lies strictly inside the window. */
  function InsideRow(w: LonLat): seq<real> -> bool
  {
    (row: seq<real>) => |row| >= 3 && Inside(row[1], row[2], w)
  }

  /** Inside a valid window, load_data keeps exactly the rows of the (numbered) table whose
      point is strictly inside, each once and in file order. */
  lemma LoadDataRows(table: Table, numberFlag: string, w: LonLat)
    requires LoadData(table, numberFlag, w).Ok? && ValidWindow(w)
    ensures LoadData(table, numberFlag, w).value.rows == Filter(InsideRow(w), WithNumbers(table, numberFlag))
  {
    var data := WithNumbers(table, numberFlag);
    WithNumbersShape(table, numberFlag, |table[0]|);
    var index := FilterData(Column(data, 1), Column(data, 2), w);
    SelectFilter(InsideRow(w), data, index);
  }

  /** Inside a valid window, every row of the file whose point is strictly inside is kept. */
  lemma LoadDataKeepsInterior(table: Table, numberFlag: string, w: LonLat, k: nat)
    requires LoadData(table, numberFlag, w).Ok? && ValidWindow(w)
    requires k < |table|
    requires Inside(WithNumbers(table, numberFlag)[k][1], WithNumbers(table, numberFlag)[k][2], w)
    ensures WithNumbers(table, numberFlag)[k] in LoadData(table, numberFlag, w).value.rows
  {
    var data := WithNumbers(table, numberFlag);
    WithNumbersShape(table, numberFlag, |table[0]|);
    var index := FilterData(Column(data, 1), Column(data, 2), w);
    assert index[k];
    SelectMembers(data, index);
  }

  // ---------------------------------------------------------------- check_inps

  /** What check_inps returns. */
  datatype Inputs = Inputs(velFile: string, outFile: string, scale: real, numberFlag: string, lonlat: LonLat)

  datatype CheckError = NoVelFile | NoOutDir | BadScale | BadNumberFlag | BadLon | BadLat

  /** `sys.exit()` for the file, directory, scale and flag checks; `sys.exit(1)` for the window. */
  function CheckExitStatus(e: CheckError): nat
  {
    if e == BadLon || e == BadLat then 1 else 0
  }

  /** The output name with `.kmz` appended unless it already ends in it. */
  function KmzName(outFile: string): (r: string)
    ensures EndsWith(r, ".kmz")
    ensures EndsWith(outFile, ".kmz") ==> r == outFile
    ensures !EndsWith(outFile, ".kmz") ==> r == outFile + ".kmz"
  {
    if EndsWith(outFile, ".kmz") then outFile else outFile + ".kmz"
  }

  /** Appending the suffix is idempotent. */
  lemma KmzNameIdempotent(outFile: string)
    ensures KmzName(KmzName(outFile)) == KmzName(outFile)
  {
  }

  /** check_inps, for already absolute and normalized paths. `velFileExists` is
      `os.path.isfile(vel_file)` and `dirExists(out)` stands for
      `os.path.isdir(os.path.dirname(out))`; the checks run in the order of the script and
      the first that fails decides the exit. */
  method CheckInps(velFile: string, outFile: string, scale: real, numberFlag: string, lonlat: LonLat,
                   velFileExists: bool, dirExists: string -> bool)
    returns (r: Result<Inputs, CheckError>)
    ensures r.Ok? <==> velFileExists && dirExists(KmzName(outFile)) && scale > 0.0 &&
                       Lower(numberFlag) in ["t", "f"] && ValidWindow(lonlat)
    ensures r.Ok? ==> r.value == Inputs(velFile, KmzName(outFile), scale, Lower(numberFlag), lonlat)
    ensures !velFileExists ==> r == Err(NoVelFile)
    ensures velFileExists && !dirExists(KmzName(outFile)) ==> r == Err(NoOutDir)
    ensures velFileExists && dirExists(KmzName(outFile)) && scale <= 0.0 ==> r == Err(BadScale)
    ensures velFileExists && dirExists(KmzName(outFile)) && scale > 0.0 && Lower(numberFlag) !in ["t", "f"]
      ==> r == Err(BadNumberFlag)
    ensures (velFileExists && dirExists(KmzName(outFile)) && scale > 0.0 && Lower(numberFlag) in ["t", "f"] &&
             lonlat.lonMin >= lonlat.lonMax) ==> r == Err(BadLon)
    ensures (velFileExists && dirExists(KmzName(outFile)) && scale > 0.0 && Lower(numberFlag) in ["t", "f"] &&
             lonlat.lonMin < lonlat.lonMax && lonlat.latMin >= lonlat.latMax) ==> r == Err(BadLat)
    ensures r.Err? ==> (CheckExitStatus(r.error) == 1 <==>
                        velFileExists && dirExists(KmzName(outFile)) && scale > 0.0 && Lower(numberFlag) in ["t", "f"])
  {
    var flag := Lower(numberFlag);
    if !velFileExists {
      return Err(NoVelFile);
    }
    var out := outFile;
    if !EndsWith(out, ".kmz") {
      out := out + ".kmz";
    }
    if !dirExists(out) {
      return Err(NoOutDir);
    }
    if scale <= 0.0 {
      return Err(BadScale);
    }
    if flag !in ["t", "f"] {
      return Err(BadNumberFlag);
    }
    if lonlat.lonMin >= lonlat.lonMax {
      return Err(BadLon);
    }
    if lonlat.latMin >= lonlat.latMax {
      return Err(BadLat);
    }
    return Ok(Inputs(velFile, out, scale, flag, lonlat));
  }

  // ---------------------------------------------------------------- classification

  /** Pass `i` of the inner loop of write_kmz: the bucket whose label it assigns to `id`, if any. */
  function Fires(bounds: seq<int>, v: real, i: nat): (b: Option<nat>)
    requires i + 1 < |bounds|
    ensures b.Some? ==> b.value + 1 < |bounds|
  {
    if bounds[i] as real <= v < bounds[i + 1] as real then Some(i)
    else if v < bounds[0] as real then Some(0)
    else if v > bounds[|bounds| - 1] as real then Some(|bounds| - 2)
    else None
  }

  /** The bucket assigned by the last of the first `count` passes that assigns one: the loop
      has no `break`, so later passes overwrite earlier ones. */
  function LastFired(bounds: seq<int>, v: real, count: nat): (b: Option<nat>)
    requires count <= Buckets(bounds)
    ensures b.Some? ==> b.value + 1 < |bounds|
  {
    if count == 0 then None
    else
      match Fires(bounds, v, count - 1)
      case Some(k) => Some(k)
      case None => LastFired(bounds, v, count - 1)
  }

  /** The bucket the whole inner loop assigns to velocity `v`, if any. */
  function Classified(bounds: seq<int>, v: real): (b: Option<nat>)
    ensures b.Some? ==> b.value + 1 < |bounds|
  {
    LastFired(bounds, v, Buckets(bounds))
  }

  /** `id` after pass `i` of the inner loop, given its value before the pass. */
  function PassId(bounds: seq<int>, v: real, i: nat, id: Option<string>): Option<string>
    requires i + 1 < |bounds|
  {
    if bounds[i] as real <= v < bounds[i + 1] as real then Some(Label(bounds[i], bounds[i + 1]))
    else if v < bounds[0] as real then Some(Label(bounds[0], bounds[1]))
    else if v > bounds[|bounds| - 1] as real then Some(Label(bounds[|bounds| - 2], bounds[|bounds| - 1]))
    else id
  }

  /** `id` after the first `count` passes, starting from the value it kept from the previous
      point (`None`: not yet bound). */
  function IdAfter(bounds: seq<int>, v: real, count: nat, id: Option<string>): Option<string>
    requires count <= Buckets(bounds)
  {
    if count == 0 then id else PassId(bounds, v, count - 1, IdAfter(bounds, v, count - 1, id))
  }

  /** `id` after the passes is the label of the bucket the last assigning pass chose, or the
      value it had before when no pass assigned one. */
  lemma {:induction false} IdAfterIsLastFired(bounds: seq<int>, v: real, count: nat, id: Option<string>)
    requires count <= Buckets(bounds)
    ensures LastFired(bounds, v, count).Some? ==>
      IdAfter(bounds, v, count, id) == Some(SymbolName(bounds, LastFired(bounds, v, count).value))
    ensures LastFired(bounds, v, count).None? ==> IdAfter(bounds, v, count, id) == id
  {
    if count > 0 {
      IdAfterIsLastFired(bounds, v, count - 1, id);
      PassIdFires(bounds, v, count - 1, IdAfter(bounds, v, count - 1, id));
    }
  }

  /** One pass sets `id` to the label of the bucket it fires for, and leaves it alone otherwise. */
  lemma PassIdFires(bounds: seq<int>, v: real, i: nat, id: Option<string>)
    requires i + 1 < |bounds|
    ensures Fires(bounds, v, i).Some? ==> PassId(bounds, v, i, id) == Some(SymbolName(bounds, Fires(bounds, v, i).value))
    ensures Fires(bounds, v, i).None? ==> PassId(bounds, v, i, id) == id
  {
    var last := |bounds| - 2;
    assert SymbolName(bounds, last) == Label(bounds[last], bounds[last + 1]);
  }

  /** The inner loop `for i in range(len(bounds) - 1)` for one velocity. */
  method ClassifyVelocity(bounds: seq<int>, v: real, id: Option<string>) returns (newId: Option<string>)
    ensures newId == IdAfter(bounds, v, Buckets(bounds), id)
  {
    newId := id;
    var i := 0;
    while i < |bounds| - 1
      invariant 0 <= i <= Buckets(bounds)
      invariant newId == IdAfter(bounds, v, i, id)
    {
      var minVel := bounds[i];
      var maxVel := bounds[i + 1];
      if v >= minVel as real && v < maxVel as real {
        newId := Some(Label(minVel, maxVel));
      } else if v < bounds[0] as real {
        newId := Some(Label(bounds[0], bounds[1]));
      } else if v > bounds[|bounds| - 1] as real {
        newId := Some(Label(bounds[|bounds| - 2], bounds[|bounds| - 1]));
      }
      i := i + 1;
    }
  }

  /** The style of every placemark, point after point, with `id` carried from one point to the
      next; a point that needs `id` before it was ever bound raises UnboundLocalError. */
  function Styles(bounds: seq<int>, vels: seq<real>, id: Option<string>): (r: Result<seq<string>, KmzError>)
    ensures r.Ok? ==> |r.value| == |vels|
    ensures r.Err? ==> r.error == UnboundId
  {
    if vels == [] then Ok([])
    else
      var next := IdAfter(bounds, vels[0], Buckets(bounds), id);
      if next.None? then Err(UnboundId)
      else
        match Styles(bounds, vels[1..], next)
        case Ok(rest) => Ok([next.value] + rest)
        case Err(e) => Err(e)
  }

  function Prepend(styles: seq<string>, r: Result<seq<string>, KmzError>): Result<seq<string>, KmzError>
  {
    match r
    case Ok(rest) => Ok(styles + rest)
    case Err(e) => Err(e)
  }

  /** Handling one more point moves its style from the pending results to the finished ones. */
  lemma PrependStep(bounds: seq<int>, vels: seq<real>, id: Option<string>, styles: seq<string>)
    requires vels != [] && IdAfter(bounds, vels[0], Buckets(bounds), id).Some?
    ensures var next := IdAfter(bounds, vels[0], Buckets(bounds), id);
      Prepend(styles, Styles(bounds, vels, id)) == Prepend(styles + [next.value], Styles(bounds, vels[1..], next))
  {
    var next := IdAfter(bounds, vels[0], Buckets(bounds), id);
    match Styles(bounds, vels[1..], next)
    case Ok(rest) =>
      assert styles + ([next.value] + rest) == (styles + [next.value]) + rest;
    case Err(_) =>
  }

  /** The placemark loop of write_kmz, keeping only the style each placemark refers to. */
  method ClassifyPoints(bounds: seq<int>, vels: seq<real>) returns (r: Result<seq<string>, KmzError>)
    ensures r == Styles(bounds, vels, None)
  {
    var styles: seq<string> := [];
    var id: Option<string> := None;
    assert vels[0..] == vels;
    match Styles(bounds, vels, None) {
      case Ok(all) =>
        assert [] + all == all;
      case Err(_) =>
    }
    for p := 0 to |vels|
      invariant Styles(bounds, vels, None) == Prepend(styles, Styles(bounds, vels[p..], id))
    {
      assert vels[p..][1..] == vels[p + 1..];
      ghost var before := id;
      id := ClassifyVelocity(bounds, vels[p], id);
      if id.None? {
        return Err(UnboundId);
      }
      PrependStep(bounds, vels[p..], before, styles);
      styles := styles + [id.value];
    }
    assert vels[|vels|..] == [];
    assert styles + [] == styles;
    r := Ok(styles);
  }

  // ---------------------------------------------------------------- what the classification means

  /** A velocity in the half-open bucket `i` gets bucket `i`: no later pass assigns anything. */
  lemma {:induction false} LastFiredInBucket(bounds: seq<int>, v: real, i: nat, count: nat)
    requires StrictlyIncreasing(bounds) && i + 1 < |bounds|
    requires bounds[i] as real <= v < bounds[i + 1] as real
    requires i < count <= Buckets(bounds)
    ensures LastFired(bounds, v, count) == Some(i)
  {
    if count - 1 > i {
      assert bounds[i + 1] <= bounds[count - 1];
      assert Fires(bounds, v, count - 1) == None;
      LastFiredInBucket(bounds, v, i, count - 1);
    }
  }

  /** Below the first bound every pass assigns the first bucket; above the last bound every pass
      assigns the last one. */
  lemma LastFiredOutside(bounds: seq<int>, v: real, count: nat)
    requires StrictlyIncreasing(bounds) && 0 < count <= Buckets(bounds)
    ensures v < bounds[0] as real ==> LastFired(bounds, v, count) == Some(0)
    ensures v > bounds[|bounds| - 1] as real ==> LastFired(bounds, v, count) == Some(|bounds| - 2)
  {
    assert bounds[0] <= bounds[count - 1] && bounds[count] <= bounds[|bounds| - 1];
  }

  /** A velocity equal to the last bound makes no pass assign anything. */
  lemma {:induction false} LastFiredAtTop(bounds: seq<int>, v: real, count: nat)
    requires StrictlyIncreasing(bounds) && 0 < |bounds| && count <= Buckets(bounds)
    requires v == bounds[|bounds| - 1] as real
    ensures LastFired(bounds, v, count) == None
  {
    if count > 0 {
      assert bounds[count] <= bounds[|bounds| - 1];
      assert Fires(bounds, v, count - 1) == None;
      LastFiredAtTop(bounds, v, count - 1);
    }
  }

  /** The bucket of a velocity under strictly increasing bounds: the half-open bucket holding
      it, the first bucket below the range, the last bucket above it, and none at all for a
      velocity equal to the last bound. */
  lemma Classification(bounds: seq<int>, v: real)
    requires StrictlyIncreasing(bounds) && 2 <= |bounds|
    ensures v < bounds[0] as real ==> Classified(bounds, v) == Some(0)
    ensures v > bounds[|bounds| - 1] as real ==> Classified(bounds, v) == Some(|bounds| - 2)
    ensures v == bounds[|bounds| - 1] as real ==> Classified(bounds, v) == None
    ensures forall i :: 0 <= i < |bounds| - 1 && bounds[i] as real <= v < bounds[i + 1] as real ==>
      Classified(bounds, v) == Some(i)
  {
    LastFiredOutside(bounds, v, Buckets(bounds));
    if v == bounds[|bounds| - 1] as real {
      LastFiredAtTop(bounds, v, Buckets(bounds));
    }
    forall i | 0 <= i < |bounds| - 1 && bounds[i] as real <= v < bounds[i + 1] as real
      ensures Classified(bounds, v) == Some(i)
    {
      LastFiredInBucket(bounds, v, i, Buckets(bounds));
    }
  }

  /** With strictly increasing bounds at most one half-open bucket holds a velocity. */
  lemma BucketUnique(bounds: seq<int>, v: real, i: nat, j: nat)
    requires StrictlyIncreasing(bounds) && i + 1 < |bounds| && j + 1 < |bounds|
    requires bounds[i] as real <= v < bounds[i + 1] as real
    requires bounds[j] as real <= v < bounds[j + 1] as real
    ensures i == j
  {
  }

  /** Between the first and the last bound some half-open bucket holds the velocity. */
  lemma {:induction false} FindBucket(bounds: seq<int>, v: real, from: nat) returns (i: nat)
    requires StrictlyIncreasing(bounds) && from + 1 < |bounds|
    requires bounds[from] as real <= v < bounds[|bounds| - 1] as real
    ensures from <= i && i + 1 < |bounds| && bounds[i] as real <= v < bounds[i + 1] as real
    decreases |bounds| - from
  {
    if v < bounds[from + 1] as real {
      i := from;
    } else {
      i := FindBucket(bounds, v, from + 1);
    }
  }

  /** The bucket a classified velocity gets, located relative to the bounds. */
  lemma BucketOf(bounds: seq<int>, v: real) returns (i: nat)
    requires StrictlyIncreasing(bounds) && 2 <= |bounds| && Classified(bounds, v).Some?
    ensures Classified(bounds, v) == Some(i) && i + 1 < |bounds|
    ensures v < bounds[0] as real ==> i == 0
    ensures v > bounds[|bounds| - 1] as real ==> i == |bounds| - 2
    ensures bounds[0] as real <= v <= bounds[|bounds| - 1] as real ==>
      bounds[i] as real <= v < bounds[i + 1] as real
  {
    Classification(bounds, v);
    i := Classified(bounds, v).value;
    if bounds[0] as real <= v < bounds[|bounds| - 1] as real {
      var j := FindBucket(bounds, v, 0);
      assert Classified(bounds, v) == Some(j);
    }
  }

  /** Classification is monotone: a larger velocity never gets a lower bucket. */
  lemma ClassifiedMonotone(bounds: seq<int>, v: real, w: real)
    requires StrictlyIncreasing(bounds) && 2 <= |bounds| && v <= w
    requires Classified(bounds, v).Some? && Classified(bounds, w).Some?
    ensures Classified(bounds, v).value <= Classified(bounds, w).value
  {
    var last := |bounds| - 1;
    var i := BucketOf(bounds, v);
    var j := BucketOf(bounds, w);
    if bounds[0] as real <= v && w <= bounds[last] as real {
      assert bounds[i] as real < bounds[j + 1] as real;
    }
  }

  // ---------------------------------------------------------------- the top bound

  /** A velocity equal to the last bound, as the first point of the file: no pass assigns
      `id`, so the placemark reads it unbound. */
  lemma TopBoundUnbound()
    ensures Classified([0, 10], 10.0).None?
    ensures Styles([0, 10], [10.0], None) == Err(UnboundId)
  {
    assert Fires([0, 10], 10.0, 0) == None;
    assert LastFired([0, 10], 10.0, 1) == None;
    assert IdAfter([0, 10], 10.0, 0, None) == None;
    assert IdAfter([0, 10], 10.0, 1, None) == None;
  }

  /** Pass `i` with the top bucket closed at the top: `vel >= bounds[-1]` in the last test. */
  function FiresClosed(bounds: seq<int>, v: real, i: nat): (b: Option<nat>)
    requires i + 1 < |bounds|
    ensures b.Some? ==> b.value + 1 < |bounds|
  {
    if bounds[i] as real <= v < bounds[i + 1] as real then Some(i)
    else if v < bounds[0] as real then Some(0)
    else if v >= bounds[|bounds| - 1] as real then Some(|bounds| - 2)
    else None
  }

  function LastFiredClosed(bounds: seq<int>, v: real, count: nat): (b: Option<nat>)
    requires count <= Buckets(bounds)
    ensures b.Some? ==> b.value + 1 < |bounds|
  {
    if count == 0 then None
    else
      match FiresClosed(bounds, v, count - 1)
      case Some(k) => Some(k)
      case None => LastFiredClosed(bounds, v, count - 1)
  }

  /** The classification with the top bucket closed at the top. */
  function ClassifiedClosed(bounds: seq<int>, v: real): (b: Option<nat>)
    ensures b.Some? ==> b.value + 1 < |bounds|
  {
    LastFiredClosed(bounds, v, Buckets(bounds))
  }

  /** Below the last bound the two classifications agree; at the last bound the closed one
      assigns the top bucket. */
  lemma {:induction false} LastFiredClosedIs(bounds: seq<int>, v: real, count: nat)
    requires StrictlyIncreasing(bounds) && count <= Buckets(bounds)
    ensures 0 < |bounds| && v != bounds[|bounds| - 1] as real ==>
      LastFiredClosed(bounds, v, count) == LastFired(bounds, v, count)
    ensures 0 < count && v == bounds[|bounds| - 1] as real ==> LastFiredClosed(bounds, v, count) == Some(|bounds| - 2)
  {
    if count > 0 {
      LastFiredClosedIs(bounds, v, count - 1);
      if v == bounds[|bounds| - 1] as real {
        assert bounds[count] <= bounds[|bounds| - 1];
        assert FiresClosed(bounds, v, count - 1) == Some(|bounds| - 2);
      }
    }
  }

  /** With the top bucket closed, every velocity gets exactly the bucket the classification
      promises: below the range the first, in `[bounds[i], bounds[i + 1])` bucket `i`, and at
      or above the last bound the last. */
  lemma ClassifiedClosedTotal(bounds: seq<int>, v: real)
    requires StrictlyIncreasing(bounds) && 2 <= |bounds|
    ensures ClassifiedClosed(bounds, v).Some?
    ensures v < bounds[0] as real ==> ClassifiedClosed(bounds, v) == Some(0)
    ensures v >= bounds[|bounds| - 1] as real ==> ClassifiedClosed(bounds, v) == Some(|bounds| - 2)
    ensures forall i :: 0 <= i < |bounds| - 1 && bounds[i] as real <= v < bounds[i + 1] as real ==>
      ClassifiedClosed(bounds, v) == Some(i)
  {
    LastFiredClosedIs(bounds, v, Buckets(bounds));
    Classification(bounds, v);
    if bounds[0] as real <= v < bounds[|bounds| - 1] as real {
      var i := FindBucket(bounds, v, 0);
      assert Classified(bounds, v) == Some(i);
    }
  }

  // ---------------------------------------------------------------- what the placemarks refer to

  /** `s` is the label of one of the buckets, so a style of that name exists. */
  ghost predicate IsSymbol(bounds: seq<int>, s: string)
  {
    exists b: nat :: b + 1 < |bounds| && s == SymbolName(bounds, b)
  }

  /** Once `id` is bound the loop never fails again, and it styles every point. */
  lemma {:induction false} StylesOnceBound(bounds: seq<int>, vels: seq<real>, x: string)
    ensures Styles(bounds, vels, Some(x)).Ok?
  {
    if vels != [] {
      var next := IdAfter(bounds, vels[0], Buckets(bounds), Some(x));
      IdAfterIsLastFired(bounds, vels[0], Buckets(bounds), Some(x));
      StylesOnceBound(bounds, vels[1..], next.value);
    }
  }

  /** The placemark loop fails exactly when the first point is classified into no bucket:
      `id` is then read before it was ever assigned. */
  lemma StylesFail(bounds: seq<int>, vels: seq<real>)
    ensures Styles(bounds, vels, None).Err? <==> vels != [] && Classified(bounds, vels[0]).None?
  {
    if vels != [] {
      IdAfterIsLastFired(bounds, vels[0], Buckets(bounds), None);
      var next := IdAfter(bounds, vels[0], Buckets(bounds), None);
      if next.Some? {
        StylesOnceBound(bounds, vels[1..], next.value);
      }
    }
  }

  /** The first point's style is the `id` its pass leaves behind; the rest follow from there. */
  lemma StylesCons(bounds: seq<int>, vels: seq<real>, id: Option<string>)
    requires Styles(bounds, vels, id).Ok? && vels != []
    ensures var next := IdAfter(bounds, vels[0], Buckets(bounds), id);
      next.Some? && Styles(bounds, vels[1..], next).Ok? &&
      Styles(bounds, vels, id).value == [next.value] + Styles(bounds, vels[1..], next).value
  {
  }

  /** The style of point `k`: the label of its bucket, or, for a point classified into no
      bucket, the style of the point before it (or the `id` the loop started with). */
  lemma {:induction false} StyleOfPoint(bounds: seq<int>, vels: seq<real>, id: Option<string>, k: nat)
    requires Styles(bounds, vels, id).Ok? && k < |vels|
    ensures Classified(bounds, vels[k]).Some? ==>
      Styles(bounds, vels, id).value[k] == SymbolName(bounds, Classified(bounds, vels[k]).value)
    ensures Classified(bounds, vels[k]).None? && k > 0 ==>
      Styles(bounds, vels, id).value[k] == Styles(bounds, vels, id).value[k - 1]
    ensures Classified(bounds, vels[k]).None? && k == 0 ==> id == Some(Styles(bounds, vels, id).value[0])
    decreases k
  {
    var next := IdAfter(bounds, vels[0], Buckets(bounds), id);
    StylesCons(bounds, vels, id);
    var all := Styles(bounds, vels, id).value;
    var rest := Styles(bounds, vels[1..], next).value;
    if k == 0 {
      IdAfterIsLastFired(bounds, vels[0], Buckets(bounds), id);
      assert all[0] == next.value;
    } else {
      assert vels[1..][k - 1] == vels[k];
      assert all[k] == rest[k - 1];
      StyleOfPoint(bounds, vels[1..], next, k - 1);
      if k == 1 {
        assert all[0] == next.value;
      } else {
        assert all[k - 1] == rest[k - 2];
      }
    }
  }

  /** The inner loop only ever assigns a bucket label to `id`. */
  lemma IdAfterSymbol(bounds: seq<int>, v: real, id: Option<string>)
    requires id.None? || IsSymbol(bounds, id.value)
    ensures var next := IdAfter(bounds, v, Buckets(bounds), id); next.None? || IsSymbol(bounds, next.value)
  {
    IdAfterIsLastFired(bounds, v, Buckets(bounds), id);
    var b := LastFired(bounds, v, Buckets(bounds));
    if b.Some? {
      assert IsSymbol(bounds, SymbolName(bounds, b.value));
    }
  }

  /** Every style a placemark refers to is the label of a bucket, so a matching icon style
      was written for it. */
  lemma {:induction false} StylesAreSymbols(bounds: seq<int>, vels: seq<real>, id: Option<string>, k: nat)
    requires Styles(bounds, vels, id).Ok? && k < |Styles(bounds, vels, id).value|
    requires id.None? || IsSymbol(bounds, id.value)
    ensures IsSymbol(bounds, Styles(bounds, vels, id).value[k])
    decreases k
  {
    var next := IdAfter(bounds, vels[0], Buckets(bounds), id);
    StylesCons(bounds, vels, id);
    IdAfterSymbol(bounds, vels[0], id);
    if k == 0 {
      assert Styles(bounds, vels, id).value[0] == next.value;
    } else {
      assert Styles(bounds, vels, id).value[k] == Styles(bounds, vels[1..], next).value[k - 1];
      StylesAreSymbols(bounds, vels[1..], next, k - 1);
    }
  }

  // ---------------------------------------------------------------- write_kmz

  /** What a placemark of the KML document carries: the point number, its coordinates, its
      velocity and the id of the icon style it uses. */
  datatype Placemark = Placemark(num: real, lon: real, lat: real, vel: real, style: string)

  /** write_kmz up to the placemarks: the colours must match the buckets, the data must load
      with at least four columns (`data[:, 3]`), and every point gets the style of its bucket. */
  method WriteKmz(table: Table, numberFlag: string, w: LonLat, colors: seq<string>, bounds: seq<int>)
    returns (r: Result<seq<Placemark>, KmzError>)
    ensures |colors| != |bounds| - 1 ==> r == Err(LengthMismatch)
    ensures |colors| == |bounds| - 1 && (LoadData(table, numberFlag, w).Err? || LoadData(table, numberFlag, w).value.width < 4)
      ==> r == Err(FormatError)
    ensures r.Ok? ==> LoadData(table, numberFlag, w).Ok? && 4 <= LoadData(table, numberFlag, w).value.width
    ensures |colors| == |bounds| - 1 && LoadData(table, numberFlag, w).Ok? && 4 <= LoadData(table, numberFlag, w).value.width ==>
      var styles := Styles(bounds, Column(LoadData(table, numberFlag, w).value.rows, 3), None);
      (r.Ok? <==> styles.Ok?) && (r.Err? ==> r.error == UnboundId)
    ensures r.Err? ==> (KmzExitStatus(r.error) == 1 <==>
      |colors| == |bounds| - 1 && LoadData(table, numberFlag, w).Ok? && 4 <= LoadData(table, numberFlag, w).value.width)
    ensures r.Ok? ==>
      var rows := LoadData(table, numberFlag, w).value.rows;
      var styles := Styles(bounds, Column(rows, 3), None);
      styles.Ok? && |r.value| == |rows| &&
      forall k :: 0 <= k < |rows| ==>
        r.value[k] == Placemark(rows[k][0], rows[k][1], rows[k][2], rows[k][3], styles.value[k])
  {
    if |colors| != |bounds| - 1 {
      return Err(LengthMismatch);
    }
    var loaded := LoadData(table, numberFlag, w);
    if loaded.Err? || loaded.value.width < 4 {
      return Err(FormatError);
    }
    var data := loaded.value.rows;
    var nums := Column(data, 0);
    var lons := Column(data, 1);
    var lats := Column(data, 2);
    var vels := Column(data, 3);
    var styles := ClassifyPoints(bounds, vels);
    if styles.Err? {
      return Err(UnboundId);
    }
    r := Ok(seq(|data|, k requires 0 <= k < |data| => Placemark(nums[k], lons[k], lats[k], vels[k], styles.value[k])));
  }
}
