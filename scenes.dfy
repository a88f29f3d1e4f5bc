/** `read_spreadsheet` of the post-processing tools: the metadata sheet of
    the recorded clips, one scene per row that names a rainy and a clean
    clip that both exist and has crop, frame and name fields.  The date in
    column 0 carries down to the rows below it.  Whether a file exists is
    a parameter. */
module Scenes {
  import opened Wrappers
  import opened Text

  type Sheet = seq<seq<string>>

  /** One `scene_data` dictionary. */
  datatype Scene = Scene(l: int, r: int, t: int, b: int, rainyPath: string, cleanPath: string,
                         startFrame: int, endFrame: int, cleanFrame: int, sparsity: int, name: string)

  /** The exceptions `read_spreadsheet` can raise. */
  datatype SheetError =
    | NotATable                 // `rows, _ = data.shape` on a ragged or empty sheet
    | MissingColumn(col: nat)   // `data[i, col]` past the last column
    | DateUnbound               // a scene row before any row with a date
    | NotAnInteger(col: nat)    // `.astype(np.int)` on a cell `int()` rejects
    | NoDash                    // `split("-", 1)` of a name without '-'

  /** What the loop carries: `date`, `scene_names` and `scenes`. */
  datatype Reading = Reading(date: Option<string>, names: map<string, nat>, scenes: seq<Scene>)

  /** `np.array(data).shape` unpacks into two numbers only for a non-empty
      table whose rows all have the same length. */
  predicate IsTable(data: Sheet) {
    |data| > 0 && forall i :: 0 <= i < |data| ==> |data[i]| == |data[0]|
  }

  /** `folder_path / date / (stem + '.mp4')`. */
  function ClipPath(folder: string, date: string, stem: string): string {
    folder + "/" + date + "/" + stem + ".mp4"
  }

  /** The part of a name before its first '-', None when there is none. */
  function Prefix(name: string): (r: Option<string>)
    ensures r.None? <==> '-' !in name
    ensures r.Some? ==> '-' !in r.value && |r.value| < |name| && name[..|r.value|] == r.value && name[|r.value|] == '-'
  {
    match IndexOf(name, '-')
    case None => None
    case Some(k) => Some(name[..k])
  }

  const IntColumns: seq<nat> := [5, 6, 7, 8, 9, 10, 12, 13]

  /** `int()` of the cells of the integer fields: l, r, t, b, start, end,
      clean, sparsity. */
  function IntCells(row: seq<string>): seq<Option<int>>
    requires |row| > 14
  {
    seq(|IntColumns|, k requires 0 <= k < |IntColumns| => ParseInt(row[IntColumns[k]]))
  }

  /** The row passes `read_spreadsheet`'s checks (both clip names, both
      clip files, then the five required columns), in their order, with
      the date it is read under. */
  predicate Accepts(row: seq<string>, date: string, folder: string, isFile: string -> bool)
    requires |row| > 14
  {
    row[1] != "" && row[2] != ""
    && isFile(ClipPath(folder, date, row[1])) && isFile(ClipPath(folder, date, row[2]))
    && row[5] != "" && row[9] != "" && row[12] != "" && row[13] != "" && row[14] != ""
  }

  /** The scene of an accepted row whose integer fields parsed to vs. */
  function SceneOf(row: seq<string>, date: string, folder: string, vs: seq<int>): Scene
    requires |row| > 14 && |vs| == 8
  {
    Scene(vs[0], vs[1], vs[2], vs[3], ClipPath(folder, date, row[1]), ClipPath(folder, date, row[2]),
          vs[4], vs[5], vs[6], vs[7], row[14])
  }

  /** `scene_names[name] += 1`, or `= 1` for a new name. */
  function Tally(names: map<string, nat>, key: string): (r: map<string, nat>)
    ensures r.Keys == names.Keys + {key}
    ensures r[key] == (if key in names then names[key] else 0) + 1
    ensures forall p :: p in names && p != key ==> r[p] == names[p]
  {
    if key in names then names[key := names[key] + 1] else names[key := 1]
  }

  /** The checks of one row in their order, once the date is known: Ok(true)
      for a scene row, Ok(false) for a skipped one, or the exception. */
  function Check(row: seq<string>, date: Option<string>, folder: string, isFile: string -> bool): Result<bool, SheetError>
  {
    if |row| <= 1 then Err(MissingColumn(1))
    else if row[1] == "" then Ok(false)
    else if |row| <= 2 then Err(MissingColumn(2))
    else if row[2] == "" then Ok(false)
    else if date.None? then Err(DateUnbound)
    else if !isFile(ClipPath(folder, date.value, row[1])) then Ok(false)
    else if !isFile(ClipPath(folder, date.value, row[2])) then Ok(false)
    else if |row| <= 5 then Err(MissingColumn(5))
    else if row[5] == "" then Ok(false)
    else if |row| <= 9 then Err(MissingColumn(9))
    else if row[9] == "" then Ok(false)
    else if |row| <= 12 then Err(MissingColumn(12))
    else if row[12] == "" then Ok(false)
    else if |row| <= 13 then Err(MissingColumn(13))
    else if row[13] == "" then Ok(false)
    else if |row| <= 14 then Err(MissingColumn(14))
    else Ok(row[14] != "")
  }

  /** A row is a scene row exactly when it is wide enough, a date is known
      and it passes every check. */
  lemma CheckAccepts(row: seq<string>, date: Option<string>, folder: string, isFile: string -> bool)
    ensures Check(row, date, folder, isFile) == Ok(true) <==> |row| > 14 && date.Some? && Accepts(row, date.value, folder, isFile)
  {
  }

  /** A row of a table at least 15 columns wide raises only for a missing
      date, and only when it names both clips. */
  lemma CheckErrors(row: seq<string>, date: Option<string>, folder: string, isFile: string -> bool)
    requires |row| > 14
    ensures Check(row, date, folder, isFile).Err? <==> row[1] != "" && row[2] != "" && date.None?
  {
  }

  /** The date after row 0 of the row is looked at. */
  function DateAfter(st: Reading, row: seq<string>): Option<string>
    requires |row| > 0
  {
    if row[0] != "" then Some(row[0]) else st.date
  }

  /** One pass of the loop body for one row. */
  function ReadRow(st: Reading, row: seq<string>, folder: string, isFile: string -> bool): (r: Result<Reading, SheetError>)
  {
    if |row| <= 0 then Err(MissingColumn(0))
    else
      var date := DateAfter(st, row);
      match Check(row, date, folder, isFile)
      case Err(e) => Err(e)
      case Ok(false) => Ok(st.(date := date))
      case Ok(true) =>
        match Collect(IntCells(row))
        case Err(k) => Err(NotAnInteger(IntColumns[k]))
        case Ok(vs) =>
          var scene := SceneOf(row, date.value, folder, vs);
          match Prefix(row[14])
          case None => Err(NoDash)
          case Some(p) => Ok(Reading(date, Tally(st.names, p), st.scenes + [scene]))
  }

  /** The loop over rows 1 to the end, stopping at the first exception. */
  function ReadRows(rows: Sheet, folder: string, isFile: string -> bool): Result<Reading, SheetError> {
    if rows == [] then Ok(Reading(None, map[], []))
    else
      var n := |rows| - 1;
      match ReadRows(rows[..n], folder, isFile)
      case Err(e) => Err(e)
      case Ok(st) => ReadRow(st, rows[n], folder, isFile)
  }

  /** `read_spreadsheet(worksheet, folder_path)`: the names and the scenes. */
  function ReadSheet(data: Sheet, folder: string, isFile: string -> bool): Result<(map<string, nat>, seq<Scene>), SheetError> {
    if !IsTable(data) then Err(NotATable)
    else match ReadRows(data[1..], folder, isFile)
      case Err(e) => Err(e)
      case Ok(st) => Ok((st.names, st.scenes))
  }

  method ReadSpreadsheet(data: Sheet, folder: string, isFile: string -> bool)
    returns (r: Result<(map<string, nat>, seq<Scene>), SheetError>)
    ensures r == ReadSheet(data, folder, isFile)
  {
    var table := Rectangular(data);
    if !table {
      return Err(NotATable);
    }
    var read := ReadAll(data[1..], folder, isFile);
    if read.Err? {
      return Err(read.error);
    }
    return Ok((read.value.names, read.value.scenes));
  }

  /** `rows, _ = data.shape` succeeds. */
  method Rectangular(data: Sheet) returns (ok: bool)
    ensures ok == IsTable(data)
  {
    if |data| == 0 { return false; }
    var i := 1;
    while i < |data|
      invariant 1 <= i <= |data|
      invariant forall k :: 0 <= k < i ==> |data[k]| == |data[0]|
    {
      if |data[i]| != |data[0]| {
        return false;
      }
      i := i + 1;
    }
    return true;
  }

  /** `for i in range(1, rows)`, carrying `date`, `scene_names` and
      `scenes`. */
  method ReadAll(rows: Sheet, folder: string, isFile: string -> bool) returns (r: Result<Reading, SheetError>)
    ensures r == ReadRows(rows, folder, isFile)
  {
    var st := Reading(None, map[], []);
    var i := 0;
    while i < |rows|
      invariant 0 <= i <= |rows|
      invariant ReadRows(rows[..i], folder, isFile) == Ok(st)
    {
      ReadRowsSnoc(rows[..i], rows[i], folder, isFile);
      assert rows[..i] + [rows[i]] == rows[..i + 1];
      var next := ReadRow(st, rows[i], folder, isFile);
      if next.Err? {
        ReadRowsErrSticks(rows, folder, isFile, i + 1);
        return next;
      }
      st := next.value;
      i := i + 1;
    }
    assert rows[..i] == rows;
    return Ok(st);
  }

  lemma ReadRowsSnoc(rows: Sheet, row: seq<string>, folder: string, isFile: string -> bool)
    ensures ReadRows(rows + [row], folder, isFile) ==
      if ReadRows(rows, folder, isFile).Err? then ReadRows(rows, folder, isFile)
      else ReadRow(ReadRows(rows, folder, isFile).value, row, folder, isFile)
  {
    assert (rows + [row])[..|rows|] == rows;
  }

  lemma {:induction false} ReadRowsErrSticks(rows: Sheet, folder: string, isFile: string -> bool, k: nat)
    requires k <= |rows| && ReadRows(rows[..k], folder, isFile).Err?
    ensures ReadRows(rows, folder, isFile) == ReadRows(rows[..k], folder, isFile)
    decreases |rows| - k
  {
    if k < |rows| {
      assert rows[..k + 1][..k] == rows[..k];
      ReadRowsErrSticks(rows, folder, isFile, k + 1);
    } else {
      assert rows[..k] == rows;
    }
  }

  // ---------------------------------------------------------------------
  // Properties

  /** The most recent non-empty date cell among the rows, if any. */
  function LastDate(rows: Sheet): Option<string> {
    if rows == [] then None
    else
      var n := |rows| - 1;
      if |rows[n]| > 0 && rows[n][0] != "" then Some(rows[n][0]) else LastDate(rows[..n])
  }

  /** The date carried by the loop is the most recent non-empty column-0
      cell at or above the current row. */
  lemma {:induction false} CarriedDate(rows: Sheet, folder: string, isFile: string -> bool)
    requires ReadRows(rows, folder, isFile).Ok?
    ensures ReadRows(rows, folder, isFile).value.date == LastDate(rows)
  {
    if rows != [] {
      var n := |rows| - 1;
      CarriedDate(rows[..n], folder, isFile);
      RowYieldsScene(ReadRows(rows[..n], folder, isFile).value, rows[n], folder, isFile);
    }
  }

  /** A row read without an exception adds a scene exactly when it passes
      every check, and the scene then holds its fields, the paths under the
      carried date and the name; any other row changes only the date. */
  lemma RowYieldsScene(st: Reading, row: seq<string>, folder: string, isFile: string -> bool)
    requires ReadRow(st, row, folder, isFile).Ok?
    ensures |row| > 0
    ensures var st' := ReadRow(st, row, folder, isFile).value;
      var date := DateAfter(st, row);
      var accepted := |row| > 14 && date.Some? && Accepts(row, date.value, folder, isFile);
      && st'.date == date
      && (!accepted ==> st' == st.(date := date))
      && (accepted ==>
            && Collect(IntCells(row)).Ok? && Prefix(row[14]).Some?
            && st'.names == Tally(st.names, Prefix(row[14]).value)
            && st'.scenes == st.scenes + [SceneOf(row, date.value, folder, Collect(IntCells(row)).value)])
  {
    CheckAccepts(row, DateAfter(st, row), folder, isFile);
  }

  /** How many scenes have a name whose part before the first '-' is p. */
  function CountPrefix(scenes: seq<Scene>, p: string): nat {
    if scenes == [] then 0
    else
      var n := |scenes| - 1;
      CountPrefix(scenes[..n], p) + (if Prefix(scenes[n].name) == Some(p) then 1 else 0)
  }

  /** `scene_names` counts the scenes by name prefix, every scene name has
      a '-', and the counts of the prefixes present add up to the number of
      scenes (each scene is counted under exactly one key). */
  ghost predicate Tallied(st: Reading) {
    && (forall j :: 0 <= j < |st.scenes| ==> Prefix(st.scenes[j].name).Some?)
    && (forall p :: p in st.names <==> CountPrefix(st.scenes, p) > 0)
    && (forall p :: p in st.names ==> st.names[p] == CountPrefix(st.scenes, p))
  }

  lemma {:induction false} CountPrefixPositive(scenes: seq<Scene>, p: string)
    ensures CountPrefix(scenes, p) > 0 <==> exists j :: 0 <= j < |scenes| && Prefix(scenes[j].name) == Some(p)
  {
    if scenes != [] {
      var n := |scenes| - 1;
      CountPrefixPositive(scenes[..n], p);
      if exists j :: 0 <= j < |scenes| && Prefix(scenes[j].name) == Some(p) {
        var j :| 0 <= j < |scenes| && Prefix(scenes[j].name) == Some(p);
        if j < n { assert scenes[..n][j] == scenes[j]; }
      }
      if exists j :: 0 <= j < n && Prefix(scenes[..n][j].name) == Some(p) {
        var j :| 0 <= j < n && Prefix(scenes[..n][j].name) == Some(p);
        assert scenes[j] == scenes[..n][j];
      }
    }
  }

  /** Adding a scene whose name has the prefix key and counting key once
      more keeps the tally. */
  lemma TallyStep(st: Reading, date: Option<string>, scene: Scene, key: string)
    requires Tallied(st) && Prefix(scene.name) == Some(key)
    ensures Tallied(Reading(date, Tally(st.names, key), st.scenes + [scene]))
  {
    var scenes := st.scenes + [scene];
    var n := |st.scenes|;
    assert scenes[..n] == st.scenes && scenes[n] == scene;
    forall p ensures CountPrefix(scenes, p) == CountPrefix(st.scenes, p) + (if p == key then 1 else 0) {
    }
    forall j | 0 <= j < |scenes| ensures Prefix(scenes[j].name).Some? {
      if j < n { assert scenes[j] == st.scenes[j]; }
    }
  }

  lemma RowKeepsTally(st: Reading, row: seq<string>, folder: string, isFile: string -> bool)
    requires Tallied(st) && ReadRow(st, row, folder, isFile).Ok?
    ensures Tallied(ReadRow(st, row, folder, isFile).value)
  {
    RowYieldsScene(st, row, folder, isFile);
    var date := DateAfter(st, row);
    if |row| > 14 && date.Some? && Accepts(row, date.value, folder, isFile) {
      TallyStep(st, date, SceneOf(row, date.value, folder, Collect(IntCells(row)).value), Prefix(row[14]).value);
    }
  }

  /** When the sheet reads without an exception, `scene_names[p]` is the
      number of scenes whose name starts with `p-`, and there is no other
      key. */
  lemma {:induction false} NamesCountScenes(rows: Sheet, folder: string, isFile: string -> bool)
    requires ReadRows(rows, folder, isFile).Ok?
    ensures Tallied(ReadRows(rows, folder, isFile).value)
  {
    if rows != [] {
      var n := |rows| - 1;
      NamesCountScenes(rows[..n], folder, isFile);
      RowKeepsTally(ReadRows(rows[..n], folder, isFile).value, rows[n], folder, isFile);
    }
  }

  /** The sum of the counts of a tally. */
  ghost function CountSum(names: map<string, nat>): nat
    decreases |names.Keys|
  {
    if names == map[] then 0
    else
      var k :| k in names;
      names[k] + CountSum(names - {k})
  }

  /** Any key can be taken out first. */
  lemma {:induction false} CountSumRemove(names: map<string, nat>, key: string)
    requires key in names
    ensures CountSum(names) == names[key] + CountSum(names - {key})
    decreases |names.Keys|
  {
    var k :| k in names && CountSum(names) == names[k] + CountSum(names - {k});
    if k != key {
      assert (names - {k}).Keys == names.Keys - {k};
      assert (names - {key}).Keys == names.Keys - {key};
      CountSumRemove(names - {k}, key);
      CountSumRemove(names - {key}, k);
      assert names - {k} - {key} == names - {key} - {k};
    }
  }

  /** Counting one more name adds one to the sum. */
  lemma TallySum(names: map<string, nat>, key: string)
    ensures CountSum(Tally(names, key)) == CountSum(names) + 1
  {
    var r := Tally(names, key);
    CountSumRemove(r, key);
    if key in names {
      CountSumRemove(names, key);
      assert r - {key} == names - {key};
    } else {
      assert r - {key} == names;
    }
  }

  /** The counts of `scene_names` add up to `len(scenes)`. */
  lemma {:induction false} CountsSumToScenes(rows: Sheet, folder: string, isFile: string -> bool)
    requires ReadRows(rows, folder, isFile).Ok?
    ensures CountSum(ReadRows(rows, folder, isFile).value.names) == |ReadRows(rows, folder, isFile).value.scenes|
  {
    if rows == [] {
      assert ReadRows(rows, folder, isFile).value.names == map[];
    } else {
      var n := |rows| - 1;
      CountsSumToScenes(rows[..n], folder, isFile);
      var st := ReadRows(rows[..n], folder, isFile).value;
      RowYieldsScene(st, rows[n], folder, isFile);
      var date := DateAfter(st, rows[n]);
      if |rows[n]| > 14 && date.Some? && Accepts(rows[n], date.value, folder, isFile) {
        TallySum(st.names, Prefix(rows[n][14]).value);
      }
    }
  }

  /** A scene row before any dated row raises, whatever follows. */
  lemma UndatedSceneRaises(header: seq<string>, row: seq<string>, more: Sheet, folder: string, isFile: string -> bool)
    requires |header| == |row| && |row| > 2 && row[0] == "" && row[1] != "" && row[2] != ""
    requires forall k :: 0 <= k < |more| ==> |more[k]| == |row|
    ensures ReadSheet([header, row] + more, folder, isFile) == Err(DateUnbound)
  {
    var data := [header, row] + more;
    assert IsTable(data);
    assert data[1..][..1] == [row];
    assert [row][..0] == [];
    ReadRowsErrSticks(data[1..], folder, isFile, 1);
  }
}
