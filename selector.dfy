/** The candidate selectors: `find_places` of downloader2 and
    `find_rainy_places` of auto-downloader.  A spreadsheet is a sequence of
    worksheets, each a sequence of rows of cells; row 0 of every worksheet is
    its header.  The daylight computation (timezone lookup, sunrise and
    sunset) is an oracle from the coordinate strings to three hours, None
    when it raises (a coordinate `float()` rejects, an unknown timezone). */
module Selector {
  import opened Wrappers
  import opened Text
  import opened Weather

  type Row = seq<string>

  /** Hours of the day for one location: `s['sunrise'].hour`,
      `s['sunset'].hour` and the current local hour. */
  datatype DayHours = DayHours(sunrise: int, sunset: int, local: int)

  type DayOracle = (string, string) -> Option<DayHours>

  /** The exceptions that abort a whole selection. */
  datatype SelectError =
    | ShortRow          // `city, lat, lon, url = row[0:4]` on a row of fewer than four cells
    | DaylightFailure   // the timezone / sunrise computation raised
    | WeatherUnbound    // every key failed before `weather` was ever assigned
    | OracleFailure     // the second-key call of auto-downloader raised

  /** downloader2's value `[url, "best", weather]`. */
  datatype Target = Target(url: string, quality: string, weather: string)

  /** auto-downloader's value `[url, "best"]`. */
  datatype RainTarget = RainTarget(url: string, quality: string)

  const Best := "best"

  // ---------------------------------------------------------------------
  // Row tests shared by both selectors

  /** A fifth cell that strips and lowercases to 'x'. */
  predicate ForcedSkip(row: Row) {
    |row| > 4 && IsForcedSkip(row[4])
  }

  predicate BlankCoordinate(row: Row)
    requires |row| >= 4
  {
    row[1] == "" || row[2] == ""
  }

  /** The hour-granularity daylight window `sunrise.hour <= hour <= sunset.hour`. */
  predicate InDaylight(h: DayHours) {
    h.sunrise <= h.local <= h.sunset
  }

  /** A row reaches the weather query: it has four cells, is not force-skipped,
      has both coordinates and, when daylight gating is on, is in daylight. */
  predicate Eligible(row: Row, daytime: bool, day: DayOracle) {
    && |row| >= 4
    && !ForcedSkip(row)
    && !BlankCoordinate(row)
    && (daytime ==> day(row[1], row[2]).Some? && InDaylight(day(row[1], row[2]).value))
  }

  // ---------------------------------------------------------------------
  // Iterating over the worksheets

  /** `rows[1:]` -- the header-skipped rows of one worksheet. */
  function Body(sheet: seq<Row>): seq<Row> {
    if sheet == [] then [] else sheet[1..]
  }

  /** The header-skipped rows of all worksheets, in sheet order. */
  function AllBodies(sheets: seq<seq<Row>>): seq<Row> {
    if sheets == [] then [] else AllBodies(sheets[..|sheets| - 1]) + Body(sheets[|sheets| - 1])
  }

  /** Applying the per-row step to every row, left to right. */
  function FoldRows<S>(rows: seq<Row>, init: Result<S, SelectError>, step: (Result<S, SelectError>, Row) -> Result<S, SelectError>): Result<S, SelectError> {
    if rows == [] then init else step(FoldRows(rows[..|rows| - 1], init, step), rows[|rows| - 1])
  }

  /** Once an exception is raised it is not caught inside the selector. */
  ghost predicate Sticky<S>(step: (Result<S, SelectError>, Row) -> Result<S, SelectError>) {
    forall e, row :: step(Err(e), row) == Err(e)
  }

  lemma {:induction false} FoldSticky<S>(rows: seq<Row>, k: nat, init: Result<S, SelectError>, step: (Result<S, SelectError>, Row) -> Result<S, SelectError>)
    requires Sticky(step)
    requires k <= |rows| && FoldRows(rows[..k], init, step).Err?
    ensures FoldRows(rows, init, step) == FoldRows(rows[..k], init, step)
    decreases |rows| - k
  {
    if k < |rows| {
      var e := FoldRows(rows[..k], init, step).error;
      assert rows[..k + 1][..k] == rows[..k];
      assert FoldRows(rows[..k + 1], init, step) == step(Err(e), rows[k]);
      FoldSticky(rows, k + 1, init, step);
    } else {
      assert rows[..k] == rows;
    }
  }

  /** The two nested loops `for i in range(number_of_sheets): ... for row in
      rows[1:]: ...`, with the per-row work given as a step on the
      accumulated result; an Err aborts at once, as the exception does. */
  method ScanSheets<S>(sheets: seq<seq<Row>>, init: S, step: (Result<S, SelectError>, Row) -> Result<S, SelectError>)
    returns (r: Result<S, SelectError>)
    requires Sticky(step)
    ensures r == FoldRows(AllBodies(sheets), Ok(init), step)
  {
    var acc: Result<S, SelectError> := Ok(init);
    var i := 0;
    while i < |sheets|
      invariant 0 <= i <= |sheets|
      invariant acc.Ok? && acc == FoldRows(AllBodies(sheets[..i]), Ok(init), step)
    {
      var rows := Body(sheets[i]);
      var j := 0;
      assert AllBodies(sheets[..i]) + rows[..0] == AllBodies(sheets[..i]);
      while j < |rows|
        invariant 0 <= j <= |rows|
        invariant acc.Ok? && acc == FoldRows(AllBodies(sheets[..i]) + rows[..j], Ok(init), step)
      {
        var prefix := AllBodies(sheets[..i]) + rows[..j];
        FoldSnoc(prefix, rows[j], Ok(init), step);
        acc := step(acc, rows[j]);
        SnocSlice(AllBodies(sheets[..i]), rows, j);
        if acc.Err? {
          StopEarly(sheets, i, j, init, step);
          return acc;
        }
        j := j + 1;
      }
      assert rows[..j] == rows;
      AllBodiesSnoc(sheets, i);
      i := i + 1;
    }
    assert sheets[..i] == sheets;
    r := acc;
  }

  lemma FoldSnoc<S>(rows: seq<Row>, row: Row, init: Result<S, SelectError>, step: (Result<S, SelectError>, Row) -> Result<S, SelectError>)
    ensures FoldRows(rows + [row], init, step) == step(FoldRows(rows, init, step), row)
  {
    assert (rows + [row])[..|rows|] == rows;
  }

  lemma SnocSlice(done: seq<Row>, rows: seq<Row>, j: nat)
    requires j < |rows|
    ensures done + rows[..j] + [rows[j]] == done + rows[..j + 1]
  {
    assert rows[..j] + [rows[j]] == rows[..j + 1];
  }

  lemma AllBodiesSnoc(sheets: seq<seq<Row>>, i: nat)
    requires i < |sheets|
    ensures AllBodies(sheets[..i + 1]) == AllBodies(sheets[..i]) + Body(sheets[i])
  {
    assert sheets[..i + 1][..i] == sheets[..i];
  }

  /** An exception in row j of worksheet i is the result of all the rows. */
  lemma StopEarly<S>(sheets: seq<seq<Row>>, i: nat, j: nat, init: S, step: (Result<S, SelectError>, Row) -> Result<S, SelectError>)
    requires Sticky(step) && i < |sheets| && j < |Body(sheets[i])|
    requires FoldRows(AllBodies(sheets[..i]) + Body(sheets[i])[..j + 1], Ok(init), step).Err?
    ensures FoldRows(AllBodies(sheets), Ok(init), step)
         == FoldRows(AllBodies(sheets[..i]) + Body(sheets[i])[..j + 1], Ok(init), step)
  {
    AllBodiesPrefix(sheets, i);
    var upto := AllBodies(sheets[..i]) + Body(sheets[i])[..j + 1];
    var all := AllBodies(sheets);
    assert (AllBodies(sheets[..i]) + Body(sheets[i]))[..|upto|] == upto;
    assert all[..|upto|] == upto;
    FoldSticky(all, |upto|, Ok(init), step);
  }

  /** The rows before (and including) worksheet i are a prefix of all rows. */
  lemma {:induction false} AllBodiesPrefix(sheets: seq<seq<Row>>, i: nat)
    requires i < |sheets|
    ensures AllBodies(sheets[..i]) + Body(sheets[i]) <= AllBodies(sheets)
    decreases |sheets| - i
  {
    assert sheets[..i + 1][..i] == sheets[..i];
    assert AllBodies(sheets[..i + 1]) == AllBodies(sheets[..i]) + Body(sheets[i]);
    if i + 1 < |sheets| {
      AllBodiesPrefix(sheets, i + 1);
    } else {
      assert sheets[..i + 1] == sheets;
    }
  }

  // ---------------------------------------------------------------------
  // downloader2 find_places

  /** The loop state of `find_places`: the dictionary built so far and the
      variable `weather`, which keeps its value from one row to the next. */
  datatype Scan = Scan(places: map<string, Target>, weather: Option<string>)

  /** One row of `find_places`: skip tests, then the key loop, then
      `places[city] = [url, "best", weather]` whatever the weather. */
  function PlacesRow(st: Result<Scan, SelectError>, row: Row, daytime: bool, day: DayOracle,
                     oracle: Oracle, keys: seq<string>): Result<Scan, SelectError>
  {
    if st.Err? then st
    else if |row| < 4 then Err(ShortRow)
    else if ForcedSkip(row) || BlankCoordinate(row) then st
    else if daytime && day(row[1], row[2]).None? then Err(DaylightFailure)
    else if daytime && !InDaylight(day(row[1], row[2]).value) then st
    else
      var w := match FirstWeather(oracle, row[1], row[2], keys)
               case Some(found) => Some(found)
               case None => st.value.weather;
      if w.None? then Err(WeatherUnbound)
      else Ok(Scan(st.value.places[row[0] := Target(row[3], Best, w.value)], w))
  }

  function PlacesStep(daytime: bool, day: DayOracle, oracle: Oracle, keys: seq<string>)
    : (Result<Scan, SelectError>, Row) -> Result<Scan, SelectError>
  {
    (st, row) => PlacesRow(st, row, daytime, day, oracle, keys)
  }

  lemma PlacesStepSticky(daytime: bool, day: DayOracle, oracle: Oracle, keys: seq<string>)
    ensures Sticky(PlacesStep(daytime, day, oracle, keys))
  {
  }

  /** The rows of `find_places`, left to right, from an empty dictionary
      and an unbound `weather`. */
  function PlacesFold(rows: seq<Row>, daytime: bool, day: DayOracle, oracle: Oracle, keys: seq<string>)
    : Result<Scan, SelectError>
  {
    if rows == [] then Ok(Scan(map[], None))
    else PlacesRow(PlacesFold(rows[..|rows| - 1], daytime, day, oracle, keys), rows[|rows| - 1], daytime, day, oracle, keys)
  }

  lemma {:induction false} PlacesFoldIsFold(rows: seq<Row>, daytime: bool, day: DayOracle, oracle: Oracle, keys: seq<string>)
    ensures PlacesFold(rows, daytime, day, oracle, keys)
            == FoldRows(rows, Ok(Scan(map[], None)), PlacesStep(daytime, day, oracle, keys))
  {
    if rows != [] {
      PlacesFoldIsFold(rows[..|rows| - 1], daytime, day, oracle, keys);
    }
  }

  /** `find_places(spreadsheet, daytime)`. */
  method FindPlaces(sheets: seq<seq<Row>>, daytime: bool, day: DayOracle, oracle: Oracle, keys: seq<string>)
    returns (r: Result<map<string, Target>, SelectError>)
    ensures PlacesFold(AllBodies(sheets), daytime, day, oracle, keys).Ok? ==>
              r == Ok(PlacesFold(AllBodies(sheets), daytime, day, oracle, keys).value.places)
    ensures PlacesFold(AllBodies(sheets), daytime, day, oracle, keys).Err? ==>
              r == Err(PlacesFold(AllBodies(sheets), daytime, day, oracle, keys).error)
  {
    PlacesStepSticky(daytime, day, oracle, keys);
    PlacesFoldIsFold(AllBodies(sheets), daytime, day, oracle, keys);
    var scan := ScanSheets(sheets, Scan(map[], None), PlacesStep(daytime, day, oracle, keys));
    match scan
    case Ok(st) => r := Ok(st.places);
    case Err(e) => r := Err(e);
  }

  /** Row i is an eligible row of the given city. */
  ghost predicate Hit(rows: seq<Row>, i: int, daytime: bool, day: DayOracle, city: string) {
    0 <= i < |rows| && Eligible(rows[i], daytime, day) && rows[i][0] == city
  }

  /** What one successful row step does to the dictionary. */
  lemma PlacesRowEffect(st: Scan, row: Row, daytime: bool, day: DayOracle, oracle: Oracle, keys: seq<string>)
    requires PlacesRow(Ok(st), row, daytime, day, oracle, keys).Ok?
    ensures var p := PlacesRow(Ok(st), row, daytime, day, oracle, keys).value.places;
      if Eligible(row, daytime, day) then
        row[0] in p && p[row[0]].url == row[3] && p[row[0]].quality == Best
        && (FirstWeather(oracle, row[1], row[2], keys).Some? ==>
              p[row[0]].weather == FirstWeather(oracle, row[1], row[2], keys).value)
        && (FirstWeather(oracle, row[1], row[2], keys).None? ==>
              st.weather.Some? && p[row[0]].weather == st.weather.value)
        && p.Keys == st.places.Keys + {row[0]}
        && forall c :: c in st.places && c != row[0] ==> p[c] == st.places[c]
      else p == st.places
  {
  }

  /** Row i is the last eligible row of the city. */
  ghost predicate LastHit(rows: seq<Row>, i: int, daytime: bool, day: DayOracle, city: string) {
    Hit(rows, i, daytime, day, city) && forall j :: i < j < |rows| ==> !Hit(rows, j, daytime, day, city)
  }

  /** The dictionary value a row writes: its url, "best", and the weather
      reported for it when some key answered, otherwise the weather
      `carried` over from the rows before it. */
  ghost predicate WrittenBy(row: Row, t: Target, oracle: Oracle, keys: seq<string>, carried: Option<string>)
    requires |row| >= 4
  {
    t.url == row[3] && t.quality == Best
    && (FirstWeather(oracle, row[1], row[2], keys).Some? ==> t.weather == FirstWeather(oracle, row[1], row[2], keys).value)
    && (FirstWeather(oracle, row[1], row[2], keys).None? ==> carried.Some? && t.weather == carried.value)
  }

  /** Row j is an eligible row for which some key answered. */
  ghost predicate Answered(rows: seq<Row>, j: int, daytime: bool, day: DayOracle, oracle: Oracle, keys: seq<string>) {
    0 <= j < |rows| && Eligible(rows[j], daytime, day) && FirstWeather(oracle, rows[j][1], rows[j][2], keys).Some?
  }

  /** The value of `weather` after the rows: what the keys reported for
      the latest eligible row at which one answered, unbound if none. */
  function LastAnswered(rows: seq<Row>, daytime: bool, day: DayOracle, oracle: Oracle, keys: seq<string>): Option<string>
  {
    if rows == [] then None
    else
      var n := |rows| - 1;
      var row := rows[n];
      if Eligible(row, daytime, day) && FirstWeather(oracle, row[1], row[2], keys).Some?
      then FirstWeather(oracle, row[1], row[2], keys)
      else LastAnswered(rows[..n], daytime, day, oracle, keys)
  }

  /** The answer the keys give for a row that reaches the weather query. */
  function ReplyOf(daytime: bool, day: DayOracle, oracle: Oracle, keys: seq<string>): Row -> Option<string> {
    row => if Eligible(row, daytime, day) then FirstWeather(oracle, row[1], row[2], keys) else None
  }

  /** `w` is bound exactly when some row got a reply, and then holds the
      reply of the latest such row. */
  ghost predicate LatestReply(rows: seq<Row>, w: Option<string>, reply: Row -> Option<string>) {
    && (w.Some? <==> exists j :: 0 <= j < |rows| && reply(rows[j]).Some?)
    && (w.Some? ==>
          exists j :: 0 <= j < |rows| && reply(rows[j]) == w
            && forall k :: j < k < |rows| ==> reply(rows[k]).None?)
  }

  /** `weather` is bound exactly when some eligible row got an answer, and
      then it holds the answer of the latest such row. */
  lemma LastAnsweredIsLatest(rows: seq<Row>, daytime: bool, day: DayOracle, oracle: Oracle, keys: seq<string>)
    ensures LastAnswered(rows, daytime, day, oracle, keys).Some? <==> exists j :: Answered(rows, j, daytime, day, oracle, keys)
    ensures LastAnswered(rows, daytime, day, oracle, keys).Some? ==>
      exists j ::
        Answered(rows, j, daytime, day, oracle, keys)
        && LastAnswered(rows, daytime, day, oracle, keys) == FirstWeather(oracle, rows[j][1], rows[j][2], keys)
        && forall k :: j < k < |rows| ==> !Answered(rows, k, daytime, day, oracle, keys)
  {
    var reply := ReplyOf(daytime, day, oracle, keys);
    LastAnsweredDescribed(rows, daytime, day, oracle, keys);
    assert forall j :: 0 <= j < |rows| ==> (Answered(rows, j, daytime, day, oracle, keys) <==> reply(rows[j]).Some?);
  }

  lemma {:induction false} LastAnsweredDescribed(rows: seq<Row>, daytime: bool, day: DayOracle, oracle: Oracle, keys: seq<string>)
    ensures LatestReply(rows, LastAnswered(rows, daytime, day, oracle, keys), ReplyOf(daytime, day, oracle, keys))
  {
    if rows != [] {
      var n := |rows| - 1;
      var init := rows[..n];
      assert rows == init + [rows[n]];
      LastAnsweredDescribed(init, daytime, day, oracle, keys);
      ReplyStep(init, rows[n], LastAnswered(init, daytime, day, oracle, keys), ReplyOf(daytime, day, oracle, keys));
    }
  }

  /** One more row keeps `LatestReply` true of the updated `weather`. */
  lemma ReplyStep(init: seq<Row>, row: Row, w: Option<string>, reply: Row -> Option<string>)
    requires LatestReply(init, w, reply)
    ensures LatestReply(init + [row], if reply(row).Some? then reply(row) else w, reply)
  {
    var rows := init + [row];
    var n := |init|;
    assert rows[n] == row;
    forall j | 0 <= j < n ensures rows[j] == init[j] {
    }
    if reply(row).None? && w.Some? {
      var j :| 0 <= j < n && reply(init[j]) == w && forall k :: j < k < n ==> reply(init[k]).None?;
      assert reply(rows[j]) == w;
    }
  }

  /** The `weather` variable of the fold is `LastAnswered`. */
  lemma {:induction false} WeatherCarried(rows: seq<Row>, daytime: bool, day: DayOracle, oracle: Oracle, keys: seq<string>)
    requires PlacesFold(rows, daytime, day, oracle, keys).Ok?
    ensures PlacesFold(rows, daytime, day, oracle, keys).value.weather == LastAnswered(rows, daytime, day, oracle, keys)
  {
    if rows != [] {
      var n := |rows| - 1;
      WeatherCarried(rows[..n], daytime, day, oracle, keys);
    }
  }

  /** What `find_places` promises about one city after some rows. */
  ghost predicate Describes(rows: seq<Row>, p: map<string, Target>, daytime: bool, day: DayOracle,
                            oracle: Oracle, keys: seq<string>, city: string)
  {
    && (city in p <==> exists i :: Hit(rows, i, daytime, day, city))
    && (city in p ==> exists i ::
          LastHit(rows, i, daytime, day, city)
          && WrittenBy(rows[i], p[city], oracle, keys, LastAnswered(rows[..i], daytime, day, oracle, keys)))
  }

  /** One more row keeps the description true. */
  lemma DescribesStep(init: seq<Row>, row: Row, q: map<string, Target>, p: map<string, Target>, daytime: bool,
                      day: DayOracle, oracle: Oracle, keys: seq<string>, city: string)
    requires Describes(init, q, daytime, day, oracle, keys, city)
    requires Eligible(row, daytime, day) ==>
      row[0] in p && WrittenBy(row, p[row[0]], oracle, keys, LastAnswered(init, daytime, day, oracle, keys))
      && p.Keys == q.Keys + {row[0]} && forall c :: c in q && c != row[0] ==> p[c] == q[c]
    requires !Eligible(row, daytime, day) ==> p == q
    ensures Describes(init + [row], p, daytime, day, oracle, keys, city)
  {
    var rows := init + [row];
    var n := |init|;
    assert rows[n] == row;
    forall i | 0 <= i < n ensures Hit(rows, i, daytime, day, city) == Hit(init, i, daytime, day, city) {
      assert rows[i] == init[i];
    }
    if Hit(rows, n, daytime, day, city) {
      assert rows[..n] == init;
      assert LastHit(rows, n, daytime, day, city);
    } else if city in q {
      var i :| LastHit(init, i, daytime, day, city)
        && WrittenBy(init[i], q[city], oracle, keys, LastAnswered(init[..i], daytime, day, oracle, keys));
      assert rows[..i] == init[..i];
      assert LastHit(rows, i, daytime, day, city);
    }
  }

  lemma {:induction false} PlacesDescribed(rows: seq<Row>, daytime: bool, day: DayOracle, oracle: Oracle,
                                           keys: seq<string>, city: string)
    requires PlacesFold(rows, daytime, day, oracle, keys).Ok?
    ensures Describes(rows, PlacesFold(rows, daytime, day, oracle, keys).value.places, daytime, day, oracle, keys, city)
  {
    if rows == [] {
      assert PlacesFold(rows, daytime, day, oracle, keys).value.places == map[];
    } else {
      var n := |rows| - 1;
      var init := rows[..n];
      assert rows == init + [rows[n]];
      PlacesDescribed(init, daytime, day, oracle, keys, city);
      var before := PlacesFold(init, daytime, day, oracle, keys);
      PlacesRowEffect(before.value, rows[n], daytime, day, oracle, keys);
      WeatherCarried(init, daytime, day, oracle, keys);
      DescribesStep(init, rows[n], before.value.places, PlacesFold(rows, daytime, day, oracle, keys).value.places,
                    daytime, day, oracle, keys, city);
    }
  }

  /** Which cities `find_places` returns and with what value: exactly the
      cities of eligible rows; each gets the url of its LAST eligible row,
      quality "best", and the weather reported for that row when some key
      answered, otherwise the weather left over from the latest earlier
      row that got an answer.  The weather itself never excludes a row. */
  lemma PlacesSelected(rows: seq<Row>, daytime: bool, day: DayOracle, oracle: Oracle,
                       keys: seq<string>, city: string)
    requires PlacesFold(rows, daytime, day, oracle, keys).Ok?
    ensures var p := PlacesFold(rows, daytime, day, oracle, keys).value.places;
      (city in p <==> exists i :: Hit(rows, i, daytime, day, city))
    ensures var p := PlacesFold(rows, daytime, day, oracle, keys).value.places;
      city in p ==>
        exists i :: Hit(rows, i, daytime, day, city)
          && p[city].url == rows[i][3] && p[city].quality == Best
          && (FirstWeather(oracle, rows[i][1], rows[i][2], keys).Some? ==>
                p[city].weather == FirstWeather(oracle, rows[i][1], rows[i][2], keys).value)
          && (FirstWeather(oracle, rows[i][1], rows[i][2], keys).None? ==>
                LastAnswered(rows[..i], daytime, day, oracle, keys).Some?
                && p[city].weather == LastAnswered(rows[..i], daytime, day, oracle, keys).value)
          && forall j :: i < j < |rows| ==> !Hit(rows, j, daytime, day, city)
  {
    PlacesDescribed(rows, daytime, day, oracle, keys, city);
  }

  /** A city whose every row lacks a latitude or a longitude is never
      selected, whatever the oracles answer. */
  lemma BlankNeverSelected(rows: seq<Row>, daytime: bool, day: DayOracle, oracle: Oracle,
                           keys: seq<string>, city: string)
    requires PlacesFold(rows, daytime, day, oracle, keys).Ok?
    requires forall i :: 0 <= i < |rows| && |rows[i]| >= 4 && rows[i][0] == city ==> BlankCoordinate(rows[i])
    ensures city !in PlacesFold(rows, daytime, day, oracle, keys).value.places
  {
    PlacesSelected(rows, daytime, day, oracle, keys, city);
  }

  /** When every key fails on the first row that reaches the weather query,
      `weather` is still unbound and the selection raises. */
  lemma AllKeysFailFirst(row: Row, daytime: bool, day: DayOracle, oracle: Oracle, keys: seq<string>)
    requires Eligible(row, daytime, day)
    requires forall i :: 0 <= i < |keys| ==> FindWeather(oracle, row[1], row[2], keys[i]).None?
    ensures PlacesFold([row], daytime, day, oracle, keys) == Err(WeatherUnbound)
  {
    assert [row][..0] == [];
    assert FirstWeather(oracle, row[1], row[2], keys).None?;
  }

  // ---------------------------------------------------------------------
  // auto-downloader find_rainy_places

  /** One row of `find_rainy_places`: the same skip tests, then the
      two-key rain query; only raining rows are recorded. */
  function RainyRow(st: Result<map<string, RainTarget>, SelectError>, row: Row, daytime: bool, day: DayOracle,
                    oracle: Oracle, keys: seq<string>): Result<map<string, RainTarget>, SelectError>
  {
    if st.Err? then st
    else if |row| < 4 then Err(ShortRow)
    else if ForcedSkip(row) || BlankCoordinate(row) then st
    else if daytime && day(row[1], row[2]).None? then Err(DaylightFailure)
    else if daytime && !InDaylight(day(row[1], row[2]).value) then st
    else match RainWithFallback(oracle, row[1], row[2], keys)
      case None => Err(OracleFailure)
      case Some(raining) => if raining then Ok(st.value[row[0] := RainTarget(row[3], Best)]) else st
  }

  function RainyStep(daytime: bool, day: DayOracle, oracle: Oracle, keys: seq<string>)
    : (Result<map<string, RainTarget>, SelectError>, Row) -> Result<map<string, RainTarget>, SelectError>
  {
    (st, row) => RainyRow(st, row, daytime, day, oracle, keys)
  }

  lemma RainyStepSticky(daytime: bool, day: DayOracle, oracle: Oracle, keys: seq<string>)
    ensures Sticky(RainyStep(daytime, day, oracle, keys))
  {
  }

  function RainyFold(rows: seq<Row>, daytime: bool, day: DayOracle, oracle: Oracle, keys: seq<string>)
    : Result<map<string, RainTarget>, SelectError>
  {
    if rows == [] then Ok(map[])
    else RainyRow(RainyFold(rows[..|rows| - 1], daytime, day, oracle, keys), rows[|rows| - 1], daytime, day, oracle, keys)
  }

  lemma {:induction false} RainyFoldIsFold(rows: seq<Row>, daytime: bool, day: DayOracle, oracle: Oracle, keys: seq<string>)
    ensures RainyFold(rows, daytime, day, oracle, keys) == FoldRows(rows, Ok(map[]), RainyStep(daytime, day, oracle, keys))
  {
    if rows != [] {
      RainyFoldIsFold(rows[..|rows| - 1], daytime, day, oracle, keys);
    }
  }

  /** The rain answer for an eligible row (Some when the query did not raise). */
  predicate RainsAt(row: Row, oracle: Oracle, keys: seq<string>)
    requires |row| >= 4
  {
    RainWithFallback(oracle, row[1], row[2], keys) == Some(true)
  }

  /** `find_rainy_places(spreadsheet, daytime)`. */
  method FindRainyPlaces(sheets: seq<seq<Row>>, daytime: bool, day: DayOracle, oracle: Oracle, keys: seq<string>)
    returns (r: Result<map<string, RainTarget>, SelectError>)
    ensures r == RainyFold(AllBodies(sheets), daytime, day, oracle, keys)
  {
    RainyStepSticky(daytime, day, oracle, keys);
    RainyFoldIsFold(AllBodies(sheets), daytime, day, oracle, keys);
    r := ScanSheets(sheets, map[], RainyStep(daytime, day, oracle, keys));
  }

  /** Row i is an eligible row of the city that reports rain. */
  ghost predicate RainHit(rows: seq<Row>, i: int, daytime: bool, day: DayOracle, oracle: Oracle,
                          keys: seq<string>, city: string) {
    Hit(rows, i, daytime, day, city) && RainsAt(rows[i], oracle, keys)
  }

  /** What `find_rainy_places` promises about one city after some rows. */
  ghost predicate RainDescribes(rows: seq<Row>, p: map<string, RainTarget>, daytime: bool, day: DayOracle,
                                oracle: Oracle, keys: seq<string>, city: string)
  {
    && (city in p <==> exists i :: RainHit(rows, i, daytime, day, oracle, keys, city))
    && (city in p ==> exists i :: RainHit(rows, i, daytime, day, oracle, keys, city)
                                  && p[city] == RainTarget(rows[i][3], Best)
                                  && forall j :: i < j < |rows| ==> !RainHit(rows, j, daytime, day, oracle, keys, city))
  }

  /** What one successful row step of `find_rainy_places` does. */
  lemma RainyRowEffect(st: map<string, RainTarget>, row: Row, daytime: bool, day: DayOracle, oracle: Oracle, keys: seq<string>)
    requires RainyRow(Ok(st), row, daytime, day, oracle, keys).Ok?
    ensures var p := RainyRow(Ok(st), row, daytime, day, oracle, keys).value;
      if Eligible(row, daytime, day) && RainsAt(row, oracle, keys) then p == st[row[0] := RainTarget(row[3], Best)]
      else p == st
  {
  }

  lemma RainDescribesStep(init: seq<Row>, row: Row, q: map<string, RainTarget>, p: map<string, RainTarget>,
                          daytime: bool, day: DayOracle, oracle: Oracle, keys: seq<string>, city: string)
    requires RainDescribes(init, q, daytime, day, oracle, keys, city)
    requires Eligible(row, daytime, day) && RainsAt(row, oracle, keys) ==> p == q[row[0] := RainTarget(row[3], Best)]
    requires !(Eligible(row, daytime, day) && RainsAt(row, oracle, keys)) ==> p == q
    ensures RainDescribes(init + [row], p, daytime, day, oracle, keys, city)
  {
    var rows := init + [row];
    var n := |init|;
    assert rows[n] == row;
    forall i | 0 <= i < n
      ensures RainHit(rows, i, daytime, day, oracle, keys, city) == RainHit(init, i, daytime, day, oracle, keys, city)
    {
      assert rows[i] == init[i];
    }
    if RainHit(rows, n, daytime, day, oracle, keys, city) {
      assert forall j :: n < j < |rows| ==> !RainHit(rows, j, daytime, day, oracle, keys, city);
    } else if city in q {
      var i :| RainHit(init, i, daytime, day, oracle, keys, city) && q[city] == RainTarget(init[i][3], Best)
               && forall j :: i < j < |init| ==> !RainHit(init, j, daytime, day, oracle, keys, city);
      assert RainHit(rows, i, daytime, day, oracle, keys, city) && p[city] == RainTarget(rows[i][3], Best);
    }
  }

  lemma {:induction false} RainyDescribed(rows: seq<Row>, daytime: bool, day: DayOracle, oracle: Oracle,
                                          keys: seq<string>, city: string)
    requires RainyFold(rows, daytime, day, oracle, keys).Ok?
    ensures RainDescribes(rows, RainyFold(rows, daytime, day, oracle, keys).value, daytime, day, oracle, keys, city)
  {
    if rows != [] {
      var n := |rows| - 1;
      var init := rows[..n];
      assert rows == init + [rows[n]];
      RainyDescribed(init, daytime, day, oracle, keys, city);
      var before := RainyFold(init, daytime, day, oracle, keys);
      RainyRowEffect(before.value, rows[n], daytime, day, oracle, keys);
      RainDescribesStep(init, rows[n], before.value, RainyFold(rows, daytime, day, oracle, keys).value,
                        daytime, day, oracle, keys, city);
    }
  }

  /** A city is returned by `find_rainy_places` iff some eligible row of it
      reports rain; its value is `[url, "best"]` of the last such row. */
  lemma RainySelected(rows: seq<Row>, daytime: bool, day: DayOracle, oracle: Oracle,
                      keys: seq<string>, city: string)
    requires RainyFold(rows, daytime, day, oracle, keys).Ok?
    ensures var p := RainyFold(rows, daytime, day, oracle, keys).value;
      (city in p <==> exists i :: RainHit(rows, i, daytime, day, oracle, keys, city))
    ensures var p := RainyFold(rows, daytime, day, oracle, keys).value;
      city in p ==>
        exists i :: RainHit(rows, i, daytime, day, oracle, keys, city) && p[city] == RainTarget(rows[i][3], Best)
          && forall j :: i < j < |rows| ==> !RainHit(rows, j, daytime, day, oracle, keys, city)
  {
    RainyDescribed(rows, daytime, day, oracle, keys, city);
  }

  /** Scenario: one row "Pier" with coordinates, rain reported, daylight
      gating off, gives exactly {"Pier": ("u1", "best")}. */
  lemma PierScenario(oracle: Oracle, day: DayOracle, keys: seq<string>, resp: Response)
    requires |keys| >= 1 && oracle("34.0", "-118.5", keys[0]) == Some(resp) && IsRaining(resp)
    ensures RainyFold([["Pier", "34.0", "-118.5", "u1"]], false, day, oracle, keys)
            == Ok(map["Pier" := RainTarget("u1", Best)])
  {
    var row: Row := ["Pier", "34.0", "-118.5", "u1"];
    assert [row][..0] == [];
    assert !ForcedSkip(row);
  }
}
