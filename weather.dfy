/** The OpenWeatherMap adapter of both downloaders: `is_raining`,
    `find_weather`, and the two credential-fallback policies.  The HTTP call
    is an oracle: given (latitude, longitude, key) it returns the decoded JSON
    reply, or None when the request or the decoding raises. */
module Weather {
  import opened Wrappers
  import opened Text

  /** The parts of a current-weather reply the scripts read: its top-level
      keys, and the "main" field of each element of its "weather" list. */
  datatype Response = Response(keys: set<string>, weatherMains: seq<string>)

  type Oracle = (string, string, string) -> Option<Response>

  /** `is_raining`: the reply has a top-level "rain" key. */
  predicate IsRaining(resp: Response) {
    "rain" in resp.keys
  }

  /** `data["weather"][0]["main"].lower()`; the KeyError or IndexError of a
      reply without a weather list is None. */
  function WeatherOf(resp: Response): (r: Option<string>)
    ensures r.Some? <==> "weather" in resp.keys && |resp.weatherMains| > 0
    ensures r.Some? ==> r.value == Lower(resp.weatherMains[0])
  {
    if "weather" in resp.keys && |resp.weatherMains| > 0 then Some(Lower(resp.weatherMains[0])) else None
  }

  /** `find_weather(lat, lon, key)`: None when it raises. */
  function FindWeather(oracle: Oracle, lat: string, lon: string, key: string): Option<string> {
    match oracle(lat, lon, key)
    case None => None
    case Some(resp) => WeatherOf(resp)
  }

  /** The loop `for api_key in API_KEYS: try: weather = find_weather(...);
      break except: continue` of downloader2: the first key whose call does
      not raise decides; None when every key raises. */
  function FirstWeather(oracle: Oracle, lat: string, lon: string, keys: seq<string>): (r: Option<string>)
    ensures r.Some? <==> exists i :: 0 <= i < |keys| && FindWeather(oracle, lat, lon, keys[i]).Some?
    ensures r.Some? ==> exists i :: 0 <= i < |keys| && FindWeather(oracle, lat, lon, keys[i]) == r
                                    && forall j :: 0 <= j < i ==> FindWeather(oracle, lat, lon, keys[j]).None?
  {
    if keys == [] then None
    else match FindWeather(oracle, lat, lon, keys[0])
      case Some(w) => Some(w)
      case None =>
        var r := FirstWeather(oracle, lat, lon, keys[1..]);
        assert forall i :: 1 <= i < |keys| ==> keys[i] == keys[1..][i - 1];
        if r.Some? then
          var i :| 0 <= i < |keys[1..]| && FindWeather(oracle, lat, lon, keys[1..][i]) == r
                   && forall j :: 0 <= j < i ==> FindWeather(oracle, lat, lon, keys[1..][j]).None?;
          assert FindWeather(oracle, lat, lon, keys[i + 1]) == r;
          r
        else r
  }

  /** The fallback of auto-downloader: `try: is_raining(.., API_KEYS[0])
      except: is_raining(.., API_KEYS[1])`.  Only the first two keys are
      ever used; an exception of the second call (or a key list too short
      for the index) propagates, modelled as None. */
  function RainWithFallback(oracle: Oracle, lat: string, lon: string, keys: seq<string>): (r: Option<bool>)
    ensures |keys| >= 1 && oracle(lat, lon, keys[0]).Some? ==> r == Some(IsRaining(oracle(lat, lon, keys[0]).value))
    ensures (|keys| == 0 || oracle(lat, lon, keys[0]).None?) ==>
              r == (if |keys| >= 2 && oracle(lat, lon, keys[1]).Some?
                    then Some(IsRaining(oracle(lat, lon, keys[1]).value)) else None)
  {
    var first := if |keys| >= 1 then oracle(lat, lon, keys[0]) else None;
    match first
    case Some(resp) => Some(IsRaining(resp))
    case None =>
      if |keys| >= 2 then
        match oracle(lat, lon, keys[1])
        case Some(resp) => Some(IsRaining(resp))
        case None => None
      else None
  }

  /** Keys after the second never influence auto-downloader's answer. */
  lemma RainFallbackUsesTwoKeys(oracle: Oracle, lat: string, lon: string, keys: seq<string>, more: seq<string>)
    requires |keys| >= 2
    ensures RainWithFallback(oracle, lat, lon, keys + more) == RainWithFallback(oracle, lat, lon, keys)
  {
    assert (keys + more)[0] == keys[0] && (keys + more)[1] == keys[1];
  }
}
