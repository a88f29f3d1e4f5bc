/** The string builders of `download_ydl_ffmpeg` and `download` in both
    downloaders: the clip length `HH:MM:SS`, the UTC time stamp and day
    folder, the clip and log file names, the two command lines, and the
    choice of the manifest from the stream resolver's output. */
module Naming {
  import opened Wrappers
  import opened Text

  /** A UTC instant as `datetime.datetime.utcnow()` gives it. */
  datatype DateTime = DateTime(year: nat, month: nat, day: nat, hour: nat, minute: nat, second: nat)

  predicate ValidDateTime(t: DateTime) {
    1 <= t.year <= 9999 && 1 <= t.month <= 12 && 1 <= t.day <= 31
    && t.hour < 24 && t.minute < 60 && t.second < 60
  }

  const SecondsPerDay := 86400

  // ---------------------------------------------------------------------
  // Clip length

  /** Reads back a `HH:MM:SS` string. */
  function ParseClock(s: string): Option<int> {
    if |s| == 8 && s[2] == ':' && s[5] == ':' && AllDigits(s[0..2]) && AllDigits(s[3..5]) && AllDigits(s[6..8])
    then Some(DigitsValue(s[0..2]) * 3600 + DigitsValue(s[3..5]) * 60 + DigitsValue(s[6..8]))
    else None
  }

  lemma Pow10Two()
    ensures Pow10(2) == 100 && Pow10(4) == 10000
  {
    assert Pow10(1) == 10;
    assert Pow10(3) == 1000;
  }

  /** `time.strftime('%H:%M:%S', time.gmtime(seconds))`: gmtime keeps only
      the time of day, so the clip length is taken modulo one day (with
      Python's floor modulo, which Dafny's `%` matches for a positive
      divisor). */
  function ClipLength(seconds: int): (r: string)
    ensures |r| == 8 && r[2] == ':' && r[5] == ':'
    ensures ParseClock(r) == Some(seconds % SecondsPerDay)
  {
    var tod := seconds % SecondsPerDay;
    var h, m, s := tod / 3600, (tod / 60) % 60, tod % 60;
    ClockDecompose(tod);
    Pow10Two();
    PadValue(h, 2); PadValue(m, 2); PadValue(s, 2);
    ClockLayout(Pad(h, 2), Pad(m, 2), Pad(s, 2));
    Pad(h, 2) + ":" + Pad(m, 2) + ":" + Pad(s, 2)
  }

  lemma ClockDecompose(tod: int)
    requires 0 <= tod < SecondsPerDay
    ensures tod / 3600 < 24 && (tod / 60) % 60 < 60 && tod % 60 < 60
    ensures (tod / 3600) * 3600 + ((tod / 60) % 60) * 60 + tod % 60 == tod
  {
    var q := tod / 60;
    assert tod == q * 60 + tod % 60;
    assert q == (q / 60) * 60 + q % 60;
    assert q / 60 == tod / 3600;
  }

  /** Where the three fields of `HH:MM:SS` sit. */
  lemma ClockLayout(a: string, b: string, c: string)
    requires |a| == 2 && |b| == 2 && |c| == 2
    ensures var r := a + ":" + b + ":" + c;
      |r| == 8 && r[2] == ':' && r[5] == ':' && r[0..2] == a && r[3..5] == b && r[6..8] == c
  {
  }

  // ---------------------------------------------------------------------
  // Time stamps and names

  /** `f"{year:04}-{month:02}-{day:02}"`, the day folder of `download`. */
  function DayFolder(t: DateTime): string {
    Pad(t.year, 4) + "-" + Pad(t.month, 2) + "-" + Pad(t.day, 2)
  }

  /** The `time_str` of `download_ydl_ffmpeg`:
      `YYYY-MM-DD_HH-MM-SS`. */
  function Stamp(t: DateTime): string {
    DayFolder(t) + "_" + Pad(t.hour, 2) + "-" + Pad(t.minute, 2) + "-" + Pad(t.second, 2)
  }

  /** Reads back a `YYYY-MM-DD_HH-MM-SS` string. */
  function ParseStamp(s: string): Option<DateTime> {
    if |s| == 19 && s[4] == '-' && s[7] == '-' && s[10] == '_' && s[13] == '-' && s[16] == '-'
       && AllDigits(s[0..4]) && AllDigits(s[5..7]) && AllDigits(s[8..10])
       && AllDigits(s[11..13]) && AllDigits(s[14..16]) && AllDigits(s[17..19])
    then Some(DateTime(DigitsValue(s[0..4]), DigitsValue(s[5..7]), DigitsValue(s[8..10]),
                       DigitsValue(s[11..13]), DigitsValue(s[14..16]), DigitsValue(s[17..19])))
    else None
  }

  /** A valid instant's stamp is 19 characters, reads back as the instant,
      and starts with the day folder's name. */
  lemma StampRoundTrip(t: DateTime)
    requires ValidDateTime(t)
    ensures |Stamp(t)| == 19 && ParseStamp(Stamp(t)) == Some(t)
    ensures Stamp(t)[..10] == DayFolder(t)
  {
    Pow10Two();
    PadValue(t.year, 4); PadValue(t.month, 2); PadValue(t.day, 2);
    PadValue(t.hour, 2); PadValue(t.minute, 2); PadValue(t.second, 2);
    var a, b, c := Pad(t.year, 4), Pad(t.month, 2), Pad(t.day, 2);
    var d, e, f := Pad(t.hour, 2), Pad(t.minute, 2), Pad(t.second, 2);
    StampLayout(a, b, c, d, e, f);
    var s := Stamp(t);
    assert s[0..4] == a && s[5..7] == b && s[8..10] == c && s[11..13] == d && s[14..16] == e && s[17..19] == f;
    assert DateTime(DigitsValue(a), DigitsValue(b), DigitsValue(c), DigitsValue(d), DigitsValue(e), DigitsValue(f)) == t;
  }

  /** Where the six fields of `YYYY-MM-DD_HH-MM-SS` sit. */
  lemma StampLayout(a: string, b: string, c: string, d: string, e: string, f: string)
    requires |a| == 4 && |b| == 2 && |c| == 2 && |d| == 2 && |e| == 2 && |f| == 2
    ensures var day := a + "-" + b + "-" + c;
      var s := day + "_" + d + "-" + e + "-" + f;
      && |s| == 19 && s[4] == '-' && s[7] == '-' && s[10] == '_' && s[13] == '-' && s[16] == '-'
      && s[0..4] == a && s[5..7] == b && s[8..10] == c && s[11..13] == d && s[14..16] == e && s[17..19] == f
      && s[..10] == day
  {
    var day := a + "-" + b + "-" + c;
    var s := day + "_" + d + "-" + e + "-" + f;
    assert s[..10] == day;
    assert s[0..4] == day[0..4] == a;
    assert s[5..7] == day[5..7] == b;
    assert s[8..10] == day[8..10] == c;
    var rest := s[11..];
    assert rest == d + "-" + e + "-" + f;
    assert s[11..13] == rest[0..2] == d;
    assert s[14..16] == rest[3..5] == e;
    assert s[17..19] == rest[6..8] == f;
  }

  /** downloader2's `video_name`: `<place>_<stamp>_<weather>`. */
  function WeatherClipName(place: string, t: DateTime, weather: string): string {
    place + "_" + Stamp(t) + "_" + weather
  }

  /** auto-downloader's name: `<place>_<stamp>`, no weather part. */
  function ClipName(place: string, t: DateTime): string {
    place + "_" + Stamp(t)
  }

  /** `dir / name`. */
  function PathJoin(dir: string, name: string): string {
    dir + "/" + name
  }

  function VideoPath(dir: string, name: string): string { PathJoin(dir, name + ".mp4") }

  function LogPath(dir: string, name: string): string { PathJoin(dir, name + ".log") }

  /** The clip and its log share the stem and differ in the extension. */
  lemma VideoAndLogDiffer(dir: string, name: string)
    ensures VideoPath(dir, name) != LogPath(dir, name)
    ensures |VideoPath(dir, name)| == |LogPath(dir, name)|
    ensures VideoPath(dir, name)[..|dir| + 1 + |name|] == LogPath(dir, name)[..|dir| + 1 + |name|]
  {
    var v, l := VideoPath(dir, name), LogPath(dir, name);
    assert v[|v| - 3] == 'm' && l[|l| - 3] == 'l';
  }

  /** A log path is never a clip path, whatever the directories and stems. */
  lemma LogIsNeverVideo(d1: string, a: string, d2: string, b: string)
    ensures LogPath(d1, a) != VideoPath(d2, b)
  {
    var l, v := LogPath(d1, a), VideoPath(d2, b);
    assert l[|l| - 1] == 'g' && v[|v| - 1] == '4';
  }

  /** Log paths in one directory are equal exactly when their stems are. */
  lemma LogPathInjective(d: string, a: string, b: string)
    ensures LogPath(d, a) == LogPath(d, b) <==> a == b
  {
    if LogPath(d, a) == LogPath(d, b) {
      assert |a| == |b|;
      assert a == LogPath(d, a)[|d| + 1..|d| + 1 + |a|];
      assert b == LogPath(d, b)[|d| + 1..|d| + 1 + |b|];
    }
  }

  /** Two strings that differ only in equally long middles differ. */
  lemma MiddleDiffers(pre: string, s1: string, s2: string, post: string)
    requires |s1| == |s2| && s1 != s2
    ensures pre + s1 + post != pre + s2 + post
  {
    assert (pre + s1 + post)[|pre|..|pre| + |s1|] == s1;
    assert (pre + s2 + post)[|pre|..|pre| + |s2|] == s2;
  }

  /** Two valid instants have different stamps of the same length. */
  lemma StampsDiffer(t1: DateTime, t2: DateTime)
    requires ValidDateTime(t1) && ValidDateTime(t2) && t1 != t2
    ensures |Stamp(t1)| == |Stamp(t2)| && Stamp(t1) != Stamp(t2)
  {
    StampRoundTrip(t1); StampRoundTrip(t2);
  }

  /** Clip paths with equally long, different stamps differ. */
  lemma PathsDiffer(dir: string, place: string, s1: string, s2: string, post: string)
    requires |s1| == |s2| && s1 != s2
    ensures PathJoin(dir, place + "_" + s1 + post) != PathJoin(dir, place + "_" + s2 + post)
  {
    var pre := dir + "/" + place + "_";
    MiddleDiffers(pre, s1, s2, post);
    assert PathJoin(dir, place + "_" + s1 + post) == pre + s1 + post;
    assert PathJoin(dir, place + "_" + s2 + post) == pre + s2 + post;
  }

  /** Two clips of one place taken at different instants get different
      files (downloader2 naming, same weather). */
  lemma WeatherClipNamesDistinct(dir: string, place: string, weather: string, t1: DateTime, t2: DateTime)
    requires ValidDateTime(t1) && ValidDateTime(t2) && t1 != t2
    ensures VideoPath(dir, WeatherClipName(place, t1, weather)) != VideoPath(dir, WeatherClipName(place, t2, weather))
  {
    StampsDiffer(t1, t2);
    PathsDiffer(dir, place, Stamp(t1), Stamp(t2), "_" + weather + ".mp4");
    assert WeatherClipName(place, t1, weather) + ".mp4" == place + "_" + Stamp(t1) + ("_" + weather + ".mp4");
    assert WeatherClipName(place, t2, weather) + ".mp4" == place + "_" + Stamp(t2) + ("_" + weather + ".mp4");
  }

  /** The same for auto-downloader's names. */
  lemma ClipNamesDistinct(dir: string, place: string, t1: DateTime, t2: DateTime)
    requires ValidDateTime(t1) && ValidDateTime(t2) && t1 != t2
    ensures VideoPath(dir, ClipName(place, t1)) != VideoPath(dir, ClipName(place, t2))
  {
    StampsDiffer(t1, t2);
    PathsDiffer(dir, place, Stamp(t1), Stamp(t2), ".mp4");
  }

  // ---------------------------------------------------------------------
  // Command lines

  /** `youtube-dl --youtube-skip-dash-manifest -f <quality> -g <url>`. */
  function ResolverArgs(quality: string, url: string): seq<string> {
    ["youtube-dl", "--youtube-skip-dash-manifest", "-f", quality, "-g", url]
  }

  /** `ffmpeg -f hls -i <manifest> -t <length> -c copy -an <path>`. */
  function CaptureArgs(manifest: string, length: string, path: string): seq<string> {
    ["ffmpeg", "-f", "hls", "-i", manifest, "-t", length, "-c", "copy", "-an", path]
  }

  /** How a conventional command-line reader sees an argument vector (the
      program name removed): options that take a value, switches, and
      operands. */
  datatype Invocation = Invocation(options: map<string, string>, switches: set<string>, operands: seq<string>)

  predicate IsOptionLike(a: string) { |a| > 0 && a[0] == '-' }

  function ReadArgv(args: seq<string>, valued: set<string>): Invocation
    decreases |args|
  {
    if args == [] then Invocation(map[], {}, [])
    else if args[0] in valued && |args| >= 2 then
      var rest := ReadArgv(args[2..], valued);
      rest.(options := rest.options[args[0] := args[1]])
    else
      var rest := ReadArgv(args[1..], valued);
      if IsOptionLike(args[0]) then rest.(switches := rest.switches + {args[0]})
      else rest.(operands := [args[0]] + rest.operands)
  }

  /** One option with its value, read off the front. */
  lemma ReadValued(o: string, v: string, rest: seq<string>, valued: set<string>)
    requires o in valued
    ensures ReadArgv([o, v] + rest, valued)
      == var r := ReadArgv(rest, valued); r.(options := r.options[o := v])
  {
    assert ([o, v] + rest)[2..] == rest;
  }

  /** One switch read off the front. */
  lemma ReadSwitch(o: string, rest: seq<string>, valued: set<string>)
    requires o !in valued && IsOptionLike(o)
    ensures ReadArgv([o] + rest, valued)
      == var r := ReadArgv(rest, valued); r.(switches := r.switches + {o})
  {
    assert ([o] + rest)[1..] == rest;
  }

  /** One operand read off the front. */
  lemma ReadOperand(a: string, rest: seq<string>, valued: set<string>)
    requires a !in valued && !IsOptionLike(a)
    ensures ReadArgv([a] + rest, valued)
      == var r := ReadArgv(rest, valued); r.(operands := [a] + r.operands)
  {
    assert ([a] + rest)[1..] == rest;
  }

  /** The four options of the capture command, in the order they are read. */
  lemma CaptureOptions(manifest: string, length: string)
    ensures map["-c" := "copy"]["-t" := length]["-i" := manifest]["-f" := "hls"]
         == map["-f" := "hls", "-i" := manifest, "-t" := length, "-c" := "copy"]
  {
    assert "-c"[1] == 'c' && "-t"[1] == 't' && "-i"[1] == 'i' && "-f"[1] == 'f';
  }

  /** The capture command asks ffmpeg to read the manifest as HLS for the
      given length, copy the codec, drop the audio and write the path. */
  lemma CaptureArgvMeaning(manifest: string, length: string, path: string)
    requires !IsOptionLike(path)
    ensures var args := CaptureArgs(manifest, length, path);
      args[0] == "ffmpeg"
      && ReadArgv(args[1..], {"-f", "-i", "-t", "-c"})
         == Invocation(map["-f" := "hls", "-i" := manifest, "-t" := length, "-c" := "copy"], {"-an"}, [path])
  {
    var valued := {"-f", "-i", "-t", "-c"};
    assert "-an" !in valued;
    var s0: seq<string> := [];
    var s1 := [path] + s0;
    var s2 := ["-an"] + s1;
    var s3 := ["-c", "copy"] + s2;
    var s4 := ["-t", length] + s3;
    var s5 := ["-i", manifest] + s4;
    var s6 := ["-f", "hls"] + s5;
    assert CaptureArgs(manifest, length, path)[1..] == s6;
    ReadOperand(path, s0, valued);
    assert ReadArgv(s1, valued) == Invocation(map[], {}, [path]);
    ReadSwitch("-an", s1, valued);
    assert ReadArgv(s2, valued) == Invocation(map[], {"-an"}, [path]);
    ReadValued("-c", "copy", s2, valued);
    var m3 := map["-c" := "copy"];
    assert ReadArgv(s3, valued) == Invocation(m3, {"-an"}, [path]);
    ReadValued("-t", length, s3, valued);
    var m4 := m3["-t" := length];
    assert ReadArgv(s4, valued) == Invocation(m4, {"-an"}, [path]);
    ReadValued("-i", manifest, s4, valued);
    var m5 := m4["-i" := manifest];
    assert ReadArgv(s5, valued) == Invocation(m5, {"-an"}, [path]);
    ReadValued("-f", "hls", s5, valued);
    assert ReadArgv(s6, valued) == Invocation(m5["-f" := "hls"], {"-an"}, [path]);
    CaptureOptions(manifest, length);
  }

  /** The resolver command asks for the URL of the given quality's stream
      (`-g`) without DASH manifests. */
  lemma ResolverArgvMeaning(quality: string, url: string)
    requires !IsOptionLike(url)
    ensures var args := ResolverArgs(quality, url);
      args[0] == "youtube-dl"
      && ReadArgv(args[1..], {"-f"}) == Invocation(map["-f" := quality], {"--youtube-skip-dash-manifest", "-g"}, [url])
  {
    var valued := {"-f"};
    var s0: seq<string> := [];
    var s1 := [url] + s0;
    var s2 := ["-g"] + s1;
    var s3 := ["-f", quality] + s2;
    var s4 := ["--youtube-skip-dash-manifest"] + s3;
    assert ResolverArgs(quality, url)[1..] == s4;
    ReadOperand(url, s0, valued);
    ReadSwitch("-g", s1, valued);
    ReadValued("-f", quality, s2, valued);
    ReadSwitch("--youtube-skip-dash-manifest", s3, valued);
  }

  // ---------------------------------------------------------------------
  // Manifest choice

  /** `p_manifest.communicate()[0].decode().strip().split()`, then
      `manifests[0]` if there is one: the first whitespace-separated token
      of the resolver's output (the strip changes nothing that split does
      not already ignore). */
  function ChooseManifest(out: string): (r: Option<string>)
    ensures r.None? <==> AllSpace(out)
    ensures r.Some? ==> r.value != [] && NoSpace(r.value)
    ensures r.Some? ==> exists k :: 0 <= k && k + |r.value| <= |out| && AllSpace(out[..k])
                                    && out[k..k + |r.value|] == r.value
                                    && (k + |r.value| == |out| || IsSpace(out[k + |r.value|]))
  {
    FirstToken(out)
  }

  /** What `download_ydl_ffmpeg` starts: with no manifest it hands back the
      resolver process and starts nothing else; otherwise the capture. */
  datatype Launch = ResolverOnly | Capture(argv: seq<string>)

  function LaunchFor(resolverOut: string, length: string, path: string): (l: Launch)
    ensures l.ResolverOnly? <==> AllSpace(resolverOut)
    ensures l.Capture? ==> l.argv == CaptureArgs(ChooseManifest(resolverOut).value, length, path)
  {
    match ChooseManifest(resolverOut)
    case None => ResolverOnly
    case Some(m) => Capture(CaptureArgs(m, length, path))
  }
}
