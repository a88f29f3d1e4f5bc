/** The argument handling of the crop preview tool: the `--crop` string
    becomes the box handed to `preview_crop`, and `--seconds` (when given)
    replaces `--frame` as the frame to show.  Frame rate and seconds are
    floats in the tool and exact reals here. */
module Preview {
  import opened Wrappers
  import opened Text
  import opened Images

  /** Why the tool stops before reading a frame. */
  datatype PreviewError =
    | InvalidVideo             // frame count 0: exit(1)
    | NotAnInteger(field: string)  // `int(d)` raises
    | WrongCount(count: nat)   // not four fields: exit(1)

  /** The crop with no `--crop`: nothing is darkened. */
  const NoCrop := Box(0, -1, 0, -1)

  /** `int(d)` of every field. */
  function ParseAll(fields: seq<string>): (r: seq<Option<int>>)
    ensures |r| == |fields|
  {
    seq(|fields|, k requires 0 <= k < |fields| => ParseInt(fields[k]))
  }

  /** `crop = (0, -1, 0, -1)` for an empty string, otherwise
      `tuple([int(d) for d in crop.split(',')])`, which must have four
      fields bound in the order L, R, T, B. */
  function ParseCrop(crop: string): (r: Result<Box, PreviewError>)
    ensures crop == "" ==> r == Ok(NoCrop)
    ensures crop != "" && r.Ok? ==> var fields := SplitOn(crop, ',');
      && |fields| == 4
      && ParseInt(fields[0]) == Some(r.value.l) && ParseInt(fields[1]) == Some(r.value.r)
      && ParseInt(fields[2]) == Some(r.value.t) && ParseInt(fields[3]) == Some(r.value.b)
  {
    if crop == "" then Ok(NoCrop)
    else
      var fields := SplitOn(crop, ',');
      match Collect(ParseAll(fields))
      case Err(k) => Err(NotAnInteger(fields[k]))
      case Ok(vs) =>
        if |vs| != 4 then Err(WrongCount(|vs|))
        else Ok(Box(vs[0], vs[1], vs[2], vs[3]))
  }

  /** A non-empty crop of integer fields is refused exactly when it does
      not have four of them. */
  lemma CountChecked(crop: string)
    requires crop != ""
    requires forall k :: 0 <= k < |SplitOn(crop, ',')| ==> ParseInt(SplitOn(crop, ',')[k]).Some?
    ensures ParseCrop(crop).Err? <==> |SplitOn(crop, ',')| != 4
    ensures ParseCrop(crop).Err? ==> ParseCrop(crop) == Err(WrongCount(|SplitOn(crop, ',')|))
  {
    CollectOk(ParseAll(SplitOn(crop, ',')));
  }

  /** The first field `int()` rejects aborts the tool, whatever the count. */
  lemma BadFieldFirst(crop: string, k: nat)
    requires crop != "" && k < |SplitOn(crop, ',')|
    requires ParseInt(SplitOn(crop, ',')[k]).None?
    requires forall m :: 0 <= m < k ==> ParseInt(SplitOn(crop, ',')[m]).Some?
    ensures ParseCrop(crop) == Err(NotAnInteger(SplitOn(crop, ',')[k]))
  {
    var parsed := ParseAll(SplitOn(crop, ','));
    assert forall m :: 0 <= m < |parsed| ==> parsed[m] == ParseInt(SplitOn(crop, ',')[m]);
    CollectFirstFailure(parsed, k);
  }

  /** `L,R,T,B` as a user writes it. */
  function FormatCrop(c: Box): string {
    Join(Parts(c), ',')
  }

  function Parts(c: Box): seq<string> {
    [IntToString(c.l), IntToString(c.r), IntToString(c.t), IntToString(c.b)]
  }

  lemma FormatSplits(c: Box)
    ensures SplitOn(FormatCrop(c), ',') == Parts(c)
    ensures FormatCrop(c) != ""
  {
    var parts := Parts(c);
    IntToStringNoComma(c.l);
    IntToStringNoComma(c.r);
    IntToStringNoComma(c.t);
    IntToStringNoComma(c.b);
    SplitJoin(parts, ',');
    assert FormatCrop(c) == parts[0] + [','] + Join(parts[1..], ',');
  }

  lemma PartsParse(c: Box)
    ensures Collect(ParseAll(Parts(c))) == Ok([c.l, c.r, c.t, c.b])
  {
    ParseIntToString(c.l);
    ParseIntToString(c.r);
    ParseIntToString(c.t);
    ParseIntToString(c.b);
    ParseFour(IntToString(c.l), IntToString(c.r), IntToString(c.t), IntToString(c.b), c.l, c.r, c.t, c.b);
  }

  lemma ParseFour(f0: string, f1: string, f2: string, f3: string, a: int, b: int, c: int, d: int)
    requires ParseInt(f0) == Some(a) && ParseInt(f1) == Some(b) && ParseInt(f2) == Some(c) && ParseInt(f3) == Some(d)
    ensures Collect(ParseAll([f0, f1, f2, f3])) == Ok([a, b, c, d])
  {
    var fields, vs := [f0, f1, f2, f3], [a, b, c, d];
    assert forall k :: 0 <= k < 4 ==> ParseInt(fields[k]) == Some(vs[k]) by {
      forall k | 0 <= k < 4 ensures ParseInt(fields[k]) == Some(vs[k]) {
        if k == 0 {} else if k == 1 {} else if k == 2 {} else {}
      }
    }
    ParseAllOk(fields, vs);
  }

  /** Fields that all parse are collected into their values. */
  lemma ParseAllOk(fields: seq<string>, vs: seq<int>)
    requires |fields| == |vs| && forall k :: 0 <= k < |fields| ==> ParseInt(fields[k]) == Some(vs[k])
    ensures Collect(ParseAll(fields)) == Ok(vs)
  {
    var parsed := ParseAll(fields);
    CollectOk(parsed);
    assert Collect(parsed).value == vs;
  }

  /** Writing a box as `L,R,T,B` and parsing it gives the box back. */
  lemma CropRoundTrip(c: Box)
    ensures ParseCrop(FormatCrop(c)) == Ok(c)
  {
    FormatSplits(c);
    PartsParse(c);
  }

  /** `int(x)` on a float: truncation toward zero. */
  function Truncate(x: real): (r: int)
    ensures x >= 0.0 ==> r as real <= x < r as real + 1.0
    ensures x < 0.0 ==> r as real - 1.0 < x <= r as real
  {
    if x >= 0.0 then x.Floor else -((-x).Floor)
  }

  /** `frame_num = args.frame`, replaced by `int(fps * args.seconds)` when
      `--seconds` is not its default -1. */
  function FrameNumber(frame: int, seconds: real, fps: real): int {
    if seconds != -1.0 then Truncate(fps * seconds) else frame
  }

  /** Without `--seconds` the frame is `--frame`; with it the frame is the
      whole number of frames played by then, and `--frame` does not
      matter. */
  lemma SecondsSupersedeFrame(frame: int, other: int, seconds: real, fps: real)
    ensures FrameNumber(frame, -1.0, fps) == frame
    ensures seconds != -1.0 ==> FrameNumber(frame, seconds, fps) == FrameNumber(other, seconds, fps)
    ensures seconds != -1.0 && fps * seconds >= 0.0 ==>
      FrameNumber(frame, seconds, fps) as real <= fps * seconds < FrameNumber(frame, seconds, fps) as real + 1.0
  {
  }

  /** What `main` hands to `preview_crop` after its checks: the box and the
      frame to show, or why it exits first.  The frame count is checked
      before the crop string. */
  function PreviewArgs(frameCount: int, fps: real, crop: string, frame: int, seconds: real): (r: Result<(Box, int), PreviewError>)
    ensures frameCount == 0 ==> r == Err(InvalidVideo)
    ensures frameCount != 0 && ParseCrop(crop).Err? ==> r == Err(ParseCrop(crop).error)
    ensures r.Ok? ==> Ok(r.value.0) == ParseCrop(crop) && r.value.1 == FrameNumber(frame, seconds, fps)
    ensures frameCount != 0 && ParseCrop(crop).Ok? ==> r == Ok((ParseCrop(crop).value, FrameNumber(frame, seconds, fps)))
  {
    if frameCount == 0 then Err(InvalidVideo)
    else match ParseCrop(crop)
      case Err(e) => Err(e)
      case Ok(box) => Ok((box, FrameNumber(frame, seconds, fps)))
  }

  /** With no `--crop` and no `--seconds` the tool previews frame `--frame`
      undarkened. */
  lemma DefaultsPreviewWholeFrame(frameCount: int, fps: real, frame: int)
    requires frameCount != 0
    ensures PreviewArgs(frameCount, fps, "", frame, -1.0) == Ok((NoCrop, frame))
  {
  }
}
