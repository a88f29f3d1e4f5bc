# Rainy livestream downloader — a Dafny model

This project models the decision logic of a set of scripts. The scripts watch a spreadsheet of outdoor webcam livestreams, ask a weather service which places are rainy, and record short clips of those places. They then post-process the clips into rain / background training data. The model covers:

- **Candidate selection.** Covers `find_places` in `downloader2.py` and `find_rainy_places` in `auto-downloader.py`:
  - header rows are skipped;
  - the "Not Usable" column can force a skip;
  - blank coordinates are skipped;
  - an hour-granularity daylight gate;
  - API-key fallback;
  - a dictionary in which a later row overwrites an earlier one.
- **The download supervisor.** Covers `download` and `download_ydl_ffmpeg` in both downloaders:
  - clip and log names, the `HH:MM:SS` clip length, and the two command lines;
  - which manifest is chosen;
  - the once-a-second polling loop with its deadline `1.25*seconds + 60` (the code's factor; the comment above the loop says `1.5`);
  - which jobs are killed and have their clip removed;
  - the exit-code list;
  - which clips are moved, and where.
- **The main loops.** downloader2 keeps a retention tracker: two dictionaries updated in place, holding a per-place countdown of extra cycles. auto-downloader merges the previous cycle's places with the current ones. Both back off for 60 seconds when no download succeeded.
- **Post-processing.** Covers:
  - the metadata-sheet reader `read_spreadsheet`: date carry-down, ordered checks, and per-prefix scene counts;
  - the two rain masks;
  - the crop preview and the crop checks of `read_video`;
  - the crop-argument parsing of `processor_preview.py`.
- **The SPAN background picker.** Covers:
  - `get_max_occur_number`;
  - the per-pixel interval of `job` and its `maps`;
  - the eight regions of `computer_percentile`, run one after the other, and the final argmax;
  - the segment arithmetic of `SPAN_gen_rolling`.

Network calls, processes, clocks and files are parameters:

- The weather service is an oracle from (latitude, longitude, key) to a reply, or to nothing when the call raises.
- Processes are abstract behaviours, "exits at poll tick t with code c" or "hangs".
- The files are a set of path strings.
- `utcnow()` is a given instant, and whether a path exists is a given predicate.

The files and their modules:

| file | module | models |
|---|---|---|
| wrappers.dfy | Wrappers | `Option`, `Result`, collecting a list of parses |
| text.dfy | Text | `strip`, `lower`, `split`, `int()`, `{n:02}` |
| weather.dfy | Weather | `is_raining`, `find_weather`, both key-fallback policies |
| selector.dfy | Selector | `find_places`, `find_rainy_places` |
| naming.dfy | Naming | time stamps, file names, argument vectors, manifest choice |
| supervisor.dfy | Supervisor | both `download` functions |
| retention.dfy | Retention | downloader2's retention tracker (class `Tracker`) |
| rainy_loop.dfy | RainyLoop | auto-downloader's main loop (class `Loop`) |
| scenes.dfy | Scenes | `read_spreadsheet` |
| images.dfy | Images | `get_rain_mask`, `get_rain_mask_binary`, `preview_crop`, `read_video`'s checks |
| preview.dfy | Preview | `processor_preview.py`'s `main` |
| span.dfy | Span | `processor_utils_spanet.py` |

Where the code and its own comments or help texts disagree, the model follows the code. These are the places:

- **The deadline.** The comment above both polling loops says `1.5*seconds+60` (downloader2.py:278-280, auto-downloader.py:259-261). The code tests `1.25*seconds + 60` (downloader2.py:287, auto-downloader.py:268). The model uses `1.25` (`Supervisor.LastPollTick`).
- **Retention.** The `--extra` help (downloader2.py:322) and the comment above the two dictionaries (downloader2.py:343) say that `extra` is the number of videos still downloaded after a place stops being reported as rainy. With `extra = 1`, a place seen in cycle 1 only would be downloaded in cycles 1 and 2.
  - The code first sets the count to `extra + 1`, then decrements it in the same cycle, and deletes the entry at 0. So the place is downloaded in cycle 1 only: `Retention.OneExtraCycle`.
  - The model keeps the code's behaviour (`Retention.Tracker.Cycle`). It also gives the intended one (`Retention.Tracker.CycleFixed`); see Findings.
- **The binary rain mask.** The comment at processor_utils.py:143 says a pixel is rain when it is brighter across all three channels. The call at processor_utils.py:149 compares only two (Findings row 1).
- **auto-downloader's timeout.** The `--notimeout` help (auto-downloader.py:299) says that the option turns off the timeout and the kill. The guard at auto-downloader.py:262 runs the kill loop only with `--notimeout` (Findings row 2).

The other Findings rows (the crop test of `read_video` and the row count of the SPAN maps) contradict no comment. They contradict what the code around them does.

## Model

| member | source | states |
|---|---|---|
| Text.Strip | downloader2.py:196 | `strip()` leaves a string that is empty or starts and ends with non-whitespace |
| Text.StripIsSlice | downloader2.py:196 | what `strip()` returns is a slice of the cell, with only whitespace on either side |
| Text.Lower | downloader2.py:196 | `lower()` maps every character, keeping the length |
| Text.ForcedSkipIff | downloader2.py:195-198 | the forced-skip test holds exactly when the stripped cell is `x` or `X` |
| Text.FirstToken | downloader2.py:133-138 | `split()[0]` is None exactly for an all-whitespace output; otherwise it is the first maximal non-space run |
| Text.SplitOn | processor_preview.py:28 | `split(',')` gives at least one field, and no field contains a comma |
| Text.JoinSplit | processor_preview.py:28 | joining the fields of `split(',')` with commas gives the string back |
| Text.SplitJoin | processor_preview.py:28 | splitting comma-joined comma-free fields gives the fields back |
| Text.PadValue | downloader2.py:114 | `{n:0w}` reads back as n, and fills exactly w characters when n < 10^w |
| Text.ParseIntToString | processor_preview.py:28 | `int(str(i)) == i` |
| Weather.WeatherOf | downloader2.py:67-70 | the weather is the lowercased first `main` exactly when the reply has a non-empty weather list |
| Weather.FirstWeather | downloader2.py:217-222 | the first key whose call does not raise decides the weather; None iff every key raises |
| Weather.RainWithFallback | auto-downloader.py:198-201 | key 0's answer is used when its call does not raise; otherwise key 1's; an exception of the second call propagates |
| Weather.RainFallbackUsesTwoKeys | auto-downloader.py:198-201 | keys after the second never change the answer |
| Selector.ScanSheets | downloader2.py:186-190 | the loops over all worksheets and their header-skipped rows fold the row step in order, and stop at the first exception |
| Selector.FindPlaces | downloader2.py:162-225 | `find_places` returns the dictionary of the row fold, or its exception |
| Selector.PlacesRowEffect | downloader2.py:191-224 | an eligible row sets `places[city] = [url, "best", weather]` and changes no other city, with the weather of the first key that answers or, when every key raises, the `weather` left from an earlier row; any other row changes nothing |
| Selector.LastAnsweredIsLatest | downloader2.py:217-224 | `weather` is bound iff some eligible row got an answer, and then holds the answer of the latest such row |
| Selector.WeatherCarried | downloader2.py:190-224 | the fold's `weather` variable equals LastAnswered of the rows read |
| Selector.PlacesSelected | downloader2.py:190-224 | a city is selected iff one of its rows is eligible. Its value comes from the last eligible row, with that row's weather when some key answered and otherwise the weather of the latest earlier row that got an answer; the weather never excludes a row |
| Selector.BlankNeverSelected | downloader2.py:200-203 | a city whose rows all lack a coordinate is never selected |
| Selector.AllKeysFailFirst | downloader2.py:217-224 | when every key fails on the first eligible row, `weather` is unbound and the selection raises |
| Selector.FindRainyPlaces | auto-downloader.py:144-207 | `find_rainy_places` returns the fold of the rainy row step |
| Selector.RainySelected | auto-downloader.py:171-206 | a city is selected iff one of its eligible rows reports rain; its value is `[url, "best"]` of the last such row |
| Selector.PierScenario | auto-downloader.py:171-206 | one rainy row "Pier" gives exactly `{"Pier": ["u1", "best"]}` |
| Naming.ClipLength | downloader2.py:260 | `strftime('%H:%M:%S', gmtime(s))` is eight characters that read back as `s mod 86400` |
| Naming.StampRoundTrip | downloader2.py:113-114 | the UTC stamp has 19 characters, reads back as the instant, and starts with the day folder |
| Naming.VideoAndLogDiffer | downloader2.py:115-117 | a clip path and its log path share the stem and differ |
| Naming.LogIsNeverVideo | downloader2.py:116-117 | no log path equals any clip path |
| Naming.LogPathInjective | downloader2.py:117-120 | two log paths in one folder are equal iff their stems are |
| Naming.WeatherClipNamesDistinct | downloader2.py:113-116 | downloader2 names two clips of a place at different instants differently |
| Naming.ClipNamesDistinct | auto-downloader.py:96-99 | auto-downloader names two clips of a place at different instants differently |
| Naming.CaptureArgvMeaning | downloader2.py:142-149 | the capture command reads the manifest as HLS for the given length, copies the codec, drops audio and writes the path |
| Naming.ResolverArgvMeaning | downloader2.py:123-127 | the resolver command asks for the stream URL of the given quality without DASH manifests |
| Naming.ChooseManifest | downloader2.py:133-138 | the manifest is the first whitespace token of the resolver output, None iff there is none |
| Naming.LaunchFor | downloader2.py:134-160 | without a manifest only the resolver is returned; otherwise the capture starts with the chosen manifest |
| Supervisor.Poll | downloader2.py:283 | `p.poll()` gives the exit code once the process has exited, else None |
| Supervisor.Spawn | downloader2.py:113-160 | for a resolver that has exited: a job's clip path is `tmp/<stem>.mp4`. Without a manifest it runs the finished resolver process; otherwise the capture, whose clip file exists only when the world says the capture writes it |
| Supervisor.StartJobs | downloader2.py:263-272 | the comprehension starts the jobs in order, and ends as soon as a log already exists or a resolver never exits |
| Supervisor.DispatchErrSticks | downloader2.py:263-272 | one failing start fails the whole comprehension with that error |
| Supervisor.DispatchShape | downloader2.py:263-272 | job i is the one built for request i; the new files are its log and, when its capture wrote one, its clip |
| Supervisor.DispatchOkIff | downloader2.py:117-133 | all jobs start iff no log exists yet, the stems are pairwise different and every youtube-dl exits |
| Supervisor.LastPollTick | downloader2.py:287 | the first tick past `1.25*seconds + 60` |
| Supervisor.Exited | downloader2.py:284-285 | the not-None codes are as many as the jobs iff every job has exited |
| Supervisor.EndTick | downloader2.py:281-294 | the loop breaks at the first tick where all jobs have exited or the deadline has passed |
| Supervisor.KillSet | downloader2.py:288-293 | the removed paths are those of the jobs whose `returncode != 0` at the last poll |
| Supervisor.PollLoop | downloader2.py:281-294 | stops at the tick where every job has exited or the deadline has passed, and deletes the unfinished clips only when the deadline ended it |
| Supervisor.KillLoop | downloader2.py:288-293 | removes exactly the clips of the jobs not reported exited with code 0 at the last poll |
| Supervisor.MoveLoop | downloader2.py:301-305 | the files after moving job by job are those of moving every code-0 clip to its target |
| Supervisor.Supervise | downloader2.py:281-306 | the polling, kill, wait and move loops give the supervised outcome |
| Supervisor.NoZeroNoMove | downloader2.py:301-305 | with no zero code, nothing is moved |
| Supervisor.MoveKeepsFailed | downloader2.py:301-305 | a clip stays in the temporary folder iff it existed and its code is not 0 |
| Supervisor.MoveLeavesOthers | downloader2.py:301-305 | paths that are no job's clip or target are untouched |
| Supervisor.MoveAddsTargets | downloader2.py:301-305 | a target appears iff its job has code 0 and the clip existed |
| Supervisor.HangIsKilledAtDeadline | downloader2.py:287-294 | a hanging job keeps the loop going to the deadline; it is killed (code -9) and its clip deleted |
| Supervisor.EarlyExit | downloader2.py:285-286 | when every job exits before the deadline, nothing is killed and the codes are the jobs' own |
| Supervisor.CodesPerJob | downloader2.py:296 | one code per job in job order; a job still running at the break reports SIGKILL |
| Supervisor.StallsIffHang | auto-downloader.py:262-277 | without the loop, `p.wait()` blocks forever iff some job hangs |
| Supervisor.MovedExactlyTheZeros | downloader2.py:296-305 | exactly the code-0 jobs are moved: their clip leaves and their target appears; failed clips stay unless killed |
| Supervisor.Backoff | downloader2.py:373-378 | the loop sleeps 60 s iff no code is 0 |
| Supervisor.BackoffMovesNothing | downloader2.py:373-378 | a backoff cycle moved no clip |
| Supervisor.DeadlineTicks | downloader2.py:287 | the deadline falls at tick 73 for 10 s clips and at tick 211 for 120 s clips |
| Supervisor.HungSecondJob | downloader2.py:281-306 | a finished job and a hanging one give codes `[0, -9]`; the finished clip moves and the hung one is deleted |
| Supervisor.WeatherRequests | downloader2.py:263-272 | downloader2's stems carry the weather, and its clips go to `final/<day>/<weather>` |
| Supervisor.PlainRequests | auto-downloader.py:245-253 | auto-downloader's stems have no weather; its clips go to `final/<day>` |
| Supervisor.Download | downloader2.py:227-306 | downloader2's `download` runs the loop when `timeout` is set |
| Supervisor.AutoDownload | auto-downloader.py:209-285 | auto-downloader's `download` runs the loop only when `timeout` is off |
| Supervisor.AutoDownloadFixed | auto-downloader.py:258-262 | the corrected guard runs the loop when `timeout` is on |
| Supervisor.DownloadLayout | downloader2.py:254-306 | the returned folder is `final/<day>`; job i's clip is `tmp/<stem>.mp4` and goes to `final/<day>/<weather>/<stem>.mp4` |
| Supervisor.ResolverHangStalls | downloader2.py:128-133 | a youtube-dl that never exits blocks `download` for ever, whatever `timeout` is, since `communicate()` waits before the polling loop starts |
| Supervisor.BlockedAt | downloader2.py:117-133 | the first request whose youtube-dl never exits ends the start-up comprehension, after its log was created |
| Supervisor.HangNeedsTheLoop | auto-downloader.py:262-277 | a hanging capture blocks forever without the loop, and is killed with the loop |
| Supervisor.InvertedGuardStalls | auto-downloader.py:262 | under the default options auto-downloader blocks on a hanging capture; the corrected guard kills it |
| Retention.Bumped | downloader2.py:358-359 | every new place gets `extra + 1`; other counts are unchanged |
| Retention.StepKeepsAligned | downloader2.py:358-367 | the two dictionaries keep the same keys, so the `del` never raises |
| Retention.SelectedGetsExtra | downloader2.py:358-367 | a newly selected place ends the cycle with count `extra` and the fresh target, or is dropped when `extra` is 0 |
| Retention.UnselectedCountsDown | downloader2.py:362-367 | an unselected place keeps its target, loses one count, and leaves at 0 |
| Retention.Selection | downloader2.py:348-354 | a raising selection counts as selecting nothing |
| Retention.CyclesKeepAligned | downloader2.py:345-367 | alignment holds over any run of cycles |
| Retention.Retained | downloader2.py:358-367 | a place last seen in cycle k is present i cycles later iff `extra > i` (or `extra < 0`), with count `extra - i` and the target of cycle k |
| Retention.OneExtraCycle | downloader2.py:358-367 | with `extra = 1`, a place selected in the first of three cycles and in neither of the next two is downloaded in the first cycle only |
| Retention.CyclesFixed | downloader2.py:356-359 | the corrected cycles are the written ones with one more count |
| Retention.RetainedFixed | downloader2.py:356-367 | corrected: a place last seen in cycle k is present in cycles k to k + extra |
| Retention.Tracker.constructor | downloader2.py:345-346 | both dictionaries start empty |
| Retention.Tracker.Cycle | downloader2.py:358-367 | one cycle updates both dictionaries as the retention step says, keeping them aligned |
| Retention.Tracker.CycleFixed | downloader2.py:356-367 | the cycle with the count the `--extra` help describes |
| Retention.Tracker.Advance | downloader2.py:358-367 | assign, update and count down, as one step |
| Retention.Tracker.Assign | downloader2.py:358-359 | the assignment loop sets every new place's count |
| Retention.Tracker.CountDownAll | downloader2.py:363-367 | the decrement-and-delete loop over a key snapshot drops exactly the entries that reach 0 |
| RainyLoop.Merge | auto-downloader.py:321 | `{**old, **new}` has the keys of both, with new values winning |
| RainyLoop.Next | auto-downloader.py:313-335 | a raising selection sleeps 30 s and keeps the old places. Otherwise the merge is downloaded, and the old places are replaced only when some code is 0 |
| RainyLoop.CarriedOneCycle | auto-downloader.py:321-335 | a place rainy in a successful cycle is attempted again in the next cycle, with its newest value |
| RainyLoop.FailedCycleForgets | auto-downloader.py:328-333 | a place rainy only in a cycle with no success is not carried on |
| RainyLoop.AttemptedComeFromSelections | auto-downloader.py:321 | every attempted place is rainy now or was in the last successful cycle |
| RainyLoop.Loop.constructor | auto-downloader.py:312 | the previous places start empty |
| RainyLoop.Loop.Cycle | auto-downloader.py:314-335 | one iteration of the loop updates the previous places as the cycle function says |
| Scenes.Prefix | processor_utils.py:67 | `split("-", 1)[0]` is the part before the first dash; None, meaning it raises, iff there is no dash |
| Scenes.Tally | processor_utils.py:68-71 | `scene_names[name]` grows by one and nothing else changes |
| Scenes.CheckAccepts | processor_utils.py:27-50 | a row yields a scene iff it is wide enough, has a date and passes every check |
| Scenes.CheckErrors | processor_utils.py:24-29 | on a wide table, the checks of a row raise only when it names both clips before any dated row (the integer casts and the name split can still raise afterwards, see Scenes.ReadSpreadsheet) |
| Scenes.ReadSpreadsheet | processor_utils.py:16-72 | the reader is the row fold from row 1, or the first exception |
| Scenes.Rectangular | processor_utils.py:18-19 | `data.shape` unpacks iff the sheet is non-empty and rectangular |
| Scenes.ReadAll | processor_utils.py:24-71 | the loop over rows 1.. is the row fold, stopping at the first exception |
| Scenes.CarriedDate | processor_utils.py:24-26 | the date used is the most recent non-empty column-0 cell at or above the row |
| Scenes.RowYieldsScene | processor_utils.py:27-71 | an accepted row appends the scene of columns 5-14 under the carried date and tallies its prefix; any other row changes only the date |
| Scenes.NamesCountScenes | processor_utils.py:67-72 | `scene_names[p]` is the number of scenes whose name starts `p-`, and there is no other key |
| Scenes.TallySum | processor_utils.py:68-72 | counting one more name adds one to the sum of the counts |
| Scenes.CountsSumToScenes | processor_utils.py:67-72 | the counts of `scene_names` add up to `len(scenes)` |
| Scenes.UndatedSceneRaises | processor_utils.py:24-29 | a scene row before any dated row raises |
| Images.RainMask | processor_utils.py:132-138 | the mask has the frame's shape |
| Images.RainMaskIsBrightening | processor_utils.py:132-138 | on 8-bit inputs each mask value is `max(0, rain - clean)` |
| Images.Exceeds | processor_utils.py:143-147 | a channel's clip is 1 iff rain is more than 20 above clean |
| Images.RainMaskBinary | processor_utils.py:140-150 | as written, a pixel is 1 iff channels 0 and 1 exceed clean + 20 |
| Images.RainMaskBinaryFixed | processor_utils.py:143 | corrected: a pixel is 1 iff all three channels exceed clean + 20 |
| Images.BlueChannelIgnored | processor_utils.py:149 | a pixel brighter only in channels 0 and 1 is rain as written, but not when corrected |
| Images.SliceBound | processor_utils.py:169-172 | a Python slice bound lands inside the axis |
| Images.Defaulted | processor_utils.py:159-167 | r = -1 becomes the width, b = -1 the height, and l or t = -1 becomes 0 |
| Images.DarkenedOutsideBox | processor_utils.py:169-172 | for a box inside the image, a pixel is darkened iff it lies outside the box |
| Images.NoCropDarkensNothing | processor_utils.py:159-172 | `(0, -1, 0, -1)` darkens nothing |
| Images.NegativeRightCountsFromEnd | processor_utils.py:160-170 | r = -2 darkens the last two columns |
| Images.DarkenBox | processor_utils.py:169-172 | one slice assignment writes the original's value / 3 inside the slice and leaves the rest |
| Images.PreviewCrop | processor_utils.py:152-172 | a fresh copy whose darkened pixels are the original / 3, only once at corners; other pixels are unchanged |
| Images.Allocate | processor_utils.py:98-114 | negative r and b are replaced by the frame size; the array has `end - start` frames of the replaced height and width |
| Images.ReadVideo | processor_utils.py:80-103 | as written: a bad crop is tested on the raw bounds before replacement, then the frame count |
| Images.ReadVideoFixed | processor_utils.py:89-101 | corrected: the crop is tested after replacement, so the frames are non-empty |
| Images.WholeFrameRejected | processor_utils.py:89-91 | as written, the whole-frame crop `(0, -1, 0, -1)` is always rejected |
| Images.WholeFrameAcceptedFixed | processor_utils.py:98-103 | corrected, the whole-frame crop gives full-size frames |
| Images.BoxInsideFrame | processor_utils.py:89-114 | for a box inside the frame both orders agree, and the frames have the box's size |
| Preview.ParseAll | processor_preview.py:28 | one `int()` attempt per field |
| Preview.ParseCrop | processor_preview.py:25-32 | empty gives `(0, -1, 0, -1)`; otherwise four integer fields bound as L, R, T, B |
| Preview.CountChecked | processor_preview.py:29-31 | integer fields are refused iff there are not four, with the count |
| Preview.BadFieldFirst | processor_preview.py:28 | the first non-integer field aborts, whatever the count |
| Preview.FormatSplits | processor_preview.py:28 | `L,R,T,B` splits into its four numbers |
| Preview.PartsParse | processor_preview.py:28 | the four numbers parse back |
| Preview.CropRoundTrip | processor_preview.py:25-32 | parsing `L,R,T,B` written from a box gives the box |
| Preview.Truncate | processor_preview.py:37 | `int(x)` truncates toward zero |
| Preview.SecondsSupersedeFrame | processor_preview.py:34-37 | without `--seconds` the frame is `--frame`; with it, the whole frames played by then, whatever `--frame` is |
| Preview.PreviewArgs | processor_preview.py:19-37 | frame count 0 exits first, then a crop error; otherwise the result is Ok with the parsed box and the frame number |
| Preview.DefaultsPreviewWholeFrame | processor_preview.py:25-37 | with no options, frame `--frame` is previewed undarkened |
| Span.CountsBounded | processor_utils_spanet.py:5 | entries below v and equal to v together are at most all entries |
| Span.ArgMax | processor_utils_spanet.py:6 | `np.argmax` is the first position of the largest entry |
| Span.Bincount | processor_utils_spanet.py:5 | `np.bincount` has one count per value from 0 to the largest |
| Span.MaxOccur | processor_utils_spanet.py:4-8 | `(v, c)`: c is v's count, at least every count, and every smaller value's count is below c |
| Span.Sort | processor_utils_spanet.py:18 | `sorted` is sorted and a permutation |
| Span.Indices | processor_utils_spanet.py:18 | the comprehension lists positions holding v |
| Span.SortedBlock | processor_utils_spanet.py:18 | in a sorted list, the positions of v are a block starting after the entries below v |
| Span.ModeBlock | processor_utils_spanet.py:17-18 | the mode's positions in the sorted history are a non-empty block |
| Span.IntervalBounds | processor_utils_spanet.py:17-20 | `index[0]` is the count below the mode, and `index[-1]` adds the mode's count minus one |
| Span.PercentBounds | processor_utils_spanet.py:19-20 | `0 <= percent_min <= percent_max < 100` |
| Span.ModeRun | processor_utils_spanet.py:18 | every sorted entry from `index[0]` to `index[-1]` is the mode |
| Span.MarkedIff | processor_utils_spanet.py:23 | j is marked iff `first*100 <= j*n <= last*100` |
| Span.RegionPixelsLength | processor_utils_spanet.py:15-16 | the loops visit rows times columns pixels |
| Span.VisitedRows | processor_utils_spanet.py:14-16 | `maps` never has more rows than the loops visit pixels |
| Span.AppendRow | processor_utils_spanet.py:15-20 | one pass of the outer loop extends both lists by that row's pixels |
| Span.RowPercents | processor_utils_spanet.py:16-20 | the inner loop appends each pixel's fractions in column order |
| Span.RowsPercents | processor_utils_spanet.py:15-20 | the outer loop appends the rows in order |
| Span.RegionPercents | processor_utils_spanet.py:15-20 | `percent_min`/`percent_max` are the visited pixels' fractions in row-major order |
| Span.MarkMaps | processor_utils_spanet.py:14-24 | `maps[i, j]` is 1 iff `percent_min[i] <= j <= percent_max[i]`, for i below the row count |
| Span.Job | processor_utils_spanet.py:10-25 | `maps` has `int(h2-h1)*int(w2-w1)` rows of 101; row i marks the interval of the i-th visited pixel |
| Span.RowMajor | processor_utils_spanet.py:15-16 | pixel (a, b) is visited at position `(a-h1)*width + (b-w1)` |
| Span.RegionPixelsCount | processor_utils_spanet.py:15-16 | a region's loops visit each of its pixels exactly once |
| Span.Regions | processor_utils_spanet.py:39-46 | eight regions, all inside the frame |
| Span.EveryPixelOnce | processor_utils_spanet.py:39-46 | the eight regions' truncated ranges visit every pixel of the frame exactly once |
| Span.MarkCount | processor_utils_spanet.py:84 | a column gets at most one vote per row |
| Span.ColumnSumMarks | processor_utils_spanet.py:84 | a column sum of a marked map is its number of marks |
| Span.AddColumns | processor_utils_spanet.py:83-84 | every column sum of one region's map is added in |
| Span.Percentile | processor_utils_spanet.py:83-84 | the percentile is the first j in 0..100 with the most votes over the eight maps |
| Span.ComputerPercentile | processor_utils_spanet.py:27-85 | the sequentialised `computer_percentile` returns that percentile |
| Span.MapRowsFixedCounts | processor_utils_spanet.py:14-16 | corrected row count equals the pixels visited |
| Span.JobFixed | processor_utils_spanet.py:10-25 | corrected `job` marks every visited pixel |
| Span.FixedRowsCoverFrame | processor_utils_spanet.py:39-46 | corrected, the eight maps have H*W rows in all |
| Span.OneRowFrameMarksNothing | processor_utils_spanet.py:39-46 | as written, an H=1, W=4 frame gives every map 0 rows, though the bottom maps visit one pixel each |
| Span.OneRowFramePercentileZero | processor_utils_spanet.py:83-84 | so on such a frame the percentile is 0 whatever the pixels |
| Span.Segments | processor_utils_spanet.py:96 | `n // num_frames` is the floor quotient, or 0 segments for a negative `num_frames` |
| Span.SegmentFits | processor_utils_spanet.py:98-99 | every segment slice lies inside the frames |
| Span.TrailingFramesZero | processor_utils_spanet.py:96-105 | frames after the last full segment stay zero |
| Span.SegmentFramesShareResult | processor_utils_spanet.py:98-105 | every frame of segment i gets the result of segment i |
| Span.SpanGenRolling | processor_utils_spanet.py:95-106 | `num_frames == 0` raises; otherwise every frame gets its segment's result, or zero |

## Left out

- Network and sheet access: the weather replies, the spreadsheet contents and the sheet metadata are inputs. The gspread client, `requests` and JSON decoding are not modelled.
- Supervisor.Spawn: youtube-dl's output is a given string, so a `.decode()` error on output that is not UTF-8 is not modelled. Whether youtube-dl exits is modelled; when it exits does not matter to `communicate()`.
- Processes and time: processes are abstract behaviours, and poll tick t is taken to be t seconds after the start. Real scheduling, `time.sleep`, the wall clock and the cost of polling are not modelled. Killing a process that has already exited keeps its code.
- Whether ffmpeg creates its output file is an input of each place (`writesClip`). A clip that is created is taken to exist from the launch on; when during the run ffmpeg writes it is not modelled.
- Scenes.ClipPath: `folder_path / date / (name + '.mp4')` is plain text joined with `/`. `pathlib` normalisation (`//`, `./`) and an absolute `date` replacing the folder are not modelled.
- Scenes.ReadRow: the `astype(np.int)` casts are taken to parse decimal integer strings, as in NumPy before 1.24. From NumPy 1.24 on, `np.int` does not exist, and processor_utils.py:52 raises AttributeError on every accepted row. That behaviour is not modelled.
- Shell commands: `mv` and `rm -f` are modelled only as their effect on a set of paths. Quoting of paths with `'` in them is not modelled.
- Daylight: `TimezoneFinder`, `astral` and `pytz` are an oracle giving three hours, or nothing when they raise. Float astronomy is not modelled.
- `dotenv`, `argparse`, `print_stdout`, `test()`, `show_img` and printing are not modelled. So are the `-e`/`--notimeout` flags, except as the `extra` and `timeout` parameters.
- The dictionary iteration order is the given order of `items`; Python's insertion order is not derived.
- Text: only the ASCII part of `lower()` and of the whitespace class is modelled. `int()` accepts an optional sign and decimal digits; underscores and non-ASCII digits are not.
- `read_clean`, `crop_and_save`, `cv2` reading, RGB conversion and the frame-reading loops of `read_video` are not modelled.
- Images.Allocate: `frames[i] = frame` broadcasting is modelled only as a shape test.
- `filter.py` and `processor.py` are not part of this model.
- Preview frame number: `fps` and `--seconds` are exact reals, so `int(fps*args.seconds)` (processor_preview.py:37) is the truncation of the exact product. Float rounding near a whole product is not captured, and the `int()` error on a NaN or infinite product is not modelled.
- SPAN floats: `RGB2YCbCr` and `np.percentile` are not modelled. The per-segment result is the parameter `final`, and the luma stack is an input.
  - `percent_min`/`percent_max` are exact fractions compared by cross-multiplication, so float rounding at exact-integer percents is not captured.
  - Region bounds are exact quarters, which is exact for the eight bounds `W/4*k`, `H/2` and `H`.
- SPAN concurrency: the eight `mp.Process` jobs and their queues run one after the other, in region order. `np.concatenate` then `np.sum` is modelled as per-region column sums, added in region order.
- `SPAN_gen_single` is not modelled; it is one segment of `SPAN_gen_rolling`.
- Span.Job: requires a non-empty history. `np.bincount` of an empty column makes `np.argmax` raise, and that error path is not modelled.
- Supervisor.Supervise: a job is counted as exited at a tick and stays exited; the model does not reap zombies.

## Findings

| source | as written | input that shows it | evidently intended | confidence | as-written member | corrected member |
|---|---|---|---|---|---|---|
| processor_utils.py:149 | `np.minimum(dif_r, dif_g, dif_b)` passes `dif_b` as the output buffer, so channel 2 is never compared | rain `(255, 255, 0)`, clean `(0, 0, 0)` is marked as rain | rain only when all three channels exceed clean + 20, as the comment at line 143 says | high, not executed | Images.RainMaskBinary, Images.BlueChannelIgnored | Images.RainMaskBinaryFixed |
| auto-downloader.py:262 | `while True and not timeout` runs the kill loop only with `--notimeout` | default options and one capture that hangs: `download` blocks in `p.wait()` forever | run the loop when `timeout` is set, as in downloader2.py:281 | high, not executed | Supervisor.AutoDownload, Supervisor.InvertedGuardStalls | Supervisor.AutoDownloadFixed |
| processor_utils.py:89-101 | the crop test runs before `r`/`b` of -1 are replaced by the frame size | crop `(0, -1, 0, -1)` is always a bad crop | test the replaced bounds, so -1 means the whole width or height | medium, not executed | Images.ReadVideo, Images.WholeFrameRejected | Images.ReadVideoFixed, Images.WholeFrameAcceptedFixed |
| downloader2.py:358-367 | the count starts at `extra+1` and is decremented in the same cycle before the download | `extra = 1`, place seen once: downloaded in that cycle only | `extra` more downloads after the place stops being selected, as the `--extra` help says | medium, not executed | Retention.OneExtraCycle, Retention.Tracker.Cycle | Retention.RetainedFixed, Retention.Tracker.CycleFixed |
| processor_utils_spanet.py:14 | `maps` has `int(h2-h1)*int(w2-w1)` rows, fewer than the pixels visited when H is odd or W is not a multiple of 4 | H = 1, W = 4: every map has 0 rows and the percentile is 0 whatever the frames | one row per visited pixel, `(int(h2)-int(h1))*(int(w2)-int(w1))` | high, not executed | Span.Job, Span.OneRowFramePercentileZero | Span.JobFixed, Span.FixedRowsCoverFrame |
