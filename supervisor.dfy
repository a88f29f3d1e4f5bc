/** The `download` functions of both downloaders: start one resolver and
    capture per place, poll them once a second until they have all exited or
    the deadline `1.25*seconds + 60` has passed (the factor the code uses;
    the comment above the loop says 1.5), kill and delete what is left,
    collect the exit codes, and move the finished clips out of the temporary
    directory.

    Processes are abstract: a capture either exits at a given poll tick with
    a given code, or hangs.  Poll tick t is the poll after t one-second
    sleeps, so the elapsed time at tick t is taken to be t seconds.  The
    temporary and final directories are a set of path strings. */
module Supervisor {
  import opened Wrappers
  import opened Naming
  import opened Selector

  /** How a started process behaves. */
  datatype Behaviour = ExitsAt(tick: nat, code: int) | Hangs

  /** The exit code `p.wait()` reports after `p.kill()` (SIGKILL). */
  const SigKill := -9

  /** `p.poll()` at tick t. */
  function Poll(b: Behaviour, t: nat): (r: Option<int>)
    ensures r.Some? <==> b.ExitsAt? && b.tick <= t
    ensures r.Some? ==> r.value == b.code
  {
    if b.ExitsAt? && b.tick <= t then Some(b.code) else None
  }

  /** What the environment does for one place: the UTC time `utcnow()`
      gives when its names are built, the resolver's standard output and
      exit code, whether the resolver exits at all (`communicate()` waits
      for it with no time limit), how the capture behaves if one is
      started, and whether a started capture creates its output file
      (ffmpeg may fail or hang before it writes anything). */
  datatype World = World(now: DateTime, resolverOut: string, resolverCode: int, resolverExits: bool,
                         capture: Behaviour, writesClip: bool)

  /** One place to download: the resolver arguments, the file stem, and the
      folder a finished clip is moved to. */
  datatype Request = Request(url: string, quality: string, stem: string, dest: string)

  /** One started job: what `download_ydl_ffmpeg` launched, how the returned
      process behaves, its temporary clip path, where the clip goes, and
      whether the clip file was created. */
  datatype Job = Job(launch: Launch, run: Behaviour, path: string, target: string, wrote: bool)

  /** How starting the jobs ends early: `open(log_path, "x")` raises when
      the log already exists, or youtube-dl never exits and
      `communicate()` blocks for ever (after the log was created). */
  datatype Failure = LogExists(path: string) | ResolverBlocked(log: string)

  /** The end of one `download` call: the exit codes and the files, or the
      program blocked forever in `p.wait()` on a process that never ends. */
  datatype Outcome = Done(codes: seq<int>, files: set<string>) | Stalled

  // ---------------------------------------------------------------------
  // Starting the jobs

  /** `download_ydl_ffmpeg` for one request: with no manifest the finished
      resolver process is returned in place of a capture. */
  function Spawn(q: Request, w: World, length: string, tmp: string): (j: Job)
    ensures j.path == VideoPath(tmp, q.stem) && j.target == PathJoin(q.dest, q.stem + ".mp4")
    ensures j.launch.ResolverOnly? <==> ChooseManifest(w.resolverOut).None?
    ensures j.launch.ResolverOnly? ==> j.run == ExitsAt(0, w.resolverCode)
    ensures j.launch.Capture? ==> j.run == w.capture
                                  && j.launch.argv == CaptureArgs(ChooseManifest(w.resolverOut).value, length, j.path)
    ensures j.wrote <==> j.launch.Capture? && w.writesClip
  {
    var path := VideoPath(tmp, q.stem);
    var launch := LaunchFor(w.resolverOut, length, path);
    Job(launch, if launch.ResolverOnly? then ExitsAt(0, w.resolverCode) else w.capture, path, PathJoin(q.dest, q.stem + ".mp4"),
        launch.Capture? && w.writesClip)
  }

  /** The files a started job creates: its log, and its clip when a capture
      was started and wrote it. */
  function Created(j: Job, log: string): set<string> {
    {log} + (if j.wrote then {j.path} else {})
  }

  /** The list comprehension that starts every job, in order. */
  function Dispatch(reqs: seq<Request>, worlds: seq<World>, length: string, tmp: string, files: set<string>)
    : Result<(seq<Job>, set<string>), Failure>
    requires |worlds| == |reqs|
  {
    if reqs == [] then Ok(([], files))
    else
      var n := |reqs| - 1;
      match Dispatch(reqs[..n], worlds[..n], length, tmp, files)
      case Err(e) => Err(e)
      case Ok((jobs, fs)) =>
        var log := LogPath(tmp, reqs[n].stem);
        if log in fs then Err(LogExists(log))
        else if !worlds[n].resolverExits then Err(ResolverBlocked(log))
        else
          var j := Spawn(reqs[n], worlds[n], length, tmp);
          Ok((jobs + [j], fs + Created(j, log)))
  }

  method StartJobs(reqs: seq<Request>, worlds: seq<World>, length: string, tmp: string, files: set<string>)
    returns (r: Result<(seq<Job>, set<string>), Failure>)
    requires |worlds| == |reqs|
    ensures r == Dispatch(reqs, worlds, length, tmp, files)
  {
    var jobs: seq<Job> := [];
    var fs := files;
    var i := 0;
    while i < |reqs|
      invariant 0 <= i <= |reqs|
      invariant Dispatch(reqs[..i], worlds[..i], length, tmp, files) == Ok((jobs, fs))
    {
      assert reqs[..i + 1][..i] == reqs[..i] && worlds[..i + 1][..i] == worlds[..i];
      var log := LogPath(tmp, reqs[i].stem);
      if log in fs {
        assert Dispatch(reqs[..i + 1], worlds[..i + 1], length, tmp, files).Err?;
        DispatchErrSticks(reqs, worlds, length, tmp, files, i + 1);
        assert reqs[..|reqs|] == reqs && worlds[..|worlds|] == worlds;
        return Err(LogExists(log));
      }
      if !worlds[i].resolverExits {
        assert Dispatch(reqs[..i + 1], worlds[..i + 1], length, tmp, files).Err?;
        DispatchErrSticks(reqs, worlds, length, tmp, files, i + 1);
        assert reqs[..|reqs|] == reqs && worlds[..|worlds|] == worlds;
        return Err(ResolverBlocked(log));
      }
      var j := Spawn(reqs[i], worlds[i], length, tmp);
      jobs := jobs + [j];
      fs := fs + Created(j, log);
      i := i + 1;
    }
    assert reqs[..|reqs|] == reqs && worlds[..|worlds|] == worlds;
    return Ok((jobs, fs));
  }

  /** Once one request fails to start, the whole comprehension fails with
      that error. */
  lemma {:induction false} DispatchErrSticks(reqs: seq<Request>, worlds: seq<World>, length: string, tmp: string,
                                             files: set<string>, k: nat)
    requires |worlds| == |reqs| && k <= |reqs|
    requires Dispatch(reqs[..k], worlds[..k], length, tmp, files).Err?
    ensures Dispatch(reqs, worlds, length, tmp, files) == Dispatch(reqs[..k], worlds[..k], length, tmp, files)
    decreases |reqs| - k
  {
    if k < |reqs| {
      assert reqs[..k + 1][..k] == reqs[..k] && worlds[..k + 1][..k] == worlds[..k];
      DispatchErrSticks(reqs, worlds, length, tmp, files, k + 1);
    } else {
      assert reqs[..k] == reqs && worlds[..k] == worlds;
    }
  }

  /** The files the started jobs create, in order. */
  function Made(reqs: seq<Request>, jobs: seq<Job>, tmp: string): set<string>
    requires |jobs| == |reqs|
  {
    if jobs == [] then {}
    else
      var n := |jobs| - 1;
      Made(reqs[..n], jobs[..n], tmp) + Created(jobs[n], LogPath(tmp, reqs[n].stem))
  }

  /** A file is among those made exactly when some job made it. */
  lemma {:induction false} MadeMember(reqs: seq<Request>, jobs: seq<Job>, tmp: string, x: string)
    requires |jobs| == |reqs|
    ensures x in Made(reqs, jobs, tmp) <==> exists i :: 0 <= i < |jobs| && x in Created(jobs[i], LogPath(tmp, reqs[i].stem))
  {
    if jobs != [] {
      var n := |jobs| - 1;
      var pre, jpre := reqs[..n], jobs[..n];
      MadeMember(pre, jpre, tmp, x);
      if x in Made(pre, jpre, tmp) {
        var i :| 0 <= i < n && x in Created(jpre[i], LogPath(tmp, pre[i].stem));
        assert x in Created(jobs[i], LogPath(tmp, reqs[i].stem));
      }
      if exists i :: 0 <= i < |jobs| && x in Created(jobs[i], LogPath(tmp, reqs[i].stem)) {
        var i :| 0 <= i < |jobs| && x in Created(jobs[i], LogPath(tmp, reqs[i].stem));
        if i < n {
          assert x in Created(jpre[i], LogPath(tmp, pre[i].stem));
        }
      }
    }
  }

  /** When every job starts, job i is the one `download_ydl_ffmpeg` builds
      for request i, and the new files are the logs and the started clips. */
  lemma {:induction false} DispatchShape(reqs: seq<Request>, worlds: seq<World>, length: string, tmp: string, files: set<string>)
    requires |worlds| == |reqs|
    requires Dispatch(reqs, worlds, length, tmp, files).Ok?
    ensures var d := Dispatch(reqs, worlds, length, tmp, files).value;
      && |d.0| == |reqs|
      && (forall i :: 0 <= i < |reqs| ==> d.0[i] == Spawn(reqs[i], worlds[i], length, tmp))
      && d.1 == files + Made(reqs, d.0, tmp)
  {
    if reqs != [] {
      var n := |reqs| - 1;
      DispatchShape(reqs[..n], worlds[..n], length, tmp, files);
      var d := Dispatch(reqs[..n], worlds[..n], length, tmp, files).value;
      var j := Spawn(reqs[n], worlds[n], length, tmp);
      var jobs := d.0 + [j];
      assert Dispatch(reqs, worlds, length, tmp, files).value == (jobs, d.1 + Created(j, LogPath(tmp, reqs[n].stem)));
      assert jobs[..n] == d.0;
      assert Made(reqs, jobs, tmp) == Made(reqs[..n], d.0, tmp) + Created(j, LogPath(tmp, reqs[n].stem));
      forall i | 0 <= i < |reqs| ensures jobs[i] == Spawn(reqs[i], worlds[i], length, tmp) {
        if i < n {
          assert reqs[..n][i] == reqs[i] && worlds[..n][i] == worlds[i];
        }
      }
    }
  }

  /** A log path is among a job's files exactly when the stems agree. */
  lemma LogClash(tmp: string, a: string, j: Job, b: string)
    requires j.path == VideoPath(tmp, b)
    ensures LogPath(tmp, a) in Created(j, LogPath(tmp, b)) <==> a == b
  {
    LogPathInjective(tmp, a, b);
    LogIsNeverVideo(tmp, a, tmp, b);
  }

  /** One more request starts exactly when the earlier ones did, its log
      is not among the files by then, and its resolver exits. */
  lemma DispatchStep(reqs: seq<Request>, worlds: seq<World>, length: string, tmp: string, files: set<string>)
    requires |worlds| == |reqs| && reqs != []
    ensures var n := |reqs| - 1;
      var d := Dispatch(reqs[..n], worlds[..n], length, tmp, files);
      Dispatch(reqs, worlds, length, tmp, files).Ok? <==>
        d.Ok? && LogPath(tmp, reqs[n].stem) !in d.value.1 && worlds[n].resolverExits
  {
  }

  predicate FreshLogs(reqs: seq<Request>, tmp: string, files: set<string>) {
    forall i :: 0 <= i < |reqs| ==> LogPath(tmp, reqs[i].stem) !in files
  }

  predicate ResolversExit(worlds: seq<World>) {
    forall i :: 0 <= i < |worlds| ==> worlds[i].resolverExits
  }

  lemma ResolversSnoc(worlds: seq<World>)
    requires worlds != []
    ensures var n := |worlds| - 1;
      ResolversExit(worlds) <==> ResolversExit(worlds[..n]) && worlds[n].resolverExits
  {
    var n := |worlds| - 1;
    assert forall i :: 0 <= i < n ==> worlds[..n][i] == worlds[i];
  }

  predicate DistinctStems(reqs: seq<Request>) {
    forall i, k :: 0 <= i < k < |reqs| ==> reqs[i].stem != reqs[k].stem
  }

  lemma FreshSnoc(reqs: seq<Request>, tmp: string, files: set<string>)
    requires reqs != []
    ensures var n := |reqs| - 1;
      FreshLogs(reqs, tmp, files) <==> FreshLogs(reqs[..n], tmp, files) && LogPath(tmp, reqs[n].stem) !in files
  {
    var n := |reqs| - 1;
    assert forall i :: 0 <= i < n ==> reqs[..n][i] == reqs[i];
  }

  lemma DistinctSnoc(reqs: seq<Request>)
    requires reqs != []
    ensures var n := |reqs| - 1;
      DistinctStems(reqs) <==> DistinctStems(reqs[..n]) && forall i :: 0 <= i < n ==> reqs[..n][i].stem != reqs[n].stem
  {
    var n := |reqs| - 1;
    assert forall i :: 0 <= i < n ==> reqs[..n][i] == reqs[i];
  }

  /** After the started jobs, a log path exists exactly when it existed
      before or it is the log of one of the requests. */
  lemma LogAmongMade(reqs: seq<Request>, worlds: seq<World>, length: string, tmp: string, files: set<string>, stem: string)
    requires |worlds| == |reqs| && Dispatch(reqs, worlds, length, tmp, files).Ok?
    ensures LogPath(tmp, stem) in Dispatch(reqs, worlds, length, tmp, files).value.1
        <==> LogPath(tmp, stem) in files || exists i :: 0 <= i < |reqs| && reqs[i].stem == stem
  {
    var log := LogPath(tmp, stem);
    DispatchShape(reqs, worlds, length, tmp, files);
    var jobs := Dispatch(reqs, worlds, length, tmp, files).value.0;
    MadeMember(reqs, jobs, tmp, log);
    if log in Made(reqs, jobs, tmp) {
      var i :| 0 <= i < |reqs| && log in Created(jobs[i], LogPath(tmp, reqs[i].stem));
      LogClash(tmp, stem, jobs[i], reqs[i].stem);
    } else {
      forall i | 0 <= i < |reqs| ensures reqs[i].stem != stem {
        LogClash(tmp, stem, jobs[i], reqs[i].stem);
      }
    }
  }

  /** The jobs all start exactly when no log already exists, the stems
      are pairwise different and every resolver exits. */
  lemma {:induction false} DispatchOkIff(reqs: seq<Request>, worlds: seq<World>, length: string, tmp: string, files: set<string>)
    requires |worlds| == |reqs|
    ensures Dispatch(reqs, worlds, length, tmp, files).Ok? <==>
              FreshLogs(reqs, tmp, files) && DistinctStems(reqs) && ResolversExit(worlds)
  {
    if reqs != [] {
      var n := |reqs| - 1;
      ResolversSnoc(worlds);
      FreshSnoc(reqs, tmp, files);
      DistinctSnoc(reqs);
      DispatchOkIff(reqs[..n], worlds[..n], length, tmp, files);
      DispatchStep(reqs, worlds, length, tmp, files);
      if Dispatch(reqs[..n], worlds[..n], length, tmp, files).Ok? {
        LogAmongMade(reqs[..n], worlds[..n], length, tmp, files, reqs[n].stem);
      }
    }
  }

  // ---------------------------------------------------------------------
  // The polling loop

  /** `time.time() > start_time + 1.25*seconds + 60` at tick t, with both
      sides multiplied by four. */
  predicate PastDeadline(seconds: int, t: nat) {
    4 * t > 5 * seconds + 240
  }

  /** The first tick past the deadline. */
  function LastPollTick(seconds: int): (d: nat)
    ensures d >= 1
    ensures forall u: nat :: u >= 1 ==> (PastDeadline(seconds, u) <==> u >= d)
  {
    var x := 5 * seconds + 240;
    if x < 0 then 1 else x / 4 + 1
  }

  predicate AllExited(jobs: seq<Job>, t: nat) {
    forall i :: 0 <= i < |jobs| ==> Poll(jobs[i].run, t).Some?
  }

  /** `[p.poll() for p, _, _ in processes]`. */
  function Polls(jobs: seq<Job>, t: nat): (r: seq<Option<int>>)
    ensures |r| == |jobs| && forall i :: 0 <= i < |jobs| ==> r[i] == Poll(jobs[i].run, t)
  {
    seq(|jobs|, i requires 0 <= i < |jobs| => Poll(jobs[i].run, t))
  }

  /** `[r for r in return_codes if r is not None]`. */
  function Exited(polls: seq<Option<int>>): (r: seq<int>)
    ensures |r| <= |polls|
    ensures |r| == |polls| <==> forall i :: 0 <= i < |polls| ==> polls[i].Some?
  {
    if polls == [] then []
    else
      var rest := Exited(polls[1..]);
      assert forall i :: 1 <= i < |polls| ==> polls[i] == polls[1..][i - 1];
      if polls[0].Some? then [polls[0].value] + rest else rest
  }

  /** The tick at which the polling loop started at tick t breaks. */
  function EndTickFrom(jobs: seq<Job>, seconds: int, t: nat): (r: nat)
    requires t >= 1
    ensures t <= r && (r == t || r <= LastPollTick(seconds))
    ensures AllExited(jobs, r) || PastDeadline(seconds, r)
    ensures forall u :: t <= u < r ==> !AllExited(jobs, u) && !PastDeadline(seconds, u)
    decreases LastPollTick(seconds) - t
  {
    if AllExited(jobs, t) || PastDeadline(seconds, t) then t
    else EndTickFrom(jobs, seconds, t + 1)
  }

  /** The tick at which the loop breaks: the first poll at which every job
      has exited or the deadline has passed, never later than the first
      tick past the deadline. */
  function EndTick(jobs: seq<Job>, seconds: int): (r: nat)
    ensures 1 <= r <= LastPollTick(seconds)
    ensures AllExited(jobs, r) || PastDeadline(seconds, r)
    ensures forall u :: 1 <= u < r ==> !AllExited(jobs, u) && !PastDeadline(seconds, u)
  {
    EndTickFrom(jobs, seconds, 1)
  }

  /** The code `p.wait()` gives after the loop has ended at tick t: the
      code of an exited job, SIGKILL for one still running (it was killed). */
  function Reaped(b: Behaviour, t: nat): int {
    match Poll(b, t)
    case Some(c) => c
    case None => SigKill
  }

  /** The paths `rm -f` removes at the deadline: those of the jobs whose
      `returncode` is not 0, that is still running or failed. */
  function KillSet(jobs: seq<Job>, t: nat): (r: set<string>)
    ensures forall x :: x in r <==> exists i :: 0 <= i < |jobs| && jobs[i].path == x && Poll(jobs[i].run, t) != Some(0)
  {
    if jobs == [] then {}
    else
      var n := |jobs| - 1;
      var rest := KillSet(jobs[..n], t);
      assert forall i :: 0 <= i < n ==> jobs[..n][i] == jobs[i];
      rest + (if Poll(jobs[n].run, t) != Some(0) then {jobs[n].path} else {})
  }

  // ---------------------------------------------------------------------
  // Moving the finished clips

  /** `mv src dst`: a missing source or a move onto itself changes nothing. */
  function Move(fs: set<string>, src: string, dst: string): set<string> {
    if src in fs && src != dst then fs - {src} + {dst} else fs
  }

  /** The move loop: the jobs whose code is 0, in order. */
  function MoveAll(jobs: seq<Job>, codes: seq<int>, fs: set<string>): set<string>
    requires |codes| == |jobs|
  {
    if jobs == [] then fs
    else
      var n := |jobs| - 1;
      var before := MoveAll(jobs[..n], codes[..n], fs);
      if codes[n] == 0 then Move(before, jobs[n].path, jobs[n].target) else before
  }

  /** With no zero code nothing is moved. */
  lemma {:induction false} NoZeroNoMove(jobs: seq<Job>, codes: seq<int>, fs: set<string>)
    requires |codes| == |jobs| && forall i :: 0 <= i < |codes| ==> codes[i] != 0
    ensures MoveAll(jobs, codes, fs) == fs
  {
    if jobs != [] {
      var n := |jobs| - 1;
      NoZeroNoMove(jobs[..n], codes[..n], fs);
    }
  }

  /** With clip paths that are pairwise different and nobody's target, a
      clip path stays exactly when it existed and its code is not 0. */
  lemma {:induction false} MoveKeepsFailed(jobs: seq<Job>, codes: seq<int>, fs: set<string>)
    requires |codes| == |jobs|
    requires forall i, k :: 0 <= i < |jobs| && 0 <= k < |jobs| ==> jobs[i].path != jobs[k].target
    requires forall i, k :: 0 <= i < k < |jobs| ==> jobs[i].path != jobs[k].path
    ensures forall i :: 0 <= i < |jobs| ==>
              (jobs[i].path in MoveAll(jobs, codes, fs) <==> jobs[i].path in fs && codes[i] != 0)
  {
    if jobs != [] {
      var n := |jobs| - 1;
      var pre, cpre := jobs[..n], codes[..n];
      assert forall i :: 0 <= i < n ==> pre[i] == jobs[i] && cpre[i] == codes[i];
      MoveKeepsFailed(pre, cpre, fs);
      MoveLeavesOthers(pre, cpre, fs, jobs[n].path);
    }
  }

  /** A path that is no job's clip or target is untouched by the moves. */
  lemma {:induction false} MoveLeavesOthers(jobs: seq<Job>, codes: seq<int>, fs: set<string>, x: string)
    requires |codes| == |jobs|
    requires forall i :: 0 <= i < |jobs| ==> x != jobs[i].path && x != jobs[i].target
    ensures x in MoveAll(jobs, codes, fs) <==> x in fs
  {
    if jobs != [] {
      var n := |jobs| - 1;
      assert forall i :: 0 <= i < n ==> jobs[..n][i] == jobs[i];
      MoveLeavesOthers(jobs[..n], codes[..n], fs, x);
    }
  }

  /** A path that is no job's clip is present after the moves exactly when
      it was before, or it is the target of a job with code 0 whose clip
      existed. */
  lemma {:induction false} MoveAddsTargets(jobs: seq<Job>, codes: seq<int>, fs: set<string>, x: string)
    requires |codes| == |jobs|
    requires forall i, k :: 0 <= i < |jobs| && 0 <= k < |jobs| ==> jobs[i].path != jobs[k].target
    requires forall i, k :: 0 <= i < k < |jobs| ==> jobs[i].path != jobs[k].path
    requires forall i :: 0 <= i < |jobs| ==> x != jobs[i].path
    ensures x in MoveAll(jobs, codes, fs) <==>
              x in fs || exists i :: 0 <= i < |jobs| && jobs[i].target == x && codes[i] == 0 && jobs[i].path in fs
  {
    if jobs != [] {
      var n := |jobs| - 1;
      var pre, cpre := jobs[..n], codes[..n];
      assert forall i :: 0 <= i < n ==> pre[i] == jobs[i] && cpre[i] == codes[i];
      MoveAddsTargets(pre, cpre, fs, x);
      MoveLeavesOthers(pre, cpre, fs, jobs[n].path);
      var before := MoveAll(pre, cpre, fs);
      assert jobs[n].path in before <==> jobs[n].path in fs;
      if exists i :: 0 <= i < |jobs| && jobs[i].target == x && codes[i] == 0 && jobs[i].path in fs {
        var i :| 0 <= i < |jobs| && jobs[i].target == x && codes[i] == 0 && jobs[i].path in fs;
        if i < n {
          assert pre[i].target == x && cpre[i] == 0 && pre[i].path in fs;
        }
      }
    }
  }

  // ---------------------------------------------------------------------
  // The whole supervision

  /** What one `download` call ends with, given the started jobs, the clip
      length in seconds, whether the polling loop runs, and the files after
      the jobs were started. */
  function Supervised(jobs: seq<Job>, seconds: int, poll: bool, files: set<string>): Outcome {
    if poll then
      var t := EndTick(jobs, seconds);
      var codes := seq(|jobs|, i requires 0 <= i < |jobs| => Reaped(jobs[i].run, t));
      var fs := if AllExited(jobs, t) then files else files - KillSet(jobs, t);
      Done(codes, MoveAll(jobs, codes, fs))
    else if forall i :: 0 <= i < |jobs| ==> jobs[i].run.ExitsAt? then
      var codes := seq(|jobs|, i requires 0 <= i < |jobs| => jobs[i].run.code);
      Done(codes, MoveAll(jobs, codes, files))
    else Stalled
  }

  /** The kill loop: every job whose last poll was not 0 loses its clip. */
  method KillLoop(jobs: seq<Job>, returnCodes: seq<Option<int>>, t: nat, files: set<string>) returns (fs: set<string>)
    requires returnCodes == Polls(jobs, t)
    ensures fs == files - KillSet(jobs, t)
  {
    fs := files;
    var i := 0;
    while i < |jobs|
      invariant 0 <= i <= |jobs|
      invariant fs == files - KillSet(jobs[..i], t)
    {
      assert jobs[..i + 1][..i] == jobs[..i];
      if returnCodes[i] != Some(0) {
        fs := fs - {jobs[i].path};
      }
      i := i + 1;
    }
    assert jobs[..|jobs|] == jobs;
  }

  /** The `while True and timeout` loop: poll once a second until every job
      has exited or the deadline has passed, then kill. */
  method PollLoop(jobs: seq<Job>, seconds: int, files: set<string>) returns (t: nat, fs: set<string>)
    ensures t == EndTick(jobs, seconds) && t >= 1
    ensures fs == if AllExited(jobs, t) then files else files - KillSet(jobs, t)
  {
    fs := files;
    t := 0;
    var stop := false;
    while !stop
      invariant t <= LastPollTick(seconds)
      invariant !stop ==> t < LastPollTick(seconds) && fs == files
      invariant !stop ==> EndTick(jobs, seconds) == EndTickFrom(jobs, seconds, t + 1)
      invariant stop ==> t == EndTick(jobs, seconds) && t >= 1
      invariant stop ==> fs == if AllExited(jobs, t) then files else files - KillSet(jobs, t)
      decreases LastPollTick(seconds) - t
    {
      t := t + 1;
      var returnCodes := Polls(jobs, t);
      if |Exited(returnCodes)| == |jobs| {
        stop := true;
      } else if PastDeadline(seconds, t) {
        fs := KillLoop(jobs, returnCodes, t, files);
        stop := true;
      }
    }
  }

  /** The loop `for i in range(len(processes))` that moves every clip whose
      code is 0. */
  method MoveLoop(jobs: seq<Job>, codes: seq<int>, fs: set<string>) returns (moved: set<string>)
    requires |codes| == |jobs|
    ensures moved == MoveAll(jobs, codes, fs)
  {
    moved := fs;
    var i := 0;
    while i < |jobs|
      invariant 0 <= i <= |jobs|
      invariant moved == MoveAll(jobs[..i], codes[..i], fs)
    {
      assert jobs[..i + 1][..i] == jobs[..i] && codes[..i + 1][..i] == codes[..i];
      if codes[i] == 0 {
        moved := Move(moved, jobs[i].path, jobs[i].target);
      }
      i := i + 1;
    }
    assert jobs[..|jobs|] == jobs && codes[..|codes|] == codes;
  }

  /** The polling loop, the `p.wait()` comprehension and the move loop of
      `download`. */
  method Supervise(jobs: seq<Job>, seconds: int, poll: bool, files: set<string>) returns (out: Outcome)
    ensures out == Supervised(jobs, seconds, poll, files)
  {
    var fs := files;
    var t: nat := 0;
    if poll {
      t, fs := PollLoop(jobs, seconds, files);
    }
    var codes: seq<int> := [];
    var i := 0;
    while i < |jobs|
      invariant 0 <= i <= |jobs| && |codes| == i
      invariant poll ==> forall k :: 0 <= k < i ==> codes[k] == Reaped(jobs[k].run, t)
      invariant !poll ==> forall k :: 0 <= k < i ==> jobs[k].run.ExitsAt? && codes[k] == jobs[k].run.code
    {
      if poll {
        codes := codes + [Reaped(jobs[i].run, t)];
      } else {
        match jobs[i].run
        case Hangs => return Stalled;
        case ExitsAt(_, c) => codes := codes + [c];
      }
      i := i + 1;
    }
    var moved := MoveLoop(jobs, codes, fs);
    if poll {
      assert codes == seq(|jobs|, k requires 0 <= k < |jobs| => Reaped(jobs[k].run, t));
    } else {
      assert codes == seq(|jobs|, k requires 0 <= k < |jobs| => jobs[k].run.code);
    }
    return Done(codes, moved);
  }

  // ---------------------------------------------------------------------
  // Properties of the supervision

  /** A hanging job keeps the loop running to the first tick past the
      deadline, where it is killed: its code is SIGKILL and its clip is
      deleted (when no job's target is that clip path). */
  lemma HangIsKilledAtDeadline(jobs: seq<Job>, seconds: int, files: set<string>, h: nat)
    requires h < |jobs| && jobs[h].run.Hangs?
    requires forall i, k :: 0 <= i < |jobs| && 0 <= k < |jobs| ==> jobs[i].path != jobs[k].target
    requires forall i, k :: 0 <= i < k < |jobs| ==> jobs[i].path != jobs[k].path
    ensures EndTick(jobs, seconds) == LastPollTick(seconds)
    ensures var out := Supervised(jobs, seconds, true, files);
      out.Done? && |out.codes| == |jobs| && out.codes[h] == SigKill && jobs[h].path !in out.files
  {
    var t := EndTick(jobs, seconds);
    assert !AllExited(jobs, t) by { assert Poll(jobs[h].run, t).None?; }
    var out := Supervised(jobs, seconds, true, files);
    var fs := files - KillSet(jobs, t);
    assert jobs[h].path !in fs;
    MoveKeepsFailed(jobs, out.codes, fs);
  }

  /** When every job has exited by tick u and u is not yet past the
      deadline, nothing is killed: the codes are the jobs' own codes and
      the loop has broken by tick u. */
  lemma EarlyExit(jobs: seq<Job>, seconds: int, files: set<string>, u: nat)
    requires 1 <= u && !PastDeadline(seconds, u) && AllExited(jobs, u)
    ensures EndTick(jobs, seconds) <= u && AllExited(jobs, EndTick(jobs, seconds))
    ensures var out := Supervised(jobs, seconds, true, files);
      out.Done? && |out.codes| == |jobs|
      && (forall i :: 0 <= i < |jobs| ==> out.codes[i] == jobs[i].run.code)
      && out.files == MoveAll(jobs, out.codes, files)
  {
    var t := EndTick(jobs, seconds);
    assert !PastDeadline(seconds, t);
  }

  /** The exit codes come one per job, in job order; with polling, code 0
      means the job exited with 0 before the loop broke, and a job that had
      not exited is reported as killed. */
  lemma CodesPerJob(jobs: seq<Job>, seconds: int, poll: bool, files: set<string>)
    requires Supervised(jobs, seconds, poll, files).Done?
    ensures var out := Supervised(jobs, seconds, poll, files);
      && |out.codes| == |jobs|
      && (forall i :: 0 <= i < |jobs| ==> jobs[i].run.ExitsAt? ==> (poll ==> jobs[i].run.tick <= EndTick(jobs, seconds)) ==> out.codes[i] == jobs[i].run.code)
      && (poll ==> forall i :: 0 <= i < |jobs| ==> Poll(jobs[i].run, EndTick(jobs, seconds)).None? ==> out.codes[i] == SigKill)
      && (!poll ==> forall i :: 0 <= i < |jobs| ==> jobs[i].run.ExitsAt?)
  {
  }

  /** Without polling the call ends exactly when no job hangs. */
  lemma StallsIffHang(jobs: seq<Job>, seconds: int, files: set<string>)
    ensures Supervised(jobs, seconds, false, files).Stalled? <==> exists i :: 0 <= i < |jobs| && jobs[i].run.Hangs?
    ensures Supervised(jobs, seconds, true, files).Done?
  {
  }

  /** With distinct clip paths that are nobody's target, exactly the jobs
      with code 0 whose clip survived the deadline are moved: their clip
      leaves the temporary directory and their target appears. */
  lemma MovedExactlyTheZeros(jobs: seq<Job>, seconds: int, poll: bool, files: set<string>)
    requires Supervised(jobs, seconds, poll, files).Done?
    requires forall i, k :: 0 <= i < |jobs| && 0 <= k < |jobs| ==> jobs[i].path != jobs[k].target
    requires forall i, k :: 0 <= i < k < |jobs| ==> jobs[i].path != jobs[k].path
    requires forall i :: 0 <= i < |jobs| ==> jobs[i].path in files
    ensures var out := Supervised(jobs, seconds, poll, files);
      forall i :: 0 <= i < |jobs| ==>
        (out.codes[i] == 0 ==> jobs[i].path !in out.files && jobs[i].target in out.files)
        && (out.codes[i] != 0 && poll && !AllExited(jobs, EndTick(jobs, seconds)) ==> jobs[i].path !in out.files)
        && (out.codes[i] != 0 && (!poll || AllExited(jobs, EndTick(jobs, seconds))) ==> jobs[i].path in out.files)
  {
    var out := Supervised(jobs, seconds, poll, files);
    var fs := if poll && !AllExited(jobs, EndTick(jobs, seconds)) then files - KillSet(jobs, EndTick(jobs, seconds)) else files;
    MoveKeepsFailed(jobs, out.codes, fs);
    forall i | 0 <= i < |jobs| && out.codes[i] == 0
      ensures jobs[i].path !in out.files && jobs[i].target in out.files
    {
      if poll {
        assert Poll(jobs[i].run, EndTick(jobs, seconds)) == Some(0);
      }
      assert jobs[i].path in fs;
      MoveAddsTargets(jobs, out.codes, fs, jobs[i].target);
    }
  }

  /** The main loop's backoff test: sleep when the list is empty or holds
      no 0, that is when no job succeeded. */
  function Backoff(codes: seq<int>): (r: bool)
    ensures r <==> forall i :: 0 <= i < |codes| ==> codes[i] != 0
  {
    |codes| == 0 || 0 !in codes
  }

  /** A backoff cycle moved nothing. */
  lemma BackoffMovesNothing(jobs: seq<Job>, seconds: int, poll: bool, files: set<string>)
    requires Supervised(jobs, seconds, poll, files).Done? && Backoff(Supervised(jobs, seconds, poll, files).codes)
    ensures var out := Supervised(jobs, seconds, poll, files);
      out.files == if poll && !AllExited(jobs, EndTick(jobs, seconds)) then files - KillSet(jobs, EndTick(jobs, seconds)) else files
  {
    var out := Supervised(jobs, seconds, poll, files);
    var fs := if poll && !AllExited(jobs, EndTick(jobs, seconds)) then files - KillSet(jobs, EndTick(jobs, seconds)) else files;
    NoZeroNoMove(jobs, out.codes, fs);
  }

  /** The first poll past `1.25*seconds + 60`: tick 73 for the default ten
      seconds, tick 211 for the two minutes the main loops ask for. */
  lemma DeadlineTicks()
    ensures LastPollTick(10) == 73 && LastPollTick(120) == 211
  {
  }

  /** Two jobs, the first finishing at tick 5 with code 0 and the second
      hanging, ten-second clips: the loop kills the second at tick 73, the
      codes are `[0, -9]`, the hung clip is deleted and the finished one
      moved. */
  lemma HungSecondJob(a: Job, b: Job, files: set<string>)
    requires a.run == ExitsAt(5, 0) && b.run.Hangs?
    requires a.path != b.path && a.path != a.target && a.path != b.target && b.path != a.target && b.path != b.target
    requires a.path in files && b.path in files
    ensures EndTick([a, b], 10) == 73
    ensures var out := Supervised([a, b], 10, true, files);
      out == Done([0, SigKill], out.files)
      && a.path !in out.files && a.target in out.files && b.path !in out.files
  {
    var jobs := [a, b];
    HungSecondJobCodes(a, b, files);
    TwoJobsApart(a, b);
    MovedExactlyTheZeros(jobs, 10, true, files);
    var out := Supervised(jobs, 10, true, files);
    assert out.codes[0] == 0 && out.codes[1] != 0;
  }

  lemma HungSecondJobCodes(a: Job, b: Job, files: set<string>)
    requires a.run == ExitsAt(5, 0) && b.run.Hangs?
    ensures EndTick([a, b], 10) == 73
    ensures Supervised([a, b], 10, true, files).Done?
    ensures Supervised([a, b], 10, true, files).codes == [0, SigKill]
    ensures !AllExited([a, b], EndTick([a, b], 10))
  {
    var jobs := [a, b];
    assert !AllExited(jobs, EndTick(jobs, 10)) by { assert Poll(jobs[1].run, EndTick(jobs, 10)).None?; }
    DeadlineTicks();
    var t := EndTick(jobs, 10);
    assert t == 73;
    assert Reaped(a.run, t) == 0;
  }

  /** Two jobs whose clip paths differ from each other and from both targets. */
  lemma TwoJobsApart(a: Job, b: Job)
    requires a.path != b.path && a.path != a.target && a.path != b.target && b.path != a.target && b.path != b.target
    ensures var jobs := [a, b];
      && (forall i, k :: 0 <= i < |jobs| && 0 <= k < |jobs| ==> jobs[i].path != jobs[k].target)
      && (forall i, k :: 0 <= i < k < |jobs| ==> jobs[i].path != jobs[k].path)
  {
  }

  // ---------------------------------------------------------------------
  // The two `download` functions

  /** downloader2's requests: stem `<place>_<stamp>_<weather>`, moved into
      `final/<day>/<weather>`. */
  function WeatherRequests(items: seq<(string, Target)>, worlds: seq<World>, final: string, day: string): (r: seq<Request>)
    requires |worlds| == |items|
    ensures |r| == |items|
    ensures forall i :: 0 <= i < |items| ==>
              r[i] == Request(items[i].1.url, items[i].1.quality, WeatherClipName(items[i].0, worlds[i].now, items[i].1.weather),
                              PathJoin(PathJoin(final, day), items[i].1.weather))
  {
    seq(|items|, i requires 0 <= i < |items| =>
      Request(items[i].1.url, items[i].1.quality, WeatherClipName(items[i].0, worlds[i].now, items[i].1.weather),
              PathJoin(PathJoin(final, day), items[i].1.weather)))
  }

  /** auto-downloader's requests: stem `<place>_<stamp>`, moved into
      `final/<day>`. */
  function PlainRequests(items: seq<(string, RainTarget)>, worlds: seq<World>, final: string, day: string): (r: seq<Request>)
    requires |worlds| == |items|
    ensures |r| == |items|
    ensures forall i :: 0 <= i < |items| ==>
              r[i] == Request(items[i].1.url, items[i].1.quality, ClipName(items[i].0, worlds[i].now), PathJoin(final, day))
  {
    seq(|items|, i requires 0 <= i < |items| =>
      Request(items[i].1.url, items[i].1.quality, ClipName(items[i].0, worlds[i].now), PathJoin(final, day)))
  }

  /** A whole `download` call on the given requests. */
  function Downloaded(reqs: seq<Request>, worlds: seq<World>, seconds: int, length: string, tmp: string, folder: string,
                      poll: bool, files: set<string>): Result<(Outcome, string), Failure>
    requires |worlds| == |reqs|
  {
    match Dispatch(reqs, worlds, length, tmp, files)
    case Err(ResolverBlocked(_)) => Ok((Stalled, folder))
    case Err(e) => Err(e)
    case Ok((jobs, fs)) => Ok((Supervised(jobs, seconds, poll, fs), folder))
  }

  /** downloader2's `download(places, seconds, tmp_dir, final_dir, timeout)`:
      `items` lists `places.items()` in iteration order, `worlds[i]` is
      what happens to item i, `today` is the `utcnow()` of the call. The
      loop runs when `timeout` is set. */
  method Download(items: seq<(string, Target)>, worlds: seq<World>, today: DateTime, seconds: int,
                  tmp: string, final: string, timeout: bool, files: set<string>)
    returns (r: Result<(Outcome, string), Failure>)
    requires |worlds| == |items|
    ensures r == Downloaded(WeatherRequests(items, worlds, final, DayFolder(today)), worlds, seconds, ClipLength(seconds), tmp,
                            PathJoin(final, DayFolder(today)), timeout, files)
  {
    var day := DayFolder(today);
    var folder := PathJoin(final, day);
    var length := ClipLength(seconds);
    var started := StartJobs(WeatherRequests(items, worlds, final, day), worlds, length, tmp, files);
    match started
    case Err(ResolverBlocked(_)) => return Ok((Stalled, folder));
    case Err(e) => return Err(e);
    case Ok((jobs, fs)) =>
      var out := Supervise(jobs, seconds, timeout, fs);
      return Ok((out, folder));
  }

  /** auto-downloader's `download` as written: the loop runs only when
      `timeout` is off. */
  method AutoDownload(items: seq<(string, RainTarget)>, worlds: seq<World>, today: DateTime, seconds: int,
                      tmp: string, final: string, timeout: bool, files: set<string>)
    returns (r: Result<(Outcome, string), Failure>)
    requires |worlds| == |items|
    ensures r == Downloaded(PlainRequests(items, worlds, final, DayFolder(today)), worlds, seconds, ClipLength(seconds), tmp,
                            PathJoin(final, DayFolder(today)), !timeout, files)
  {
    var day := DayFolder(today);
    var folder := PathJoin(final, day);
    var length := ClipLength(seconds);
    var started := StartJobs(PlainRequests(items, worlds, final, day), worlds, length, tmp, files);
    match started
    case Err(ResolverBlocked(_)) => return Ok((Stalled, folder));
    case Err(e) => return Err(e);
    case Ok((jobs, fs)) =>
      var out := Supervise(jobs, seconds, !timeout, fs);
      return Ok((out, folder));
  }

  /** auto-downloader's `download` with the guard as its comment and its
      `--notimeout` option describe it: the loop runs when `timeout` is on. */
  method AutoDownloadFixed(items: seq<(string, RainTarget)>, worlds: seq<World>, today: DateTime, seconds: int,
                           tmp: string, final: string, timeout: bool, files: set<string>)
    returns (r: Result<(Outcome, string), Failure>)
    requires |worlds| == |items|
    ensures r == Downloaded(PlainRequests(items, worlds, final, DayFolder(today)), worlds, seconds, ClipLength(seconds), tmp,
                            PathJoin(final, DayFolder(today)), timeout, files)
  {
    var day := DayFolder(today);
    var folder := PathJoin(final, day);
    var length := ClipLength(seconds);
    var started := StartJobs(PlainRequests(items, worlds, final, day), worlds, length, tmp, files);
    match started
    case Err(ResolverBlocked(_)) => return Ok((Stalled, folder));
    case Err(e) => return Err(e);
    case Ok((jobs, fs)) =>
      var out := Supervise(jobs, seconds, timeout, fs);
      return Ok((out, folder));
  }

  /** The call returns the day folder `final/<YYYY-MM-DD>`, and a started
      job's clip goes to `<folder>/<stem>.mp4` (inside the weather
      sub-folder for downloader2). */
  lemma {:induction false} DownloadLayout(items: seq<(string, Target)>, worlds: seq<World>, today: DateTime, seconds: int,
                                          tmp: string, final: string, timeout: bool, files: set<string>)
    requires |worlds| == |items|
    requires Dispatch(WeatherRequests(items, worlds, final, DayFolder(today)), worlds, ClipLength(seconds), tmp, files).Ok?
    ensures var reqs := WeatherRequests(items, worlds, final, DayFolder(today));
      var jobs := Dispatch(reqs, worlds, ClipLength(seconds), tmp, files).value.0;
      && Downloaded(reqs, worlds, seconds, ClipLength(seconds), tmp, PathJoin(final, DayFolder(today)), timeout, files).value.1 == PathJoin(final, DayFolder(today))
      && |jobs| == |items|
      && forall i :: 0 <= i < |items| ==>
           var stem := WeatherClipName(items[i].0, worlds[i].now, items[i].1.weather);
           jobs[i].path == VideoPath(tmp, stem)
           && jobs[i].target == PathJoin(PathJoin(PathJoin(final, DayFolder(today)), items[i].1.weather), stem + ".mp4")
  {
    var reqs := WeatherRequests(items, worlds, final, DayFolder(today));
    DispatchShape(reqs, worlds, ClipLength(seconds), tmp, files);
  }

  /** Whether the loop runs decides the fate of a started capture that
      hangs: without the loop the call blocks forever, with it the capture
      is killed at the deadline. */
  lemma HangNeedsTheLoop(reqs: seq<Request>, worlds: seq<World>, seconds: int, length: string, tmp: string, folder: string,
                         files: set<string>, h: nat)
    requires |worlds| == |reqs| && h < |reqs|
    requires worlds[h].capture.Hangs? && ChooseManifest(worlds[h].resolverOut).Some?
    requires Dispatch(reqs, worlds, length, tmp, files).Ok?
    ensures Downloaded(reqs, worlds, seconds, length, tmp, folder, false, files).value.0.Stalled?
    ensures var out := Downloaded(reqs, worlds, seconds, length, tmp, folder, true, files).value.0;
      out.Done? && |out.codes| == |reqs| && out.codes[h] == SigKill
  {
    DispatchShape(reqs, worlds, length, tmp, files);
    var d := Dispatch(reqs, worlds, length, tmp, files).value;
    assert d.0[h].run.Hangs?;
    StallsIffHang(d.0, seconds, d.1);
    var t := EndTick(d.0, seconds);
    assert Poll(d.0[h].run, t).None?;
  }

  /** A youtube-dl that never exits blocks `download` for ever, whether or
      not the polling loop would run: `communicate()` waits in the
      comprehension that starts the jobs, before any deadline exists. */
  lemma {:induction false} ResolverHangStalls(reqs: seq<Request>, worlds: seq<World>, seconds: int, length: string,
                                              tmp: string, folder: string, files: set<string>, poll: bool)
    requires |worlds| == |reqs|
    requires FreshLogs(reqs, tmp, files) && DistinctStems(reqs) && !ResolversExit(worlds)
    ensures Downloaded(reqs, worlds, seconds, length, tmp, folder, poll, files) == Ok((Stalled, folder))
  {
    var h :| 0 <= h < |worlds| && !worlds[h].resolverExits;
    FirstBlocked(worlds, h);
    var k :| 0 <= k < |worlds| && !worlds[k].resolverExits && forall i :: 0 <= i < k ==> worlds[i].resolverExits;
    BlockedAt(reqs, worlds, length, tmp, files, k);
    DispatchErrSticks(reqs, worlds, length, tmp, files, k + 1);
  }

  /** When the first resolver that never exits is request k's, starting
      the first k + 1 requests blocks at request k. */
  lemma BlockedAt(reqs: seq<Request>, worlds: seq<World>, length: string, tmp: string, files: set<string>, k: nat)
    requires |worlds| == |reqs| && k < |reqs|
    requires FreshLogs(reqs, tmp, files) && DistinctStems(reqs)
    requires !worlds[k].resolverExits && forall i :: 0 <= i < k ==> worlds[i].resolverExits
    ensures Dispatch(reqs[..k + 1], worlds[..k + 1], length, tmp, files) == Err(ResolverBlocked(LogPath(tmp, reqs[k].stem)))
  {
    var pre, wpre := reqs[..k], worlds[..k];
    PrefixStarts(reqs, worlds, length, tmp, files, k);
    LogAmongMade(pre, wpre, length, tmp, files, reqs[k].stem);
    assert reqs[..k + 1][..k] == pre && worlds[..k + 1][..k] == wpre;
  }

  /** The requests before the first blocking resolver all start. */
  lemma PrefixStarts(reqs: seq<Request>, worlds: seq<World>, length: string, tmp: string, files: set<string>, k: nat)
    requires |worlds| == |reqs| && k <= |reqs|
    requires FreshLogs(reqs, tmp, files) && DistinctStems(reqs)
    requires forall i :: 0 <= i < k ==> worlds[i].resolverExits
    ensures Dispatch(reqs[..k], worlds[..k], length, tmp, files).Ok?
  {
    var pre, wpre := reqs[..k], worlds[..k];
    assert forall i :: 0 <= i < k ==> pre[i] == reqs[i] && wpre[i] == worlds[i];
    assert FreshLogs(pre, tmp, files) && DistinctStems(pre) && ResolversExit(wpre);
    DispatchOkIff(pre, wpre, length, tmp, files);
  }

  /** Some world's resolver is the first that never exits. */
  lemma {:induction false} FirstBlocked(worlds: seq<World>, h: nat)
    requires h < |worlds| && !worlds[h].resolverExits
    ensures exists k :: 0 <= k < |worlds| && !worlds[k].resolverExits && forall i :: 0 <= i < k ==> worlds[i].resolverExits
    decreases h
  {
    if exists i :: 0 <= i < h && !worlds[i].resolverExits {
      var i :| 0 <= i < h && !worlds[i].resolverExits;
      FirstBlocked(worlds, i);
    }
  }

  /** The inverted guard: under the default options (`timeout` on) a
      hanging capture blocks auto-downloader forever, while the intended
      guard kills it at the deadline with SIGKILL. */
  lemma InvertedGuardStalls(items: seq<(string, RainTarget)>, worlds: seq<World>, today: DateTime, seconds: int,
                            tmp: string, final: string, files: set<string>, h: nat)
    requires |worlds| == |items| && h < |items|
    requires worlds[h].capture.Hangs? && ChooseManifest(worlds[h].resolverOut).Some?
    requires Dispatch(PlainRequests(items, worlds, final, DayFolder(today)), worlds, ClipLength(seconds), tmp, files).Ok?
    ensures var reqs := PlainRequests(items, worlds, final, DayFolder(today));
      var folder := PathJoin(final, DayFolder(today));
      var timeout := true;
      && Downloaded(reqs, worlds, seconds, ClipLength(seconds), tmp, folder, !timeout, files).value.0.Stalled?
      && var out := Downloaded(reqs, worlds, seconds, ClipLength(seconds), tmp, folder, timeout, files).value.0;
         out.Done? && |out.codes| == |items| && out.codes[h] == SigKill
  {
    var reqs := PlainRequests(items, worlds, final, DayFolder(today));
    HangNeedsTheLoop(reqs, worlds, seconds, ClipLength(seconds), tmp, PathJoin(final, DayFolder(today)), files, h);
  }
}
