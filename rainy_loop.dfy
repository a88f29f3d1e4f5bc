/** The main loop of auto-downloader: each cycle downloads the union of the
    previous rainy places and the current ones (current values winning),
    and the current places become the previous ones only when some
    download succeeded.  The download itself is a parameter that maps the
    places to download to their exit codes. */
module RainyLoop {
  import opened Wrappers
  import opened Selector
  import opened Supervisor

  type RainTargets = map<string, RainTarget>

  /** `{**places_rainy_old, **places_rainy_new}`. */
  function Merge(older: RainTargets, newer: RainTargets): (r: RainTargets)
    ensures r.Keys == older.Keys + newer.Keys
    ensures forall p :: p in r ==> r[p] == if p in newer then newer[p] else older[p]
  {
    older + newer
  }

  /** What one cycle does: the places it downloads (None when the
      selection raised and the cycle only slept), the previous places for
      the next cycle, and the seconds it sleeps. */
  datatype Turn = Turn(attempted: Option<RainTargets>, rainyOld: RainTargets, sleep: nat)

  /** One cycle of auto-downloader's `main`. */
  function Next(rainyOld: RainTargets, selection: Result<RainTargets, SelectError>,
                download: RainTargets -> seq<int>): (r: Turn)
    ensures selection.Err? ==> r == Turn(None, rainyOld, 30)
    ensures selection.Ok? ==> r.attempted == Some(Merge(rainyOld, selection.value))
    ensures selection.Ok? && Backoff(download(Merge(rainyOld, selection.value))) ==> r.rainyOld == rainyOld && r.sleep == 60
    ensures selection.Ok? && !Backoff(download(Merge(rainyOld, selection.value))) ==> r.rainyOld == selection.value && r.sleep == 0
  {
    match selection
    case Err(_) => Turn(None, rainyOld, 30)
    case Ok(rainyNew) =>
      var toDownload := Merge(rainyOld, rainyNew);
      var codes := download(toDownload);
      if |codes| == 0 then Turn(Some(toDownload), rainyOld, 60)
      else if 0 !in codes then Turn(Some(toDownload), rainyOld, 60)
      else Turn(Some(toDownload), rainyNew, 0)
  }

  /** A place rainy in a cycle where some download succeeded is attempted
      again in the next cycle that selects without raising, with its newest
      value. */
  lemma CarriedOneCycle(rainyOld: RainTargets, first: RainTargets, second: RainTargets,
                        download: RainTargets -> seq<int>, p: string)
    requires p in first
    requires !Backoff(download(Merge(rainyOld, first)))
    ensures var t1 := Next(rainyOld, Ok(first), download);
      var t2 := Next(t1.rainyOld, Ok(second), download);
      && p in t2.attempted.value
      && t2.attempted.value[p] == if p in second then second[p] else first[p]
  {
  }

  /** A cycle that selected but downloaded nothing successfully keeps the
      older places, so a place rainy only in that cycle is not carried. */
  lemma FailedCycleForgets(rainyOld: RainTargets, first: RainTargets, second: RainTargets,
                           download: RainTargets -> seq<int>, p: string)
    requires p in first && p !in rainyOld && p !in second
    requires Backoff(download(Merge(rainyOld, first)))
    ensures var t1 := Next(rainyOld, Ok(first), download);
      var t2 := Next(t1.rainyOld, Ok(second), download);
      p in t1.attempted.value && p !in t2.attempted.value
  {
  }

  /** Every place attempted is rainy now or was rainy in the last cycle
      that had a success. */
  lemma AttemptedComeFromSelections(rainyOld: RainTargets, selection: Result<RainTargets, SelectError>,
                                    download: RainTargets -> seq<int>)
    ensures var t := Next(rainyOld, selection, download);
      t.attempted.Some? ==> forall p :: p in t.attempted.value ==> p in rainyOld || p in selection.value
  {
  }

  /** The one piece of state of auto-downloader's `main`. */
  class Loop {
    var rainyOld: RainTargets

    /** `places_rainy_old = {}`. */
    constructor()
      ensures rainyOld == map[]
    {
      rainyOld := map[];
    }

    /** One iteration of `while True`. */
    method Cycle(selection: Result<RainTargets, SelectError>, download: RainTargets -> seq<int>)
      returns (attempted: Option<RainTargets>, sleep: nat)
      modifies this
      ensures Turn(attempted, rainyOld, sleep) == Next(old(rainyOld), selection, download)
    {
      if selection.Err? {
        return None, 30;
      }
      var rainyNew := selection.value;
      var toDownload := Merge(rainyOld, rainyNew);
      var codes := download(toDownload);
      attempted := Some(toDownload);
      if |codes| == 0 {
        sleep := 60;
      } else if 0 !in codes {
        sleep := 60;
      } else {
        rainyOld := rainyNew;
        sleep := 0;
      }
    }
  }
}
