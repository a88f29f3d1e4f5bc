/** The retention state of downloader2's `main`: `places_to_download` maps
    a place to the target last selected for it, `places_extra` to the number
    of cycles it still has.  Every cycle the places just selected get
    `extra + 1`, their targets replace the old ones, every count drops by
    one, and the places whose count reaches 0 leave both dictionaries. */
module Retention {
  import opened Wrappers
  import opened Selector

  type Targets = map<string, Target>
  type Counts = map<string, int>

  /** Both dictionaries hold the same places. */
  predicate Aligned(toDownload: Targets, remaining: Counts) {
    toDownload.Keys == remaining.Keys
  }

  /** The counts after `for place in places_new: places_extra[place] = extra+1`. */
  function Bumped(remaining: Counts, placesNew: Targets, extra: int): (r: Counts)
    ensures r.Keys == remaining.Keys + placesNew.Keys
    ensures forall p :: p in r ==> r[p] == if p in placesNew then extra + 1 else remaining[p]
  {
    map p | p in remaining.Keys + placesNew.Keys :: if p in placesNew then extra + 1 else remaining[p]
  }

  /** The decrement-and-delete loop: every count drops by one and the
      places whose count reaches 0 leave both dictionaries. */
  function CountDown(targets: Targets, counts: Counts): (Targets, Counts) {
    var kept := set p | p in counts && counts[p] - 1 != 0;
    (map p | p in kept && p in targets :: targets[p], map p | p in kept :: counts[p] - 1)
  }

  /** One cycle of the retention state: the new dictionaries. */
  function Step(toDownload: Targets, remaining: Counts, placesNew: Targets, extra: int): (Targets, Counts) {
    CountDown(toDownload + placesNew, Bumped(remaining, placesNew, extra))
  }

  /** The dictionaries stay aligned, which is why the `del` of
      `places_to_download` never raises. */
  lemma StepKeepsAligned(toDownload: Targets, remaining: Counts, placesNew: Targets, extra: int)
    requires Aligned(toDownload, remaining)
    ensures var (t, c) := Step(toDownload, remaining, placesNew, extra); Aligned(t, c)
  {
    var counts := Bumped(remaining, placesNew, extra);
    var targets := toDownload + placesNew;
    assert counts.Keys == targets.Keys;
    var kept := set p | p in counts && counts[p] - 1 != 0;
    assert kept <= targets.Keys;
  }

  /** A place selected this cycle ends it with count `extra` and the fresh
      target, unless `extra` is 0, when it is dropped at once. */
  lemma SelectedGetsExtra(toDownload: Targets, remaining: Counts, placesNew: Targets, extra: int, p: string)
    requires Aligned(toDownload, remaining) && p in placesNew
    ensures var (t, c) := Step(toDownload, remaining, placesNew, extra);
      && (extra != 0 ==> p in t && t[p] == placesNew[p] && p in c && c[p] == extra)
      && (extra == 0 ==> p !in t && p !in c)
  {
  }

  /** A place not selected this cycle keeps its target and loses one count,
      and leaves when the count reaches 0. */
  lemma UnselectedCountsDown(toDownload: Targets, remaining: Counts, placesNew: Targets, extra: int, p: string)
    requires Aligned(toDownload, remaining) && p !in placesNew
    ensures var (t, c) := Step(toDownload, remaining, placesNew, extra);
      && (p in c <==> p in remaining && remaining[p] != 1)
      && (p in c ==> c[p] == remaining[p] - 1 && t[p] == toDownload[p])
  {
  }

  /** `find_places` raising counts as selecting nothing. */
  function Selection(found: Result<Targets, SelectError>): (r: Targets)
    ensures found.Err? ==> r == map[]
    ensures found.Ok? ==> r == found.value
  {
    match found
    case Ok(places) => places
    case Err(_) => map[]
  }

  /** The retention state after a run of cycles with the given selections. */
  function Cycles(toDownload: Targets, remaining: Counts, selections: seq<Targets>, extra: int): (Targets, Counts)
  {
    if selections == [] then (toDownload, remaining)
    else
      var n := |selections| - 1;
      var (t, c) := Cycles(toDownload, remaining, selections[..n], extra);
      Step(t, c, selections[n], extra)
  }

  lemma {:induction false} CyclesKeepAligned(toDownload: Targets, remaining: Counts, selections: seq<Targets>, extra: int)
    requires Aligned(toDownload, remaining)
    ensures var (t, c) := Cycles(toDownload, remaining, selections, extra); Aligned(t, c)
  {
    if selections != [] {
      var n := |selections| - 1;
      CyclesKeepAligned(toDownload, remaining, selections[..n], extra);
      var (t, c) := Cycles(toDownload, remaining, selections[..n], extra);
      StepKeepsAligned(t, c, selections[n], extra);
    }
  }

  /** A place last selected in cycle k is still to be downloaded i cycles
      later exactly when `extra > i` (or `extra` is negative, when its count
      never reaches 0), and then with the target selected in cycle k and
      count `extra - i`.  So `extra = 0` downloads nothing and `extra = 1`
      only in cycle k. */
  lemma {:induction false} Retained(toDownload: Targets, remaining: Counts, selections: seq<Targets>, extra: int,
                                    p: string, k: nat, i: nat)
    requires Aligned(toDownload, remaining)
    requires k + i < |selections| && p in selections[k]
    requires forall j :: k < j <= k + i ==> p !in selections[j]
    ensures var (t, c) := Cycles(toDownload, remaining, selections[..k + i + 1], extra);
      && (p in t <==> extra > i || extra < 0)
      && (p in c <==> extra > i || extra < 0)
      && (p in c ==> c[p] == extra - i && t[p] == selections[k][p])
  {
    RetainedState(toDownload, remaining, selections, extra, p, k, i);
  }

  /** What `Retained` states, of the pair of dictionaries. */
  predicate Holds(st: (Targets, Counts), p: string, extra: int, i: nat, target: Target) {
    && (p in st.0 <==> extra > i || extra < 0)
    && (p in st.1 <==> extra > i || extra < 0)
    && (p in st.1 ==> st.1[p] == extra - i && st.0[p] == target)
  }

  lemma {:induction false} RetainedState(toDownload: Targets, remaining: Counts, selections: seq<Targets>, extra: int,
                                         p: string, k: nat, i: nat)
    requires Aligned(toDownload, remaining)
    requires k + i < |selections| && p in selections[k]
    requires forall j :: k < j <= k + i ==> p !in selections[j]
    ensures Holds(Cycles(toDownload, remaining, selections[..k + i + 1], extra), p, extra, i, selections[k][p])
  {
    if i == 0 {
      HoldsFirstCycle(toDownload, remaining, selections, extra, p, k);
    } else {
      RetainedState(toDownload, remaining, selections, extra, p, k, i - 1);
      assert p !in selections[k + i];
      var m := k + i;
      assert selections[..k + (i - 1) + 1] == selections[..m];
      HoldsNextCycle(toDownload, remaining, selections, extra, p, m, i, selections[k][p]);
    }
  }

  lemma HoldsFirstCycle(toDownload: Targets, remaining: Counts, selections: seq<Targets>, extra: int, p: string, m: nat)
    requires Aligned(toDownload, remaining) && m < |selections| && p in selections[m]
    ensures Holds(Cycles(toDownload, remaining, selections[..m + 1], extra), p, extra, 0, selections[m][p])
  {
    CyclesSnoc(toDownload, remaining, selections, extra, m);
    CyclesKeepAligned(toDownload, remaining, selections[..m], extra);
    HoldsFirst(Cycles(toDownload, remaining, selections[..m], extra), selections[m], extra, p);
  }

  lemma HoldsNextCycle(toDownload: Targets, remaining: Counts, selections: seq<Targets>, extra: int,
                       p: string, m: nat, i: nat, target: Target)
    requires Aligned(toDownload, remaining) && m < |selections| && p !in selections[m] && i > 0
    requires Holds(Cycles(toDownload, remaining, selections[..m], extra), p, extra, i - 1, target)
    ensures Holds(Cycles(toDownload, remaining, selections[..m + 1], extra), p, extra, i, target)
  {
    CyclesSnoc(toDownload, remaining, selections, extra, m);
    CyclesKeepAligned(toDownload, remaining, selections[..m], extra);
    HoldsNext(Cycles(toDownload, remaining, selections[..m], extra), selections[m], extra, p, i, target);
  }

  lemma HoldsFirst(before: (Targets, Counts), placesNew: Targets, extra: int, p: string)
    requires Aligned(before.0, before.1) && p in placesNew
    ensures Holds(Step(before.0, before.1, placesNew, extra), p, extra, 0, placesNew[p])
  {
    SelectedGetsExtra(before.0, before.1, placesNew, extra, p);
  }

  lemma HoldsNext(before: (Targets, Counts), placesNew: Targets, extra: int, p: string, i: nat, target: Target)
    requires Aligned(before.0, before.1) && p !in placesNew && i > 0
    requires Holds(before, p, extra, i - 1, target)
    ensures Holds(Step(before.0, before.1, placesNew, extra), p, extra, i, target)
  {
    UnselectedCountsDown(before.0, before.1, placesNew, extra, p);
  }

  /** The cycles up to and including cycle m are those before it and then
      cycle m. */
  lemma CyclesSnoc(toDownload: Targets, remaining: Counts, selections: seq<Targets>, extra: int, m: nat)
    requires m < |selections|
    ensures var before := Cycles(toDownload, remaining, selections[..m], extra);
      Cycles(toDownload, remaining, selections[..m + 1], extra) == Step(before.0, before.1, selections[m], extra)
  {
    var upTo := selections[..m + 1];
    assert upTo[..m] == selections[..m] && upTo[m] == selections[m];
  }

  /** With one extra cycle, a place seen once is downloaded in that cycle
      only: the cycle after, its count reaches 0 before the download. */
  lemma OneExtraCycle(sel: seq<Targets>, a: string)
    requires |sel| == 3 && a in sel[0] && a !in sel[1] && a !in sel[2]
    ensures a in Cycles(map[], map[], sel[..1], 1).0
    ensures a !in Cycles(map[], map[], sel[..2], 1).0
    ensures a !in Cycles(map[], map[], sel, 1).0
  {
    RetainedState(map[], map[], sel, 1, a, 0, 0);
    RetainedState(map[], map[], sel, 1, a, 0, 1);
    RetainedState(map[], map[], sel, 1, a, 0, 2);
    assert sel[..3] == sel;
  }

  /** The cycle the `--extra` help text describes (`extra` more downloads
      after the place stops being selected): as written with one more
      count. */
  function StepFixed(toDownload: Targets, remaining: Counts, placesNew: Targets, extra: int): (Targets, Counts) {
    Step(toDownload, remaining, placesNew, extra + 1)
  }

  function CyclesFixed(toDownload: Targets, remaining: Counts, selections: seq<Targets>, extra: int): (r: (Targets, Counts))
    ensures r == Cycles(toDownload, remaining, selections, extra + 1)
  {
    if selections == [] then (toDownload, remaining)
    else
      var n := |selections| - 1;
      var (t, c) := CyclesFixed(toDownload, remaining, selections[..n], extra);
      StepFixed(t, c, selections[n], extra)
  }

  /** With the fix, a place last selected in cycle k is downloaded in
      cycles k to k + extra: in the sighting cycle and in `extra` cycles
      after it. */
  lemma RetainedFixed(toDownload: Targets, remaining: Counts, selections: seq<Targets>, extra: nat,
                      p: string, k: nat, i: nat)
    requires Aligned(toDownload, remaining)
    requires k + i < |selections| && p in selections[k]
    requires forall j :: k < j <= k + i ==> p !in selections[j]
    ensures var (t, c) := CyclesFixed(toDownload, remaining, selections[..k + i + 1], extra);
      (p in t <==> i <= extra) && (p in t ==> t[p] == selections[k][p])
  {
    Retained(toDownload, remaining, selections, extra + 1, p, k, i);
  }

  /** The two dictionaries of downloader2's `main`. */
  class Tracker {
    var toDownload: Targets
    var remaining: Counts
    const extra: int

    predicate Valid()
      reads this
    {
      Aligned(toDownload, remaining)
    }

    /** `places_to_download = {}` and `places_extra = {}`. */
    constructor(extra: int)
      ensures Valid() && toDownload == map[] && remaining == map[] && this.extra == extra
    {
      toDownload := map[];
      remaining := map[];
      this.extra := extra;
    }

    /** The body of the retention part of the main loop (the assignment
        loop, the `update`, and the decrement-and-delete loop over a
        snapshot of the keys). */
    method Cycle(placesNew: Targets)
      requires Valid()
      modifies this
      ensures Valid()
      ensures (toDownload, remaining) == Step(old(toDownload), old(remaining), placesNew, extra)
    {
      Advance(placesNew, extra + 1);
    }

    /** The cycle with the count the `--extra` help text calls for. */
    method CycleFixed(placesNew: Targets)
      requires Valid()
      modifies this
      ensures Valid()
      ensures (toDownload, remaining) == StepFixed(old(toDownload), old(remaining), placesNew, extra)
    {
      Advance(placesNew, extra + 2);
    }

    /** Gives every new place the count `start`, takes the new targets, and
        counts every place down, dropping those that reach 0. */
    method Advance(placesNew: Targets, start: int)
      requires Valid()
      modifies this
      ensures Valid()
      ensures (toDownload, remaining) == Step(old(toDownload), old(remaining), placesNew, start - 1)
    {
      Assign(placesNew, start);
      toDownload := toDownload + placesNew;
      CountDownAll();
    }

    /** `for place in places_new: places_extra[place] = start`. */
    method Assign(placesNew: Targets, start: int)
      modifies this
      ensures toDownload == old(toDownload) && remaining == Bumped(old(remaining), placesNew, start - 1)
    {
      var pending := placesNew.Keys;
      while pending != {}
        invariant pending <= placesNew.Keys
        invariant remaining.Keys == old(remaining).Keys + (placesNew.Keys - pending)
        invariant forall p :: p in remaining ==> remaining[p] == if p in placesNew && p !in pending then start else old(remaining)[p]
        invariant toDownload == old(toDownload)
        decreases pending
      {
        var p :| p in pending;
        remaining := remaining[p := start];
        pending := pending - {p};
      }
    }

    /** `for place in list(places_extra)`: decrement, and delete both
        entries at 0. */
    method CountDownAll()
      requires Valid()
      modifies this
      ensures Valid()
      ensures (toDownload, remaining) == CountDown(old(toDownload), old(remaining))
    {
      ghost var counts, targets := remaining, toDownload;
      var todo := remaining.Keys;
      while todo != {}
        invariant todo <= counts.Keys
        invariant remaining.Keys == toDownload.Keys
        invariant forall p :: p in remaining <==> p in todo || (p in counts && p !in todo && counts[p] - 1 != 0)
        invariant forall p :: p in remaining ==> remaining[p] == if p in todo then counts[p] else counts[p] - 1
        invariant forall p :: p in toDownload ==> toDownload[p] == targets[p]
        decreases todo
      {
        var p :| p in todo;
        remaining := remaining[p := remaining[p] - 1];
        if remaining[p] == 0 {
          toDownload := toDownload - {p};
          remaining := remaining - {p};
        }
        todo := todo - {p};
      }
      ghost var kept := set p | p in counts && counts[p] - 1 != 0;
      assert remaining == map p | p in kept :: counts[p] - 1;
      assert toDownload == map p | p in kept && p in targets :: targets[p];
    }
  }
}
