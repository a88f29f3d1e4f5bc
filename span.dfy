/** The integer part of the SPAN background picker: for every pixel of a
    stack of luma frames, the most frequent luma value and the percent
    interval its copies occupy in the pixel's sorted history; then the one
    percentile, 0 to 100, that the most pixel intervals contain.  The eight
    regions the picker hands to worker processes are processed here one
    after the other, in region order. */
module Span {
  import opened Wrappers

  newtype byte = x: int | 0 <= x < 256

  // ---------------------------------------------------------------------
  // Counting, bincount and argmax

  /** How many entries of s equal v. */
  function CountEq(s: seq<byte>, v: int): nat {
    if s == [] then 0
    else
      var n := |s| - 1;
      CountEq(s[..n], v) + (if s[n] as int == v then 1 else 0)
  }

  /** How many entries of s are below v. */
  function CountLess(s: seq<byte>, v: int): nat {
    if s == [] then 0
    else
      var n := |s| - 1;
      CountLess(s[..n], v) + (if (s[n] as int) < v then 1 else 0)
  }

  lemma {:induction false} CountEqMultiset(s: seq<byte>, v: byte)
    ensures CountEq(s, v as int) == multiset(s)[v]
  {
    if s != [] {
      var n := |s| - 1;
      assert s == s[..n] + [s[n]];
      CountEqMultiset(s[..n], v);
    }
  }

  lemma {:induction false} CountEqPositive(s: seq<byte>, k: nat)
    requires k < |s|
    ensures CountEq(s, s[k] as int) > 0
  {
    var n := |s| - 1;
    if k < n {
      assert s[..n][k] == s[k];
      CountEqPositive(s[..n], k);
    }
  }

  lemma {:induction false} CountsBounded(s: seq<byte>, v: int)
    ensures CountLess(s, v) + CountEq(s, v) <= |s|
  {
    if s != [] {
      CountsBounded(s[..|s| - 1], v);
    }
  }

  /** `np.argmax`: the first position of the largest entry. */
  function ArgMax(s: seq<int>): (r: nat)
    requires |s| > 0
    ensures r < |s|
    ensures forall k :: 0 <= k < |s| ==> s[k] <= s[r]
    ensures forall k :: 0 <= k < r ==> s[k] < s[r]
  {
    if |s| == 1 then 0
    else
      var n := |s| - 1;
      var m := ArgMax(s[..n]);
      assert forall k :: 0 <= k < n ==> s[..n][k] == s[k];
      if s[n] > s[m] then n else m
  }

  function Largest(s: seq<byte>): (r: byte)
    requires |s| > 0
    ensures forall k :: 0 <= k < |s| ==> s[k] <= r
  {
    if |s| == 1 then s[0]
    else
      var n := |s| - 1;
      var m := Largest(s[..n]);
      assert forall k :: 0 <= k < n ==> s[..n][k] == s[k];
      if s[n] > m then s[n] else m
  }

  /** `np.bincount(arr)`: one count per value from 0 to the largest. */
  function Bincount(arr: seq<byte>): (bc: seq<int>)
    requires |arr| > 0
    ensures |bc| == Largest(arr) as int + 1
    ensures forall v :: 0 <= v < |bc| ==> bc[v] == CountEq(arr, v)
  {
    seq(Largest(arr) as int + 1, v requires 0 <= v <= Largest(arr) as int => CountEq(arr, v) as int)
  }

  lemma {:induction false} CountOutside(arr: seq<byte>, v: int)
    requires |arr| > 0 && (v < 0 || v > Largest(arr) as int)
    ensures CountEq(arr, v) == 0
  {
    if |arr| > 1 {
      var n := |arr| - 1;
      assert forall k :: 0 <= k < n ==> arr[..n][k] == arr[k];
      assert Largest(arr[..n]) <= Largest(arr);
      CountOutside(arr[..n], v);
    } else {
      assert arr[..0] == [];
    }
  }

  /** `get_max_occur_number(arr)`: the most frequent value and how often it
      occurs; on a tie, the smallest such value.  `np.argmax` of an empty
      bincount raises, so an empty history has no result. */
  function MaxOccur(arr: seq<byte>): (r: Option<(byte, nat)>)
    ensures r.None? <==> arr == []
    ensures r.Some? ==> r.value.1 == CountEq(arr, r.value.0 as int) && r.value.1 > 0
    ensures r.Some? ==> forall v :: CountEq(arr, v) <= r.value.1
    ensures r.Some? ==> forall v :: 0 <= v < r.value.0 as int ==> CountEq(arr, v) < r.value.1
  {
    if arr == [] then None
    else
      var bc := Bincount(arr);
      var m := ArgMax(bc);
      assert bc[arr[0]] == CountEq(arr, arr[0] as int) by {
        assert arr[0] <= Largest(arr);
      }
      CountEqPositive(arr, 0);
      assert forall v :: CountEq(arr, v) <= bc[m] by {
        forall v ensures CountEq(arr, v) <= bc[m] {
          if v < 0 || v > Largest(arr) as int {
            CountOutside(arr, v);
          } else {
            assert bc[v] == CountEq(arr, v);
          }
        }
      }
      Some((m as byte, bc[m] as nat))
  }

  // ---------------------------------------------------------------------
  // sorted() and the block of the mode

  predicate Sorted(s: seq<byte>) {
    forall i, j :: 0 <= i < j < |s| ==> s[i] <= s[j]
  }

  function Insert(s: seq<byte>, x: byte): (r: seq<byte>)
    requires Sorted(s)
    ensures Sorted(r) && multiset(r) == multiset(s) + multiset{x}
  {
    if s == [] then [x]
    else
      var n := |s| - 1;
      if s[n] <= x then
        s + [x]
      else
        var rest := Insert(s[..n], x);
        assert s == s[..n] + [s[n]];
        AtMostAll(rest, s[..n], x, s[n]);
        rest + [s[n]]
  }

  /** A rearrangement of values at most b, and x, holds values at most b. */
  lemma AtMostAll(r: seq<byte>, s: seq<byte>, x: byte, b: byte)
    requires multiset(r) == multiset(s) + multiset{x}
    requires forall k :: 0 <= k < |s| ==> s[k] <= b
    requires x <= b
    ensures forall k :: 0 <= k < |r| ==> r[k] <= b
  {
    forall k | 0 <= k < |r|
      ensures r[k] <= b
    {
      assert r[k] in multiset(r);
      if r[k] != x {
        assert r[k] in multiset(s);
        var i :| 0 <= i < |s| && s[i] == r[k];
      }
    }
  }

  /** `sorted(arr)`. */
  function Sort(s: seq<byte>): (r: seq<byte>)
    ensures Sorted(r) && multiset(r) == multiset(s) && |r| == |s|
  {
    if s == [] then []
    else
      var n := |s| - 1;
      var sorted := Sort(s[..n]);
      assert s == s[..n] + [s[n]];
      assert multiset(s) == multiset(s[..n]) + multiset{s[n]};
      Insert(sorted, s[n])
  }

  /** `[i for (i, j) in enumerate(s) if j == v]`. */
  function Indices(s: seq<byte>, v: int): (r: seq<nat>)
    ensures forall k :: 0 <= k < |r| ==> r[k] < |s| && s[r[k]] as int == v
  {
    if s == [] then []
    else
      var n := |s| - 1;
      Indices(s[..n], v) + (if s[n] as int == v then [n] else [])
  }

  /** The positions l, l + 1, ..., l + e - 1. */
  function Block(l: nat, e: nat): (r: seq<nat>)
    ensures |r| == e && forall k :: 0 <= k < e ==> r[k] == l + k
  {
    if e == 0 then [] else Block(l, e - 1) + [l + e - 1]
  }

  /** In a sorted list the copies of v sit together, right after the
      entries below v. */
  ghost predicate IsBlock(s: seq<byte>, v: int) {
    && Indices(s, v) == Block(CountLess(s, v), CountEq(s, v))
    && (forall k :: 0 <= k < |s| && (s[k] as int) < v ==> k < CountLess(s, v))
    && (forall k :: 0 <= k < |s| && s[k] as int == v ==> CountLess(s, v) <= k < CountLess(s, v) + CountEq(s, v))
  }

  lemma {:induction false} SortedBlock(s: seq<byte>, v: int)
    requires Sorted(s)
    ensures Indices(s, v) == Block(CountLess(s, v), CountEq(s, v))
    ensures forall k :: 0 <= k < |s| && (s[k] as int) < v ==> k < CountLess(s, v)
    ensures forall k :: 0 <= k < |s| && s[k] as int == v ==> CountLess(s, v) <= k < CountLess(s, v) + CountEq(s, v)
  {
    if s != [] {
      var n := |s| - 1;
      assert Sorted(s[..n]);
      SortedBlock(s[..n], v);
      if (s[n] as int) < v {
        BlockBelow(s, v);
      } else if s[n] as int == v {
        BlockAt(s, v);
      } else {
        BlockAbove(s, v);
      }
    }
  }

  /** A last entry below v: everything is below v. */
  lemma BlockBelow(s: seq<byte>, v: int)
    requires Sorted(s) && s != [] && (s[|s| - 1] as int) < v
    ensures IsBlock(s, v)
  {
    var n := |s| - 1;
    var t := s[..n];
    assert forall k :: 0 <= k < n ==> t[k] == s[k];
    assert forall k :: 0 <= k < n ==> (t[k] as int) < v;
    AllBelow(t, v);
    IndicesCount(t, v);
  }

  lemma {:induction false} IndicesCount(s: seq<byte>, v: int)
    ensures |Indices(s, v)| == CountEq(s, v)
  {
    if s != [] {
      IndicesCount(s[..|s| - 1], v);
    }
  }

  /** A last entry equal to v extends the block by one. */
  lemma BlockAt(s: seq<byte>, v: int)
    requires Sorted(s) && s != [] && s[|s| - 1] as int == v
    requires IsBlock(s[..|s| - 1], v)
    ensures IsBlock(s, v)
  {
    var n := |s| - 1;
    var t := s[..n];
    assert forall k :: 0 <= k < n ==> t[k] == s[k];
    assert forall k :: 0 <= k < n ==> t[k] as int <= v;
    NoneAbove(t, v);
    var l, e := CountLess(t, v), CountEq(t, v);
    assert CountEq(s, v) == e + 1 && CountLess(s, v) == l && n == l + e;
    assert Indices(s, v) == Indices(t, v) + [n];
  }

  /** A last entry above v changes nothing. */
  lemma BlockAbove(s: seq<byte>, v: int)
    requires s != [] && s[|s| - 1] as int > v
    requires IsBlock(s[..|s| - 1], v)
    ensures IsBlock(s, v)
  {
    var n := |s| - 1;
    var t := s[..n];
    assert forall k :: 0 <= k < n ==> t[k] == s[k];
    CountsBounded(t, v);
  }

  lemma {:induction false} AllBelow(s: seq<byte>, v: int)
    requires forall k :: 0 <= k < |s| ==> (s[k] as int) < v
    ensures CountLess(s, v) == |s| && CountEq(s, v) == 0
  {
    if s != [] {
      var n := |s| - 1;
      assert forall k :: 0 <= k < n ==> s[..n][k] == s[k];
      AllBelow(s[..n], v);
    }
  }

  lemma {:induction false} NoneAbove(s: seq<byte>, v: int)
    requires forall k :: 0 <= k < |s| ==> s[k] as int <= v
    ensures CountLess(s, v) + CountEq(s, v) == |s|
  {
    if s != [] {
      var n := |s| - 1;
      assert forall k :: 0 <= k < n ==> s[..n][k] == s[k];
      NoneAbove(s[..n], v);
    }
  }

  /** The mode of a history heads a non-empty block of the sorted history:
      it starts after the entries below the mode and has one place per
      copy. */
  lemma ModeBlock(col: seq<byte>)
    requires col != []
    ensures var mode := MaxOccur(col).value.0 as int;
      var sorted := Sort(col);
      && CountEq(sorted, mode) == CountEq(col, mode)
      && Indices(sorted, mode) == Block(CountLess(sorted, mode), CountEq(col, mode))
      && CountLess(sorted, mode) + CountEq(col, mode) <= |col|
  {
    var mode := MaxOccur(col).value.0;
    var sorted := Sort(col);
    CountEqMultiset(col, mode);
    CountEqMultiset(sorted, mode);
    SortedBlock(sorted, mode as int);
    CountsBounded(sorted, mode as int);
  }

  // ---------------------------------------------------------------------
  // One pixel

  /** Luma frames: `y[t][h][w]` for t < T, h < H, w < W. */
  type Stack = seq<seq<seq<byte>>>

  predicate IsStack(y: Stack, t: nat, hh: nat, ww: nat) {
    |y| == t && forall i :: 0 <= i < t ==> |y[i]| == hh && forall h :: 0 <= h < hh ==> |y[i][h]| == ww
  }

  /** `y[:, h, w]`, the history of one pixel. */
  function Column(y: Stack, h: nat, w: nat): (col: seq<byte>)
    requires forall i :: 0 <= i < |y| ==> h < |y[i]| && w < |y[i][h]|
    ensures |col| == |y|
  {
    seq(|y|, i requires 0 <= i < |y| => y[i][h][w])
  }

  /** One pixel's `index[0]`, `index[-1]` and history length:
      `percent_min` is `first / len * 100` and `percent_max` is
      `last / len * 100`. */
  datatype Interval = Interval(first: nat, last: nat, len: nat)

  /** `k / n * 100`. */
  function Percent(k: nat, n: nat): real
    requires n > 0
  {
    k as real / n as real * 100.0
  }

  /** `index` lists the places of the mode in the sorted history. */
  function IntervalOf(col: seq<byte>): (iv: Interval)
    requires col != []
    ensures iv.len == |col|
  {
    var index := Indices(Sort(col), MaxOccur(col).value.0 as int);
    ModeBlock(col);
    Interval(index[0], index[|index| - 1], |col|)
  }

  function PixelInterval(y: Stack, h: nat, w: nat): (iv: Interval)
    requires |y| > 0
    requires forall i :: 0 <= i < |y| ==> h < |y[i]| && w < |y[i][h]|
    ensures iv.len == |y|
  {
    IntervalOf(Column(y, h, w))
  }

  /** The interval runs from the number of history entries below the mode
      to that number plus the mode's count, less one. */
  lemma IntervalBounds(col: seq<byte>)
    requires col != []
    ensures var mode := MaxOccur(col).value;
      var iv := IntervalOf(col);
      && iv.first == CountLess(Sort(col), mode.0 as int)
      && iv.last == iv.first + mode.1 - 1
      && iv.first <= iv.last < iv.len == |col|
  {
    var mode := MaxOccur(col).value;
    ModeBlock(col);
    BlockEnds(Indices(Sort(col), mode.0 as int), CountLess(Sort(col), mode.0 as int), mode.1);
  }

  lemma BlockEnds(s: seq<nat>, l: nat, e: nat)
    requires s == Block(l, e) && e > 0
    ensures s[0] == l && s[|s| - 1] == l + e - 1
  {
  }

  /** So `0 <= percent_min <= percent_max < 100`. */
  lemma PercentBounds(a: nat, b: nat, n: nat)
    requires a <= b < n
    ensures 0.0 <= Percent(a, n) <= Percent(b, n) < 100.0
  {
    var m := n as real;
    assert a as real / m <= b as real / m;
    assert b as real / m < 1.0;
  }

  /** Every entry of the sorted history from `index[0]` to `index[-1]` is
      the mode. */
  lemma ModeRun(col: seq<byte>, k: nat)
    requires col != []
    requires IntervalOf(col).first <= k <= IntervalOf(col).last
    ensures k < |col| && Sort(col)[k] == MaxOccur(col).value.0
  {
    var mode, sorted := MaxOccur(col).value, Sort(col);
    var v := mode.0 as int;
    IntervalBounds(col);
    ModeBlock(col);
    assert CountLess(sorted, v) <= k < CountLess(sorted, v) + CountEq(sorted, v);
    SortedRun(sorted, v, k);
  }

  lemma SortedRun(s: seq<byte>, v: int, k: nat)
    requires Sorted(s)
    requires CountLess(s, v) <= k < CountLess(s, v) + CountEq(s, v)
    ensures k < |s| && s[k] as int == v
  {
    SortedBlock(s, v);
    assert Indices(s, v)[k - CountLess(s, v)] == k;
  }

  /** `maps[i, j] = 1` when `j >= percent_min[i] and j <= percent_max[i]`. */
  predicate Marked(iv: Interval, j: int)
    requires iv.len > 0
  {
    j as real >= Percent(iv.first, iv.len) && j as real <= Percent(iv.last, iv.len)
  }

  /** The same test in whole numbers: j is in the interval exactly when
      `first * 100 <= j * len <= last * 100`. */
  lemma MarkedIff(iv: Interval, j: int)
    requires iv.len > 0
    ensures Marked(iv, j) <==> iv.first * 100 <= j * iv.len <= iv.last * 100
  {
    PercentTimes(iv.first, iv.len);
    PercentTimes(iv.last, iv.len);
    CastMul(j, iv.len);
    Scaled(Percent(iv.first, iv.len), j as real, Percent(iv.last, iv.len), iv.len as real,
           iv.first * 100, j * iv.len, iv.last * 100);
  }

  /** Comparing three reals is comparing their multiples by a positive n. */
  lemma Scaled(lo: real, x: real, hi: real, n: real, a: int, b: int, c: int)
    requires n > 0.0 && lo * n == a as real && x * n == b as real && hi * n == c as real
    ensures (lo <= x <==> a <= b) && (x <= hi <==> b <= c)
  {
    ScaleLe(lo, x, n);
    ScaleLe(x, hi, n);
  }

  lemma PercentTimes(k: nat, n: nat)
    requires n > 0
    ensures Percent(k, n) * n as real == (k * 100) as real
  {
    var m := n as real;
    assert k as real / m * m == k as real;
  }

  lemma ScaleLe(x: real, y: real, n: real)
    requires n > 0.0
    ensures x <= y <==> x * n <= y * n
  {
  }

  lemma CastMul(a: int, b: int)
    ensures (a * b) as real == a as real * b as real
  {
  }

  // ---------------------------------------------------------------------
  // job: one region

  /** A pixel's place `(h, w)`. */
  type Pixel = (nat, nat)

  /** Pixels (h, w1) .. (h, w2 - 1). */
  function RowPixels(h: nat, w1: nat, w2: nat): (r: seq<Pixel>)
    ensures |r| == Span(w1, w2)
  {
    seq(Span(w1, w2), k => (h, w1 + k))
  }

  /** The pixels of rows h1 .. h - 1 and columns w1 .. w2 - 1, row by
      row. */
  function RegionPixels(h1: nat, h: nat, w1: nat, w2: nat): (r: seq<Pixel>)
    ensures forall k :: 0 <= k < |r| ==> h1 <= r[k].0 < h && w1 <= r[k].1 < w2
  {
    if h <= h1 then [] else RegionPixels(h1, h - 1, w1, w2) + RowPixels(h - 1, w1, w2)
  }

  /** A region has as many pixels as rows times columns. */
  lemma {:induction false} RegionPixelsLength(h1: nat, h: nat, w1: nat, w2: nat)
    requires w1 <= w2
    ensures |RegionPixels(h1, h, w1, w2)| == Span(h1, h) * (w2 - w1)
  {
    if h > h1 {
      RegionPixelsLength(h1, h - 1, w1, w2);
      MulSucc(Span(h1, h - 1), w2 - w1);
      assert Span(h1, h) == Span(h1, h - 1) + 1;
    }
  }

  predicate InStack(pix: seq<Pixel>, hh: nat, ww: nat) {
    forall k :: 0 <= k < |pix| ==> pix[k].0 < hh && pix[k].1 < ww
  }

  /** The intervals of a run of pixels. */
  function Intervals(y: Stack, hh: nat, ww: nat, pix: seq<Pixel>): (r: seq<Interval>)
    requires IsStack(y, |y|, hh, ww) && |y| > 0 && InStack(pix, hh, ww)
    ensures |r| == |pix|
    ensures forall k :: 0 <= k < |r| ==> r[k].len == |y|
  {
    seq(|pix|, k requires 0 <= k < |pix| => PixelInterval(y, pix[k].0, pix[k].1))
  }

  lemma IntervalsConcat(y: Stack, hh: nat, ww: nat, a: seq<Pixel>, b: seq<Pixel>)
    requires IsStack(y, |y|, hh, ww) && |y| > 0 && InStack(a, hh, ww) && InStack(b, hh, ww)
    ensures InStack(a + b, hh, ww)
    ensures Intervals(y, hh, ww, a + b) == Intervals(y, hh, ww, a) + Intervals(y, hh, ww, b)
  {
    assert forall k :: 0 <= k < |a| + |b| ==> (a + b)[k] == if k < |a| then a[k] else b[k - |a|];
    var whole, left, right := Intervals(y, hh, ww, a + b), Intervals(y, hh, ww, a), Intervals(y, hh, ww, b);
    forall k | 0 <= k < |whole| ensures whole[k] == (left + right)[k] {
      if k < |a| {
        assert (a + b)[k] == a[k];
      } else {
        assert (a + b)[k] == b[k - |a|];
      }
    }
  }

  /** The length of `range(a, b)`. */
  function Span(a: int, b: int): nat {
    if b <= a then 0 else b - a
  }

  lemma MulSucc(a: nat, b: nat)
    ensures (a + 1) * b == a * b + b
  {
  }

  /** A region's bounds as passed to `job`, `(w1, w2, h1, h2)`.  Every
      bound `computer_percentile` passes is `W/4*k`, `H/2` or `H`, an exact
      multiple of a quarter, so each is kept as a whole number of quarters:
      bound `w1` here stands for the float `w1 / 4`. */
  datatype Region = Region(w1: nat, w2: nat, h1: nat, h2: nat)

  /** `int(x)` of a non-negative bound of q quarters. */
  function Trunc(q: nat): nat {
    q / 4
  }

  predicate Ordered(r: Region) {
    r.w1 <= r.w2 && r.h1 <= r.h2
  }

  predicate InFrame(r: Region, hh: nat, ww: nat) {
    Ordered(r) && Trunc(r.w2) <= ww && Trunc(r.h2) <= hh
  }

  /** `int(h2 - h1) * int(w2 - w1)`: the rows of `maps`. */
  function MapRows(r: Region): nat
    requires Ordered(r)
  {
    Trunc(r.h2 - r.h1) * Trunc(r.w2 - r.w1)
  }

  /** The pixels `job` visits, `range(int(h1), int(h2)) x
      range(int(w1), int(w2))` row by row. */
  function PixelsOf(r: Region): seq<Pixel>
    requires Ordered(r)
  {
    RegionPixels(Trunc(r.h1), Trunc(r.h2), Trunc(r.w1), Trunc(r.w2))
  }

  /** The intervals of the pixels `job` visits. */
  function Visited(y: Stack, hh: nat, ww: nat, r: Region): (ivs: seq<Interval>)
    requires IsStack(y, |y|, hh, ww) && |y| > 0 && InFrame(r, hh, ww)
    ensures forall k :: 0 <= k < |ivs| ==> ivs[k].len == |y|
  {
    Intervals(y, hh, ww, PixelsOf(r))
  }

  /** `int(b - a) <= int(b) - int(a)`, so `maps` never has more rows than
      pixels visited. */
  lemma TruncGap(a: nat, b: nat)
    requires a <= b
    ensures Trunc(b - a) <= Trunc(b) - Trunc(a)
  {
  }

  lemma MapRowsFit(r: Region)
    requires Ordered(r)
    ensures MapRows(r) <= Span(Trunc(r.h1), Trunc(r.h2)) * (Trunc(r.w2) - Trunc(r.w1))
  {
    TruncGap(r.h1, r.h2);
    TruncGap(r.w1, r.w2);
    MulLe(Trunc(r.h2 - r.h1), Trunc(r.w2 - r.w1), Trunc(r.h2) - Trunc(r.h1), Trunc(r.w2) - Trunc(r.w1));
  }

  lemma MulLe(a: nat, b: nat, c: nat, d: nat)
    requires a <= c && b <= d
    ensures a * b <= c * d
  {
    assert a * b <= c * b;
    assert c * b <= c * d;
  }

  /** `maps` never has more rows than `job` visits pixels. */
  lemma VisitedRows(y: Stack, hh: nat, ww: nat, r: Region)
    requires IsStack(y, |y|, hh, ww) && |y| > 0 && InFrame(r, hh, ww)
    ensures MapRows(r) <= |Visited(y, hh, ww, r)|
  {
    RegionPixelsLength(Trunc(r.h1), Trunc(r.h2), Trunc(r.w1), Trunc(r.w2));
    MapRowsFit(r);
  }

  /** An entry of `percent_min` or `percent_max`, `num / den * 100`,
      kept as the exact fraction it is computed from. */
  datatype Ratio = Ratio(num: nat, den: nat)

  /** `percent_min[i] <= j <= percent_max[i]`, cross-multiplied. */
  predicate Within(j: int, lo: Ratio, hi: Ratio) {
    lo.num * 100 <= j * lo.den && j * hi.den <= hi.num * 100
  }

  /** The `percent_min` list of a run of pixels. */
  function Los(ivs: seq<Interval>): (r: seq<Ratio>)
    ensures |r| == |ivs|
  {
    seq(|ivs|, k requires 0 <= k < |ivs| => Ratio(ivs[k].first, ivs[k].len))
  }

  /** The `percent_max` list of a run of pixels. */
  function His(ivs: seq<Interval>): (r: seq<Ratio>)
    ensures |r| == |ivs|
  {
    seq(|ivs|, k requires 0 <= k < |ivs| => Ratio(ivs[k].last, ivs[k].len))
  }

  /** Percents of two runs visited one after the other. */
  lemma PercentsConcat(a: seq<Interval>, b: seq<Interval>)
    ensures Los(a + b) == Los(a) + Los(b)
    ensures His(a + b) == His(a) + His(b)
  {
    assert forall k :: 0 <= k < |a| ==> (a + b)[k] == a[k];
    assert forall k :: |a| <= k < |a| + |b| ==> (a + b)[k] == b[k - |a|];
  }

  /** One more pixel of a row appends its fractions. */
  lemma RowStep(y: Stack, hh: nat, ww: nat, h: nat, ws: nat, w: nat)
    requires IsStack(y, |y|, hh, ww) && |y| > 0 && h < hh && ws <= w < ww
    ensures InStack(RowPixels(h, ws, w), hh, ww) && InStack(RowPixels(h, ws, w + 1), hh, ww)
    ensures Los(Intervals(y, hh, ww, RowPixels(h, ws, w + 1)))
      == Los(Intervals(y, hh, ww, RowPixels(h, ws, w))) + [Ratio(PixelInterval(y, h, w).first, |y|)]
    ensures His(Intervals(y, hh, ww, RowPixels(h, ws, w + 1)))
      == His(Intervals(y, hh, ww, RowPixels(h, ws, w))) + [Ratio(PixelInterval(y, h, w).last, |y|)]
  {
    var done, one := RowPixels(h, ws, w), [(h, w)];
    assert RowPixels(h, ws, w + 1) == done + one;
    IntervalsConcat(y, hh, ww, done, one);
    assert Intervals(y, hh, ww, one) == [PixelInterval(y, h, w)];
    PercentsConcat(Intervals(y, hh, ww, done), Intervals(y, hh, ww, one));
  }

  /** The intervals of rows hs .. h - 1 of a region. */
  function RegionRows(y: Stack, hh: nat, ww: nat, hs: nat, h: nat, ws: nat, we: nat): seq<Interval>
    requires IsStack(y, |y|, hh, ww) && |y| > 0 && h <= hh && ws <= we <= ww
  {
    Intervals(y, hh, ww, RegionPixels(hs, h, ws, we))
  }

  /** One more row of a region appends the row's fractions. */
  lemma RegionStep(y: Stack, hh: nat, ww: nat, hs: nat, h: nat, next: nat, ws: nat, we: nat)
    requires IsStack(y, |y|, hh, ww) && |y| > 0 && hs <= h < hh && next == h + 1 && ws <= we <= ww
    ensures InStack(RowPixels(h, ws, we), hh, ww)
    ensures Los(RegionRows(y, hh, ww, hs, next, ws, we))
      == Los(RegionRows(y, hh, ww, hs, h, ws, we)) + Los(Intervals(y, hh, ww, RowPixels(h, ws, we)))
    ensures His(RegionRows(y, hh, ww, hs, next, ws, we))
      == His(RegionRows(y, hh, ww, hs, h, ws, we)) + His(Intervals(y, hh, ww, RowPixels(h, ws, we)))
  {
    var done, row := RegionPixels(hs, h, ws, we), RowPixels(h, ws, we);
    assert RegionPixels(hs, next, ws, we) == done + row;
    IntervalsConcat(y, hh, ww, done, row);
    PercentsConcat(Intervals(y, hh, ww, done), Intervals(y, hh, ww, row));
  }

  /** The body of the inner loop of `job`: `arr = y[:, h, w]`, its mode,
      the places of the mode in `np.sort(arr)`, and the first and last of
      them as fractions of the history. */
  method PixelPercents(y: Stack, hh: nat, ww: nat, h: nat, w: nat) returns (lo: Ratio, hi: Ratio)
    requires IsStack(y, |y|, hh, ww) && |y| > 0 && h < hh && w < ww
    ensures lo == Ratio(PixelInterval(y, h, w).first, |y|)
    ensures hi == Ratio(PixelInterval(y, h, w).last, |y|)
  {
    var col := Column(y, h, w);
    var mode := MaxOccur(col).value;
    var index := Indices(Sort(col), mode.0 as int);
    ModeBlock(col);
    lo := Ratio(index[0], |col|);
    hi := Ratio(index[|index| - 1], |col|);
  }

  /** The inner loop of `job`: the percents of row h, columns ws .. we - 1. */
  method RowPercents(y: Stack, hh: nat, ww: nat, h: nat, ws: nat, we: nat) returns (lo: seq<Ratio>, hi: seq<Ratio>)
    requires IsStack(y, |y|, hh, ww) && |y| > 0 && h < hh && ws <= we <= ww
    ensures InStack(RowPixels(h, ws, we), hh, ww)
    ensures lo == Los(Intervals(y, hh, ww, RowPixels(h, ws, we)))
    ensures hi == His(Intervals(y, hh, ww, RowPixels(h, ws, we)))
  {
    lo, hi := [], [];
    var w := ws;
    while w < we
      invariant ws <= w <= we
      invariant InStack(RowPixels(h, ws, w), hh, ww)
      invariant lo == Los(Intervals(y, hh, ww, RowPixels(h, ws, w)))
      invariant hi == His(Intervals(y, hh, ww, RowPixels(h, ws, w)))
    {
      var pixelLo, pixelHi := PixelPercents(y, hh, ww, h, w);
      RowStep(y, hh, ww, h, ws, w);
      lo, hi := lo + [pixelLo], hi + [pixelHi];
      w := w + 1;
    }
  }

  /** The outer loop of `job`: the percents of rows hs .. he - 1, row by
      row. */
  method RowsPercents(y: Stack, hh: nat, ww: nat, hs: nat, he: nat, ws: nat, we: nat) returns (lo: seq<Ratio>, hi: seq<Ratio>)
    requires IsStack(y, |y|, hh, ww) && |y| > 0 && hs <= he <= hh && ws <= we <= ww
    ensures lo == Los(RegionRows(y, hh, ww, hs, he, ws, we)) && hi == His(RegionRows(y, hh, ww, hs, he, ws, we))
  {
    lo, hi := [], [];
    var h := hs;
    while h < he
      invariant hs <= h <= he
      invariant lo == Los(RegionRows(y, hh, ww, hs, h, ws, we))
      invariant hi == His(RegionRows(y, hh, ww, hs, h, ws, we))
    {
      lo, hi := AppendRow(y, hh, ww, hs, h, ws, we, lo, hi);
      h := h + 1;
    }
  }

  /** One pass of the outer loop of `job`: row h's fractions appended. */
  method AppendRow(y: Stack, hh: nat, ww: nat, hs: nat, h: nat, ws: nat, we: nat, lo: seq<Ratio>, hi: seq<Ratio>)
    returns (lo': seq<Ratio>, hi': seq<Ratio>)
    requires IsStack(y, |y|, hh, ww) && |y| > 0 && hs <= h < hh && ws <= we <= ww
    requires lo == Los(RegionRows(y, hh, ww, hs, h, ws, we)) && hi == His(RegionRows(y, hh, ww, hs, h, ws, we))
    ensures lo' == Los(RegionRows(y, hh, ww, hs, h + 1, ws, we)) && hi' == His(RegionRows(y, hh, ww, hs, h + 1, ws, we))
  {
    var rowLo, rowHi := RowPercents(y, hh, ww, h, ws, we);
    RegionStep(y, hh, ww, hs, h, h + 1, ws, we);
    lo', hi' := lo + rowLo, hi + rowHi;
  }

  /** Both loops of `job`, over `range(int(h1), int(h2))` and
      `range(int(w1), int(w2))`. */
  method RegionPercents(y: Stack, hh: nat, ww: nat, r: Region) returns (lo: seq<Ratio>, hi: seq<Ratio>)
    requires IsStack(y, |y|, hh, ww) && |y| > 0 && InFrame(r, hh, ww)
    ensures lo == Los(Visited(y, hh, ww, r)) && hi == His(Visited(y, hh, ww, r))
  {
    lo, hi := RowsPercents(y, hh, ww, Trunc(r.h1), Trunc(r.h2), Trunc(r.w1), Trunc(r.w2));
  }

  /** `maps = np.zeros((rows, 101))` and the loop that sets
      `maps[i][j] = 1` where `percent_min[i] <= j <= percent_max[i]`. */
  method MarkMaps(lo: seq<Ratio>, hi: seq<Ratio>, rows: nat) returns (maps: array2<int>)
    requires rows <= |lo| && rows <= |hi|
    ensures fresh(maps) && maps.Length0 == rows && maps.Length1 == 101
    ensures forall i, j :: 0 <= i < rows && 0 <= j < 101 ==>
      maps[i, j] == if Within(j, lo[i], hi[i]) then 1 else 0
  {
    maps := new int[rows, 101]((i, j) => 0);
    var i := 0;
    while i < rows
      invariant 0 <= i <= rows
      invariant forall a, b :: 0 <= a < rows && 0 <= b < 101 ==>
        maps[a, b] == if a < i && Within(b, lo[a], hi[a]) then 1 else 0
    {
      var j := 0;
      while j < 101
        invariant 0 <= j <= 101
        invariant forall a, b :: 0 <= a < rows && 0 <= b < 101 ==>
          maps[a, b] == if (a < i || (a == i && b < j)) && Within(b, lo[a], hi[a]) then 1 else 0
      {
        if lo[i].num * 100 <= j * lo[i].den && j * hi[i].den <= hi[i].num * 100 {
          maps[i, j] := 1;
        }
        j := j + 1;
      }
      i := i + 1;
    }
  }

  /** `job(q, y, Range)` without the queue: the percents of every pixel
      visited, then `maps` with one row for each of the first
      `int(h2 - h1) * int(w2 - w1)` of them. */
  method Job(y: Stack, hh: nat, ww: nat, r: Region) returns (maps: array2<int>)
    requires IsStack(y, |y|, hh, ww) && |y| > 0 && InFrame(r, hh, ww)
    ensures fresh(maps)
    ensures maps.Length0 == MapRows(r) && maps.Length1 == 101
    ensures MapRows(r) <= |Visited(y, hh, ww, r)|
    ensures forall i, j :: 0 <= i < maps.Length0 && 0 <= j < 101 ==>
      maps[i, j] == if Marked(Visited(y, hh, ww, r)[i], j) then 1 else 0
  {
    var lo, hi := RegionPercents(y, hh, ww, r);
    VisitedRows(y, hh, ww, r);
    maps := MarkMaps(lo, hi, MapRows(r));
    ghost var ivs := Visited(y, hh, ww, r);
    forall i, j | 0 <= i < maps.Length0 && 0 <= j < 101
      ensures Marked(ivs[i], j) == Within(j, lo[i], hi[i])
    {
      MarkedIff(ivs[i], j);
    }
  }

  /** Pixel (a, b) of a region is its ((a - h1) * width + (b - w1))-th:
      the visit is row-major. */
  lemma {:induction false} RowMajor(h1: nat, h: nat, w1: nat, w2: nat, a: nat, b: nat)
    requires w1 <= w2 && h1 <= a < h && w1 <= b < w2
    ensures (a - h1) * (w2 - w1) + (b - w1) < |RegionPixels(h1, h, w1, w2)|
    ensures RegionPixels(h1, h, w1, w2)[(a - h1) * (w2 - w1) + (b - w1)] == (a, b)
  {
    var before, row := RegionPixels(h1, h - 1, w1, w2), RowPixels(h - 1, w1, w2);
    var q, n := a - h1, w2 - w1;
    var i := q * n + (b - w1);
    assert RegionPixels(h1, h, w1, w2) == before + row;
    if a == h - 1 {
      RegionPixelsLength(h1, h - 1, w1, w2);
      assert Span(h1, h - 1) == q;
      assert |before| == q * n;
      assert (before + row)[i] == row[b - w1];
    } else {
      RowMajor(h1, h - 1, w1, w2, a, b);
      assert (before + row)[i] == before[i];
    }
  }

  /** A row visits each of its pixels once and nothing else. */
  lemma {:induction false} RowPixelsCount(h: nat, w1: nat, w2: nat, p: Pixel)
    ensures multiset(RowPixels(h, w1, w2))[p] == if p.0 == h && w1 <= p.1 < w2 then 1 else 0
    decreases w2
  {
    if w2 > w1 {
      RowPixelsCount(h, w1, w2 - 1, p);
      assert RowPixels(h, w1, w2) == RowPixels(h, w1, w2 - 1) + [(h, w2 - 1)];
    } else {
      assert RowPixels(h, w1, w2) == [];
    }
  }

  /** A region visits each of its pixels once and nothing else. */
  lemma {:induction false} RegionPixelsCount(h1: nat, h: nat, w1: nat, w2: nat, p: Pixel)
    requires w1 <= w2
    ensures multiset(RegionPixels(h1, h, w1, w2))[p] == if h1 <= p.0 < h && w1 <= p.1 < w2 then 1 else 0
  {
    if h > h1 {
      RegionPixelsCount(h1, h - 1, w1, w2, p);
      RowPixelsCount(h - 1, w1, w2, p);
    }
  }

  // ---------------------------------------------------------------------
  // computer_percentile: eight regions, column sums, argmax

  /** `R1` .. `R8`: four column strips `W/4*k .. W/4*(k+1)`, each split at
      `H/2` into a top (R1 .. R4) and a bottom (R5 .. R8) half; in quarters
      `W/4*k` is `W*k` and `H/2` is `2*H`. */
  function Regions(hh: nat, ww: nat): (rs: seq<Region>)
    ensures |rs| == 8
    ensures forall k :: 0 <= k < 8 ==> InFrame(rs[k], hh, ww)
  {
    [Region(ww * 0, ww * 1, 0, 2 * hh),
     Region(ww * 1, ww * 2, 0, 2 * hh),
     Region(ww * 2, ww * 3, 0, 2 * hh),
     Region(ww * 3, ww * 4, 0, 2 * hh),
     Region(ww * 0, ww * 1, 2 * hh, 4 * hh),
     Region(ww * 1, ww * 2, 2 * hh, 4 * hh),
     Region(ww * 2, ww * 3, 2 * hh, 4 * hh),
     Region(ww * 3, ww * 4, 2 * hh, 4 * hh)]
  }

  /** Whether a region's truncated ranges contain pixel p. */
  predicate Covers(r: Region, p: Pixel) {
    Trunc(r.h1) <= p.0 < Trunc(r.h2) && Trunc(r.w1) <= p.1 < Trunc(r.w2)
  }

  lemma PixelsOfCount(r: Region, p: Pixel)
    requires Ordered(r)
    ensures multiset(PixelsOf(r))[p] == if Covers(r, p) then 1 else 0
  {
    RegionPixelsCount(Trunc(r.h1), Trunc(r.h2), Trunc(r.w1), Trunc(r.w2), p);
  }

  /** The pixels of all eight regions in the order their maps are
      concatenated. */
  function FramePixels(hh: nat, ww: nat): seq<Pixel> {
    var rs := Regions(hh, ww);
    PixelsOf(rs[0]) + PixelsOf(rs[1]) + PixelsOf(rs[2]) + PixelsOf(rs[3])
      + PixelsOf(rs[4]) + PixelsOf(rs[5]) + PixelsOf(rs[6]) + PixelsOf(rs[7])
  }

  function Ind(b: bool): nat {
    if b then 1 else 0
  }

  lemma FramePixelsCount(hh: nat, ww: nat, p: Pixel)
    ensures var rs := Regions(hh, ww);
      multiset(FramePixels(hh, ww))[p]
      == multiset(PixelsOf(rs[0]))[p] + multiset(PixelsOf(rs[1]))[p] + multiset(PixelsOf(rs[2]))[p]
        + multiset(PixelsOf(rs[3]))[p] + multiset(PixelsOf(rs[4]))[p] + multiset(PixelsOf(rs[5]))[p]
        + multiset(PixelsOf(rs[6]))[p] + multiset(PixelsOf(rs[7]))[p]
  {
  }

  /** Each pixel lies in the truncated ranges of exactly one region when
      it is inside the frame, and of none otherwise. */
  lemma RegionsTile(hh: nat, ww: nat, p: Pixel)
    ensures var rs := Regions(hh, ww);
      Ind(Covers(rs[0], p)) + Ind(Covers(rs[1], p)) + Ind(Covers(rs[2], p)) + Ind(Covers(rs[3], p))
        + Ind(Covers(rs[4], p)) + Ind(Covers(rs[5], p)) + Ind(Covers(rs[6], p)) + Ind(Covers(rs[7], p))
      == Ind(p.0 < hh && p.1 < ww)
  {
    StripSum(Trunc(ww * 0), Trunc(ww * 1), Trunc(ww * 2), Trunc(ww * 3), Trunc(ww * 4), p.1);
    assert Trunc(2 * hh) <= hh && Trunc(4 * hh) == hh && Trunc(0) == 0;
  }

  /** The eight regions tile the frame: every pixel of `[0, H) x [0, W)` is
      visited exactly once, and no pixel outside it. */
  lemma EveryPixelOnce(hh: nat, ww: nat, p: Pixel)
    ensures multiset(FramePixels(hh, ww))[p] == if p.0 < hh && p.1 < ww then 1 else 0
  {
    var rs := Regions(hh, ww);
    FramePixelsCount(hh, ww, p);
    PixelsOfCount(rs[0], p);
    PixelsOfCount(rs[1], p);
    PixelsOfCount(rs[2], p);
    PixelsOfCount(rs[3], p);
    PixelsOfCount(rs[4], p);
    PixelsOfCount(rs[5], p);
    PixelsOfCount(rs[6], p);
    PixelsOfCount(rs[7], p);
    RegionsTile(hh, ww, p);
  }

  lemma StripSum(c0: int, c1: int, c2: int, c3: int, c4: int, b: nat)
    requires c0 == 0 <= c1 <= c2 <= c3 <= c4
    ensures Ind(c0 <= b < c1) + Ind(c1 <= b < c2) + Ind(c2 <= b < c3) + Ind(c3 <= b < c4) == Ind(b < c4)
  {
  }

  /** How many of the first `rows` pixels mark column j. */
  function MarkCount(ivs: seq<Interval>, rows: nat, j: int): (n: nat)
    requires rows <= |ivs|
    requires forall k :: 0 <= k < |ivs| ==> ivs[k].len > 0
    ensures n <= rows
  {
    if rows == 0 then 0
    else MarkCount(ivs, rows - 1, j) + if Marked(ivs[rows - 1], j) then 1 else 0
  }

  /** `np.sum(maps[:, j])` for one region's `maps`. */
  function RegionVotes(y: Stack, hh: nat, ww: nat, r: Region, j: int): nat
    requires IsStack(y, |y|, hh, ww) && |y| > 0 && InFrame(r, hh, ww)
  {
    VisitedRows(y, hh, ww, r);
    MarkCount(Visited(y, hh, ww, r), MapRows(r), j)
  }

  /** `np.sum(maps[:, j])` over the maps of regions R1 .. Rn concatenated. */
  function Votes(y: Stack, hh: nat, ww: nat, n: nat, j: int): nat
    requires IsStack(y, |y|, hh, ww) && |y| > 0 && n <= 8
  {
    if n == 0 then 0 else Votes(y, hh, ww, n - 1, j) + RegionVotes(y, hh, ww, Regions(hh, ww)[n - 1], j)
  }

  /** `np.argmax([np.sum(maps[:, i]) for i in range(0, 101)])`: the first
      column with the most votes. */
  function Percentile(y: Stack, hh: nat, ww: nat): (p: nat)
    requires IsStack(y, |y|, hh, ww) && |y| > 0
    ensures p <= 100
    ensures forall j :: 0 <= j <= 100 ==> Votes(y, hh, ww, 8, j) <= Votes(y, hh, ww, 8, p)
    ensures forall j :: 0 <= j < p ==> Votes(y, hh, ww, 8, j) < Votes(y, hh, ww, 8, p)
  {
    var votes := seq(101, j => Votes(y, hh, ww, 8, j));
    var p := ArgMax(votes);
    assert forall j :: 0 <= j <= 100 ==> votes[j] == Votes(y, hh, ww, 8, j);
    p
  }

  /** `np.sum(maps[:, j])` over the first `rows` rows. */
  function ColumnSum(maps: array2<int>, rows: nat, j: nat): int
    requires rows <= maps.Length0 && j < maps.Length1
    reads maps
  {
    if rows == 0 then 0 else ColumnSum(maps, rows - 1, j) + maps[rows - 1, j]
  }

  /** A column of a map marked by `job` sums to its number of marks. */
  lemma {:induction false} ColumnSumMarks(maps: array2<int>, ivs: seq<Interval>, rows: nat, j: nat)
    requires rows <= maps.Length0 && rows <= |ivs| && j < maps.Length1
    requires forall k :: 0 <= k < |ivs| ==> ivs[k].len > 0
    requires forall i :: 0 <= i < rows ==> maps[i, j] == if Marked(ivs[i], j) then 1 else 0
    ensures ColumnSum(maps, rows, j) == MarkCount(ivs, rows, j)
  {
    if rows > 0 {
      ColumnSumMarks(maps, ivs, rows - 1, j);
    }
  }

  /** Adds every column sum of `maps` to `sums`. */
  method AddColumns(maps: array2<int>, sums: array<int>)
    requires maps.Length1 == 101 && sums.Length == 101
    modifies sums
    ensures forall j :: 0 <= j < 101 ==> sums[j] == old(sums[j]) + ColumnSum(maps, maps.Length0, j)
  {
    var j := 0;
    while j < 101
      invariant 0 <= j <= 101
      invariant forall m :: 0 <= m < j ==> sums[m] == old(sums[m]) + ColumnSum(maps, maps.Length0, m)
      invariant forall m :: j <= m < 101 ==> sums[m] == old(sums[m])
    {
      var total := 0;
      var i := 0;
      while i < maps.Length0
        invariant 0 <= i <= maps.Length0
        invariant total == ColumnSum(maps, i, j)
      {
        total := total + maps[i, j];
        i := i + 1;
      }
      sums[j] := sums[j] + total;
      j := j + 1;
    }
  }

  /** `computer_percentile(y)` with the eight jobs run one after the other
      in region order: the column sums of the concatenated maps, then their
      first argmax. */
  method ComputerPercentile(y: Stack, hh: nat, ww: nat) returns (p: nat)
    requires IsStack(y, |y|, hh, ww) && |y| > 0
    ensures p == Percentile(y, hh, ww)
  {
    var rs := Regions(hh, ww);
    var sums := new int[101](_ => 0);
    var k := 0;
    while k < 8
      invariant 0 <= k <= 8
      invariant forall j :: 0 <= j < 101 ==> sums[j] == Votes(y, hh, ww, k, j)
    {
      var maps := Job(y, hh, ww, rs[k]);
      AddColumns(maps, sums);
      ghost var ivs := Visited(y, hh, ww, rs[k]);
      forall j | 0 <= j < 101
        ensures ColumnSum(maps, maps.Length0, j) == RegionVotes(y, hh, ww, rs[k], j)
      {
        ColumnSumMarks(maps, ivs, maps.Length0, j);
      }
      k := k + 1;
    }
    p := ArgMax(sums[..]);
    assert sums[..] == seq(101, j => Votes(y, hh, ww, 8, j));
  }

  // ---------------------------------------------------------------------
  // The rows of `maps`: as written and as intended

  /** One row per pixel visited: `(int(h2) - int(h1)) * (int(w2) - int(w1))`. */
  function MapRowsFixed(r: Region): nat
    requires Ordered(r)
  {
    TruncGap(r.h1, r.h2);
    TruncGap(r.w1, r.w2);
    var rows: nat, cols: nat := Trunc(r.h2) - Trunc(r.h1), Trunc(r.w2) - Trunc(r.w1);
    rows * cols
  }

  /** The corrected count is the number of pixels `job` visits. */
  lemma MapRowsFixedCounts(r: Region)
    requires Ordered(r)
    ensures MapRowsFixed(r) == |PixelsOf(r)|
  {
    RegionPixelsLength(Trunc(r.h1), Trunc(r.h2), Trunc(r.w1), Trunc(r.w2));
  }

  /** `job` with `maps` sized by the pixels it visits, so every pixel of
      the region marks its row. */
  method JobFixed(y: Stack, hh: nat, ww: nat, r: Region) returns (maps: array2<int>)
    requires IsStack(y, |y|, hh, ww) && |y| > 0 && InFrame(r, hh, ww)
    ensures fresh(maps)
    ensures maps.Length0 == MapRowsFixed(r) == |Visited(y, hh, ww, r)| && maps.Length1 == 101
    ensures forall i, j :: 0 <= i < maps.Length0 && 0 <= j < 101 ==>
      maps[i, j] == if Marked(Visited(y, hh, ww, r)[i], j) then 1 else 0
  {
    var lo, hi := RegionPercents(y, hh, ww, r);
    MapRowsFixedCounts(r);
    maps := MarkMaps(lo, hi, |lo|);
    ghost var ivs := Visited(y, hh, ww, r);
    forall i, j | 0 <= i < maps.Length0 && 0 <= j < 101
      ensures Marked(ivs[i], j) == Within(j, lo[i], hi[i])
    {
      MarkedIff(ivs[i], j);
    }
  }

  lemma Distribute2(a: nat, b: nat, x: nat)
    ensures a * x + b * x == (a + b) * x
  {
  }

  lemma Distribute4(a: nat, x0: nat, x1: nat, x2: nat, x3: nat)
    ensures a * x0 + a * x1 + a * x2 + a * x3 == a * (x0 + x1 + x2 + x3)
  {
  }

  /** The four regions of one band of rows, `h1 .. h2` quarters high,
      have `rows * W` corrected rows in all. */
  lemma BandRows(ww: nat, h1: nat, h2: nat)
    requires h1 <= h2
    ensures MapRowsFixed(Region(ww * 0, ww * 1, h1, h2)) + MapRowsFixed(Region(ww * 1, ww * 2, h1, h2))
          + MapRowsFixed(Region(ww * 2, ww * 3, h1, h2)) + MapRowsFixed(Region(ww * 3, ww * 4, h1, h2))
         == (Trunc(h2) - Trunc(h1)) * ww
  {
    var c0, c1, c2, c3, c4 := Trunc(ww * 0), Trunc(ww * 1), Trunc(ww * 2), Trunc(ww * 3), Trunc(ww * 4);
    assert c0 == 0 && c0 <= c1 <= c2 <= c3 <= c4 == ww;
    TruncGap(h1, h2);
    Distribute4(Trunc(h2) - Trunc(h1), c1 - c0, c2 - c1, c3 - c2, c4 - c3);
  }

  /** With one row per visited pixel the eight maps have `H * W` rows in
      all: each pixel of the frame votes once. */
  lemma FixedRowsCoverFrame(hh: nat, ww: nat)
    ensures var rs := Regions(hh, ww);
      MapRowsFixed(rs[0]) + MapRowsFixed(rs[1]) + MapRowsFixed(rs[2]) + MapRowsFixed(rs[3])
        + MapRowsFixed(rs[4]) + MapRowsFixed(rs[5]) + MapRowsFixed(rs[6]) + MapRowsFixed(rs[7])
      == hh * ww
  {
    var half := Trunc(2 * hh);
    assert half <= hh && Trunc(4 * hh) == hh && Trunc(0) == 0;
    BandRows(ww, 0, 2 * hh);
    BandRows(ww, 2 * hh, 4 * hh);
    Distribute2(half, hh - half, ww);
  }

  /** As written, a frame one pixel high and four wide gives every map
      `int(0.5) * int(1.0) = 0` rows though the loops visit all four
      pixels. */
  lemma OneRowFrameMarksNothing()
    ensures forall k :: 0 <= k < 8 ==> MapRows(Regions(1, 4)[k]) == 0
    ensures forall k :: 4 <= k < 8 ==> MapRowsFixed(Regions(1, 4)[k]) == 1
  {
  }

  /** So on such a frame no column gets a vote and the percentile is 0
      whatever the pixel values. */
  lemma {:induction false} NoVotes(y: Stack, n: nat, j: int)
    requires IsStack(y, |y|, 1, 4) && |y| > 0 && n <= 8
    ensures Votes(y, 1, 4, n, j) == 0
  {
    if n > 0 {
      NoVotes(y, n - 1, j);
      OneRowFrameMarksNothing();
    }
  }

  lemma OneRowFramePercentileZero(y: Stack)
    requires IsStack(y, |y|, 1, 4) && |y| > 0
    ensures Percentile(y, 1, 4) == 0
  {
    var p := Percentile(y, 1, 4);
    NoVotes(y, 8, p);
    NoVotes(y, 8, 0);
  }

  // ---------------------------------------------------------------------
  // SPAN_gen_rolling: one background frame per segment

  /** `frames.shape[0] // num_frames` with 0 raising. */
  datatype SpanError = ZeroDivision

  /** `frames.shape[0] // num_frames` for a non-zero `num_frames` when it
      counts as a number of segments: a negative quotient makes
      `range(num_segments)` empty. */
  function Segments(n: nat, numFrames: int): (k: nat)
    requires numFrames != 0
    ensures numFrames > 0 ==> numFrames * k <= n < numFrames * k + numFrames
    ensures numFrames < 0 ==> k == 0
  {
    if numFrames > 0 then n / numFrames else 0
  }

  lemma {:induction false} MulMono(c: nat, a: nat, b: nat)
    requires a <= b
    ensures c * a <= c * b
  {
    if c > 0 {
      MulMono(c - 1, a, b);
      assert c * a == (c - 1) * a + a && c * b == (c - 1) * b + b;
    }
  }

  /** Segment i, `frames[num_frames*i : num_frames*(i+1)]`, lies inside the
      frames. */
  lemma SegmentFits(n: nat, numFrames: nat, i: nat)
    requires numFrames > 0 && i < Segments(n, numFrames)
    ensures numFrames * (i + 1) <= numFrames * Segments(n, numFrames) <= n
  {
    MulMono(numFrames, i + 1, Segments(n, numFrames));
  }

  /** Frame f belongs to segment `f // num_frames`. */
  lemma SegmentOf(f: nat, numFrames: nat, i: nat)
    requires numFrames > 0 && numFrames * i <= f < numFrames * i + numFrames
    ensures f / numFrames == i
  {
    var q := f / numFrames;
    assert f == numFrames * q + f % numFrames;
    if q < i {
      MulMono(numFrames, q + 1, i);
    } else if q > i {
      MulMono(numFrames, i + 1, q);
    }
  }

  /** Frame f of `SPAN_frames`: the result for its segment while it lies in
      a full segment, the zero frame of `np.zeros_like` after the last
      one. */
  function SpanFrame<T>(frames: seq<T>, numFrames: int, zero: T, final: seq<T> -> T, f: nat): T
    requires numFrames != 0
  {
    if numFrames > 0 && f < numFrames * Segments(|frames|, numFrames) then
      var i := f / numFrames;
      SegmentOf(f, numFrames, i);
      assert i < Segments(|frames|, numFrames) by {
        if i >= Segments(|frames|, numFrames) {
          MulMono(numFrames, Segments(|frames|, numFrames), i);
        }
      }
      SegmentFits(|frames|, numFrames, i);
      final(frames[numFrames * i .. numFrames * (i + 1)])
    else zero
  }

  /** The frames after the last full segment are fewer than `num_frames`
      and stay zero. */
  lemma TrailingFramesZero<T>(frames: seq<T>, numFrames: int, zero: T, final: seq<T> -> T, f: nat)
    requires numFrames > 0 && f < |frames|
    ensures var full := numFrames * Segments(|frames|, numFrames);
      |frames| - full < numFrames && (SpanFrame(frames, numFrames, zero, final, f) == zero <== f >= full)
  {
  }

  /** Every frame of segment i gets the result computed from segment i. */
  lemma SegmentFramesShareResult<T>(frames: seq<T>, numFrames: int, zero: T, final: seq<T> -> T, i: nat, j: nat)
    requires numFrames > 0 && i < Segments(|frames|, numFrames) && j < numFrames
    ensures numFrames * i + j < |frames|
    ensures numFrames * (i + 1) <= |frames|
    ensures SpanFrame(frames, numFrames, zero, final, numFrames * i + j)
      == final(frames[numFrames * i .. numFrames * (i + 1)])
  {
    SegmentFits(|frames|, numFrames, i);
    SegmentOf(numFrames * i + j, numFrames, i);
  }

  /** `SPAN_gen_rolling(frames, num_frames)`: `SPAN_frames` starts as zeros
      and each full segment's frames are set to the result computed from
      that segment.  The percentile and `np.percentile` step is the
      parameter `final`. */
  method SpanGenRolling<T>(frames: seq<T>, numFrames: int, zero: T, final: seq<T> -> T)
    returns (r: Result<array<T>, SpanError>)
    ensures r.Err? <==> numFrames == 0
    ensures r.Ok? ==> fresh(r.value) && r.value.Length == |frames|
    ensures r.Ok? ==> forall f :: 0 <= f < |frames| ==> r.value[f] == SpanFrame(frames, numFrames, zero, final, f)
  {
    if numFrames == 0 {
      return Err(ZeroDivision);
    }
    var segments := Segments(|frames|, numFrames);
    var out := new T[|frames|](_ => zero);
    var i := 0;
    while i < segments
      invariant 0 <= i <= segments
      invariant segments > 0 ==> numFrames > 0
      invariant forall f :: 0 <= f < |frames| ==>
        out[f] == if f < numFrames * i then SpanFrame(frames, numFrames, zero, final, f) else zero
    {
      SegmentFits(|frames|, numFrames, i);
      var rgb := frames[numFrames * i .. numFrames * (i + 1)];
      var result := final(rgb);
      var j := 0;
      while j < numFrames
        invariant 0 <= j <= numFrames
        invariant forall f :: 0 <= f < |frames| ==>
          out[f] == if f < numFrames * i + j then SpanFrame(frames, numFrames, zero, final, f) else zero
      {
        SegmentFramesShareResult(frames, numFrames, zero, final, i, j);
        out[numFrames * i + j] := result;
        j := j + 1;
      }
      i := i + 1;
    }
    return Ok(out);
  }
}
