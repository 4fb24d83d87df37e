/** The sliding average, maximum or minimum of a value that holds between its samples. Only
    changes of the value are stored, and old ones are dropped. */
module Average {
  import opened Basics

  datatype Sample = Sample(t: real, v: real)

  datatype AvgType = AVG | MAX | MIN

  predicate Increasing(s: seq<Sample>) {
    forall i, j | 0 <= i < j < |s| :: s[i].t < s[j].t
  }

  // ----- what is meant -----

  function Area(v: real, d: real): real { v * d }

  lemma AreaSplit(v: real, d: real, e: real)
    ensures Area(v, d + e) == Area(v, d) + Area(v, e)
  {
  }

  /** The integral from `thr` to `act` of the value that each sample sets until the next.
      The first sample is taken to hold before its time, too. */
  function Integral(s: seq<Sample>, thr: real, act: real): real {
    if s == [] then 0.0 else
      var front, last := s[..|s| - 1], s[|s| - 1];
      if front != [] && last.t >= thr then Integral(front, thr, last.t) + Area(last.v, act - last.t)
      else Area(last.v, act - thr)
  }

  function Better(kind: AvgType, a: real, b: real): real {
    if kind == MAX then (if a < b then b else a) else (if a > b then b else a)
  }

  /** The largest or smallest value that holds somewhere from `thr` on. */
  function Extreme(kind: AvgType, s: seq<Sample>, thr: real): real
    requires s != []
  {
    var front, last := s[..|s| - 1], s[|s| - 1];
    if front != [] && last.t >= thr then Better(kind, Extreme(kind, front, thr), last.v) else last.v
  }

  /** The time of the first sample. Time zero stands for "none yet" and is passed over. */
  function FirstTime(s: seq<Sample>): real {
    if s == [] then 0.0 else if s[0].t != 0.0 then s[0].t else FirstTime(s[1..])
  }

  function Mean(integral: real, period: real): real
    requires period > 0.0
  {
    integral / period
  }

  /** The result for a whole history of samples. */
  function Output(kind: AvgType, minPeriod: real, period: real, history: seq<Sample>, first: real, act: real): Option<real> {
    if first == 0.0 || first > act - minPeriod || history == [] then None
    else if kind == AVG then
      (if period > 0.0 then Some(Mean(Integral(history, act - period, act), period)) else None)
    else Some(Extreme(kind, history, act - period))
  }

  // ----- what is stored -----

  /** A sample is stored if it brings a new value. */
  function Store(s: seq<Sample>, x: Sample): seq<Sample> {
    if s == [] || s[|s| - 1].v != x.v then s + [x] else s
  }

  /** Of the samples before `thr` only the last is kept. */
  function Prune(s: seq<Sample>, thr: real): seq<Sample> {
    if |s| >= 2 && s[1].t < thr then Prune(s[1..], thr) else s
  }

  /** For windows from `from` on, what is stored is as good as the history. */
  ghost predicate AsGood(stored: seq<Sample>, history: seq<Sample>, from: real) {
    && (stored == [] <==> history == [])
    && Increasing(stored) && Increasing(history)
    && (history != [] ==>
          && stored[|stored| - 1].t <= history[|history| - 1].t
          && stored[|stored| - 1].v == history[|history| - 1].v
          && SameIntegrals(stored, history, from) && SameExtremes(stored, history, from))
  }

  ghost predicate SameIntegrals(a: seq<Sample>, b: seq<Sample>, from: real) {
    forall thr, act | thr >= from :: Integral(a, thr, act) == Integral(b, thr, act)
  }

  ghost predicate SameExtremes(a: seq<Sample>, b: seq<Sample>, from: real)
    requires a != [] && b != []
  {
    forall thr, kind | thr >= from :: Extreme(kind, a, thr) == Extreme(kind, b, thr)
  }

  /** The integral grows by the last value. */
  lemma IntegralExtends(s: seq<Sample>, thr: real, act: real, act1: real)
    requires s != []
    ensures Integral(s, thr, act1) == Integral(s, thr, act) + Area(s[|s| - 1].v, act1 - act)
  {
    hide Area;
    var last := s[|s| - 1];
    var from := if |s| > 1 && last.t >= thr then last.t else thr;
    AreaSplit(last.v, act - from, act1 - act);
    assert act1 - from == (act - from) + (act1 - act);
  }

  lemma StoreIntegral(stored: seq<Sample>, history: seq<Sample>, x: Sample, from: real, thr: real, act: real)
    requires AsGood(stored, history, from) && thr >= from && (history != [] ==> history[|history| - 1].t < x.t)
    ensures Integral(Store(stored, x), thr, act) == Integral(history + [x], thr, act)
  {
    IntegralAppend(history, x, thr, act);
    IntegralAppend(stored, x, thr, act);
    if history != [] {
      assert Integral(stored, thr, x.t) == Integral(history, thr, x.t);
      hide *;
      StoreIsSame(stored, x);
      if x.v == stored[|stored| - 1].v {
        if x.t >= thr { IntegralExtends(stored, thr, x.t, act); } else { LastBefore(stored, thr, act); }
      }
    }
  }

  lemma StoreIsSame(s: seq<Sample>, x: Sample)
    requires s != []
    ensures Store(s, x) == if s[|s| - 1].v == x.v then s else s + [x]
  {
  }

  lemma IntegralAppend(s: seq<Sample>, x: Sample, thr: real, act: real)
    ensures Integral(s + [x], thr, act) ==
            if s != [] && x.t >= thr then Integral(s, thr, x.t) + Area(x.v, act - x.t) else Area(x.v, act - thr)
  {
    assert (s + [x])[..|s|] == s;
  }

  lemma LastBefore(s: seq<Sample>, thr: real, act: real)
    requires s != [] && (s[|s| - 1].t < thr || |s| == 1)
    ensures Integral(s, thr, act) == Area(s[|s| - 1].v, act - thr)
    ensures forall kind :: Extreme(kind, s, thr) == s[|s| - 1].v
  {
  }

  lemma StoreExtreme(stored: seq<Sample>, history: seq<Sample>, x: Sample, from: real, thr: real, kind: AvgType)
    requires AsGood(stored, history, from) && thr >= from && (history != [] ==> history[|history| - 1].t < x.t)
    ensures Extreme(kind, Store(stored, x), thr) == Extreme(kind, history + [x], thr)
  {
    assert (history + [x])[..|history|] == history && (stored + [x])[..|stored|] == stored;
    if history != [] {
      assert Extreme(kind, stored, thr) == Extreme(kind, history, thr);
    }
  }

  lemma StoreAsGood(stored: seq<Sample>, history: seq<Sample>, x: Sample, from: real)
    requires AsGood(stored, history, from) && (history != [] ==> history[|history| - 1].t < x.t)
    ensures AsGood(Store(stored, x), history + [x], from)
  {
    assert SameIntegrals(Store(stored, x), history + [x], from) by {
      forall thr, act | thr >= from ensures Integral(Store(stored, x), thr, act) == Integral(history + [x], thr, act) {
        StoreIntegral(stored, history, x, from, thr, act);
      }
    }
    assert SameExtremes(Store(stored, x), history + [x], from) by {
      forall thr, kind | thr >= from ensures Extreme(kind, Store(stored, x), thr) == Extreme(kind, history + [x], thr) {
        StoreExtreme(stored, history, x, from, thr, kind);
      }
    }
  }

  /** A sample followed by another one before the window does not count. */
  lemma {:induction false} DropIntegral(s: seq<Sample>, thr: real, act: real)
    requires |s| >= 2 && s[1].t < thr && Increasing(s)
    ensures Integral(s[1..], thr, act) == Integral(s, thr, act)
    ensures forall kind :: Extreme(kind, s[1..], thr) == Extreme(kind, s, thr)
  {
    var n := |s|;
    assert s[1..][..n - 2] == s[..n - 1][1..];
    if n > 2 {
      DropIntegral(s[..n - 1], thr, s[n - 1].t);
    }
  }

  lemma {:induction false} PruneAsGood(stored: seq<Sample>, history: seq<Sample>, from: real, thr: real)
    requires AsGood(stored, history, from) && thr >= from
    ensures AsGood(Prune(stored, thr), history, thr)
    decreases |stored|
  {
    if |stored| >= 2 && stored[1].t < thr {
      forall t, act | t >= thr ensures Integral(stored[1..], t, act) == Integral(history, t, act) {
        DropIntegral(stored, t, act);
        assert Integral(stored, t, act) == Integral(history, t, act);
      }
      forall t, kind | t >= thr ensures Extreme(kind, stored[1..], t) == Extreme(kind, history, t) {
        DropIntegral(stored, t, t);
        assert Extreme(kind, stored, t) == Extreme(kind, history, t);
      }
      PruneAsGood(stored[1..], history, thr, thr);
    }
  }

  lemma PrunedKeeps(stored: seq<Sample>, history: seq<Sample>, from: real)
    requires AsGood(stored, history, from)
    ensures AsGood(Prune(stored, from), history, from) && Increasing(stored)
  {
    PruneAsGood(stored, history, from, from);
  }

  lemma LaterWindow(stored: seq<Sample>, history: seq<Sample>, from: real, from1: real)
    requires AsGood(stored, history, from) && from <= from1
    ensures AsGood(stored, history, from1)
  {
  }

  lemma FirstSample(stored: seq<Sample>, history: seq<Sample>, from: real, from1: real)
    requires AsGood(stored, history, from) && (history == [] || from1 == from)
    ensures AsGood(stored, history, from1)
  {
  }

  /** What is stored after all samples of a history, with old ones dropped each time. */
  function Stored(history: seq<Sample>, period: real): seq<Sample> {
    if history == [] then [] else
      var last := history[|history| - 1];
      Prune(Store(Stored(history[..|history| - 1], period), last), last.t - period)
  }

  lemma {:induction false} StoredAsGood(history: seq<Sample>, period: real)
    requires Increasing(history)
    ensures history == [] ==> Stored(history, period) == []
    ensures history != [] ==> AsGood(Stored(history, period), history, history[|history| - 1].t - period)
  {
    hide *;
    if history == [] {
      NothingStored(period);
    } else {
      var front, last := history[..|history| - 1], history[|history| - 1];
      StoredUnfold(history, period);
      StoredAsGood(front, period);
      var from := if front == [] then last.t - period else front[|front| - 1].t - period;
      if front == [] { NothingStored(period); NothingAsGood(from); }
      StoredMore(Stored(front, period), front, last, from, last.t - period);
    }
  }

  lemma NothingStored(period: real)
    ensures Stored([], period) == []
  {
  }

  lemma NothingAsGood(from: real)
    ensures AsGood([], [], from)
  {
  }

  lemma StoredUnfold(history: seq<Sample>, period: real)
    requires history != [] && Increasing(history)
    ensures var front, last := history[..|history| - 1], history[|history| - 1];
            && Increasing(front) && front + [last] == history && (front != [] ==> front[|front| - 1].t < last.t)
            && Stored(history, period) == Prune(Store(Stored(front, period), last), last.t - period)
  {
  }

  lemma StoredMore(stored: seq<Sample>, history: seq<Sample>, x: Sample, from: real, thr: real)
    requires AsGood(stored, history, from) && (history != [] ==> history[|history| - 1].t < x.t) && from <= thr
    ensures AsGood(Prune(Store(stored, x), thr), history + [x], thr)
  {
    hide *;
    StoreAsGood(stored, history, x, from);
    PruneAsGood(Store(stored, x), history + [x], from, thr);
  }

  /** The main result: from what is stored the same comes out as from the whole history, at
      the time of the last sample and at every later time. */
  lemma SameOutput(kind: AvgType, minPeriod: real, period: real, history: seq<Sample>, act: real)
    requires Increasing(history) && (history != [] ==> history[|history| - 1].t <= act)
    ensures Output(kind, minPeriod, period, Stored(history, period), FirstTime(history), act) ==
            Output(kind, minPeriod, period, history, FirstTime(history), act)
  {
    StoredAsGood(history, period);
  }

  // ----- the average lies between the extremes -----

  /** The durations add up to the period, so the average lies between the smallest and the
      largest value that count. */
  lemma {:induction false} BetweenExtremes(s: seq<Sample>, thr: real, act: real)
    requires s != [] && Increasing(s) && thr <= act && (s[|s| - 1].t <= act || |s| == 1)
    ensures Area(Extreme(MIN, s, thr), act - thr) <= Integral(s, thr, act) <= Area(Extreme(MAX, s, thr), act - thr)
    ensures Extreme(MIN, s, thr) <= s[|s| - 1].v <= Extreme(MAX, s, thr)
  {
    var n := |s|;
    var last := s[n - 1];
    hide Area;
    if n > 1 && last.t >= thr {
      var front := s[..n - 1];
      ExtremeLast(s, thr);
      BetweenExtremes(front, thr, last.t);
      Combine(Extreme(MIN, s, thr), Extreme(MIN, front, thr), Integral(front, thr, last.t), Extreme(MAX, front, thr),
              Extreme(MAX, s, thr), last.v, last.t - thr, act - last.t);
      assert front + [last] == s;
      IntegralAppend(front, last, thr, act);
      hide Integral, Extreme, Increasing;
      assert (last.t - thr) + (act - last.t) == act - thr;
    } else {
      LastBefore(s, thr, act);
      hide Integral, Extreme, Increasing;
    }
  }

  lemma ExtremeLast(s: seq<Sample>, thr: real)
    requires |s| > 1 && s[|s| - 1].t >= thr
    ensures forall kind :: Extreme(kind, s, thr) == Better(kind, Extreme(kind, s[..|s| - 1], thr), s[|s| - 1].v)
  {
  }

  lemma Combine(lo1: real, lo: real, x: real, hi: real, hi1: real, v: real, d: real, e: real)
    requires lo1 <= lo && hi <= hi1 && lo1 <= v <= hi1 && d >= 0.0 && e >= 0.0
    requires Area(lo, d) <= x <= Area(hi, d)
    ensures Area(lo1, d + e) <= x + Area(v, e) <= Area(hi1, d + e)
  {
    hide Area;
    AreaSplit(lo1, d, e);
    AreaSplit(hi1, d, e);
    AreaGrows(lo1, lo, d);
    AreaGrows(hi, hi1, d);
    AreaGrows(lo1, v, e);
    AreaGrows(v, hi1, e);
  }

  lemma AreaNothing(v: real)
    ensures Area(v, 0.0) == 0.0
  {
  }

  lemma AreaGrows(a: real, b: real, d: real)
    requires a <= b && d >= 0.0
    ensures Area(a, d) <= Area(b, d)
  {
  }

  lemma AverageBetween(s: seq<Sample>, period: real, act: real)
    requires s != [] && Increasing(s) && s[|s| - 1].t <= act && period > 0.0
    ensures Extreme(MIN, s, act - period) <= Mean(Integral(s, act - period, act), period) <= Extreme(MAX, s, act - period)
  {
    BetweenExtremes(s, act - period, act);
    Divided(Extreme(MIN, s, act - period), Integral(s, act - period, act), Extreme(MAX, s, act - period), period);
  }

  lemma Divided(lo: real, x: real, hi: real, d: real)
    requires d > 0.0 && lo * d <= x <= hi * d
    ensures lo <= x / d <= hi
  {
    assert x == (x / d) * d;
    if x / d < lo { Scale2(x / d, lo, d); }
    if hi < x / d { Scale2(hi, x / d, d); }
  }

  lemma Scale2(a: real, b: real, d: real)
    requires a < b && d > 0.0
    ensures a * d < b * d
  {
  }

  // ----- what comes out -----

  /** The sample's value holds somewhere from `thr` on. */
  predicate Counts(s: seq<Sample>, j: int, thr: real) {
    0 <= j < |s| && (j == |s| - 1 || s[j + 1].t >= thr)
  }

  /** A value of the window that none of the others surpasses. */
  ghost predicate IsExtreme(kind: AvgType, s: seq<Sample>, thr: real, v: real) {
    && (exists j | Counts(s, j, thr) :: s[j].v == v)
    && (forall k | Counts(s, k, thr) :: if kind == MAX then s[k].v <= v else v <= s[k].v)
  }

  /** The value lies between two of the window. */
  ghost predicate IsBetween(s: seq<Sample>, thr: real, v: real) {
    && (exists j | Counts(s, j, thr) :: s[j].v <= v)
    && (exists j | Counts(s, j, thr) :: v <= s[j].v)
  }

  lemma {:induction false} ExtremeMeans(kind: AvgType, s: seq<Sample>, thr: real)
    requires s != [] && Increasing(s)
    ensures IsExtreme(kind, s, thr, Extreme(kind, s, thr))
  {
    var n := |s| - 1;
    if n > 0 && s[n].t >= thr {
      ExtremeMeans(kind, s[..n], thr);
      OneValueMore(kind, s[..n], s[n], thr, Extreme(kind, s[..n], thr));
      assert s[..n] + [s[n]] == s;
    } else {
      OnlyLastCounts(s, thr);
      hide Increasing;
    }
  }

  lemma OnlyLastCounts(s: seq<Sample>, thr: real)
    requires s != [] && Increasing(s) && (s[|s| - 1].t < thr || |s| == 1)
    ensures forall k :: Counts(s, k, thr) <==> k == |s| - 1
  {
    assert forall k | 0 < k < |s| :: s[k].t <= s[|s| - 1].t;
  }

  lemma OneValueMore(kind: AvgType, s: seq<Sample>, x: Sample, thr: real, v: real)
    requires s != [] && x.t >= thr && IsExtreme(kind, s, thr, v)
    ensures IsExtreme(kind, s + [x], thr, Better(kind, v, x.v))
  {
    var more := s + [x];
    var j :| Counts(s, j, thr) && s[j].v == v;
    assert Counts(more, j, thr) && more[j].v == v && Counts(more, |s|, thr) && more[|s|] == x;
    forall k | Counts(more, k, thr) ensures if kind == MAX then more[k].v <= Better(kind, v, x.v) else Better(kind, v, x.v) <= more[k].v {
      if k < |s| { assert Counts(s, k, thr) && s[k] == more[k]; }
    }
  }

  lemma BetweenMeans(s: seq<Sample>, thr: real, lo: real, v: real, hi: real)
    requires IsExtreme(MIN, s, thr, lo) && IsExtreme(MAX, s, thr, hi) && lo <= v <= hi
    ensures IsBetween(s, thr, v)
  {
    hide Counts;
  }

  /** A sample was taken long enough ago, at another time than zero, and for AVG the period
      is positive. */
  ghost predicate HasResult(kind: AvgType, minPeriod: real, period: real, s: seq<Sample>, act: real) {
    && (exists j | 0 <= j < |s| :: s[j].t != 0.0 && s[j].t <= act - minPeriod)
    && (kind == AVG ==> period > 0.0)
  }

  /** The average lies between two values of the window, and is the integral divided by the
      period; the extremes are values of the window that none surpasses. */
  ghost predicate GoodResult(kind: AvgType, s: seq<Sample>, thr: real, act: real, v: real) {
    if kind == AVG then Area(v, act - thr) == Integral(s, thr, act) && IsBetween(s, thr, v)
    else IsExtreme(kind, s, thr, v)
  }

  ghost predicate Correct(kind: AvgType, minPeriod: real, period: real, s: seq<Sample>, act: real, output: Option<real>) {
    && (output.Some? <==> HasResult(kind, minPeriod, period, s, act))
    && (output.Some? ==> GoodResult(kind, s, act - period, act, output.value))
  }

  lemma {:induction false} FirstTimeMeans(s: seq<Sample>, until: real)
    requires Increasing(s)
    ensures FirstTime(s) != 0.0 && FirstTime(s) <= until <==> exists j | 0 <= j < |s| :: s[j].t != 0.0 && s[j].t <= until
  {
    if s != [] {
      FirstTimeMeans(s[1..], until);
      if s[0].t == 0.0 {
        if exists j | 0 <= j < |s| :: s[j].t != 0.0 && s[j].t <= until {
          var j :| 0 <= j < |s| && s[j].t != 0.0 && s[j].t <= until;
          assert s[1..][j - 1] == s[j];
        }
      }
    }
  }

  lemma Quotient(x: real, d: real)
    requires d > 0.0
    ensures Area(Mean(x, d), d) == x
  {
  }

  lemma OutputCorrect(kind: AvgType, minPeriod: real, period: real, s: seq<Sample>, act: real)
    requires Increasing(s) && (s != [] ==> s[|s| - 1].t <= act)
    ensures Correct(kind, minPeriod, period, s, act, Output(kind, minPeriod, period, s, FirstTime(s), act))
  {
    hide Output, HasResult, GoodResult, FirstTime, Increasing;
    ResultIff(kind, minPeriod, period, s, act);
    ResultGood(kind, minPeriod, period, s, act);
  }

  lemma ResultIff(kind: AvgType, minPeriod: real, period: real, s: seq<Sample>, act: real)
    requires Increasing(s)
    ensures Output(kind, minPeriod, period, s, FirstTime(s), act).Some? <==> HasResult(kind, minPeriod, period, s, act)
  {
    FirstTimeMeans(s, act - minPeriod);
    hide Integral, Extreme, FirstTime, Increasing, Mean;
  }

  lemma ResultGood(kind: AvgType, minPeriod: real, period: real, s: seq<Sample>, act: real)
    requires Increasing(s) && (s != [] ==> s[|s| - 1].t <= act)
    ensures var output := Output(kind, minPeriod, period, s, FirstTime(s), act);
            output.Some? ==> GoodResult(kind, s, act - period, act, output.value)
  {
    hide Integral, Extreme, FirstTime, Increasing, IsExtreme, IsBetween, Mean, Area;
    if s != [] && (kind == AVG ==> period > 0.0) {
      ExtremesMean(s, act - period);
      if kind == AVG {
        AverageMeans(s, period, act);
      } else {
        assert GoodResult(kind, s, act - period, act, Extreme(kind, s, act - period));
      }
    }
  }

  lemma ExtremesMean(s: seq<Sample>, thr: real)
    requires s != [] && Increasing(s)
    ensures forall kind :: IsExtreme(kind, s, thr, Extreme(kind, s, thr))
  {
    forall kind ensures IsExtreme(kind, s, thr, Extreme(kind, s, thr)) { ExtremeMeans(kind, s, thr); }
  }

  lemma AverageMeans(s: seq<Sample>, period: real, act: real)
    requires s != [] && Increasing(s) && s[|s| - 1].t <= act && period > 0.0
    ensures GoodResult(AVG, s, act - period, act, Mean(Integral(s, act - period, act), period))
  {
    var thr := act - period;
    ExtremesMean(s, thr);
    AverageBetween(s, period, act);
    hide *;
    var x := Integral(s, thr, act);
    Quotient(x, period);
    BetweenMeans(s, thr, Extreme(MIN, s, thr), Mean(x, period), Extreme(MAX, s, thr));
    MakeGood(s, thr, act, Mean(x, period), period);
  }

  lemma MakeGood(s: seq<Sample>, thr: real, act: real, v: real, period: real)
    requires act - thr == period && Area(v, period) == Integral(s, thr, act) && IsBetween(s, thr, v)
    ensures GoodResult(AVG, s, thr, act, v)
  {
    hide Area, Integral, IsBetween;
  }

  // ----- the action -----

  class ActionAverage {
    const avgType: AvgType
    const avgMinPeriod: real
    const avgStandardPeriod: real
    var firstDataTime: real
    var dataStorage: seq<Sample>
    /** All samples taken, and the latest time of an evaluation with one. */
    ghost var history: seq<Sample>
    ghost var latest: real

    constructor (avgType: AvgType, avgMinPeriod: real, avgStandardPeriod: real)
      ensures Valid() && history == []
      ensures this.avgType == avgType && this.avgMinPeriod == avgMinPeriod && this.avgStandardPeriod == avgStandardPeriod
    {
      this.avgType, this.avgMinPeriod, this.avgStandardPeriod := avgType, avgMinPeriod, avgStandardPeriod;
      firstDataTime, dataStorage, history, latest := 0.0, [], [], 0.0;
    }

    ghost predicate Valid()
      reads this
    {
      && AsGood(dataStorage, history, latest - avgStandardPeriod)
      && firstDataTime == FirstTime(history)
      && (history != [] ==> history[|history| - 1].t == latest)
    }

    /** A sample is taken (`None` if the expression has no value: then there is no output). */
    method Eval(sample: Option<real>, act: real) returns (output: Option<real>)
      requires Valid() && (history != [] ==> latest < act)
      modifies this
      ensures Valid()
      ensures sample.None? ==> output == None && history == old(history)
      ensures sample.Some? ==> history == old(history) + [Sample(act, sample.value)]
      ensures sample.Some? ==>
                output == Output(avgType, avgMinPeriod, avgStandardPeriod, history, FirstTime(history), act)
      ensures sample.Some? ==> Correct(avgType, avgMinPeriod, avgStandardPeriod, history, act, output)
    {
      if sample.None? { return None; }
      hide Correct;
      hide AsGood, Output, Prune;
      TakeSample(Sample(act, sample.value));
      PrunedKeeps(dataStorage, history, latest - avgStandardPeriod);
      dataStorage := StripOld(dataStorage, act - avgStandardPeriod);
      output := Calculate(act);
    }

    method TakeSample(x: Sample)
      requires Valid() && (history != [] ==> latest < x.t)
      modifies this
      ensures Valid() && history == old(history) + [x] && latest == x.t
    {
      ghost var from := if history == [] then x.t - avgStandardPeriod else latest - avgStandardPeriod;
      FirstSample(dataStorage, history, latest - avgStandardPeriod, from);
      StoreAsGood(dataStorage, history, x, from);
      LaterWindow(Store(dataStorage, x), history + [x], from, x.t - avgStandardPeriod);
      FirstTimeMore(history, x);
      hide AsGood;
      if dataStorage == [] {
        dataStorage := [x];
      } else if dataStorage[|dataStorage| - 1].v != x.v {
        dataStorage := dataStorage + [x];
      }
      if firstDataTime == 0.0 { firstDataTime := x.t; }
      history, latest := history + [x], x.t;
    }

    /** The result now, without a sample. */
    method Poll(act: real) returns (output: Option<real>)
      requires Valid() && (history != [] ==> latest <= act)
      ensures output == Output(avgType, avgMinPeriod, avgStandardPeriod, history, FirstTime(history), act)
      ensures Correct(avgType, avgMinPeriod, avgStandardPeriod, history, act, output)
    {
      hide Correct;
      output := Calculate(act);
    }

    method Calculate(act: real) returns (output: Option<real>)
      requires Valid() && (history != [] ==> latest <= act)
      ensures output == Output(avgType, avgMinPeriod, avgStandardPeriod, history, FirstTime(history), act)
      ensures Correct(avgType, avgMinPeriod, avgStandardPeriod, history, act, output)
    {
      hide Correct;
      OutputCorrect(avgType, avgMinPeriod, avgStandardPeriod, history, act);
      output := None;
      if firstDataTime == 0.0 || firstDataTime > act - avgMinPeriod { return; }
      if dataStorage == [] { return; }
      var val, dur := Cumulate(dataStorage, act - avgStandardPeriod, act);
      if avgType == AVG {
        if dur > 0.0 { output := Some(Mean(val, dur)); }
      } else {
        output := Some(val);
      }
    }

    method UpdateCumul(val: real, dur: real, calcVal: real, calcDur: real, first: bool) returns (val1: real, dur1: real)
      ensures avgType == AVG ==> val1 == val + Area(calcVal, calcDur) && dur1 == dur + calcDur
      ensures avgType != AVG ==> val1 == (if first then calcVal else Better(avgType, val, calcVal)) && dur1 == dur
    {
      val1, dur1 := val, dur;
      if avgType == AVG { val1, dur1 := val + calcVal * calcDur, dur + calcDur; }
      if avgType == MAX { if first { val1 := calcVal; } else if val < calcVal { val1 := calcVal; } }
      if avgType == MIN { if first { val1 := calcVal; } else if val > calcVal { val1 := calcVal; } }
    }

    method Cumulate(s: seq<Sample>, thr: real, act: real) returns (val: real, dur: real)
      requires s != [] && Increasing(s)
      ensures avgType == AVG ==> val == Integral(s, thr, act) && dur == act - thr
      ensures avgType != AVG ==> val == Extreme(avgType, s, thr)
    {
      hide Area;
      val, dur := 0.0, 0.0;
      AreaNothing(s[0].v);
      var first, from := true, thr;
      for i := 1 to |s|
        invariant from == if i > 1 && s[i - 1].t >= thr then s[i - 1].t else thr
        invariant first == !(i > 1 && s[i - 1].t >= thr)
        invariant avgType == AVG ==> val == Integral(s[..i], thr, from) && dur == from - thr
        invariant avgType != AVG && !first ==> val == Extreme(avgType, s[..i - 1], thr)
      {
        assert s[..i + 1][..i] == s[..i] && s[..i][..i - 1] == s[..i - 1];
        AreaNothing(s[i].v);
        AreaNothing(s[i - 1].v);
        if s[i].t >= from {
          IntegralExtends(s[..i], thr, from, s[i].t);
          val, dur := UpdateCumul(val, dur, s[i - 1].v, s[i].t - from, first);
          first, from := false, s[i].t;
        }
      }
      assert s[..|s|] == s;
      IntegralExtends(s, thr, from, act);
      val, dur := UpdateCumul(val, dur, s[|s| - 1].v, act - from, first);
    }

    method StripOld(s: seq<Sample>, thr: real) returns (kept: seq<Sample>)
      requires Increasing(s)
      ensures kept == Prune(s, thr)
    {
      kept := s;
      ghost var k := 0;
      for i := 0 to |s|
        invariant k <= i && (k < |s| || k == 0) && kept == s[k..] && Prune(s, thr) == Prune(kept, thr)
        invariant i > 0 && s[i - 1].t < thr ==> k == i - 1
        invariant i > 0 && s[i - 1].t >= thr ==> k == 0 || s[k].t < thr
        invariant k + 1 < i ==> s[k + 1].t >= thr
      {
        if s[i].t < thr && i > 0 {
          assert k == i - 1;
          kept := kept[1..];
          k := k + 1;
        }
      }
    }
  }

  lemma {:induction false} FirstTimeMore(s: seq<Sample>, x: Sample)
    ensures FirstTime(s + [x]) == if FirstTime(s) != 0.0 then FirstTime(s) else x.t
  {
    if s == [] {
      assert [x][1..] == [];
    } else {
      assert (s + [x])[1..] == s[1..] + [x];
      FirstTimeMore(s[1..], x);
    }
  }
}
