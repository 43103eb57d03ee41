/** The wind measurement store: a list of at most MAX_MEASUREMENTS wind
    vectors, each with a quality and a time stamp. When the list is full a
    new measurement replaces the least important one, the one with the
    highest score 600 * (6 - quality) + age: one quality point weighs as
    much as ten minutes of age. */
module WindMeasurements {

  const MAX_MEASUREMENTS: nat := 200

  /** Index the search reports for an empty list: count - 1 computed in
      32-bit unsigned arithmetic. */
  const EMPTY_LIST_INDEX: nat := 0xFFFF_FFFF

  datatype Vector = Vector(x: real, y: real)

  datatype WindMeasurement =
    WindMeasurement(vector: Vector, quality: int, time: int, altitude: real)

  /** The live measurements, slots 0 .. count - 1 of the fixed array. */
  datatype WindMeasurementList = WindMeasurementList(measurements: seq<WindMeasurement>)

  predicate Valid(l: WindMeasurementList) {
    |l.measurements| <= MAX_MEASUREMENTS
  }

  /** A freshly constructed list. */
  const EMPTY_WIND_LIST: WindMeasurementList := WindMeasurementList([])

  /** How dispensable a measurement is at time `now`: low quality and old
      age both raise the score. */
  function Score(m: WindMeasurement, now: int): int {
    600 * (6 - m.quality) + (now - m.time)
  }

  // ---------------------------------------------------------------------
  // Reference definition of the least important item

  /** The larger of 0 and the highest score among items lo .. |ms| - 1. */
  function Peak(ms: seq<WindMeasurement>, now: int, lo: nat): (r: int)
    requires lo <= |ms|
    ensures r >= 0
    ensures forall j :: lo <= j < |ms| ==> Score(ms[j], now) <= r
    ensures r > 0 ==> exists j :: lo <= j < |ms| && Score(ms[j], now) == r
    decreases |ms| - lo
  {
    if lo == |ms| then 0
    else
      var rest := Peak(ms, now, lo + 1);
      if Score(ms[lo], now) > rest then Score(ms[lo], now) else rest
  }

  /** The highest index in lo .. |ms| - 1 whose score is p, or -1. */
  function HighestScoring(ms: seq<WindMeasurement>, now: int, lo: nat, p: int): (r: int)
    requires lo <= |ms|
    ensures r == -1 || (lo <= r < |ms| && Score(ms[r], now) == p)
    ensures r == -1 ==> forall j :: lo <= j < |ms| ==> Score(ms[j], now) != p
    ensures r != -1 ==> forall j :: r < j < |ms| ==> Score(ms[j], now) != p
    decreases |ms| - lo
  {
    if lo == |ms| then -1
    else
      var h := HighestScoring(ms, now, lo + 1, p);
      if h != -1 then h else if Score(ms[lo], now) == p then lo else -1
  }

  /** The item to evict: the highest-scoring item, the last of them on a
      tie, provided some score is positive; otherwise the last item. */
  function LeastImportant(ms: seq<WindMeasurement>, now: int): (k: nat)
    ensures |ms| == 0 ==> k == EMPTY_LIST_INDEX
    ensures |ms| > 0 ==> k < |ms|
    ensures |ms| > 0 && (exists j :: 0 <= j < |ms| && Score(ms[j], now) > 0) ==>
      && Score(ms[k], now) > 0
      && (forall j :: 0 <= j < |ms| ==> Score(ms[j], now) <= Score(ms[k], now))
      && (forall j :: k < j < |ms| ==> Score(ms[j], now) < Score(ms[k], now))
    ensures (forall j :: 0 <= j < |ms| ==> Score(ms[j], now) <= 0) ==> k == |ms| - 1 || |ms| == 0
  {
    if |ms| == 0 then EMPTY_LIST_INDEX
    else
      var p := Peak(ms, now, 0);
      if p > 0 then HighestScoring(ms, now, 0, p) else |ms| - 1
  }

  // ---------------------------------------------------------------------
  // The downward scan of the original

  /** Scans the items from the last to the first, keeping the first item
      met whose score is strictly above the best so far (which starts at 0). */
  method GetLeastImportantItem(ms: seq<WindMeasurement>, now: int) returns (k: nat)
    requires |ms| <= MAX_MEASUREMENTS
    ensures k == LeastImportant(ms, now)
    ensures |ms| > 0 ==> k < |ms|
    ensures forall j :: k < j < |ms| ==> Score(ms[j], now) < Score(ms[k], now) || Score(ms[j], now) <= 0
  {
    var maxscore := 0;
    var founditem: nat := (|ms| - 1) % 0x1_0000_0000;
    var i: int := if founditem < 0x8000_0000 then founditem else founditem - 0x1_0000_0000;
    while i >= 0
      invariant -1 <= i < |ms|
      invariant maxscore == Peak(ms, now, i + 1)
      invariant maxscore > 0 ==> founditem == HighestScoring(ms, now, i + 1, maxscore)
      invariant maxscore == 0 ==> founditem == (|ms| - 1) % 0x1_0000_0000
      decreases i
    {
      var score := 600 * (6 - ms[i].quality);
      score := score + (now - ms[i].time);
      if score > maxscore {
        maxscore := score;
        founditem := i;
      }
      i := i - 1;
    }
    k := founditem;
  }

  // ---------------------------------------------------------------------
  // Adding measurements

  /** Adds a measurement taken at `now`: appended while there is room,
      otherwise written over the least important item. */
  function AddMeasurement(l: WindMeasurementList, now: int, vector: Vector,
                         alt: real, quality: int): (r: WindMeasurementList)
    requires Valid(l)
    ensures Valid(r)
    ensures var added := WindMeasurement(vector, quality, now, alt);
      if |l.measurements| < MAX_MEASUREMENTS then
        r.measurements == l.measurements + [added]
      else
        var k := LeastImportant(l.measurements, now);
        && |r.measurements| == MAX_MEASUREMENTS
        && r.measurements[k] == added
        && forall j :: 0 <= j < MAX_MEASUREMENTS && j != k ==>
             r.measurements[j] == l.measurements[j]
  {
    var added := WindMeasurement(vector, quality, now, alt);
    if |l.measurements| == MAX_MEASUREMENTS then
      var index := LeastImportant(l.measurements, now);
      WindMeasurementList(l.measurements[index := added])
    else
      WindMeasurementList(l.measurements + [added])
  }

  /** On a full list the evicted item scores at least as high as every item
      kept, and the list's contents change by exactly that swap. */
  lemma AddToFullEvictsHighestScore(l: WindMeasurementList, now: int, vector: Vector,
                                    alt: real, quality: int)
    requires Valid(l) && |l.measurements| == MAX_MEASUREMENTS
    requires exists j :: 0 <= j < |l.measurements| && Score(l.measurements[j], now) > 0
    ensures var k := LeastImportant(l.measurements, now);
      var evicted := l.measurements[k];
      var r := AddMeasurement(l, now, vector, alt, quality);
      && (forall j :: 0 <= j < |l.measurements| ==> Score(l.measurements[j], now) <= Score(evicted, now))
      && multiset(r.measurements) ==
         multiset(l.measurements) - multiset{evicted} + multiset{WindMeasurement(vector, quality, now, alt)}
  {
    var k := LeastImportant(l.measurements, now);
    var r := AddMeasurement(l, now, vector, alt, quality);
    assert r.measurements == l.measurements[k := WindMeasurement(vector, quality, now, alt)];
  }

  /** One sample handed to addMeasurement. */
  datatype Sample = Sample(time: int, vector: Vector, altitude: real, quality: int)

  function AddMeasurements(l: WindMeasurementList, xs: seq<Sample>): (r: WindMeasurementList)
    requires Valid(l)
    ensures Valid(r)
    decreases |xs|
  {
    if |xs| == 0 then l
    else
      var x := xs[|xs| - 1];
      AddMeasurement(AddMeasurements(l, xs[..|xs| - 1]), x.time, x.vector, x.altitude, x.quality)
  }

  /** The record a sample is stored as. */
  function Record(x: Sample): WindMeasurement {
    WindMeasurement(x.vector, x.quality, x.time, x.altitude)
  }

  /** The count grows by one per add until it reaches MAX_MEASUREMENTS and
      then stays there. */
  lemma {:induction false} CountAfterAdds(l: WindMeasurementList, xs: seq<Sample>)
    requires Valid(l)
    ensures |AddMeasurements(l, xs).measurements| ==
      if |l.measurements| + |xs| <= MAX_MEASUREMENTS then |l.measurements| + |xs|
      else MAX_MEASUREMENTS
    decreases |xs|
  {
    if |xs| > 0 {
      CountAfterAdds(l, xs[..|xs| - 1]);
    }
  }

  /** Until the list fills up nothing is evicted: every sample is stored,
      in order, after the measurements already there. */
  lemma {:induction false} AddsBeforeFullKeepEverything(l: WindMeasurementList, xs: seq<Sample>)
    requires Valid(l) && |l.measurements| + |xs| <= MAX_MEASUREMENTS
    ensures |AddMeasurements(l, xs).measurements| == |l.measurements| + |xs|
    ensures AddMeasurements(l, xs).measurements[..|l.measurements|] == l.measurements
    ensures forall i :: 0 <= i < |xs| ==>
      AddMeasurements(l, xs).measurements[|l.measurements| + i] == Record(xs[i])
    decreases |xs|
  {
    if |xs| > 0 {
      var init := xs[..|xs| - 1];
      AddsBeforeFullKeepEverything(l, init);
      var prev := AddMeasurements(l, init);
      var r := AddMeasurements(l, xs);
      assert r.measurements == prev.measurements + [Record(xs[|xs| - 1])];
      forall i | 0 <= i < |xs|
        ensures r.measurements[|l.measurements| + i] == Record(xs[i])
      {
        if i < |init| {
          assert xs[i] == init[i];
        }
      }
    }
  }

  /** A freshly constructed list holds min(n, MAX_MEASUREMENTS) items after n adds. */
  lemma FreshListCount(xs: seq<Sample>)
    ensures Valid(EMPTY_WIND_LIST) && |EMPTY_WIND_LIST.measurements| == 0
    ensures |AddMeasurements(EMPTY_WIND_LIST, xs).measurements| ==
      if |xs| <= MAX_MEASUREMENTS then |xs| else MAX_MEASUREMENTS
  {
    CountAfterAdds(EMPTY_WIND_LIST, xs);
  }
}
