/** The weight-and-balance manager: two ordered station lists (stations
    that stay on board, and ballast that can be dumped), a minimum and a
    maximum limit record, mass and CG aggregation, and envelope tests. */
module WeightAndBalance {
  import opened Options
  import opened Stations
  import opened Envelope

  datatype Manager = Manager(nonExpendable: seq<Station>, expendable: seq<Station>,
                             maxLimit: WeightAndBalanceLimit, minLimit: WeightAndBalanceLimit)

  /** A default-constructed manager: no stations, both limits unset. */
  const EMPTY_MANAGER: Manager := Manager([], [], DEFAULT_LIMIT, DEFAULT_LIMIT)

  /** Routing invariant: the expendable list holds exactly the expendable
      wet stations, the other list everything else. */
  ghost predicate Valid(m: Manager) {
    && (forall i :: 0 <= i < |m.expendable| ==> IsExpendable(m.expendable[i]))
    && (forall i :: 0 <= i < |m.nonExpendable| ==> !IsExpendable(m.nonExpendable[i]))
  }

  /** All stations of a manager, in the order the CG loops visit them. */
  function AllStations(m: Manager): seq<Station> {
    m.expendable + m.nonExpendable
  }

  // ---------------------------------------------------------------------
  // Adding stations and setting limits

  /** Both AddStation overloads: a dry station goes to the non-expendable
      list; a wet one to the expendable list when it is expendable and to
      the non-expendable list otherwise. */
  function AddStation(m: Manager, s: Station): (r: Manager)
    ensures IsExpendable(s) ==>
      r.expendable == m.expendable + [s] && r.nonExpendable == m.nonExpendable
    ensures !IsExpendable(s) ==>
      r.nonExpendable == m.nonExpendable + [s] && r.expendable == m.expendable
    ensures r.minLimit == m.minLimit && r.maxLimit == m.maxLimit
  {
    match s
    case DryStation(_, _, _) =>
      m.(nonExpendable := m.nonExpendable + [s])
    case WetStation(_, _, _, _, _) =>
      if IsExpendable(s) then m.(expendable := m.expendable + [s])
      else m.(nonExpendable := m.nonExpendable + [s])
  }

  /** Adding a station keeps the routing invariant, and the manager then
      holds exactly the stations it held before plus the new one. */
  lemma AddStationKeepsInvariant(m: Manager, s: Station)
    ensures Valid(m) ==> Valid(AddStation(m, s))
    ensures multiset(AllStations(AddStation(m, s))) == multiset(AllStations(m)) + multiset{s}
  {
  }

  /** Adds the stations one after the other. */
  function AddStations(m: Manager, ss: seq<Station>): Manager
    decreases |ss|
  {
    if |ss| == 0 then m else AddStation(AddStations(m, ss[..|ss| - 1]), ss[|ss| - 1])
  }

  /** The expendable stations of ss, in order. */
  function Expendables(ss: seq<Station>): (r: seq<Station>)
    decreases |ss|
  {
    if |ss| == 0 then []
    else Expendables(ss[..|ss| - 1]) + (if IsExpendable(ss[|ss| - 1]) then [ss[|ss| - 1]] else [])
  }

  /** The non-expendable stations of ss, in order. */
  function NonExpendables(ss: seq<Station>): (r: seq<Station>)
    decreases |ss|
  {
    if |ss| == 0 then []
    else NonExpendables(ss[..|ss| - 1]) + (if IsExpendable(ss[|ss| - 1]) then [] else [ss[|ss| - 1]])
  }

  /** Adding a sequence of stations partitions it by expendability, keeping
      insertion order within each list. */
  lemma {:induction false} AddStationsPartitions(m: Manager, ss: seq<Station>)
    ensures AddStations(m, ss).expendable == m.expendable + Expendables(ss)
    ensures AddStations(m, ss).nonExpendable == m.nonExpendable + NonExpendables(ss)
    ensures AddStations(m, ss).minLimit == m.minLimit
    ensures AddStations(m, ss).maxLimit == m.maxLimit
    decreases |ss|
  {
    if |ss| > 0 {
      var init := ss[..|ss| - 1];
      var last := ss[|ss| - 1];
      AddStationsPartitions(m, init);
      var inner := AddStations(m, init);
      assert AddStations(m, ss) == AddStation(inner, last);
      if IsExpendable(last) {
        assert Expendables(ss) == Expendables(init) + [last];
        assert NonExpendables(ss) == NonExpendables(init);
        assert (m.expendable + Expendables(init)) + [last] == m.expendable + (Expendables(init) + [last]);
      } else {
        assert Expendables(ss) == Expendables(init);
        assert NonExpendables(ss) == NonExpendables(init) + [last];
        assert (m.nonExpendable + NonExpendables(init)) + [last] == m.nonExpendable + (NonExpendables(init) + [last]);
      }
    }
  }

  function GetMinLimit(m: Manager): WeightAndBalanceLimit {
    m.minLimit
  }

  function GetMaxLimit(m: Manager): WeightAndBalanceLimit {
    m.maxLimit
  }

  /** Replaces the minimum limit and nothing else. */
  function SetMinLimit(m: Manager, l: WeightAndBalanceLimit): (r: Manager)
    ensures GetMinLimit(r) == l && GetMaxLimit(r) == GetMaxLimit(m)
    ensures r.nonExpendable == m.nonExpendable && r.expendable == m.expendable
  {
    m.(minLimit := l)
  }

  /** Replaces the maximum limit and nothing else. */
  function SetMaxLimit(m: Manager, l: WeightAndBalanceLimit): (r: Manager)
    ensures GetMaxLimit(r) == l && GetMinLimit(r) == GetMinLimit(m)
    ensures r.nonExpendable == m.nonExpendable && r.expendable == m.expendable
  {
    m.(maxLimit := l)
  }

  // ---------------------------------------------------------------------
  // Mass, moment and centre of gravity

  /** Sum of the station masses, accumulated in list order; None when some
      station's mass is unknown. */
  function MassSum(ss: seq<Station>): (r: Option<real>)
    ensures r.Some? <==> forall i :: 0 <= i < |ss| ==> GetMass(ss[i]).Some?
    decreases |ss|
  {
    if |ss| == 0 then Some(0.0)
    else
      var init := ss[..|ss| - 1];
      assert forall i :: 0 <= i < |init| ==> init[i] == ss[i];
      Plus(MassSum(init), GetMass(ss[|ss| - 1]))
  }

  /** Sum of the station moments, accumulated in list order; defined exactly
      when the mass sum is. */
  function MomentSum(ss: seq<Station>): (r: Option<real>)
    ensures r.Some? <==> MassSum(ss).Some?
    decreases |ss|
  {
    if |ss| == 0 then Some(0.0) else Plus(MomentSum(ss[..|ss| - 1]), GetMoment(ss[|ss| - 1]))
  }

  /** Sums over a concatenation add up. */
  lemma {:induction false} SumsAppend(a: seq<Station>, b: seq<Station>)
    ensures MassSum(a + b) == Plus(MassSum(a), MassSum(b))
    ensures MomentSum(a + b) == Plus(MomentSum(a), MomentSum(b))
    decreases |b|
  {
    if |b| == 0 {
      assert a + b == a;
    } else {
      var b' := b[..|b| - 1];
      assert (a + b)[..|a + b| - 1] == a + b';
      SumsAppend(a, b');
      PlusAssociative(MassSum(a), MassSum(b'), GetMass(b[|b| - 1]));
      PlusAssociative(MomentSum(a), MomentSum(b'), GetMoment(b[|b| - 1]));
    }
  }

  /** Centre of gravity of a list of stations: total moment over total
      mass; None when a mass is unknown or the total mass is zero (where
      the original yields a not-a-number). */
  function CenterOfGravity(ss: seq<Station>): (r: Option<real>)
    ensures r.Some? <==> MassSum(ss).Some? && MassSum(ss).value != 0.0
    ensures r.Some? ==> r.value * MassSum(ss).value == MomentSum(ss).value
  {
    match (MassSum(ss), MomentSum(ss))
    case (Some(mass), Some(moment)) =>
      if mass == 0.0 then None else Some(moment / mass)
    case _ => None
  }

  /** Mass of the stations that stay on board. */
  function GetNonExpendableMass(m: Manager): Option<real> {
    MassSum(m.nonExpendable)
  }

  /** Expendable mass plus non-expendable mass. */
  function GetTotalMass(m: Manager): (r: Option<real>)
    ensures r == MassSum(AllStations(m))
  {
    SumsAppend(m.expendable, m.nonExpendable);
    Plus(MassSum(m.expendable), GetNonExpendableMass(m))
  }

  function GetTotalCenterOfGravity(m: Manager): (r: Option<real>)
    ensures r.Some? <==> GetTotalMass(m).Some? && GetTotalMass(m).value != 0.0
    ensures r.Some? ==> r.value * GetTotalMass(m).value == MomentSum(AllStations(m)).value
  {
    CenterOfGravity(AllStations(m))
  }

  function GetNonExpendableCenterOfGravity(m: Manager): (r: Option<real>)
    ensures r.Some? <==> GetNonExpendableMass(m).Some? && GetNonExpendableMass(m).value != 0.0
    ensures r.Some? ==> r.value * GetNonExpendableMass(m).value == MomentSum(m.nonExpendable).value
  {
    CenterOfGravity(m.nonExpendable)
  }

  /** Adding a station adds its mass to the total; the non-expendable mass
      changes only when the station is not expendable. */
  lemma AddStationMass(m: Manager, s: Station)
    ensures GetTotalMass(AddStation(m, s)) == Plus(GetTotalMass(m), GetMass(s))
    ensures GetNonExpendableMass(AddStation(m, s)) ==
      if IsExpendable(s) then GetNonExpendableMass(m)
      else Plus(GetNonExpendableMass(m), GetMass(s))
  {
    var r := AddStation(m, s);
    if IsExpendable(s) {
      assert MassSum(r.expendable) == Plus(MassSum(m.expendable), GetMass(s)) by {
        assert r.expendable[..|r.expendable| - 1] == m.expendable;
      }
      PlusAssociative(MassSum(m.expendable), GetMass(s), GetNonExpendableMass(m));
      PlusAssociative(MassSum(m.expendable), GetNonExpendableMass(m), GetMass(s));
    } else {
      assert r.nonExpendable[..|r.nonExpendable| - 1] == m.nonExpendable;
      PlusAssociative(MassSum(m.expendable), GetNonExpendableMass(m), GetMass(s));
    }
  }

  ghost predicate ArmsWithin(ss: seq<Station>, lo: real, hi: real) {
    forall i :: 0 <= i < |ss| ==> lo <= ss[i].arm <= hi
  }

  ghost predicate PositiveMasses(ss: seq<Station>) {
    forall i :: 0 <= i < |ss| ==> GetMass(ss[i]).Some? && GetMass(ss[i]).value > 0.0
  }

  /** A moment q lies between lo and hi times a mass. */
  predicate MomentBetween(lo: real, hi: real, mass: real, q: real) {
    lo * mass <= q <= hi * mass
  }

  /** A single station of positive mass at an arm within [lo, hi]. */
  lemma StationMomentBetween(s: Station, lo: real, hi: real)
    requires GetMass(s).Some? && GetMass(s).value > 0.0 && lo <= s.arm <= hi
    ensures MomentBetween(lo, hi, GetMass(s).value, GetMoment(s).value)
  {
    var ms := GetMass(s).value;
    assert ms * (s.arm - lo) >= 0.0;
    assert ms * (hi - s.arm) >= 0.0;
  }

  /** The bound is additive over masses and moments. */
  lemma MomentBetweenAdd(lo: real, hi: real, m1: real, q1: real, m2: real, q2: real,
                         mass: real, q: real)
    requires MomentBetween(lo, hi, m1, q1) && MomentBetween(lo, hi, m2, q2)
    requires mass == m1 + m2 && q == q1 + q2
    ensures MomentBetween(lo, hi, mass, q)
  {
    assert lo * (m1 + m2) == lo * m1 + lo * m2;
    assert hi * (m1 + m2) == hi * m1 + hi * m2;
  }

  /** Positive masses add up to a known mass, positive unless there are no stations. */
  lemma {:induction false} PositiveMassSum(ss: seq<Station>)
    requires PositiveMasses(ss)
    ensures MassSum(ss).Some? && MomentSum(ss).Some?
    ensures MassSum(ss).value >= 0.0
    ensures |ss| > 0 ==> MassSum(ss).value > 0.0
    decreases |ss|
  {
    if |ss| > 0 {
      var init := ss[..|ss| - 1];
      assert forall i :: 0 <= i < |init| ==> init[i] == ss[i];
      PositiveMassSum(init);
    }
  }

  /** The inductive step of MomentBounds: one more station keeps the moment
      between lo and hi times the mass. */
  lemma MomentBoundsStep(ss: seq<Station>, lo: real, hi: real)
    requires |ss| > 0 && PositiveMasses(ss) && ArmsWithin(ss, lo, hi)
    requires MassSum(ss[..|ss| - 1]).Some?
    requires MomentBetween(lo, hi, MassSum(ss[..|ss| - 1]).value, MomentSum(ss[..|ss| - 1]).value)
    ensures MassSum(ss).Some?
    ensures MomentBetween(lo, hi, MassSum(ss).value, MomentSum(ss).value)
  {
    var init := ss[..|ss| - 1];
    var last := ss[|ss| - 1];
    StationMomentBetween(last, lo, hi);
    MomentBetweenAdd(lo, hi, MassSum(init).value, MomentSum(init).value,
                     GetMass(last).value, GetMoment(last).value,
                     MassSum(ss).value, MomentSum(ss).value);
  }

  /** Positive masses at arms within [lo, hi] give a moment between lo and
      hi times the total mass. */
  lemma {:induction false} MomentBounds(ss: seq<Station>, lo: real, hi: real)
    requires PositiveMasses(ss) && ArmsWithin(ss, lo, hi)
    ensures MassSum(ss).Some?
    ensures MomentBetween(lo, hi, MassSum(ss).value, MomentSum(ss).value)
    decreases |ss|
  {
    if |ss| == 0 {
      assert MassSum(ss) == Some(0.0) && MomentSum(ss) == Some(0.0);
      assert MomentBetween(lo, hi, 0.0, 0.0);
    } else {
      var init := ss[..|ss| - 1];
      assert forall i :: 0 <= i < |init| ==> init[i] == ss[i];
      MomentBounds(init, lo, hi);
      MomentBoundsStep(ss, lo, hi);
    }
  }

  /** A quotient of Q by a positive M lies in [lo, hi] when Q lies in [lo*M, hi*M]. */
  lemma QuotientBounds(q: real, mass: real, lo: real, hi: real)
    requires mass > 0.0 && MomentBetween(lo, hi, mass, q)
    ensures lo <= q / mass <= hi
  {
    var c := q / mass;
    assert c * mass == q;
    assert (c - lo) * mass >= 0.0;
    assert (hi - c) * mass >= 0.0;
  }

  /** With every mass positive, the centre of gravity lies between the
      smallest and the largest arm. */
  lemma CenterOfGravityBetweenArms(ss: seq<Station>, lo: real, hi: real)
    requires |ss| > 0 && PositiveMasses(ss) && ArmsWithin(ss, lo, hi)
    ensures CenterOfGravity(ss).Some?
    ensures lo <= CenterOfGravity(ss).value <= hi
  {
    PositiveMassSum(ss);
    MomentBounds(ss, lo, hi);
    QuotientBounds(MomentSum(ss).value, MassSum(ss).value, lo, hi);
  }

  // ---------------------------------------------------------------------
  // Limits and envelope

  predicate AreLimitsComplete(m: Manager) {
    IsLimitComplete(m.minLimit) && IsLimitComplete(m.maxLimit)
  }

  /** Inclusive test of a weight against the two limit weights. */
  predicate WithinWeightLimits(m: Manager, weight: real) {
    && m.maxLimit.weight.Some? && weight <= m.maxLimit.weight.value
    && m.minLimit.weight.Some? && weight >= m.minLimit.weight.value
  }

  /** Forward CG bound at a weight: interpolates the forward limits. */
  function ForwardBound(m: Manager, weight: real): Option<real> {
    SlopeInterceptLimit(weight, m.minLimit.forwardLimit, m.minLimit.weight,
                        m.maxLimit.forwardLimit, m.maxLimit.weight)
  }

  /** Aft CG bound at a weight: interpolates the aft limits. */
  function AftBound(m: Manager, weight: real): Option<real> {
    SlopeInterceptLimit(weight, m.minLimit.aftLimit, m.minLimit.weight,
                        m.maxLimit.aftLimit, m.maxLimit.weight)
  }

  /** Inclusive test of a CG against both interpolated bounds; an undefined
      bound compares false, as a not-a-number does. */
  predicate WithinCGLimits(m: Manager, cg: real, weight: real) {
    var fwd := ForwardBound(m, weight);
    var aft := AftBound(m, weight);
    fwd.Some? && aft.Some? && cg >= fwd.value && cg <= aft.value
  }

  predicate TotalWithinEnvelope(m: Manager) {
    match (GetTotalCenterOfGravity(m), GetTotalMass(m))
    case (Some(cg), Some(mass)) => WithinWeightLimits(m, mass) && WithinCGLimits(m, cg, mass)
    case _ => false
  }

  predicate NonExpendableWithinEnvelope(m: Manager) {
    match (GetNonExpendableCenterOfGravity(m), GetNonExpendableMass(m))
    case (Some(cg), Some(mass)) => WithinWeightLimits(m, mass) && WithinCGLimits(m, cg, mass)
    case _ => false
  }

  /** The certified envelope as a quadrilateral: the weight between the two
      limit weights, and the CG between the straight lines joining the two
      forward corners and the two aft corners. */
  ghost predicate InsideQuadrilateral(lo: WeightAndBalanceLimit, hi: WeightAndBalanceLimit,
                                      cg: real, w: real)
    requires IsLimitComplete(lo) && IsLimitComplete(hi)
    requires lo.weight.value != hi.weight.value
  {
    var wl := lo.weight.value;
    var wh := hi.weight.value;
    && wl <= w <= wh
    && Lerp(w, lo.forwardLimit.value, wl, hi.forwardLimit.value, wh) <= cg
    && cg <= Lerp(w, lo.aftLimit.value, wl, hi.aftLimit.value, wh)
  }

  /** With complete limits at two different weights, the weight and CG
      tests together are exactly membership of the quadrilateral. */
  lemma EnvelopeIsQuadrilateral(m: Manager, cg: real, w: real)
    requires AreLimitsComplete(m)
    requires m.minLimit.weight.value != m.maxLimit.weight.value
    ensures WithinWeightLimits(m, w) && WithinCGLimits(m, cg, w)
        <==> InsideQuadrilateral(m.minLimit, m.maxLimit, cg, w)
  {
    var lo := m.minLimit;
    var hi := m.maxLimit;
    SlopeInterceptIsLerp(w, lo.forwardLimit.value, lo.weight.value, hi.forwardLimit.value, hi.weight.value);
    SlopeInterceptIsLerp(w, lo.aftLimit.value, lo.weight.value, hi.aftLimit.value, hi.weight.value);
  }

  /** In the model, where an undefined bound compares false: when both
      limits have the same weight, a CG test can pass only if the forward
      limits agree and the aft limits agree, since otherwise the
      interpolation divides by zero and the bound is None. */
  lemma EqualLimitWeightsNeedEqualCGLimits(m: Manager, cg: real, w: real)
    requires AreLimitsComplete(m)
    requires m.minLimit.weight.value == m.maxLimit.weight.value
    ensures WithinCGLimits(m, cg, w) ==>
      m.minLimit.forwardLimit == m.maxLimit.forwardLimit
      && m.minLimit.aftLimit == m.maxLimit.aftLimit
      && m.minLimit.forwardLimit.value <= cg <= m.minLimit.aftLimit.value
  {
  }

  /** The total envelope test is quadrilateral membership of the total mass
      and total CG, which are the sums over both lists. */
  lemma TotalEnvelopeIsQuadrilateral(m: Manager)
    requires AreLimitsComplete(m)
    requires m.minLimit.weight.value != m.maxLimit.weight.value
    ensures TotalWithinEnvelope(m) <==>
      && MassSum(AllStations(m)).Some?
      && MassSum(AllStations(m)).value != 0.0
      && InsideQuadrilateral(m.minLimit, m.maxLimit,
                             MomentSum(AllStations(m)).value / MassSum(AllStations(m)).value,
                             MassSum(AllStations(m)).value)
  {
    var mass := GetTotalMass(m);
    var cg := GetTotalCenterOfGravity(m);
    if cg.Some? {
      assert cg.value == MomentSum(AllStations(m)).value / mass.value;
      EnvelopeIsQuadrilateral(m, cg.value, mass.value);
    }
  }

  /** The non-expendable envelope test is quadrilateral membership of the
      non-expendable mass and CG; expendable ballast plays no part. */
  lemma NonExpendableEnvelopeIsQuadrilateral(m: Manager)
    requires AreLimitsComplete(m)
    requires m.minLimit.weight.value != m.maxLimit.weight.value
    ensures NonExpendableWithinEnvelope(m) <==>
      && MassSum(m.nonExpendable).Some?
      && MassSum(m.nonExpendable).value != 0.0
      && InsideQuadrilateral(m.minLimit, m.maxLimit,
                             MomentSum(m.nonExpendable).value / MassSum(m.nonExpendable).value,
                             MassSum(m.nonExpendable).value)
    ensures forall e :: NonExpendableWithinEnvelope(m.(expendable := e)) == NonExpendableWithinEnvelope(m)
  {
    var mass := GetNonExpendableMass(m);
    var cg := GetNonExpendableCenterOfGravity(m);
    if cg.Some? {
      assert cg.value == MomentSum(m.nonExpendable).value / mass.value;
      EnvelopeIsQuadrilateral(m, cg.value, mass.value);
    }
  }

  /** Limits never set hold not-a-number weights, so the inclusive weight
      test fails for every weight and neither envelope test passes. */
  lemma UnsetLimitsRejectEveryWeight(m: Manager)
    requires m.minLimit == DEFAULT_LIMIT || m.maxLimit == DEFAULT_LIMIT
    ensures !AreLimitsComplete(m)
    ensures forall w :: !WithinWeightLimits(m, w)
    ensures !TotalWithinEnvelope(m) && !NonExpendableWithinEnvelope(m)
  {
  }

  /** Some weight passes the weight test exactly when both limit weights are
      set and the minimum does not exceed the maximum. */
  lemma WeightTestSatisfiable(m: Manager)
    ensures (exists w :: WithinWeightLimits(m, w)) <==>
      && m.minLimit.weight.Some? && m.maxLimit.weight.Some?
      && m.minLimit.weight.value <= m.maxLimit.weight.value
  {
    if m.minLimit.weight.Some? && m.maxLimit.weight.Some?
       && m.minLimit.weight.value <= m.maxLimit.weight.value {
      assert WithinWeightLimits(m, m.minLimit.weight.value);
    }
  }

  /** The manager's limits are complete exactly when both records set are
      complete, and adding stations never changes that. */
  lemma LimitsCompleteAfterSetting(m: Manager, lo: WeightAndBalanceLimit, hi: WeightAndBalanceLimit, s: Station)
    ensures AreLimitsComplete(SetMinLimit(SetMaxLimit(m, hi), lo)) <==>
      IsLimitComplete(lo) && IsLimitComplete(hi)
    ensures AreLimitsComplete(AddStation(m, s)) == AreLimitsComplete(m)
  {
  }

  /** Complete limits at different weights give a forward and an aft bound
      at every weight, which is what drawing the envelope needs. */
  lemma CompleteLimitsGiveBounds(m: Manager)
    requires AreLimitsComplete(m)
    requires m.minLimit.weight.value != m.maxLimit.weight.value
    ensures forall w :: ForwardBound(m, w).Some? && AftBound(m, w).Some?
  {
  }

  // ---------------------------------------------------------------------
  // CG completeness

  /** Index of the first station of the given type, as std::find_if finds it. */
  function FindFirst(ss: seq<Station>, t: StationType): (r: Option<nat>)
    ensures r.Some? ==> r.value < |ss| && GetStationType(ss[r.value]) == t
    ensures r.Some? ==> forall j :: 0 <= j < r.value ==> GetStationType(ss[j]) != t
    ensures r.None? ==> forall j :: 0 <= j < |ss| ==> GetStationType(ss[j]) != t
    decreases |ss|
  {
    if |ss| == 0 then None
    else if GetStationType(ss[0]) == t then Some(0)
    else
      match FindFirst(ss[1..], t)
      case Some(i) => Some(i + 1)
      case None => None
  }

  /** A CG is considered meaningful once a complete EMPTY station and a
      complete PILOT station are among the non-expendable stations. */
  predicate IsCenterOfGravityComplete(m: Manager) {
    match FindFirst(m.nonExpendable, Empty)
    case None => false
    case Some(e) =>
      IsComplete(m.nonExpendable[e]) &&
      match FindFirst(m.nonExpendable, Pilot)
      case None => false
      case Some(p) => IsComplete(m.nonExpendable[p])
  }

  /** Since every station is complete, the query is exactly the presence of
      an EMPTY and a PILOT station in the non-expendable list. */
  lemma CenterOfGravityCompleteIff(m: Manager)
    ensures IsCenterOfGravityComplete(m) <==>
      (exists i :: 0 <= i < |m.nonExpendable| && GetStationType(m.nonExpendable[i]) == Empty)
      && (exists j :: 0 <= j < |m.nonExpendable| && GetStationType(m.nonExpendable[j]) == Pilot)
  {
    var e := FindFirst(m.nonExpendable, Empty);
    var p := FindFirst(m.nonExpendable, Pilot);
    if e.Some? && p.Some? {
      assert GetStationType(m.nonExpendable[e.value]) == Empty;
      assert GetStationType(m.nonExpendable[p.value]) == Pilot;
    }
  }

  /** Adding a station that is neither EMPTY nor PILOT (every wet station
      among them) never changes the completeness query. */
  lemma AddOtherStationKeepsCompleteness(m: Manager, s: Station)
    requires GetStationType(s) != Empty && GetStationType(s) != Pilot
    ensures IsCenterOfGravityComplete(AddStation(m, s)) == IsCenterOfGravityComplete(m)
  {
    var r := AddStation(m, s);
    CenterOfGravityCompleteIff(m);
    CenterOfGravityCompleteIff(r);
    if !IsExpendable(s) {
      var n := |m.nonExpendable|;
      assert forall i :: 0 <= i < n ==> r.nonExpendable[i] == m.nonExpendable[i];
      assert r.nonExpendable[n] == s;
      if (exists i :: 0 <= i < |r.nonExpendable| && GetStationType(r.nonExpendable[i]) == Empty) {
        var i :| 0 <= i < |r.nonExpendable| && GetStationType(r.nonExpendable[i]) == Empty;
        assert i < n;
      }
      if (exists i :: 0 <= i < |r.nonExpendable| && GetStationType(r.nonExpendable[i]) == Pilot) {
        var i :| 0 <= i < |r.nonExpendable| && GetStationType(r.nonExpendable[i]) == Pilot;
        assert i < n;
      }
    }
  }
}
