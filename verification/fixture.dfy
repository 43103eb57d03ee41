/** The hard-coded loading that the weight-and-balance chart renderer
    builds: an empty airframe and a pilot at arm 250, one dumpable ballast
    tank at arm 1000 filled to its capacity of 20, and an envelope from
    (weight 100, CG 200..300) to (weight 200, CG 220..300). */
module RendererFixture {
  import opened Options
  import opened Stations
  import opened Envelope
  import opened WeightAndBalance

  const MINIMUM_LIMIT: WeightAndBalanceLimit := Limit(Some(100.0), Some(200.0), Some(300.0))
  const MAXIMUM_LIMIT: WeightAndBalanceLimit := Limit(Some(200.0), Some(220.0), Some(300.0))

  /** The renderer's manager; `b` is the liquid byte the wet station
      constructor leaves uninitialised. */
  function FixtureManager(b: uint8): Manager {
    var emptyStation := NewDryStation(250.0, 100.0, Empty);
    var pilotStation := NewDryStation(250.0, 50.0, Pilot);
    var ballastStation := Fill(NewWetStation(1000.0, 20.0, 120, b), 20.0).0;
    var m := SetMinLimit(SetMaxLimit(EMPTY_MANAGER, MAXIMUM_LIMIT), MINIMUM_LIMIT);
    AddStation(AddStation(AddStation(m, emptyStation), pilotStation), ballastStation)
  }

  /** The stations of the fixture and where they are routed. */
  lemma FixtureLists(b: uint8)
    ensures var m := FixtureManager(b);
      && m.nonExpendable == [NewDryStation(250.0, 100.0, Empty), NewDryStation(250.0, 50.0, Pilot)]
      && m.expendable == [Fill(NewWetStation(1000.0, 20.0, 120, b), 20.0).0]
      && m.minLimit == MINIMUM_LIMIT && m.maxLimit == MAXIMUM_LIMIT
  {
  }

  /** The airframe and the pilot: mass 150 at CG 250, inside the envelope. */
  lemma FixtureNonExpendable(b: uint8)
    ensures var m := FixtureManager(b);
      && AreLimitsComplete(m)
      && IsCenterOfGravityComplete(m)
      && GetNonExpendableMass(m) == Some(150.0)
      && GetNonExpendableCenterOfGravity(m) == Some(250.0)
      && ForwardBound(m, 150.0) == Some(210.0)
      && AftBound(m, 150.0) == Some(300.0)
      && NonExpendableWithinEnvelope(m)
  {
    var m := FixtureManager(b);
    FixtureLists(b);
    var e := NewDryStation(250.0, 100.0, Empty);
    var p := NewDryStation(250.0, 50.0, Pilot);
    assert [e, p][..1] == [e];
    assert [e][..0] == [];
    assert MassSum([e]) == Some(100.0);
    assert MomentSum([e]) == Some(25000.0);
    assert MassSum([e, p]) == Some(150.0);
    assert MomentSum([e, p]) == Some(37500.0);
    CenterOfGravityCompleteIff(m);
    assert GetStationType(m.nonExpendable[0]) == Empty;
    assert GetStationType(m.nonExpendable[1]) == Pilot;
  }

  /** The full ballast tank weighs 15.1 with the FUEL byte and 20 otherwise. */
  lemma FixtureBallast(b: uint8)
    ensures var w := Fill(NewWetStation(1000.0, 20.0, 120, b), 20.0).0;
      && w.arm == 1000.0
      && GetMass(w) == Some(if b == LiquidCode(Fuel) then 15.1 else 20.0)
      && GetMoment(w) == Some(if b == LiquidCode(Fuel) then 15100.0 else 20000.0)
  {
    var w := Fill(NewWetStation(1000.0, 20.0, 120, b), 20.0).0;
    assert FillLevel(NewWetStation(1000.0, 20.0, 120, b), 20.0) == 20.0;
  }

  /** Total mass and total moment of the fixture. */
  lemma FixtureTotalSums(b: uint8)
    ensures var m := FixtureManager(b);
      && GetTotalMass(m) == Some(if b == LiquidCode(Fuel) then 165.1 else 170.0)
      && MomentSum(AllStations(m)) == Some(if b == LiquidCode(Fuel) then 52600.0 else 57500.0)
  {
    var m := FixtureManager(b);
    FixtureNonExpendable(b);
    FixtureLists(b);
    FixtureBallast(b);
    var w := Fill(NewWetStation(1000.0, 20.0, 120, b), 20.0).0;
    assert [w][..0] == [];
    SumsAppend([w], m.nonExpendable);
    assert AllStations(m) == [w] + m.nonExpendable;
  }

  /** With the full tank the total CG lies aft of 300. */
  lemma FixtureTotal(b: uint8)
    ensures var m := FixtureManager(b);
      && (GetTotalMass(m) == Some(170.0) || GetTotalMass(m) == Some(165.1))
      && GetTotalCenterOfGravity(m).Some? && GetTotalCenterOfGravity(m).value > 300.0
  {
    var m := FixtureManager(b);
    FixtureTotalSums(b);
    var cg := GetTotalCenterOfGravity(m).value;
    if b == LiquidCode(Fuel) {
      assert cg * 165.1 == 52600.0;
    } else {
      assert cg * 170.0 == 57500.0;
    }
  }

  /** Whatever the uninitialised liquid byte holds, the fixture's airframe
      and pilot sit inside the envelope, while the full ballast tank moves
      the total CG aft of the 300 limit. */
  lemma FixtureEnvelope(b: uint8)
    ensures var m := FixtureManager(b);
      && AreLimitsComplete(m)
      && IsCenterOfGravityComplete(m)
      && GetNonExpendableMass(m) == Some(150.0)
      && GetNonExpendableCenterOfGravity(m) == Some(250.0)
      && ForwardBound(m, 150.0) == Some(210.0)
      && AftBound(m, 150.0) == Some(300.0)
      && NonExpendableWithinEnvelope(m)
      && (GetTotalMass(m) == Some(170.0) || GetTotalMass(m) == Some(165.1))
      && GetTotalCenterOfGravity(m).Some? && GetTotalCenterOfGravity(m).value > 300.0
      && !TotalWithinEnvelope(m)
  {
    FixtureNonExpendable(b);
    FixtureTotal(b);
  }

  /** Built with the corrected wet station constructor (default liquid
      WATER), the fixture is the as-written fixture whose liquid byte holds
      the WATER code: total mass 170 and a total CG aft of the envelope. */
  lemma FixtureWithIntendedConstructor()
    ensures var ballast := Fill(NewWetStationIntended(1000.0, 20.0, 120), 20.0).0;
      var m := SetMinLimit(SetMaxLimit(EMPTY_MANAGER, MAXIMUM_LIMIT), MINIMUM_LIMIT);
      var r := AddStation(AddStation(AddStation(m, NewDryStation(250.0, 100.0, Empty)),
                                     NewDryStation(250.0, 50.0, Pilot)), ballast);
      && r == FixtureManager(LiquidCode(Water))
      && GetTotalMass(r) == Some(170.0)
      && !TotalWithinEnvelope(r) && NonExpendableWithinEnvelope(r)
  {
    FixtureEnvelope(LiquidCode(Water));
    var m := FixtureManager(LiquidCode(Water));
    SumsAppend(m.expendable, m.nonExpendable);
  }
}
