/** Mass stations of the weight-and-balance model: a point mass at a lever
    arm from the datum, either dry (a fixed mass) or wet (a ballast tank
    whose mass is its fill level times the density of its liquid). */
module Stations {
  import opened Options

  newtype uint8 = x: int | 0 <= x < 0x100
  newtype uint32 = x: int | 0 <= x < 0x1_0000_0000

  /** Role of a station; EMPTY and PILOT matter to the CG completeness query. */
  datatype StationType = Empty | Pilot | Copilot | Dry | Wet

  datatype LiquidType = Water | Fuel

  /** The byte that stores a liquid type (the enum's underlying uint8). */
  function LiquidCode(l: LiquidType): (c: uint8)
    ensures c == 0 <==> l == Water
    ensures c == 1 <==> l == Fuel
  {
    match l
    case Water => 0
    case Fuel => 1
  }

  const FUEL_DENSITY: real := 0.755
  const WATER_DENSITY: real := 1.0

  /** Density of a liquid as the enum names it. */
  function LiquidDensity(l: LiquidType): real {
    match l
    case Water => WATER_DENSITY
    case Fuel => FUEL_DENSITY
  }

  /** Density selected by the stored liquid byte: the FUEL code gives the fuel
      density, WATER and every other byte fall to the default branch. */
  function Density(code: uint8): (d: real)
    ensures d == FUEL_DENSITY || d == WATER_DENSITY
    ensures d == FUEL_DENSITY <==> code == LiquidCode(Fuel)
  {
    if code == LiquidCode(Fuel) then FUEL_DENSITY else WATER_DENSITY
  }

  /** Mass of a liquid filled to `level`, by the stored liquid byte. */
  function LiquidMass(level: real, code: uint8): (m: real)
    ensures m == level * Density(code)
  {
    if code == LiquidCode(Fuel) then level * FUEL_DENSITY else level
  }

  /** A station. The station name is display-only and not modelled. A wet
      station's liquid is kept as the raw byte it is stored in, and its
      current capacity is None until the first Fill. */
  datatype Station =
    | DryStation(arm: real, mass: real, role: StationType)
    | WetStation(arm: real, liquid: uint8, maxCapacity: real,
                 currentCapacity: Option<real>, dumpTime: uint32)

  function GetStationType(s: Station): StationType {
    match s
    case DryStation(_, _, role) => role
    case WetStation(_, _, _, _, _) => Wet
  }

  /** Every station variant reports itself complete. */
  predicate IsComplete(s: Station) {
    true
  }

  /** A wet station whose ballast can be dumped in flight. */
  predicate IsExpendable(s: Station) {
    s.WetStation? && s.dumpTime > 0
  }

  /** Mass of a station; None while a wet station's capacity is unknown. */
  function GetMass(s: Station): (m: Option<real>)
    ensures s.DryStation? ==> m == Some(s.mass)
    ensures s.WetStation? ==> (m.Some? <==> s.currentCapacity.Some?)
    ensures s.WetStation? && m.Some? ==> m.value == LiquidMass(s.currentCapacity.value, s.liquid)
  {
    match s
    case DryStation(_, mass, _) => Some(mass)
    case WetStation(_, liquid, _, current, _) =>
      match current
      case Some(c) => Some(LiquidMass(c, liquid))
      case None => None
  }

  /** Moment of a station: its mass times its arm. */
  function GetMoment(s: Station): (q: Option<real>)
    ensures q.Some? <==> GetMass(s).Some?
    ensures q.Some? ==> q.value == GetMass(s).value * s.arm
  {
    match GetMass(s)
    case Some(m) => Some(m * s.arm)
    case None => None
  }

  /** Dry station constructor; the role defaults to DRY. */
  function NewDryStation(arm: real, mass: real, role: StationType := Dry): (s: Station)
    ensures GetMass(s) == Some(mass) && s.arm == arm
    ensures GetStationType(s) == role
    ensures !IsExpendable(s) && IsComplete(s)
  {
    DryStation(arm, mass, role)
  }

  /** Wet station constructor as written: the liquid type argument is
      dropped, so the stored liquid byte is whatever the uninitialised
      member holds (the parameter `uninitialisedLiquid`), and the current
      capacity stays unknown. */
  function NewWetStation(arm: real, maxCapacity: real, dumpTime: uint32,
                         uninitialisedLiquid: uint8,
                         liquidType: LiquidType := Water): (s: Station)
    ensures s.WetStation? && s.arm == arm && s.maxCapacity == maxCapacity
    ensures GetStationType(s) == Wet
    ensures GetMass(s) == None
    ensures IsExpendable(s) <==> dumpTime > 0
    ensures s.liquid == uninitialisedLiquid
  {
    WetStation(arm, uninitialisedLiquid, maxCapacity, None, dumpTime)
  }

  /** The constructor's result does not depend on the liquid type passed in. */
  lemma WetStationIgnoresLiquidType(arm: real, maxCapacity: real, dumpTime: uint32,
                                    b: uint8, l1: LiquidType, l2: LiquidType)
    ensures NewWetStation(arm, maxCapacity, dumpTime, b, l1)
         == NewWetStation(arm, maxCapacity, dumpTime, b, l2)
  {
  }

  /** A FUEL tank built by the constructor as written and filled to 20 can
      weigh 20, not 20 * 0.755: its liquid byte need not be the FUEL code. */
  lemma WetStationFuelCounterexample()
    ensures var s := NewWetStation(0.0, 20.0, 0, 0, Fuel);
            GetMass(Fill(s, 20.0).0) == Some(20.0)
  {
  }

  /** Wet station constructor as evidently intended: the liquid type is
      stored, and the tank starts empty. */
  function NewWetStationIntended(arm: real, maxCapacity: real, dumpTime: uint32,
                                 liquidType: LiquidType := Water): (s: Station)
    ensures s.WetStation? && s.arm == arm && s.maxCapacity == maxCapacity
    ensures GetStationType(s) == Wet
    ensures IsExpendable(s) <==> dumpTime > 0
    ensures GetMass(s) == Some(0.0)
    ensures Density(s.liquid) == LiquidDensity(liquidType)
  {
    WetStation(arm, LiquidCode(liquidType), maxCapacity, Some(0.0), dumpTime)
  }

  /** New fill level of a tank asked to hold `amount`: the amount capped at
      the maximum capacity, with no lower bound. */
  function FillLevel(s: Station, amount: real): (c: real)
    requires s.WetStation?
    ensures c <= s.maxCapacity && c <= amount
    ensures c == amount || c == s.maxCapacity
  {
    if amount > s.maxCapacity then s.maxCapacity else amount
  }

  /** Fill as written: the tank is set to the capped amount, and the
      returned "overflow" is max_capacity - amount, which is negative. */
  function Fill(s: Station, amount: real): (r: (Station, real))
    requires s.WetStation?
    ensures r.0.WetStation?
    ensures r.0 == s.(currentCapacity := Some(FillLevel(s, amount)))
    ensures r.1 <= 0.0
    ensures amount > s.maxCapacity ==> r.1 + amount == s.maxCapacity
    ensures amount <= s.maxCapacity ==> r.1 == 0.0
    ensures GetMass(r.0) == Some(LiquidMass(FillLevel(s, amount), s.liquid))
  {
    var overflow := if amount > s.maxCapacity then s.maxCapacity - amount else 0.0;
    (s.(currentCapacity := Some(FillLevel(s, amount))), overflow)
  }

  /** Overfilling a tank with capacity 20 by 25 returns -5, not the promised 5. */
  lemma FillOverflowSignCounterexample()
    ensures var s := NewWetStation(0.0, 20.0, 0, 0);
            Fill(s, 25.0).1 == -5.0
  {
  }

  /** With the intended constructor a filled tank weighs its fill level
      times the density of the liquid type it was built with. */
  lemma IntendedWetStationMass(arm: real, maxCapacity: real, dumpTime: uint32,
                               liquidType: LiquidType, a: real)
    requires a <= maxCapacity
    ensures GetMass(Fill(NewWetStationIntended(arm, maxCapacity, dumpTime, liquidType), a).0)
         == Some(a * LiquidDensity(liquidType))
  {
    var s := NewWetStationIntended(arm, maxCapacity, dumpTime, liquidType);
    assert FillLevel(s, a) == a;
    assert Density(s.liquid) == LiquidDensity(liquidType);
    assert LiquidMass(a, s.liquid) == a * LiquidDensity(liquidType);
  }

  /** Fill as evidently intended: same new state, and the return value is
      the amount that did not fit, so stored level plus overflow is the
      amount asked for. */
  function FillIntended(s: Station, amount: real): (r: (Station, real))
    requires s.WetStation?
    ensures r.0 == Fill(s, amount).0
    ensures r.1 >= 0.0
    ensures amount >= s.maxCapacity ==> r.0.currentCapacity.value + r.1 == amount
    ensures amount <= s.maxCapacity ==> r.1 == 0.0
  {
    var overflow := if amount > s.maxCapacity then amount - s.maxCapacity else 0.0;
    (s.(currentCapacity := Some(FillLevel(s, amount))), overflow)
  }

  /** Filling never changes what the station is, only how much it holds. */
  lemma FillKeepsIdentity(s: Station, amount: real)
    requires s.WetStation?
    ensures var t := Fill(s, amount).0;
            t.arm == s.arm && GetStationType(t) == GetStationType(s)
            && (IsExpendable(t) <==> IsExpendable(s)) && t.maxCapacity == s.maxCapacity
  {
  }

  /** Filling twice is the same as filling with the last amount. */
  lemma FillLastWins(s: Station, a: real, b: real)
    requires s.WetStation?
    ensures Fill(Fill(s, a).0, b).0 == Fill(s, b).0
  {
  }
}
