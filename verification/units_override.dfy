/** Which unit overrides a PLUTO dataset accepts
    (`PlutoVtkDataset._validate_units_override_keys` in
    yt_idefix/data_structures.py). PLUTO derives its units from three base
    units, so an override may name at most three units, never the
    temperature unit (always Kelvin), and never three units that are
    related to one another, from which the base units cannot be solved. */
module UnitsOverride {
  import opened Results

  datatype UnitsError =
    | TemperatureOverridden
    | TooManyUnits(given: nat)
    | CannotDeriveBaseUnits(keys: set<string>)

  const TEMPERATURE_UNIT: string := "temperature_unit"

  /** The units an override may name besides the temperature. */
  datatype Unit = Length | Time | Mass | Velocity | Density | Magnetic

  function Key(u: Unit): string {
    match u
    case Length => "length_unit"
    case Time => "time_unit"
    case Mass => "mass_unit"
    case Velocity => "velocity_unit"
    case Density => "density_unit"
    case Magnetic => "magnetic_unit"
  }

  /** `invalid_unit_combinations` */
  const INVALID_COMBINATIONS: seq<set<string>> := [
    {"magnetic_unit", "velocity_unit", "density_unit"},
    {"velocity_unit", "time_unit", "length_unit"},
    {"density_unit", "length_unit", "mass_unit"}
  ]

  /** The checks of `_validate_units_override_keys`, in the order it makes
      them; `Ok(())` hands the keys on to yt's own validation. */
  function ValidateUnitsOverrideKeys(keys: set<string>): Result<(), UnitsError> {
    if TEMPERATURE_UNIT in keys then Err(TemperatureOverridden)
    else if |keys| > 3 then Err(TooManyUnits(|keys|))
    else if keys in INVALID_COMBINATIONS then Err(CannotDeriveBaseUnits(keys))
    else Ok(())
  }

  /** Each error arises exactly when its check is the first to fail: a
      temperature override is reported whatever else is given, too many
      units only without one, and an invalid combination only among at most
      three units. */
  lemma ValidateSpec(keys: set<string>)
    ensures ValidateUnitsOverrideKeys(keys) == Err(TemperatureOverridden) <==> TEMPERATURE_UNIT in keys
    ensures ValidateUnitsOverrideKeys(keys) == Err(TooManyUnits(|keys|))
        <==> TEMPERATURE_UNIT !in keys && |keys| > 3
    ensures ValidateUnitsOverrideKeys(keys) == Err(CannotDeriveBaseUnits(keys))
        <==> TEMPERATURE_UNIT !in keys && |keys| == 3 && keys in INVALID_COMBINATIONS
    ensures ValidateUnitsOverrideKeys(keys).Ok?
        <==> TEMPERATURE_UNIT !in keys && |keys| <= 3 && keys !in INVALID_COMBINATIONS
  {
    forall c | c in INVALID_COMBINATIONS ensures |c| == 3 {
    }
  }

  /** Fewer than three units are never rejected for their combination:
      PLUTO's own units complete them. */
  lemma FewUnitsAccepted(keys: set<string>)
    requires TEMPERATURE_UNIT !in keys && |keys| < 3
    ensures ValidateUnitsOverrideKeys(keys).Ok?
  {
    ValidateSpec(keys);
  }

  // ---------------------------------------------------------------------
  // Why exactly these three combinations

  /** Exponents of (length, time, mass) in each unit, doubled so that the
      square root in the magnetic unit stays integral:
      velocity = length / time, density = mass / length^3 and
      magnetic = sqrt(4 pi density) * velocity. */
  function Dim(u: Unit): (int, int, int) {
    match u
    case Length => (2, 0, 0)
    case Time => (0, 2, 0)
    case Mass => (0, 0, 2)
    case Velocity => (2, -2, 0)
    case Density => (-6, 0, 2)
    case Magnetic => (-1, -2, 1)
  }

  function Det(a: (int, int, int), b: (int, int, int), c: (int, int, int)): int {
    a.0 * (b.1 * c.2 - b.2 * c.1) - a.1 * (b.0 * c.2 - b.2 * c.0) + a.2 * (b.0 * c.1 - b.1 * c.0)
  }

  /** Three units determine length, time and mass exactly when their
      exponent vectors are linearly independent. */
  predicate DeterminesBaseUnits(a: Unit, b: Unit, c: Unit) {
    Det(Dim(a), Dim(b), Dim(c)) != 0
  }

  function Ord(u: Unit): nat {
    match u
    case Length => 0
    case Time => 1
    case Mass => 2
    case Velocity => 3
    case Density => 4
    case Magnetic => 5
  }

  /** Three distinct units are accepted exactly when the base units can be
      solved from them: the three listed combinations are the only
      dependent triples. */
  lemma AcceptedIffDetermined(a: Unit, b: Unit, c: Unit)
    requires Ord(a) < Ord(b) < Ord(c)
    ensures ValidateUnitsOverrideKeys({Key(a), Key(b), Key(c)}).Ok? <==> DeterminesBaseUnits(a, b, c)
  {
    var keys := {Key(a), Key(b), Key(c)};
    KeyInjective(a, b);
    KeyInjective(b, c);
    KeyInjective(a, c);
    assert |keys| == 3;
    forall i | 0 <= i < |INVALID_COMBINATIONS|
      ensures keys == INVALID_COMBINATIONS[i] <==> (a, b, c) == SortedInvalid(i)
    {
      KeysMatchCombination(a, b, c, i);
    }
    DependentTriples(a, b, c);
  }

  lemma KeyInjective(u: Unit, v: Unit)
    ensures Key(u) == Key(v) ==> u == v
  {
    if u != v {
      assert Key(u)[..2] != Key(v)[..2] || Key(u)[2] != Key(v)[2] || |Key(u)| != |Key(v)|;
    }
  }

  /** The units of each invalid combination, in `Ord` order. */
  function SortedInvalid(i: nat): (Unit, Unit, Unit)
    requires i < 3
  {
    if i == 0 then (Velocity, Density, Magnetic)
    else if i == 1 then (Length, Time, Velocity)
    else (Length, Mass, Density)
  }

  lemma KeysMatchCombination(a: Unit, b: Unit, c: Unit, i: nat)
    requires Ord(a) < Ord(b) < Ord(c) && i < 3
    ensures {Key(a), Key(b), Key(c)} == INVALID_COMBINATIONS[i] <==> (a, b, c) == SortedInvalid(i)
  {
    var (x, y, z) := SortedInvalid(i);
    var combo := INVALID_COMBINATIONS[i];
    assert combo == {Key(x), Key(y), Key(z)};
    if {Key(a), Key(b), Key(c)} == combo {
      forall u ensures Key(u) in combo <==> u in {x, y, z} {
        KeyInjective(u, x);
        KeyInjective(u, y);
        KeyInjective(u, z);
      }
      assert a in {x, y, z} && b in {x, y, z} && c in {x, y, z};
    }
  }

  /** The only sorted triples with a zero determinant are the three listed
      combinations. */
  lemma DependentTriples(a: Unit, b: Unit, c: Unit)
    requires Ord(a) < Ord(b) < Ord(c)
    ensures !DeterminesBaseUnits(a, b, c)
        <==> (a, b, c) in {SortedInvalid(0), SortedInvalid(1), SortedInvalid(2)}
  {
  }
}
