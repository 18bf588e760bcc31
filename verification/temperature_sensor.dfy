/**
 `TemperatureSensor`: the last temperature and humidity readings, each with
 an "initialized" flag, and the temperature unit. Readings are `float`s kept
 abstract: NaN, or some other value; the model does no arithmetic on them.
 */
module TemperatureSensor {
  import opened Common

  /** `TemperatureUnits`, with the enumerator values of the header. */
  datatype TemperatureUnit = Celsius | Fahrenheit
  {
    function Value(): int
    {
      match this
      case Celsius => 1
      case Fahrenheit => 2
    }
  }

  lemma TemperatureUnitValues(u: TemperatureUnit, v: TemperatureUnit)
    ensures u.Value() in {1, 2} && (u.Value() == v.Value() ==> u == v)
  {
  }

  /** A `float` reading: NaN, or an ordinary value. */
  datatype Reading = NaN | Val(v: real)

  /** `float ==`: NaN compares unequal to everything, itself included. */
  predicate FloatEq(a: Reading, b: Reading)
  {
    a.Val? && b.Val? && a.v == b.v
  }

  datatype Sensor = Sensor(
    unit: TemperatureUnit,
    temperatureValue: Reading,
    humidityValue: Reading,
    temperatureInitialized: bool,
    humidityInitialized: bool)

  /** The in-class initialisers: Celsius, both readings NaN and uninitialised. */
  function NewSensor(): (s: Sensor)
    ensures s.unit == Celsius
    ensures !IsTemperatureValid(s) && !IsHumidityValid(s)
    ensures s.temperatureValue.NaN? && s.humidityValue.NaN?
  {
    Sensor(Celsius, NaN, NaN, false, false)
  }

  /** `isTemperatureValid`: initialised and not NaN; `std::isnan(x)` holds
      exactly when `x == x` fails. */
  function IsTemperatureValid(s: Sensor): (b: bool)
    ensures b <==> s.temperatureInitialized && FloatEq(s.temperatureValue, s.temperatureValue)
  {
    s.temperatureInitialized && !s.temperatureValue.NaN?
  }

  /** `isHumidityValid`: initialised and not NaN. */
  function IsHumidityValid(s: Sensor): (b: bool)
    ensures b <==> s.humidityInitialized && FloatEq(s.humidityValue, s.humidityValue)
  {
    s.humidityInitialized && !s.humidityValue.NaN?
  }

  /** The humidity half of the state. */
  predicate SameHumidity(a: Sensor, b: Sensor)
  {
    a.humidityValue == b.humidityValue && a.humidityInitialized == b.humidityInitialized
  }

  /** The temperature half of the state. */
  predicate SameTemperature(a: Sensor, b: Sensor)
  {
    a.temperatureValue == b.temperatureValue && a.temperatureInitialized == b.temperatureInitialized
  }

  /** `clearTemperature`: the temperature becomes invalid (and reads NaN); the
      humidity and the unit are untouched. */
  function ClearTemperature(s: Sensor): (r: Sensor)
    ensures !IsTemperatureValid(r) && r.temperatureValue.NaN? && !r.temperatureInitialized
    ensures SameHumidity(r, s) && r.unit == s.unit
  {
    s.(temperatureInitialized := false, temperatureValue := NaN)
  }

  /** `clearHumidity`: the humidity becomes invalid (and reads NaN); the
      temperature and the unit are untouched. */
  function ClearHumidity(s: Sensor): (r: Sensor)
    ensures !IsHumidityValid(r) && r.humidityValue.NaN? && !r.humidityInitialized
    ensures SameTemperature(r, s) && r.unit == s.unit
  {
    s.(humidityInitialized := false, humidityValue := NaN)
  }

  /** `setTemperatureUnit`: the same unit changes nothing; a different unit
      clears the temperature. The new unit is never stored. */
  function SetTemperatureUnit(s: Sensor, u: TemperatureUnit): (r: Sensor)
    ensures r.unit == s.unit
    ensures u == s.unit ==> r == s
    ensures u != s.unit ==> !IsTemperatureValid(r) && r.temperatureValue.NaN?
    ensures SameHumidity(r, s)
  {
    if u == s.unit then s else ClearTemperature(s)
  }

  /** `setTemperature`: stores the reading and marks it initialised; it is
      valid unless the reading is NaN. */
  function SetTemperature(s: Sensor, degrees: Reading): (r: Sensor)
    ensures r.temperatureInitialized && r.temperatureValue == degrees
    ensures IsTemperatureValid(r) <==> !degrees.NaN?
    ensures SameHumidity(r, s) && r.unit == s.unit
  {
    s.(temperatureValue := degrees, temperatureInitialized := true)
  }

  /** `setHumidity`: stores the reading and marks it initialised; it is valid
      unless the reading is NaN. */
  function SetHumidity(s: Sensor, percent: Reading): (r: Sensor)
    ensures r.humidityInitialized && r.humidityValue == percent
    ensures IsHumidityValid(r) <==> !percent.NaN?
    ensures SameTemperature(r, s) && r.unit == s.unit
  {
    s.(humidityValue := percent, humidityInitialized := true)
  }

  /** The state-changing calls of the class. */
  datatype SensorOp =
    | ClearTemp
    | ClearHum
    | SetUnit(u: TemperatureUnit)
    | SetTemp(degrees: Reading)
    | SetHum(percent: Reading)

  function Apply(s: Sensor, op: SensorOp): Sensor
  {
    match op
    case ClearTemp => ClearTemperature(s)
    case ClearHum => ClearHumidity(s)
    case SetUnit(u) => SetTemperatureUnit(s, u)
    case SetTemp(d) => SetTemperature(s, d)
    case SetHum(p) => SetHumidity(s, p)
  }

  /** The state after the calls `ops`, in order. */
  function Run(s: Sensor, ops: seq<SensorOp>): Sensor
  {
    if |ops| == 0 then s else Apply(Run(s, ops[..|ops| - 1]), ops[|ops| - 1])
  }

  /** The reading the last temperature-affecting call left, if it left one:
      a `setTemperature` stores one; a clear, or a unit change away from
      `unit`, removes it; humidity calls and same-unit calls do not count. */
  function LastTemperature(ops: seq<SensorOp>, unit: TemperatureUnit): Option<Reading>
  {
    if |ops| == 0 then None
    else match ops[|ops| - 1]
      case SetTemp(d) => Some(d)
      case ClearTemp => None
      case SetUnit(u) => if u == unit then LastTemperature(ops[..|ops| - 1], unit) else None
      case _ => LastTemperature(ops[..|ops| - 1], unit)
  }

  /** The humidity counterpart of `LastTemperature`. */
  function LastHumidity(ops: seq<SensorOp>): Option<Reading>
  {
    if |ops| == 0 then None
    else match ops[|ops| - 1]
      case SetHum(p) => Some(p)
      case ClearHum => None
      case _ => LastHumidity(ops[..|ops| - 1])
  }

  /** No call ever changes the stored unit: a fresh sensor reports Celsius forever. */
  lemma {:induction false} UnitNeverChanges(s: Sensor, ops: seq<SensorOp>)
    ensures Run(s, ops).unit == s.unit
    decreases |ops|
  {
    if |ops| > 0 {
      UnitNeverChanges(s, ops[..|ops| - 1]);
    }
  }

  /** After any calls on a fresh sensor, the temperature is initialised exactly
      when the last temperature-affecting call stored a reading, holds that
      reading, and is valid exactly when that reading is not NaN; likewise for
      the humidity. */
  lemma {:induction false} RunReadings(ops: seq<SensorOp>)
    ensures var s := Run(NewSensor(), ops);
      && s.unit == Celsius
      && (s.temperatureInitialized <==> LastTemperature(ops, Celsius).Some?)
      && (LastTemperature(ops, Celsius).Some? ==> s.temperatureValue == LastTemperature(ops, Celsius).value)
      && (LastTemperature(ops, Celsius).None? ==> s.temperatureValue.NaN?)
      && (IsTemperatureValid(s) <==> LastTemperature(ops, Celsius).Some? && !LastTemperature(ops, Celsius).value.NaN?)
      && (s.humidityInitialized <==> LastHumidity(ops).Some?)
      && (LastHumidity(ops).Some? ==> s.humidityValue == LastHumidity(ops).value)
      && (LastHumidity(ops).None? ==> s.humidityValue.NaN?)
      && (IsHumidityValid(s) <==> LastHumidity(ops).Some? && !LastHumidity(ops).value.NaN?)
    decreases |ops|
  {
    if |ops| > 0 {
      RunReadings(ops[..|ops| - 1]);
    }
  }

  /** The assertions of `TestTemperatureSensor::runTests`, in order. */
  lemma RunTestsAssertions()
    ensures var s0 := NewSensor();
      && s0.temperatureValue.NaN? && !IsTemperatureValid(s0) && !IsHumidityValid(s0)
      && var s1 := SetTemperatureUnit(s0, Celsius);
      && s1.unit == Celsius
      && var s2 := SetTemperature(s1, Val(25.0));
      && IsTemperatureValid(s2) && FloatEq(s2.temperatureValue, Val(25.0))
      && var s3 := SetTemperatureUnit(s2, Fahrenheit);
      && s3.unit == Celsius && !IsTemperatureValid(s3) && !FloatEq(s3.temperatureValue, Val(25.0))
      && var s4 := SetHumidity(s3, Val(60.0));
      && IsHumidityValid(s4) && FloatEq(s4.humidityValue, Val(60.0))
  {
  }
}
