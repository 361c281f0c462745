/** Sensor variants and the conversion of their native readings to inches. */
module Units {

  /** The two MaxBotix range finders the driver knows. */
  datatype Model = MB1013 | MB1200

  /** Native serial units per inch: millimetres for MB1013, centimetres for every other model. */
  function SerialFactor(m: Model): (f: real)
    ensures f > 0.0
  {
    if m == MB1013 then 25.4 else 2.54
  }

  /** Size of one analog step in native units: 1.25 mm for MB1013, 0.25 cm otherwise. */
  function AnalogStep(m: Model): (w: real)
    ensures w > 0.0
  {
    if m == MB1013 then 1.25 else 0.25
  }

  /** Analog steps (bits) per inch: native units per inch divided by native units per step. */
  function AnalogFactor(m: Model): (f: real)
    ensures f > 0.0
    ensures f * AnalogStep(m) == SerialFactor(m)
  {
    if m == MB1013 then 25.4 / 1.25 else 2.54 / 0.25
  }

  /** A serial magnitude in inches. */
  function SerialInches(m: Model, raw: int): (r: real)
    ensures r * SerialFactor(m) == raw as real
    ensures (r < 0.0) == (raw < 0)
  {
    raw as real / SerialFactor(m)
  }

  /** An analog code in inches. */
  function AnalogInches(m: Model, code: int): (r: real)
    ensures r * AnalogFactor(m) == code as real
    ensures (r < 0.0) == (code < 0)
  {
    code as real / AnalogFactor(m)
  }

  /** The constants the driver uses (20.32 and 10.16 bits per inch for the analog channel);
      one millimetre-reporting unit is a tenth of a centimetre-reporting one. */
  lemma FactorTable()
    ensures SerialFactor(MB1013) == 25.4 && SerialFactor(MB1200) == 2.54
    ensures AnalogFactor(MB1013) == 20.32 && AnalogFactor(MB1200) == 10.16
    ensures SerialFactor(MB1013) == 10.0 * SerialFactor(MB1200)
  {
  }

  /** 254 mm is 10 inches; 100 cm is about 39.37 inches. */
  lemma ConversionExamples()
    ensures SerialInches(MB1013, 254) == 10.0
    ensures 39.37 < SerialInches(MB1200, 100) < 39.38
  {
  }

  /** A larger raw reading never converts to a shorter distance. */
  lemma SerialInchesMonotone(m: Model, a: int, b: int)
    requires a <= b
    ensures SerialInches(m, a) <= SerialInches(m, b)
  {
  }
}
