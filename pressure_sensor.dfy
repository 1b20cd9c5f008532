/**
 * The driver state of src/pressure.c: the eleven calibration globals, the
 * global `b5` that the temperature step leaves for the pressure step, and a
 * ghost trace of everything put on the I2C bus (and every blocking wait).
 * The bytes the device answers with are parameters of the methods that
 * read them.
 */
module PressureSensor {
  import opened CInt
  import opened Bmp085

  /** The oversampling setting, a file-level constant of the firmware. */
  const OSS: nat := 0

  class Driver {
    /** The eleven calibration globals `ac1` .. `md`. */
    var cal: Calibration
    /** Written by the temperature step, read by the pressure step. */
    var b5: int
    ghost var trace: seq<BusEvent>

    /** Globals start zeroed, and nothing has been sent yet. */
    constructor ()
      ensures cal == Uninitialised && b5 == 0 && trace == []
    {
      cal := Uninitialised;
      b5 := 0;
      trace := [];
    }

    /** `bmp085ReadInt`: select `register`, read two bytes, assemble them big-endian. */
    method ReadInt(register: uint8, msb: uint8, lsb: uint8) returns (w: uint16)
      modifies this`trace
      ensures w == Word(msb, lsb)
      ensures trace == old(trace) + ReadRegisters(register, 2)
    {
      trace := trace + ReadRegisters(register, 2);
      w := msb * 0x100 + lsb;
    }

    /**
     * `init_pressure`: read the eleven calibration words from 0xAA..0xBE into
     * the globals, then report 0 when AC1 == AC2 == AC3 (no sensor) and 1 otherwise.
     * `reply[i]` holds the two bytes the device sends for the i-th word.
     */
    method InitPressure(reply: seq<(uint8, uint8)>) returns (ok: uint8)
      requires |reply| == 11
      modifies this
      ensures cal == CalibrationFrom(reply)
      ensures ok == SanityCheck(cal)
      ensures ok == 0 <==> cal.ac1 == cal.ac2 == cal.ac3
      ensures b5 == old(b5)
      ensures trace == WithCalibrationReads(old(trace))
    {
      cal := ReadCalibration(reply);
      ok := if cal.ac1 == cal.ac2 && cal.ac2 == cal.ac3 then 0 else 1;
    }

    /** The eleven `bmp085ReadInt` calls of `init_pressure`, each word converted to its global's type. */
    method ReadCalibration(reply: seq<(uint8, uint8)>) returns (c: Calibration)
      requires |reply| == 11
      modifies this`trace
      ensures c == CalibrationFrom(reply)
      ensures trace == WithCalibrationReads(old(trace))
    {
      var w0 := ReadInt(0xAA, reply[0].0, reply[0].1);
      var w1 := ReadInt(0xAC, reply[1].0, reply[1].1);
      var w2 := ReadInt(0xAE, reply[2].0, reply[2].1);
      var w3 := ReadInt(0xB0, reply[3].0, reply[3].1);
      var w4 := ReadInt(0xB2, reply[4].0, reply[4].1);
      var w5 := ReadInt(0xB4, reply[5].0, reply[5].1);
      var w6 := ReadInt(0xB6, reply[6].0, reply[6].1);
      var w7 := ReadInt(0xB8, reply[7].0, reply[7].1);
      var w8 := ReadInt(0xBA, reply[8].0, reply[8].1);
      var w9 := ReadInt(0xBC, reply[9].0, reply[9].1);
      var w10 := ReadInt(0xBE, reply[10].0, reply[10].1);
      c := Calibration(I16(w0), I16(w1), I16(w2), w3, w4, w5, I16(w6), I16(w7), I16(w8), I16(w9), I16(w10));
    }

    /** `bmp085ReadUT`: start a temperature conversion, wait 5 ms, read the two result bytes. */
    method ReadUT(msb: uint8, lsb: uint8) returns (ut: uint16)
      modifies this`trace
      ensures ut == Word(msb, lsb)
      ensures trace == old(trace) + TemperatureProtocol()
    {
      trace := trace + StartConversion(TemperatureCommand);
      trace := trace + [Delay(TemperatureWait)];
      ut := ReadInt(ResultRegister, msb, lsb);
    }

    /**
     * `bmp085ReadUP` as written: the start command `0x34 + (OSS << 6)` is
     * computed but never sent; the method waits and reads three result bytes.
     */
    method ReadUP(msb: uint8, lsb: uint8, xlsb: uint8) returns (up: uint32)
      modifies this`trace
      ensures up == RawPressure(msb, lsb, xlsb, OSS)
      ensures trace == old(trace) + PressureReadAsWritten(OSS)
    {
      var command := PressureCommand(OSS);
      trace := trace + [Delay(PressureWait(OSS))];
      trace := trace + ReadRegisters(ResultRegister, 3);
      up := RawPressure(msb, lsb, xlsb, OSS);
    }

    /** `bmp085ReadUP` with the start command written to the control register before the wait. */
    method ReadUPStarted(msb: uint8, lsb: uint8, xlsb: uint8) returns (up: uint32)
      modifies this`trace
      ensures up == RawPressure(msb, lsb, xlsb, OSS)
      ensures trace == old(trace) + PressureProtocol(OSS)
    {
      trace := trace + StartConversion(PressureCommand(OSS));
      trace := trace + [Delay(PressureWait(OSS))];
      trace := trace + ReadRegisters(ResultRegister, 3);
      up := RawPressure(msb, lsb, xlsb, OSS);
    }

    /** `bmp085GetTemperature`: set the global b5 from UT and return 0.1 degC. */
    method GetTemperature(ut: uint16) returns (t: int16)
      requires TemperatureDefined(cal, ut)
      modifies this`b5
      ensures b5 == B5(cal, ut)
      ensures t == Temperature(b5)
    {
      var x1 := Asr((ut - cal.ac6) * cal.ac5, 15);
      var x2 := CDiv(cal.mc * Pow2(11), x1 + cal.md);
      b5 := x1 + x2;
      t := I16(Asr(b5 + 8, 4));
    }

    /**
     * `get_pressure`: a temperature cycle that refreshes b5, then the
     * pressure read as written, whose compensation uses that same b5. `ut`
     * and `up` are the bytes the device answers the two reads with. No
     * conversion is started between the two reads, so the last command the
     * device has seen when `up` is read is the temperature command.
     */
    method GetPressure(ut: (uint8, uint8), up: (uint8, uint8, uint8)) returns (p: int)
      requires TemperatureDefined(cal, Word(ut.0, ut.1))
      requires PressureDefined(cal, B5(cal, Word(ut.0, ut.1)))
      modifies this`b5, this`trace
      ensures b5 == B5(cal, Word(ut.0, ut.1))
      ensures p == Pressure(cal, b5, RawPressure(up.0, up.1, up.2, OSS), OSS)
      ensures trace == old(trace) + TemperatureProtocol() + PressureReadAsWritten(OSS)
      ensures LastCommand(trace[|old(trace)|..]) == Some(TemperatureCommand)
    {
      var rawT := ReadUT(ut.0, ut.1);
      var _ := GetTemperature(rawT);
      var rawP := ReadUP(up.0, up.1, up.2);
      p := Pressure(cal, b5, rawP, OSS);
      assert trace[|old(trace)|..] == TemperatureProtocol() + PressureReadAsWritten(OSS);
      AsWrittenCycleReadsTemperatureResult(OSS);
    }

    /** `get_pressure` with the pressure conversion started before it is read. */
    method GetPressureStarted(ut: (uint8, uint8), up: (uint8, uint8, uint8)) returns (p: int)
      requires TemperatureDefined(cal, Word(ut.0, ut.1))
      requires PressureDefined(cal, B5(cal, Word(ut.0, ut.1)))
      modifies this`b5, this`trace
      ensures b5 == B5(cal, Word(ut.0, ut.1))
      ensures p == Pressure(cal, b5, RawPressure(up.0, up.1, up.2, OSS), OSS)
      ensures trace == old(trace) + TemperatureProtocol() + PressureProtocol(OSS)
      ensures LastCommand(trace[|old(trace)|..]) == Some(PressureCommand(OSS))
    {
      var rawT := ReadUT(ut.0, ut.1);
      var _ := GetTemperature(rawT);
      var rawP := ReadUPStarted(up.0, up.1, up.2);
      p := Pressure(cal, b5, rawP, OSS);
      assert trace[|old(trace)|..] == TemperatureProtocol() + PressureProtocol(OSS);
      CorrectedCycleReadsPressureResult(OSS);
    }
  }

  /** `t` followed by the eleven two-byte reads of `init_pressure`, AC1 at 0xAA up to MD at 0xBE. */
  function WithCalibrationReads(t: seq<BusEvent>): seq<BusEvent>
  {
    t + ReadRegisters(0xAA, 2) + ReadRegisters(0xAC, 2) + ReadRegisters(0xAE, 2) + ReadRegisters(0xB0, 2)
    + ReadRegisters(0xB2, 2) + ReadRegisters(0xB4, 2) + ReadRegisters(0xB6, 2) + ReadRegisters(0xB8, 2)
    + ReadRegisters(0xBA, 2) + ReadRegisters(0xBC, 2) + ReadRegisters(0xBE, 2)
  }

  /** The datasheet's sensor: its temperature conversion gives UT = 0x6CFA, its pressure conversion UP = 0x5D23 (XLSB 0). */
  const DatasheetUT: (uint8, uint8, uint8) := (0x6C, 0xFA, 0x00)
  const DatasheetUP: (uint8, uint8, uint8) := (0x5D, 0x23, 0x00)

  /**
   * A whole start-up as main.c runs it, on the datasheet's sensor: load
   * calibration and, when the sensor answered, measure once. The sensor
   * answers the pressure read with the result of the last conversion the
   * bus started, which is the temperature conversion, so start-up reports
   * 82080 Pa where the datasheet has 69964 Pa.
   */
  method DatasheetStartup() returns (ok: uint8, p: int)
    ensures ok == 1 && p == 82080
  {
    var d := new Driver();
    ExampleRepliesDecode();
    ok := d.InitPressure(ExampleReplies);
    p := DatasheetMeasurement(d);
  }

  /** `get_pressure` as written on a driver holding the datasheet calibration. */
  method DatasheetMeasurement(d: Driver) returns (p: int)
    requires d.cal == Example
    modifies d`b5, d`trace
    ensures p == 82080
  {
    DatasheetCycle();
    DatasheetCycleAsWritten(0x00);
    var reply := SensorResult(TemperatureProtocol() + PressureReadAsWritten(OSS), DatasheetUT, DatasheetUP);
    p := d.GetPressure((0x6C, 0xFA), reply);
  }

  /** The same start-up with the pressure conversion started: 69964 Pa, as in the datasheet. */
  method DatasheetStartupStarted() returns (ok: uint8, p: int)
    ensures ok == 1 && p == 69964
  {
    var d := new Driver();
    ExampleRepliesDecode();
    ok := d.InitPressure(ExampleReplies);
    p := DatasheetMeasurementStarted(d);
  }

  /** `get_pressure` with the corrected read on a driver holding the datasheet calibration. */
  method DatasheetMeasurementStarted(d: Driver) returns (p: int)
    requires d.cal == Example
    modifies d`b5, d`trace
    ensures p == 69964
  {
    DatasheetCycle();
    DatasheetCycleStarted(0x00);
    var reply := SensorResult(TemperatureProtocol() + PressureProtocol(OSS), DatasheetUT, DatasheetUP);
    p := d.GetPressureStarted((0x6C, 0xFA), reply);
  }

  /** Two measurements with the same device answers agree: the b5 of one cycle does not leak into the next. */
  method RepeatedReadsAgree(d: Driver, ut: (uint8, uint8), up: (uint8, uint8, uint8)) returns (p1: int, p2: int)
    requires TemperatureDefined(d.cal, Word(ut.0, ut.1))
    requires PressureDefined(d.cal, B5(d.cal, Word(ut.0, ut.1)))
    modifies d`b5, d`trace
    ensures p1 == p2
  {
    p1 := d.GetPressure(ut, up);
    p2 := d.GetPressure(ut, up);
  }
}
