/**
 * The BMP085/BMP180 barometric sensor as the firmware drives it
 * (src/pressure.c): register map and commands (section 3.3 of the Bosch
 * BMP085 datasheet), calibration words (section 3.4), assembly of raw
 * readings from bytes, and the fixed-point compensation of section 3.5 that
 * turns the uncompensated readings UT and UP into 0.1 degC and Pa.
 *
 * Everything here is pure: the driver state and the bus live in
 * module PressureSensor.
 */
module Bmp085 {
  import opened CInt

  // ---------------------------------------------------------------- bus

  /** 8-bit bus addresses of the device: 0x77 shifted left, with the R/W bit. */
  const WriteAddress: uint8 := 0xEE
  const ReadAddress: uint8 := 0xEF

  const ControlRegister: uint8 := 0xF4
  /** First result register (MSB); 0xF7 holds the LSB and 0xF8 the XLSB. */
  const ResultRegister: uint8 := 0xF6
  /** Address of AC1; the eleven calibration words follow at 2-byte steps up to 0xBE. */
  const CalibrationRegister: uint8 := 0xAA

  const TemperatureCommand: uint8 := 0x2E

  /** `0x34 + (OSS << 6)`: start a pressure conversion at oversampling setting `oss`. */
  function PressureCommand(oss: nat): (cmd: uint8)
    requires oss <= 3
    ensures cmd % 0x40 == 0x34 && cmd / 0x40 == oss
  {
    0x34 + oss * Pow2(6)
  }

  /** One step on the I2C bus or a blocking wait, recorded in the driver's trace. */
  datatype BusEvent =
    | Write(device: uint8, data: seq<uint8>)
    | Read(device: uint8, count: nat)
    | Delay(ms: nat)

  /** Select `register` and read `count` consecutive bytes from it. */
  function ReadRegisters(register: uint8, count: nat): seq<BusEvent>
  {
    [Write(WriteAddress, [register]), Read(ReadAddress, count)]
  }

  /** Write `cmd` into the control register. */
  function StartConversion(cmd: uint8): seq<BusEvent>
  {
    [Write(WriteAddress, [ControlRegister, cmd])]
  }

  /** Milliseconds waited for a temperature conversion. */
  const TemperatureWait: nat := 5

  /** `2 + (3 << OSS)` milliseconds waited for a pressure conversion. */
  function PressureWait(oss: nat): nat
    requires oss <= 3
  {
    2 + 3 * Pow2(oss)
  }

  /** The datasheet's temperature measurement: start, wait, read two result bytes. */
  function TemperatureProtocol(): seq<BusEvent>
  {
    StartConversion(TemperatureCommand) + [Delay(TemperatureWait)] + ReadRegisters(ResultRegister, 2)
  }

  /** The datasheet's pressure measurement: start, wait, read three result bytes. */
  function PressureProtocol(oss: nat): seq<BusEvent>
    requires oss <= 3
  {
    StartConversion(PressureCommand(oss)) + [Delay(PressureWait(oss))] + ReadRegisters(ResultRegister, 3)
  }

  /** What the firmware's pressure read actually puts on the bus: no start command. */
  function PressureReadAsWritten(oss: nat): seq<BusEvent>
    requires oss <= 3
  {
    [Delay(PressureWait(oss))] + ReadRegisters(ResultRegister, 3)
  }

  /** The command most recently written to the control register, if any. */
  function LastCommand(events: seq<BusEvent>): (cmd: Option<uint8>)
  {
    if events == [] then None
    else
      var e := events[|events| - 1];
      if e.Write? && |e.data| == 2 && e.data[0] == ControlRegister then Some(e.data[1])
      else LastCommand(events[..|events| - 1])
  }

  datatype Option<T> = None | Some(value: T)

  lemma {:induction false} LastCommandAppend(a: seq<BusEvent>, b: seq<BusEvent>)
    ensures LastCommand(a + b) == if LastCommand(b).Some? then LastCommand(b) else LastCommand(a)
    decreases |b|
  {
    if b != [] {
      assert (a + b)[..|a + b| - 1] == a + b[..|b| - 1];
      assert (a + b)[|a + b| - 1] == b[|b| - 1];
      LastCommandAppend(a, b[..|b| - 1]);
    } else {
      assert a + b == a;
    }
  }

  /** Reading registers or waiting leaves the last command in force. */
  lemma {:induction false} NoCommandIn(oss: nat, register: uint8, count: nat)
    requires oss <= 3
    ensures LastCommand([Delay(PressureWait(oss))] + ReadRegisters(register, count)) == None
  {
    var s := [Delay(PressureWait(oss))] + ReadRegisters(register, count);
    assert LastCommand(s) == LastCommand(s[..2]);
    assert s[..2][1] == Write(WriteAddress, [register]);
    assert LastCommand(s[..2]) == LastCommand(s[..1]);
    assert s[..1][0] == Delay(PressureWait(oss));
    assert LastCommand(s[..1]) == LastCommand([]);
  }

  /**
   * The firmware's measurement cycle as written: the temperature protocol
   * followed by the pressure read. The last control command before the
   * three result bytes are read is still the temperature command, so the
   * device returns the temperature conversion, not a pressure conversion.
   */
  lemma AsWrittenCycleReadsTemperatureResult(oss: nat)
    requires oss <= 3
    ensures LastCommand(TemperatureProtocol() + PressureReadAsWritten(oss)) == Some(TemperatureCommand)
    ensures TemperatureCommand != PressureCommand(oss)
  {
    NoCommandIn(oss, ResultRegister, 3);
    LastCommandAppend(TemperatureProtocol(), PressureReadAsWritten(oss));
    var t := TemperatureProtocol();
    LastCommandAppend(StartConversion(TemperatureCommand), [Delay(TemperatureWait)] + ReadRegisters(ResultRegister, 2));
    NoCommandIn(0, ResultRegister, 2);
    assert t == StartConversion(TemperatureCommand) + ([Delay(TemperatureWait)] + ReadRegisters(ResultRegister, 2));
  }

  /** With the start command written, the result read follows the pressure command. */
  lemma CorrectedCycleReadsPressureResult(oss: nat)
    requires oss <= 3
    ensures LastCommand(TemperatureProtocol() + PressureProtocol(oss)) == Some(PressureCommand(oss))
  {
    var p := PressureProtocol(oss);
    assert p == StartConversion(PressureCommand(oss)) + PressureReadAsWritten(oss);
    NoCommandIn(oss, ResultRegister, 3);
    LastCommandAppend(StartConversion(PressureCommand(oss)), PressureReadAsWritten(oss));
    LastCommandAppend(TemperatureProtocol(), p);
  }

  /**
   * The pressure conversion wait grows strictly with the oversampling
   * setting, from 5 ms at OSS 0 to 26 ms at OSS 3.
   */
  lemma PressureWaitIncreasing(lo: nat, hi: nat)
    requires lo < hi <= 3
    ensures PressureWait(lo) < PressureWait(hi)
    ensures PressureWait(0) == 5 && PressureWait(3) == 26
  {
    Pow2Increasing(lo, hi);
  }

  /** 5 ms for temperature covers the 4.5 ms conversion time. */
  lemma TemperatureWaitSuffices()
    ensures TemperatureWait * 10 >= 45
  {
  }

  // -------------------------------------------------------- raw readings

  /** `buf[0] << 8 | buf[1]`: a big-endian 16-bit word from two result bytes. */
  function Word(msb: uint8, lsb: uint8): (w: uint16)
    ensures w / 0x100 == msb && w % 0x100 == lsb
  {
    msb * 0x100 + lsb
  }

  /** On bytes, shifting left by 8 and or-ing in the low byte is adding. */
  lemma ShiftOrIsAdd(msb: bv32, lsb: bv32)
    requires msb < 0x100 && lsb < 0x100
    ensures (msb << 8) | lsb == msb * 0x100 + lsb
  {
  }

  /** The three result bytes combined as `(msb << 16) | (lsb << 8) | xlsb`. */
  lemma ShiftOr3IsAdd(msb: bv32, lsb: bv32, xlsb: bv32)
    requires msb < 0x100 && lsb < 0x100 && xlsb < 0x100
    ensures (msb << 16) | (lsb << 8) | xlsb == msb * 0x1_0000 + lsb * 0x100 + xlsb
  {
  }

  /** UP: the 24 result bits shifted right by `8 - oss`, keeping `16 + oss` significant bits. */
  function RawPressure(msb: uint8, lsb: uint8, xlsb: uint8, oss: nat): (up: uint32)
    requires oss <= 3
    ensures up < Pow2(16 + oss)
    ensures up * Pow2(8 - oss) <= msb * 0x1_0000 + lsb * 0x100 + xlsb < (up + 1) * Pow2(8 - oss)
  {
    var bits := msb * 0x1_0000 + lsb * 0x100 + xlsb;
    assert Pow2(8) == 0x100 && Pow2(16) == 0x1_0000;
    Pow2Add(8, 16);
    Pow2Add(8 - oss, 16 + oss);
    QuotientBelow(bits, Pow2(8 - oss), Pow2(16 + oss));
    assert Pow2(16 + oss) <= Pow2(19) by {
      if oss < 3 { Pow2Increasing(16 + oss, 19); }
    }
    Quotient(bits, Pow2(8 - oss))
  }

  lemma {:induction false} Pow2Increasing(lo: nat, hi: nat)
    requires lo < hi
    ensures Pow2(lo) < Pow2(hi)
    decreases hi
  {
    if lo < hi - 1 {
      Pow2Increasing(lo, hi - 1);
    }
  }

  lemma {:induction false} Pow2Add(a: nat, b: nat)
    ensures Pow2(a) * Pow2(b) == Pow2(a + b)
    decreases a
  {
    if a > 0 {
      Pow2Add(a - 1, b);
    }
  }

  /** At oversampling 0, UP is exactly the word made of MSB and LSB; XLSB drops out. */
  lemma RawPressureAtOss0(msb: uint8, lsb: uint8, xlsb: uint8)
    ensures RawPressure(msb, lsb, xlsb, 0) == Word(msb, lsb) < 0x1_0000
  {
    var up := RawPressure(msb, lsb, xlsb, 0);
    assert Pow2(8) == 0x100;
    assert up * 0x100 <= Word(msb, lsb) * 0x100 + xlsb < (up + 1) * 0x100;
  }

  // -------------------------------------------------------- calibration

  /** The eleven calibration coefficients, as the `short`/`unsigned short` globals hold them. */
  datatype Calibration = Calibration(
    ac1: int16, ac2: int16, ac3: int16,
    ac4: uint16, ac5: uint16, ac6: uint16,
    b1: int16, b2: int16, mb: int16, mc: int16, md: int16)

  /** The big-endian word of a two-byte reply. */
  function ReplyWord(r: (uint8, uint8)): uint16
  {
    Word(r.0, r.1)
  }

  /**
   * The calibration `init_pressure` stores from the replies to its eleven
   * reads of 0xAA..0xBE: words bound for `short` globals are reinterpreted
   * as two's complement, those bound for `unsigned short` are kept.
   */
  function CalibrationFrom(reply: seq<(uint8, uint8)>): (c: Calibration)
    requires |reply| == 11
    ensures c.ac4 == ReplyWord(reply[3]) && c.ac5 == ReplyWord(reply[4]) && c.ac6 == ReplyWord(reply[5])
    ensures c.ac1 < 0 <==> reply[0].0 >= 0x80
    ensures c.ac2 < 0 <==> reply[1].0 >= 0x80
    ensures c.ac3 < 0 <==> reply[2].0 >= 0x80
    ensures c.b1 < 0 <==> reply[6].0 >= 0x80
    ensures c.b2 < 0 <==> reply[7].0 >= 0x80
    ensures c.mb < 0 <==> reply[8].0 >= 0x80
    ensures c.mc < 0 <==> reply[9].0 >= 0x80
    ensures c.md < 0 <==> reply[10].0 >= 0x80
  {
    I16OfWord(ReplyWord(reply[0]));
    I16OfWord(ReplyWord(reply[1]));
    I16OfWord(ReplyWord(reply[2]));
    I16OfWord(ReplyWord(reply[6]));
    I16OfWord(ReplyWord(reply[7]));
    I16OfWord(ReplyWord(reply[8]));
    I16OfWord(ReplyWord(reply[9]));
    I16OfWord(ReplyWord(reply[10]));
    Calibration(
      I16(ReplyWord(reply[0])), I16(ReplyWord(reply[1])), I16(ReplyWord(reply[2])),
      ReplyWord(reply[3]), ReplyWord(reply[4]), ReplyWord(reply[5]),
      I16(ReplyWord(reply[6])), I16(ReplyWord(reply[7])), I16(ReplyWord(reply[8])),
      I16(ReplyWord(reply[9])), I16(ReplyWord(reply[10])))
  }

  /** `init_pressure`'s verdict: 0 (no sensor) when AC1, AC2 and AC3 are all equal, else 1. */
  function SanityCheck(c: Calibration): (ok: uint8)
    ensures ok <= 1
    ensures ok == 0 <==> c.ac1 == c.ac2 == c.ac3
  {
    if c.ac1 == c.ac2 && c.ac2 == c.ac3 then 0 else 1
  }

  /**
   * In terms of the bytes on the wire: initialisation fails exactly when the
   * replies for AC1, AC2 and AC3 are identical, whatever the other eight are.
   */
  lemma SanityCheckOnReplies(reply: seq<(uint8, uint8)>, other: seq<(uint8, uint8)>)
    requires |reply| == 11 && |other| == 11
    requires reply[..3] == other[..3]
    ensures SanityCheck(CalibrationFrom(reply)) == 0 <==> reply[0] == reply[1] == reply[2]
    ensures SanityCheck(CalibrationFrom(reply)) == SanityCheck(CalibrationFrom(other))
  {
    I16Injective(ReplyWord(reply[0]), ReplyWord(reply[1]));
    I16Injective(ReplyWord(reply[1]), ReplyWord(reply[2]));
    assert reply[0] == other[0] && reply[1] == other[1] && reply[2] == other[2] by {
      assert reply[..3][0] == reply[0] && reply[..3][1] == reply[1] && reply[..3][2] == reply[2];
    }
  }

  /** The globals before `init_pressure` runs: C zero-initialises them. */
  const Uninitialised := Calibration(0, 0, 0, 0, 0, 0, 0, 0, 0, 0, 0)

  // -------------------------------------------------------- temperature

  /** `x1 = ((ut - ac6) * ac5) >> 15` */
  function TemperatureX1(c: Calibration, ut: int): int
  {
    Asr((ut - c.ac6) * c.ac5, 15)
  }

  /** The temperature step divides by `x1 + md` without a guard. */
  predicate TemperatureDefined(c: Calibration, ut: int)
  {
    TemperatureX1(c, ut) + c.md != 0
  }

  /** Before calibration is loaded, the temperature step divides by zero for every UT. */
  lemma UninitialisedDividesByZero(ut: uint16)
    ensures !TemperatureDefined(Uninitialised, ut)
  {
  }

  /** `b5 = x1 + x2` with `x2 = (mc << 11) / (x1 + md)`, the division truncating. */
  function B5(c: Calibration, ut: int): (b5: int)
    requires TemperatureDefined(c, ut)
    ensures var x1 := TemperatureX1(c, ut);
      Abs(b5 - x1) * Abs(x1 + c.md) <= Abs(c.mc * Pow2(11)) < (Abs(b5 - x1) + 1) * Abs(x1 + c.md)
  {
    var x1 := TemperatureX1(c, ut);
    x1 + CDiv(c.mc * Pow2(11), x1 + c.md)
  }

  /**
   * `(b5 + 8) >> 4`, in 0.1 degC, stored in a `short`: b5 / 16 rounded to
   * nearest (halves rounded up) wherever the result fits.
   */
  function Temperature(b5: int): (t: int16)
    ensures -0x8_0000 - 8 <= b5 < 0x8_0000 - 8 ==> 16 * t - 8 <= b5 < 16 * t + 8
  {
    assert Pow2(4) == 16;
    I16(Asr(b5 + 8, 4))
  }

  // -------------------------------------------------------- pressure

  /** `b6 = b5 - 4000` */
  function B6(b5: int): int { b5 - 4000 }

  /** `b3`, with line 185 grouped as C parses it: `(b2 * (b6 * b6)) >> 12`. */
  function B3(c: Calibration, b6: int, oss: nat): int
  {
    var x1 := Asr(Asr(c.b2 * (b6 * b6), 12), 11);
    var x2 := Asr(c.ac2 * b6, 11);
    var x3 := x1 + x2;
    Asr((c.ac1 * 4 + x3) * Pow2(oss) + 2, 2)
  }

  /** `b4`, an `unsigned long`: the product wraps modulo 2^32 and shifts logically. */
  function B4(c: Calibration, b6: int): uint32
  {
    var x1 := Asr(c.ac3 * b6, 13);
    var x2 := Asr(c.b1 * Asr(b6 * b6, 12), 16);
    var x3 := Asr(x1 + x2 + 2, 2);
    U32(c.ac4 * U32(x3 + 32768)) / Pow2(15)
  }

  /** `b7 = (unsigned long)(up - b3) * (50000 >> OSS)`, wrapping modulo 2^32. */
  function B7(up: uint32, b3: int, oss: nat): uint32
  {
    U32(U32(up - b3) * (50000 / Pow2(oss)))
  }

  /**
   * The branch at lines 197-200 as `unsigned long` arithmetic:
   * `(b7 << 1) / b4` below 2^31, else `(b7 / b4) << 1`.
   */
  function DivideStep(b7: uint32, b4: uint32): (q: uint32)
    requires b4 != 0
    ensures b7 < 0x8000_0000 ==> q == Quotient(2 * b7, b4)
    ensures b7 >= 0x8000_0000 ==> q == U32(2 * Quotient(b7, b4))
    ensures b7 >= 0x8000_0000 && b4 >= 2 ==> q == 2 * Quotient(b7, b4)
  {
    if b7 < 0x8000_0000 then (2 * b7) / b4 else U32(2 * (b7 / b4))
  }

  /**
   * Both branches approximate 2 * b7 / b4: the first exactly, the second
   * (which avoids the overflow of `b7 << 1`) at most one below.
   */
  lemma DivideStepApproximates(b7: uint32, b4: uint32)
    requires b4 >= 2
    ensures Quotient(2 * b7, b4) - 1 <= DivideStep(b7, b4) <= Quotient(2 * b7, b4)
  {
    var m := Quotient(b7, b4);
    var n := Quotient(2 * b7, b4);
    assert m * b4 <= b7 < m * b4 + b4;
    assert n * b4 <= 2 * b7 < n * b4 + b4;
    assert 2 * m * b4 <= 2 * b7 < 2 * m * b4 + 2 * b4;
    if b7 >= 0x8000_0000 {
      LessOfProducts(2 * m, n + 1, b4);
      LessOfProducts(n, 2 * m + 2, b4);
    }
  }

  lemma LessOfProducts(x: int, y: int, k: int)
    requires k > 0 && x * k < y * k
    ensures x < y
  {
  }

  lemma QuotientBelow(x: nat, d: nat, e: nat)
    requires d > 0 && x < d * e
    ensures Quotient(x, d) < e
  {
  }

  /** The final correction of lines 202-205, applied to `p`. */
  function Correct(p: int): int
  {
    var x1 := Asr(Asr(p, 8) * Asr(p, 8) * 3038, 16);
    var x2 := Asr(-7357 * p, 16);
    p + Asr(x1 + x2 + 3791, 4)
  }

  /**
   * The second-order correction is small: for every quotient below 2^17
   * (pressures up to 1310 hPa) it moves the result by less than 1000 Pa.
   */
  lemma CorrectionBounded(p: int)
    requires 0 <= p < 0x2_0000
    ensures p - 683 <= Correct(p) <= p + 993
  {
    var a := Asr(p, 8);
    ShiftedBelow(p, 8, 0x2_0000, 512);
    var x1 := Asr(a * a * 3038, 16);
    SquareTermBound(a);
    ShiftedBelow(a * a * 3038, 16, 793285599, 12105);
    var x2 := Asr(-7357 * p, 16);
    ShiftedAbove(-7357 * p, 16, -964289347, -14714);
    var s := x1 + x2 + 3791;
    assert -10923 <= s <= 15895;
    ShiftedBelow(s, 4, 15896, 994);
    ShiftedAbove(s, 4, -10923, -683);
  }

  /** A shift keeps a value below a bound that is itself a shift of the bound. */
  lemma ShiftedBelow(x: int, k: nat, bound: int, r: int)
    requires x < bound && bound <= r * Pow2(k)
    ensures Asr(x, k) < r
  {
    if Asr(x, k) >= r {
      assert Asr(x, k) * Pow2(k) >= r * Pow2(k);
    }
  }

  /** The same on the lower side. */
  lemma ShiftedAbove(x: int, k: nat, bound: int, r: int)
    requires bound <= x && r * Pow2(k) <= bound
    ensures r <= Asr(x, k)
  {
    if Asr(x, k) < r {
      assert (Asr(x, k) + 1) * Pow2(k) <= r * Pow2(k);
    }
  }

  lemma SquareTermBound(a: int)
    requires 0 <= a <= 511
    ensures 0 <= a * a * 3038 < 793285599
  {
    assert a * a <= 511 * a;
  }

  /** The compensation divides by `b4` without a guard. */
  predicate PressureDefined(c: Calibration, b5: int)
  {
    B4(c, B6(b5)) != 0
  }

  /** `bmp085GetPressure`: pressure in Pa from UP, the calibration and the b5 of the temperature step. */
  function Pressure(c: Calibration, b5: int, up: uint32, oss: nat): int
    requires oss <= 3 && PressureDefined(c, b5)
  {
    var b6 := B6(b5);
    var b7 := B7(up, B3(c, b6, oss), oss);
    Correct(I32(DivideStep(b7, B4(c, b6))))
  }

  // -------------------------------------------------- datasheet example

  /** The calibration of the worked example in section 3.5 of the datasheet. */
  const Example := Calibration(408, -72, -14383, 32741, 32757, 23153, 6190, 4, -32768, -8711, 2868)

  /** The example calibration as the eleven big-endian replies of the device. */
  const ExampleReplies: seq<(uint8, uint8)> :=
    [(0x01, 0x98), (0xFF, 0xB8), (0xC7, 0xD1), (0x7F, 0xE5), (0x7F, 0xF5), (0x5A, 0x71),
     (0x18, 0x2E), (0x00, 0x04), (0x80, 0x00), (0xDD, 0xF9), (0x0B, 0x34)]

  lemma ExampleRepliesDecode()
    ensures |ExampleReplies| == 11 && CalibrationFrom(ExampleReplies) == Example
    ensures SanityCheck(Example) == 1
  {
    var r := ExampleReplies;
    assert I16(ReplyWord(r[1])) == -72 && I16(ReplyWord(r[2])) == -14383;
    assert I16(ReplyWord(r[8])) == -32768 && I16(ReplyWord(r[9])) == -8711;
  }

  /** UT = 27898 gives b5 = 2400 and 15.0 degC; with floor instead of truncating division x2 would be -2344. */
  lemma DatasheetTemperature()
    ensures TemperatureDefined(Example, 27898)
    ensures B5(Example, 27898) == 2400 && Temperature(2400) == 150
  {
    assert Pow2(15) == 32768 && Pow2(11) == 2048 && Pow2(4) == 16;
    assert TemperatureX1(Example, 27898) == 4743;
    assert CDiv(-8711 * 2048, 7611) == -2343 by {
      assert Quotient(17840128, 7611) == 2343;
    }
  }

  /** UP = 23843 at OSS 0 gives b3 = 422, b4 = 33457, b7 = 1171050000 and p = 69964 Pa. */
  lemma DatasheetPressure()
    ensures PressureDefined(Example, 2400)
    ensures B3(Example, B6(2400), 0) == 422
    ensures B4(Example, B6(2400)) == 33457
    ensures B7(23843, 422, 0) == 1171050000
    ensures Pressure(Example, 2400, 23843, 0) == 69964
  {
    assert Pow2(0) == 1 && Pow2(2) == 4 && Pow2(4) == 16 && Pow2(8) == 256;
    assert Pow2(11) == 2048 && Pow2(12) == 4096 && Pow2(13) == 8192;
    assert Pow2(15) == 32768 && Pow2(16) == 65536;
    assert Asr(4 * 2560000, 12) == 2500;
    assert B3(Example, -1600, 0) == 422;
    assert Asr(-14383 * -1600, 13) == 2809;
    assert Asr(6190 * Asr(2560000, 12), 16) == 59;
    assert B4(Example, -1600) == 33457;
    assert DivideStep(1171050000, 33457) == 70003;
    assert Asr(70003, 8) == 273;
    assert Asr(273 * 273 * 3038, 16) == 3454;
    assert Asr(-7357 * 70003, 16) == -7859;
    assert Correct(70003) == 69964;
  }

  /** The example as bytes on the wire: UT = 0x6CFA and UP = 0x5D23 (XLSB shifted out at OSS 0). */
  lemma DatasheetCycle()
    ensures TemperatureDefined(Example, Word(0x6C, 0xFA))
    ensures B5(Example, Word(0x6C, 0xFA)) == 2400
    ensures PressureDefined(Example, 2400)
    ensures Pressure(Example, 2400, RawPressure(0x5D, 0x23, 0x00, 0), 0) == 69964
  {
    assert Word(0x6C, 0xFA) == 27898;
    RawPressureAtOss0(0x5D, 0x23, 0x00);
    DatasheetTemperature();
    DatasheetPressure();
  }

  /**
   * What a BMP085 answers from 0xF6..0xF8 once `events` have been on the
   * bus: the result of the conversion the last control command started.
   */
  function SensorResult(events: seq<BusEvent>, temperature: (uint8, uint8, uint8), pressure: (uint8, uint8, uint8))
    : (uint8, uint8, uint8)
  {
    if LastCommand(events) == Some(TemperatureCommand) then temperature else pressure
  }

  /**
   * The datasheet's sensor under the firmware's cycle as written: the
   * pressure read gets the temperature result 0x6CFA back (whatever 0xF8
   * holds is shifted out at OSS 0), and the compensation turns it into
   * 82080 Pa instead of 69964 Pa.
   */
  lemma DatasheetCycleAsWritten(xlsb: uint8)
    ensures SensorResult(TemperatureProtocol() + PressureReadAsWritten(0), (0x6C, 0xFA, xlsb), (0x5D, 0x23, 0x00))
      == (0x6C, 0xFA, xlsb)
    ensures B7(RawPressure(0x6C, 0xFA, xlsb, 0), 422, 0) == 1373800000
    ensures Pressure(Example, 2400, RawPressure(0x6C, 0xFA, xlsb, 0), 0) == 82080
  {
    AsWrittenCycleReadsTemperatureResult(0);
    RawPressureAtOss0(0x6C, 0xFA, xlsb);
    DatasheetPressure();
    assert Pow2(0) == 1 && Pow2(4) == 16 && Pow2(8) == 256 && Pow2(16) == 65536;
    assert DivideStep(1373800000, 33457) == 82123;
    assert Asr(82123, 8) == 320;
    assert Asr(320 * 320 * 3038, 16) == 4746;
    assert Asr(-7357 * 82123, 16) == -9220;
    assert Correct(82123) == 82080;
  }

  /** With the start command sent, the same sensor answers the pressure read with UP and the cycle gives 69964 Pa. */
  lemma DatasheetCycleStarted(xlsb: uint8)
    ensures SensorResult(TemperatureProtocol() + PressureProtocol(0), (0x6C, 0xFA, xlsb), (0x5D, 0x23, 0x00))
      == (0x5D, 0x23, 0x00)
  {
    CorrectedCycleReadsPressureResult(0);
    assert PressureCommand(0) == 0x34;
  }
}
