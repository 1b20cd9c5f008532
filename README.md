# WeatherStation5000 — a verified model of its firmware core

WeatherStation5000 is firmware for an NXP LPC-series Cortex-M3 board. It shows
temperature, light and (when a BMP085/BMP180 sensor answers) barometric
pressure on an OLED display. It remembers the readings of the previous
start-up in EEPROM. This project models the parts of it that compute
something and proves what they do.

- `c_int.dfy` (module `CInt`): the C integer semantics of the 32-bit
  target that the firmware relies on. This covers `short`/`unsigned
  short`/`long` conversions, truncating signed division and arithmetic
  right shift.
- `bmp085.dfy` (module `Bmp085`): the pure part of the pressure driver
  `src/pressure.c`. It covers:
  - the register map and commands;
  - the bus protocol as a sequence of events;
  - assembly of raw readings from bytes;
  - the eleven calibration words and the sanity check on them;
  - the fixed-point compensation of the Bosch BMP085 datasheet (section
    3.5) from UT/UP to 0.1 °C and Pa;
  - the datasheet's worked example.
- `pressure_sensor.dfy` (module `PressureSensor`): the driver's state as a
  class, covering `init_pressure`, `get_pressure` and the `bmp085Read…` and
  `bmp085Get…` routines.
  - The fields are the calibration globals and the global `b5` that the
    temperature step leaves for the pressure step.
  - A ghost trace records every I2C transfer and every blocking wait.
  - The bytes the device answers with are method parameters.
- `int_text.dfy` (module `IntText`): `intToString`, the integer-to-text
  routine both `src/main.c` and the older snapshot
  `others/main_18112016_RGB_problem.c` contain. The two copies are the same
  code, so one model serves both.
  - It is specified by the digit sequence `Digits` and proved against its
    inverse `ParseSigned`.
  - The two do-while loops are methods on an `array<char>`.
- `station.dfy` (module `Station`): the application side of `src/main.c`
  and of the snapshot:
  - the page cycle of the main loop (three pages with a pressure sensor,
    two without, two in the snapshot's `MAX_PAGE = 1`);
  - the `uint8_t delayTimeMs` update driven by the rotary switch;
  - the "765" control-number check of the cached EEPROM record in
    `RetrieveCachedData`;
  - the split of the temperature text around the decimal point into `buf`
    and `buf2`.

Integers are unbounded in the model. Every unsigned wrap-around, every
narrowing conversion and every truncating division or shift that the C
code performs is written out explicitly. Signed `long` overflow, which C
leaves undefined, is not modelled (see "Left out").

The model keeps the driver as the code has it, including where the code
does less than its own comments say:

- The comment at pressure.c:136-137 asks for a pressure conversion to be
  started by writing `0x34 + (OSS << 6)` to 0xF4. The code computes that
  byte (line 140) but never sends it: the only write (line 148) selects
  0xF6. `PressureSensor.Driver.GetPressure` follows the code, so the
  device still holds the temperature result when the pressure is read
  (first row of the Findings). `GetPressureStarted` is the corrected cycle.
- `b5` (pressure.c:34-36) and the calibration (pressure.c:21-32) are
  globals that the temperature and pressure steps share. The model keeps
  them as fields of the driver class.
- Nothing guards the divisions at pressure.c:168 and pressure.c:198-200.
  Before `init_pressure` the first one divides by zero for every reading
  (`Bmp085.UninitialisedDividesByZero`). The model's methods require the
  divisors to be non-zero.

## Model

| member | source | states |
|---|---|---|
| CInt.CDiv | WeatherStation5000/src/pressure.c:168 | C's signed `/`: the magnitude of the quotient is the quotient of the magnitudes, with the sign of the operands' product (truncation toward zero) |
| CInt.CDivRemainder | WeatherStation5000/src/pressure.c:168 | the remainder left by truncating division is smaller than the divisor and never has the opposite sign of the dividend |
| CInt.Asr | WeatherStation5000/src/pressure.c:167 | `x >> k` on a signed `long` is the floor of x / 2^k: r·2^k ≤ x < (r+1)·2^k |
| CInt.U32 | WeatherStation5000/src/pressure.c:194 | conversion to `unsigned long` is congruent to the value modulo 2^32 and the identity on values that fit |
| CInt.I32 | WeatherStation5000/src/main.c:141 | conversion to a 32-bit signed integer is congruent modulo 2^32, in range, and the identity on values that fit |
| CInt.I16 | WeatherStation5000/src/pressure.c:22-32 | storing into a `short` is congruent modulo 2^16, in range, and the identity on values that fit |
| CInt.U8 | WeatherStation5000/src/main.c:35 | storing into a `uint8_t` is congruent modulo 256 and the identity on values that fit |
| CInt.I16OfWord | WeatherStation5000/src/pressure.c:47-49 | a 16-bit word stored into a `short` is negative exactly when its top bit is set, and is the word minus 2^16 then |
| CInt.I16Injective | WeatherStation5000/src/pressure.c:59 | two words are equal as `short`s exactly when they are equal as words |
| Bmp085.PressureCommand | WeatherStation5000/src/pressure.c:140 | `0x34 + (OSS << 6)` keeps 0x34 in the low six bits and the oversampling setting in the top two |
| Bmp085.AsWrittenCycleReadsTemperatureResult | WeatherStation5000/src/pressure.c:131-158 | in `get_pressure` as written, the last command in the control register when UP is read is the temperature command 0x2E, so the pressure read returns a temperature conversion |
| Bmp085.CorrectedCycleReadsPressureResult | WeatherStation5000/src/pressure.c:136-140 | with the start command sent, the last command before the pressure read is `0x34 + (OSS << 6)` |
| Bmp085.PressureWaitIncreasing | WeatherStation5000/src/pressure.c:143 | the wait `2 + (3 << OSS)` grows strictly with the oversampling setting, from 5 ms at OSS 0 to 26 ms at OSS 3 |
| Bmp085.TemperatureWaitSuffices | WeatherStation5000/src/pressure.c:122-123 | the 5 ms temperature wait covers the 4.5 ms conversion |
| Bmp085.Word | WeatherStation5000/src/pressure.c:105 | the assembled word has the first byte as its high byte and the second as its low byte |
| Bmp085.ShiftOrIsAdd | WeatherStation5000/src/pressure.c:105 | `msb << 8 \| lsb` on bytes equals msb·256 + lsb |
| Bmp085.ShiftOr3IsAdd | WeatherStation5000/src/pressure.c:155 | the three-byte shift-or equals msb·2^16 + lsb·2^8 + xlsb |
| Bmp085.RawPressure | WeatherStation5000/src/pressure.c:155 | UP is the 24-bit reading shifted right by 8 − OSS (floor), so it is below 2^(16+OSS) |
| Bmp085.RawPressureAtOss0 | WeatherStation5000/src/pressure.c:155 | at OSS 0 the XLSB byte is discarded and UP is the MSB/LSB word |
| Bmp085.CalibrationFrom | WeatherStation5000/src/pressure.c:47-57 | AC4–AC6 keep the words as read; each of the eight `short` coefficients (AC1–AC3, B1, B2, MB, MC, MD) is negative exactly when the first byte of its reply has the top bit set |
| Bmp085.SanityCheck | WeatherStation5000/src/pressure.c:59 | the verdict is 0 or 1, and 0 exactly when AC1, AC2 and AC3 are all equal |
| Bmp085.SanityCheckOnReplies | WeatherStation5000/src/pressure.c:59 | initialisation fails exactly when the replies for AC1, AC2 and AC3 are identical, whatever the other eight replies are |
| Bmp085.UninitialisedDividesByZero | WeatherStation5000/src/pressure.c:168 | before calibration is loaded, the temperature step divides by zero for every UT |
| Bmp085.B5 | WeatherStation5000/src/pressure.c:167-169 | b5 − x1 is the truncated quotient of `mc << 11` by `x1 + md`: its magnitude times the divisor's is at most the dividend's, and one more times it exceeds it |
| Bmp085.Temperature | WeatherStation5000/src/pressure.c:171 | the returned temperature is b5/16 rounded to nearest wherever it fits a `short`: 16·T − 8 ≤ b5 < 16·T + 8 |
| Bmp085.DivideStep | WeatherStation5000/src/pressure.c:197-200 | below 2^31 the result is exactly ⌊2·b7/b4⌋; above it, twice ⌊b7/b4⌋ modulo 2^32, which is twice ⌊b7/b4⌋ itself whenever b4 ≥ 2 |
| Bmp085.B3 | WeatherStation5000/src/pressure.c:183-188 | b3 with line 185 grouped as C parses it; 422 on the datasheet's example (`DatasheetPressure`) |
| Bmp085.B4 | WeatherStation5000/src/pressure.c:190-194 | b4 as an `unsigned long` product shifted logically; 33457 on the datasheet's example (`DatasheetPressure`) |
| Bmp085.B7 | WeatherStation5000/src/pressure.c:196 | b7 wraps modulo 2^32; 1171050000 on the datasheet's example (`DatasheetPressure`) and 1373800000 when UP is the temperature result (`DatasheetCycleAsWritten`) |
| Bmp085.Correct | WeatherStation5000/src/pressure.c:202-205 | the second-order correction; its size is bounded by `CorrectionBounded` |
| Bmp085.CorrectionBounded | WeatherStation5000/src/pressure.c:202-205 | for every quotient p below 2^17 the correction moves it by −683 to +993 Pa |
| Bmp085.Pressure | WeatherStation5000/src/pressure.c:178-208 | `bmp085GetPressure`: b6, b3, b4, b7, the division step and the correction; its values are fixed by `DatasheetPressure` and `DatasheetCycleAsWritten`, its division step by `DivideStepApproximates` |
| Bmp085.DivideStepApproximates | WeatherStation5000/src/pressure.c:197-200 | both branches compute ⌊2·b7/b4⌋ or one less, so avoiding the overflow of `b7 << 1` costs at most 1 Pa |
| Bmp085.ExampleRepliesDecode | WeatherStation5000/src/pressure.c:45-60 | the datasheet's calibration words, read as bytes, decode to the datasheet's coefficients and pass the sanity check |
| Bmp085.DatasheetTemperature | WeatherStation5000/src/pressure.c:163-172 | with the datasheet's coefficients and UT = 27898, b5 = 2400 and the temperature is 150 (15.0 °C) |
| Bmp085.DatasheetPressure | WeatherStation5000/src/pressure.c:178-208 | with b5 = 2400 and UP = 23843: b3 = 422, b4 = 33457, b7 = 1171050000 and p = 69964 Pa, as in the datasheet |
| Bmp085.DatasheetCycle | WeatherStation5000/src/pressure.c:62-66 | the same numbers, starting from the bytes the device sends for UT and UP |
| Bmp085.DatasheetCycleAsWritten | WeatherStation5000/src/pressure.c:131-158 | under the cycle as written, the datasheet's sensor answers the pressure read with the temperature result 0x6CFA, which compensates to 82080 Pa instead of 69964 Pa |
| Bmp085.DatasheetCycleStarted | WeatherStation5000/src/pressure.c:136-140 | with the start command sent, the same sensor answers with its pressure result |
| PressureSensor.Driver.constructor | WeatherStation5000/src/pressure.c:21-36 | the globals start zeroed and nothing has been sent on the bus |
| PressureSensor.Driver.ReadInt | WeatherStation5000/src/pressure.c:86-106 | selects the register, reads two bytes, returns them as a big-endian word |
| PressureSensor.Driver.InitPressure | WeatherStation5000/src/pressure.c:45-60 | the calibration is the eleven words of 0xAA..0xBE; returns 0 exactly when AC1 == AC2 == AC3; b5 is untouched; the bus sees the eleven reads in order |
| PressureSensor.Driver.ReadCalibration | WeatherStation5000/src/pressure.c:47-57 | the eleven `bmp085ReadInt` calls, each word converted to its global's type, with the reads on the bus in order |
| PressureSensor.Driver.ReadUT | WeatherStation5000/src/pressure.c:110-128 | writes 0x2E to 0xF4, waits 5 ms, reads two bytes from 0xF6 and returns them as a word |
| PressureSensor.Driver.ReadUP | WeatherStation5000/src/pressure.c:131-158 | as written: waits and reads three bytes from 0xF6 without writing the start command, and returns the bytes shifted by 8 − OSS |
| PressureSensor.Driver.ReadUPStarted | WeatherStation5000/src/pressure.c:136-143 | the datasheet's pressure protocol: start command, wait, three-byte read |
| PressureSensor.Driver.GetTemperature | WeatherStation5000/src/pressure.c:163-172 | sets the global b5 from UT and the calibration, and returns b5 rounded to 0.1 °C |
| PressureSensor.Driver.GetPressure | WeatherStation5000/src/pressure.c:62-66 | as written: the temperature protocol then the pressure read without a start command, so the last command the device has seen when UP is read is 0x2E; the pressure is compensated with the b5 of the same cycle |
| PressureSensor.Driver.GetPressureStarted | WeatherStation5000/src/pressure.c:62-66 | the corrected cycle: the full temperature and pressure protocols, with 0x34 + (OSS << 6) the last command before UP is read |
| PressureSensor.DatasheetStartup | WeatherStation5000/src/main.c:219-227 | start-up on the datasheet's sensor as written: `init_pressure` reports 1, and `get_pressure` reports 82080 Pa because the sensor answers the pressure read with its temperature result |
| PressureSensor.DatasheetMeasurement | WeatherStation5000/src/pressure.c:62-66 | `get_pressure` as written on the datasheet's sensor, with the reply derived from the bus trace, returns 82080 Pa |
| PressureSensor.DatasheetStartupStarted | WeatherStation5000/src/main.c:219-227 | the same start-up with the corrected cycle reports 1 and 69964 Pa, the datasheet's value |
| PressureSensor.DatasheetMeasurementStarted | WeatherStation5000/src/pressure.c:62-66 | the corrected `get_pressure` on the datasheet's sensor returns 69964 Pa |
| PressureSensor.RepeatedReadsAgree | WeatherStation5000/src/pressure.c:34-36 | two measurements with the same device answers agree: b5 from one cycle does not leak into the next |
| IntText.DigitChar | WeatherStation5000/src/main.c:39 | each digit is a character '0'..'9' or 'a'..'z' |
| IntText.DigitCharIsAlphabet | WeatherStation5000/src/main.c:39 | digit d is entry d of the alphabet "0123456789abcdefghijklmnopqrstuvwxyz" |
| IntText.Div | WeatherStation5000/src/main.c:69 | the quotient is positive exactly when n ≥ base, and then smaller than n (the loops terminate) |
| IntText.Mod | WeatherStation5000/src/main.c:82 | the remainder is a valid digit: below the base |
| IntText.DivMod | WeatherStation5000/src/main.c:81-84 | n = (n / base)·base + n % base |
| IntText.Digits | WeatherStation5000/src/main.c:81-84 | the digits the fill loop writes, most significant first, never empty; read back by `DigitsRoundTrip` |
| IntText.DivModAgree | WeatherStation5000/src/main.c:81-84 | on the loops' non-negative operands, the model's quotient and remainder are C's `/` and `%` |
| IntText.DigitsBelowBase | WeatherStation5000/others/main_18112016_RGB_problem.c:79-82 | every digit written has a value below the base |
| IntText.NoLeadingZero | WeatherStation5000/src/main.c:81-84 | the text starts with '0' exactly when the value is 0 |
| IntText.DigitsRoundTrip | WeatherStation5000/src/main.c:81-84 | reading the digits back in the same base gives the number |
| IntText.Encoding | WeatherStation5000/src/main.c:59-84 | the text `intToString` writes before its terminator: a '-' for negative values, then the digits of the magnitude; read back by `EncodingRoundTrip` |
| IntText.EncodingRoundTrip | WeatherStation5000/others/main_18112016_RGB_problem.c:57-82 | reading the text back gives the value; it starts with '-' exactly for negative values; zero is "0" |
| IntText.CountDigits | WeatherStation5000/src/main.c:67-70 | the length pre-pass advances `pos` by exactly the number of digits of the value |
| IntText.FillDigits | WeatherStation5000/src/main.c:81-84 | the fill loop writes the digits of the value into the positions just before `pos` and changes nothing else |
| IntText.IntToString | WeatherStation5000/src/main.c:37-88 | as written: a NULL buffer, `len < 2` or a base outside 2..36 changes nothing; otherwise, if the text has at most `len` characters, the buffer holds the text and a terminator; if not, only the '-' has been written |
| IntText.IntToStringChecked | WeatherStation5000/src/main.c:73-79 | with the check `pos >= len`: the same results, with the text written only when it is shorter than `len`, and nothing at index ≥ len ever written |
| IntText.TerminatorPastBuffer | WeatherStation5000/src/main.c:140-142 | -1234567 needs eight characters; the `pos > len` check accepts it for `len` 8, and the terminator goes to index 8 of an eight-byte buffer |
| Station.MaxPage | WeatherStation5000/src/main.c:219-232 | the last page is 1 or 2, and 2 exactly when `init_pressure` returned 1 |
| Station.PressurePageIffCalibrated | WeatherStation5000/src/main.c:219-225 | the pressure page exists exactly when AC1, AC2 and AC3 are not all equal |
| Station.NextPage | WeatherStation5000/src/main.c:243-256 | the page stays within 0..max_page |
| Station.PageArithmetic | WeatherStation5000/src/main.c:243-256 | left is −1 and right/button is +1 modulo the number of pages; left wins when both are pressed; no input keeps the page |
| Station.LeftUndoesRight | WeatherStation5000/src/main.c:243-256 | a left step undoes a right step and the other way round |
| Station.OldSnapshotPages | WeatherStation5000/others/main_18112016_RGB_problem.c:158-173 | with `MAX_PAGE = 1` both directions toggle between pages 0 and 1, the page count of the current firmware without a pressure sensor |
| Station.DelayAsWritten | WeatherStation5000/src/main.c:263-279 | the firmware's `uint8_t` update of `delayTimeMs`; what it does is stated by `DelayWraps` and `DelayAgreesAwayFromWrap` |
| Station.DelayWraps | WeatherStation5000/src/main.c:263-279 | on the `uint8_t` the 500 ms ceiling never applies and the 1 ms floor only on exactly 0; left from 250 ms gives 44 ms, right from 40 ms gives 246 ms |
| Station.DelayClamped | WeatherStation5000/src/main.c:263-279 | the update the bounds ask for keeps the delay within 1..500 ms |
| Station.DelayClampedMoves | WeatherStation5000/src/main.c:263-279 | left never shortens and right never lengthens the delay; each moves it by 50 ms unless a bound stops it |
| Station.DelayAgreesAwayFromWrap | WeatherStation5000/src/main.c:263-279 | from 51 to 205 ms the firmware's update and the clamped one agree |
| Station.PageAfter | WeatherStation5000/src/main.c:238-256 | after any run of inputs, the page is within 0..max_page |
| Station.DelayAfter | WeatherStation5000/src/main.c:259-283 | after any run of rotary turns, the clamped delay is within 1..500 ms |
| Station.MainLoop | WeatherStation5000/src/main.c:238-351 | over a run of inputs, the page is the one `PageAfter` gives, and each pass sleeps for the delay of its input prefix (within 1..500 ms) |
| Station.HasMagic | WeatherStation5000/src/main.c:132 | the check on the first three characters of the record; `SavedRecordHasMagic` shows every saved record passes it |
| Station.SavedRecordHasMagic | WeatherStation5000/src/main.c:167 | every record `SaveCachedData` writes starts "765", so it passes the check at line 132; no record starting with anything but '7' does |
| Station.CopyEmpty | WeatherStation5000/src/main.c:146-148 | `strcpy(out, "empty")` writes the five letters and a terminator and nothing past them |
| Station.RetrieveCachedData | WeatherStation5000/src/main.c:125-150 | without "765" each output reads "empty"; with it, each output reads the decimal text of its cached value whenever that fits the eight-byte buffer |
| Station.SplitInBounds | WeatherStation5000/src/main.c:292-294 | the split reads and writes `buf[2]` and writes `buf2[0]` and `buf2[1]`, so it needs at least three bytes of `buf` and two of `buf2` |
| Station.OneByteBuf2Overrun | WeatherStation5000/src/main.c:187 | main.c's one-byte `buf2` does not hold the split's writes; a two-byte one does |
| Station.SplitTenths | WeatherStation5000/src/main.c:292-294 | on arrays that hold the split, `buf2` starts with the third character and a terminator; `buf` is cut after two characters; nothing else changes |
| Station.SplitTenthsUnterminated | WeatherStation5000/others/main_18112016_RGB_problem.c:181-183 | the snapshot's `buf2` gets only the third character; `buf` is cut after two characters |
| Station.ShowTemperature | WeatherStation5000/src/main.c:288-304 | the display shows the first two characters before the point and the third after it; a two-character text leaves nothing after the point; a one-character text leaves an earlier pass's `buf[2]` in `buf2` |
| Station.ShowTemperatureOld | WeatherStation5000/others/main_18112016_RGB_problem.c:177-190 | for a three-or-more-character reading, the snapshot's `buf2` holds the tenth digit and no terminator |
| Station.TenthsTextRoundTrip | WeatherStation5000/src/main.c:290-294 | the intended split (whole degrees with a sign, then the tenth) reads back as the reading in tenths |
| Station.EncodingIsTenthsText | WeatherStation5000/src/main.c:291 | from 1.0 degree either way, the text is the whole degrees followed by the tenth digit |
| Station.SplitRightForThreeCharacters | WeatherStation5000/src/main.c:292-294 | cutting after two characters matches the intended split for every three-character text (10.0 to 99.9 °C and −1.0 to −9.9 °C) |
| Station.SingleDigitDegreesShownTenfold | WeatherStation5000/src/main.c:288-304 | 9.5 °C (95 tenths) is formatted "95" and so displayed as "95." with nothing after the point |

## Left out

- I2C transfers and `delay32Ms` are recorded in a ghost trace of the driver. What the device answers is a parameter; bus errors and timing are not modelled.
- The BMP085 itself is not part of the firmware. It is modelled only by `Bmp085.SensorResult`: the result registers hold the result of the last conversion a control command started. The datasheet start-ups use it to derive the device's reply from the bus trace.
- `bmp085Read` (single-byte read, pressure.c:69-81) is not modelled: nothing in the firmware calls it.
- Signed overflow of `long` in the compensation arithmetic (for example `b6 * b6` or `(p>>8) * (p>>8)`) is undefined in C. The model computes those products exactly, so it matches the firmware wherever the firmware is defined. The datasheet's numbers stay in range.
- `(long)mc << 11` with a negative `mc` is undefined in C. It is modelled as multiplication by 2^11, which is what the compiler emits.
- PressureSensor.Driver.ReadInt returns the assembled `int` as a 16-bit word: with two bytes the value is always below 2^16.
- PressureSensor.Driver.InitPressure holds the eleven calibration globals as one `Calibration` field and assigns it after the eleven reads. Nothing reads the globals in between, so no caller can tell the difference.
- PressureSensor.OSS is fixed at 0, as in the firmware. The `Bmp085` functions take any setting from 0 to 3.
- The globals `temperature`, `pressure`, `p0` and `altitude` are not modelled. They are never used, and `p0`/`altitude` are floating point.
- `src/pressure180.c` and `others/examples_joystick_lightSensor.c` are not part of this model.
- OLED, RGB LEDs, UART, GPIO, timers, SysTick, ADC and the joystick/rotary/temperature/light drivers are left out. Their readings enter as parameters: `Input` for the main loop, the temperature for `ShowTemperature`.
- EEPROM reads and writes, `sscanf` and `sprintf` are left out. `RetrieveCachedData` takes the record and the three values `sscanf` parsed as parameters; `SaveCachedData` enters only through the "765;" prefix it writes.
- The `%d` that `sscanf` uses to fill the `uint32_t lux` is modelled as a two's-complement reinterpretation (`I32`) when the value is formatted.
- `SaveCachedData(pressure)` in main.c formats the `pressure` buffer even when no sensor answered and the buffer was never written. This is not modelled.
- IntText.IntToString: `value` is never INT_MIN, because negating INT_MIN is undefined in C.
- IntText.IntToStringChecked: `value` is never INT_MIN, for the same reason.
- Station.RetrieveCachedData states the outputs only when each text fits the buffer. Values with seven or more characters leave the buffers as the corrected `intToString` leaves them, and no string is stated for them.
- Station.MainLoop runs the endless `while(1)` loop over a finite sequence of inputs. It leaves out the `changed` flag (it only redraws labels) and the display switch, and it uses the corrected, clamped delay on a 16-bit variable. `DelayWraps` states the firmware's `uint8_t` update.
- Station.ShowTemperature uses the corrected `intToString` and a two-byte `buf2`. The write past main.c's one-byte `buf2` cannot take place on a Dafny array; it is stated instead by `SplitInBounds` and `OneByteBuf2Overrun`.
- The older snapshot's fixed 100 ms delays and LED colours per page are display plumbing and are not modelled.

## Findings

| source | as written | input that shows it | evidently intended | confidence | as-written member | corrected member |
|---|---|---|---|---|---|---|
| WeatherStation5000/src/pressure.c:136-149 | `bmp085ReadUP` fills `addr` with the start command `0x34 + (OSS << 6)` but never sends it before waiting and reading 0xF6..0xF8 | any `get_pressure` call: the last command in the control register is still the temperature command 0x2E, so the three bytes read are a temperature result; start-up on the datasheet's sensor reports 82080 Pa instead of 69964 Pa | write the command to 0xF4 before the wait, as the comment at lines 136-137 says | not executed | PressureSensor.Driver.ReadUP, PressureSensor.Driver.GetPressure, Bmp085.AsWrittenCycleReadsTemperatureResult, PressureSensor.DatasheetStartup | PressureSensor.Driver.ReadUPStarted, PressureSensor.Driver.GetPressureStarted, Bmp085.CorrectedCycleReadsPressureResult, PressureSensor.DatasheetStartupStarted |
| WeatherStation5000/src/main.c:73-79 | the length check `pos > len` accepts a text of exactly `len` characters, and the terminator is then written at index `len` | a cached temperature of -1234567 with `len` 8 into the eight-byte `prevTemp`: the terminator goes to index 8 | reject `pos >= len`, so the digits and the terminator fit in `len` bytes | not executed | IntText.IntToString, IntText.TerminatorPastBuffer | IntText.IntToStringChecked |
| WeatherStation5000/src/main.c:263-279 | `delayTimeMs` is a `uint8_t`, so `+= 50` and `-= 50` wrap modulo 256 before the bounds 500 and 1 are tested | four left turns from 50 ms reach 250 ms; a fifth gives 44 ms, and right turns from 40 ms give 246 ms | a variable wide enough for 500, clamped to 1..500 | not executed | Station.DelayAsWritten, Station.DelayWraps | Station.DelayClamped, Station.DelayClampedMoves |
| WeatherStation5000/src/main.c:292-294 | `buf2` is declared with one byte (line 187), and line 293 writes its terminator to `buf2[1]`, one byte past its end | every pass that shows the temperature page | a two-byte `buf2` | not executed | Station.SplitInBounds, Station.OneByteBuf2Overrun | Station.SplitTenths |
| WeatherStation5000/others/main_18112016_RGB_problem.c:181-190 | the one-byte `buf2` gets the tenth digit and no terminator, and is then displayed as a string | any reading from 10.0 to 99.9 °C, for example 235: `buf2` is {'5'} and the display reads past it | a terminated `buf2` in a two-byte buffer | not executed | Station.SplitTenthsUnterminated, Station.ShowTemperatureOld | Station.SplitTenths |
| WeatherStation5000/src/main.c:291-294 | the text is always cut after two characters, which is right only when it has exactly three | 9.5 °C (95 tenths) is shown as "95." with nothing after the point; 100.0 °C is shown as "10.0" | whole degrees before the point and the tenth digit after it | not executed | Station.SingleDigitDegreesShownTenfold, Station.ShowTemperature | Station.TenthsTextRoundTrip, Station.SplitRightForThreeCharacters |
