/**
 * The application side of src/main.c (and of its older snapshot
 * others/main_18112016_RGB_problem.c): the page and delay updates of the
 * main loop, the "765" check on the cached EEPROM record, and the split of
 * a temperature in tenths of a degree into the two strings the display
 * shows around its decimal point. Sensor, joystick, rotary and EEPROM
 * readings enter as parameters.
 */
module Station {
  import opened CInt
  import opened IntText
  import Bmp085

  // ------------------------------------------------------------------ pages

  /**
   * The last page index: 0 temperature, 1 light and, only when
   * `init_pressure` reported a sensor, 2 pressure.
   */
  function MaxPage(isPressure: uint8): (m: nat)
    ensures m == 1 || m == 2
    ensures m == 2 <==> isPressure == 1
  {
    if isPressure == 1 then 2 else 1
  }

  /** The pressure page exists exactly when the calibration passed the sanity check. */
  lemma PressurePageIffCalibrated(c: Bmp085.Calibration)
    ensures MaxPage(Bmp085.SanityCheck(c)) == 2 <==> !(c.ac1 == c.ac2 == c.ac3)
  {
  }

  /** `MAX_PAGE` of the older snapshot, which has no pressure page. */
  const OldMaxPage: nat := 1

  /**
   * One joystick step on `current_page`: left steps back and wraps from 0
   * to the last page; otherwise right (or the push button) steps forward
   * and wraps from the last page to 0; otherwise the page stays.
   */
  function NextPage(page: int, maxPage: nat, left: bool, right: bool): (next: int)
    requires 0 <= page <= maxPage
    ensures 0 <= next <= maxPage
  {
    if left then (if page - 1 == -1 then maxPage else page - 1)
    else if right then (if page + 1 == maxPage + 1 then 0 else page + 1)
    else page
  }

  /**
   * The pages form a cycle of `maxPage + 1`: left is subtraction and right
   * addition of one modulo the number of pages, and left wins when both
   * are pressed.
   */
  lemma PageArithmetic(page: int, maxPage: nat, left: bool, right: bool)
    requires 0 <= page <= maxPage
    ensures left ==> NextPage(page, maxPage, left, right) == (page + maxPage) % (maxPage + 1)
    ensures !left && right ==> NextPage(page, maxPage, left, right) == (page + 1) % (maxPage + 1)
    ensures !left && !right ==> NextPage(page, maxPage, left, right) == page
  {
    var n := maxPage + 1;
    if page == 0 {
      assert (page + maxPage) % n == maxPage;
    } else {
      assert (page + maxPage) % n == page - 1 by {
        assert page + maxPage == (page - 1) + n;
      }
    }
    if page == maxPage {
      assert (page + 1) % n == 0;
    } else {
      assert (page + 1) % n == page + 1;
    }
  }

  /** A left step undoes a right step and the other way round. */
  lemma LeftUndoesRight(page: int, maxPage: nat)
    requires 0 <= page <= maxPage
    ensures NextPage(NextPage(page, maxPage, false, true), maxPage, true, false) == page
    ensures NextPage(NextPage(page, maxPage, true, false), maxPage, false, true) == page
  {
  }

  /** With the snapshot's single extra page, left and right both toggle between 0 and 1. */
  lemma OldSnapshotPages(page: int, right: bool)
    requires 0 <= page <= OldMaxPage
    ensures NextPage(page, OldMaxPage, true, right) == 1 - page
    ensures NextPage(page, OldMaxPage, false, true) == 1 - page
    ensures OldMaxPage == MaxPage(0)
  {
  }

  // ------------------------------------------------------------------ delay

  /** What `rotary_read` reports. */
  datatype Rotation = Wait | Right | Left

  /** `delayTimeMs` before the first turn. */
  const InitialDelay: uint8 := 50

  /**
   * The delay update as written: `delayTimeMs` is a `uint8_t`, so both
   * steps of 50 wrap modulo 256 before the bounds are looked at.
   */
  function DelayAsWritten(delay: uint8, r: Rotation): uint8
  {
    match r
    case Right => var d := U8(delay - 50); if d < 1 then 1 else d
    case Left => var d := U8(delay + 50); if d > 500 then U8(500) else d
    case Wait => delay
  }

  /**
   * The 500 ms ceiling never applies, the 1 ms floor only when the step
   * lands exactly on 0, and a turn can move the delay the wrong way:
   * left from 250 ms gives 44 ms, right from 40 ms gives 246 ms.
   */
  lemma DelayWraps(delay: uint8)
    ensures DelayAsWritten(delay, Left) == (delay + 50) % 256
    ensures DelayAsWritten(delay, Right) == if delay == 50 then 1 else (delay - 50) % 256
    ensures DelayAsWritten(250, Left) == 44 < 250
    ensures DelayAsWritten(40, Right) == 246 > 40
  {
  }

  const MinDelay: nat := 1
  const MaxDelay: nat := 500

  /** The delay update the bounds ask for, on a variable wide enough to hold 500. */
  function DelayClamped(delay: int, r: Rotation): (next: int)
    ensures MinDelay <= delay <= MaxDelay ==> MinDelay <= next <= MaxDelay
  {
    match r
    case Right => if delay - 50 < MinDelay then MinDelay else delay - 50
    case Left => if delay + 50 > MaxDelay then MaxDelay else delay + 50
    case Wait => delay
  }

  /** Left never shortens and right never lengthens the clamped delay; each moves it by 50 unless a bound stops it. */
  lemma DelayClampedMoves(delay: int)
    requires MinDelay <= delay <= MaxDelay
    ensures delay <= DelayClamped(delay, Left) <= delay + 50
    ensures delay - 50 <= DelayClamped(delay, Right) <= delay
    ensures DelayClamped(delay, Left) == delay + 50 || DelayClamped(delay, Left) == MaxDelay
    ensures DelayClamped(delay, Right) == delay - 50 || DelayClamped(delay, Right) == MinDelay
  {
  }

  /** Away from the wrap-around the firmware's update and the clamped one agree. */
  lemma DelayAgreesAwayFromWrap(delay: uint8, r: Rotation)
    requires 51 <= delay <= 205
    ensures DelayAsWritten(delay, r) == DelayClamped(delay, r)
  {
  }

  // -------------------------------------------------------------- main loop

  /** What one pass of the main loop reads: the joystick, the push button and the rotary switch. */
  datatype Input = Input(joystickLeft: bool, joystickRight: bool, buttonPressed: bool, rotary: Rotation)

  /** The page after a run of inputs, starting from page 0. */
  function PageAfter(maxPage: nat, inputs: seq<Input>): (page: int)
    ensures 0 <= page <= maxPage
  {
    if inputs == [] then 0
    else
      var last := inputs[|inputs| - 1];
      NextPage(PageAfter(maxPage, inputs[..|inputs| - 1]), maxPage, last.joystickLeft, last.joystickRight || last.buttonPressed)
  }

  /** The delay after a run of inputs, starting from the initial 50 ms. */
  function DelayAfter(inputs: seq<Input>): (delay: int)
    ensures MinDelay <= delay <= MaxDelay
  {
    if inputs == [] then InitialDelay
    else DelayClamped(DelayAfter(inputs[..|inputs| - 1]), inputs[|inputs| - 1].rotary)
  }

  /**
   * The `while(1)` loop of main.c run over a finite prefix of inputs, with
   * the delay kept on a wide variable and clamped. Returns the page shown
   * last and the delay slept after each pass.
   */
  method MainLoop(isPressure: uint8, inputs: seq<Input>) returns (currentPage: int8, waits: seq<int>)
    ensures currentPage == PageAfter(MaxPage(isPressure), inputs)
    ensures 0 <= currentPage <= MaxPage(isPressure)
    ensures |waits| == |inputs|
    ensures forall i :: 0 <= i < |inputs| ==> waits[i] == DelayAfter(inputs[..i + 1])
    ensures forall i :: 0 <= i < |waits| ==> MinDelay <= waits[i] <= MaxDelay
  {
    var maxPage := MaxPage(isPressure);
    var delayTimeMs: uint16 := InitialDelay;
    currentPage := 0;
    waits := [];
    var i := 0;
    while i < |inputs|
      invariant 0 <= i <= |inputs|
      invariant currentPage == PageAfter(maxPage, inputs[..i])
      invariant delayTimeMs == DelayAfter(inputs[..i])
      invariant |waits| == i
      invariant forall k :: 0 <= k < i ==> waits[k] == DelayAfter(inputs[..k + 1])
      invariant forall k :: 0 <= k < i ==> MinDelay <= waits[k] <= MaxDelay
    {
      var input := inputs[i];
      assert inputs[..i + 1][..i] == inputs[..i];
      if input.joystickLeft {
        currentPage := currentPage - 1;
        if currentPage == -1 {
          currentPage := maxPage;
        }
      } else if input.joystickRight || input.buttonPressed {
        currentPage := currentPage + 1;
        if currentPage == maxPage + 1 {
          currentPage := 0;
        }
      }
      match input.rotary {
        case Right =>
          if delayTimeMs - 50 < MinDelay {
            delayTimeMs := MinDelay;
          } else {
            delayTimeMs := delayTimeMs - 50;
          }
        case Left =>
          if delayTimeMs + 50 > MaxDelay {
            delayTimeMs := MaxDelay;
          } else {
            delayTimeMs := delayTimeMs + 50;
          }
        case Wait =>
      }
      waits := waits + [delayTimeMs];
      i := i + 1;
    }
    assert inputs[..i] == inputs;
  }

  // ------------------------------------------------------------ cached data

  /** The record starts with the control number "765". */
  predicate HasMagic(record: seq<char>)
  {
    |record| >= 3 && record[0] == '7' && record[1] == '6' && record[2] == '5'
  }

  /** Every record the firmware saves starts "765;", so it passes the check. */
  lemma SavedRecordHasMagic(fields: seq<char>)
    ensures HasMagic("765;" + fields)
    ensures forall c :: c != '7' ==> !HasMagic([c] + fields)
  {
  }

  /** The characters before the first terminator (all of `s` when it has none). */
  function CText(s: seq<char>): (t: seq<char>)
    ensures |t| <= |s| && t == s[..|t|]
    ensures |t| < |s| ==> s[|t|] == '\0'
    ensures '\0' !in t
  {
    if s == [] || s[0] == '\0' then [] else [s[0]] + CText(s[1..])
  }

  /** The text of a terminated string is what precedes its terminator. */
  lemma {:induction false} CTextOfTerminated(t: seq<char>, rest: seq<char>)
    requires '\0' !in t
    ensures CText(t + ['\0'] + rest) == t
  {
    if t != [] {
      assert (t + ['\0'] + rest)[1..] == t[1..] + ['\0'] + rest;
      CTextOfTerminated(t[1..], rest);
    }
  }

  /** No character of an encoding is a terminator. */
  lemma EncodingUnterminated(value: int, base: nat)
    requires 2 <= base <= 36
    ensures '\0' !in Encoding(value, base)
  {
    DigitsAreCharacters(Abs(value), base);
  }

  lemma {:induction false} DigitsAreCharacters(n: nat, base: nat)
    requires 2 <= base <= 36
    ensures '\0' !in Digits(n, base)
    decreases n
  {
    if n >= base {
      DigitsAreCharacters(Div(n, base), base);
    }
  }

  /** After `intToString` succeeds, the buffer holds the encoding as a string. */
  lemma WrittenText(e: seq<char>, s: seq<char>)
    requires '\0' !in e
    requires |e| < |s| && s[..|e| + 1] == e + ['\0']
    ensures CText(s) == e
  {
    assert s == e + ['\0'] + s[|e| + 1..];
    CTextOfTerminated(e, s[|e| + 1..]);
  }

  /** `strcpy(out, "empty")`. */
  method CopyEmpty(out: array<char>)
    requires out.Length >= 6
    modifies out
    ensures out[..6] == "empty\0"
    ensures out[6..] == old(out[6..])
  {
    out[0], out[1], out[2], out[3], out[4], out[5] := 'e', 'm', 'p', 't', 'y', '\0';
  }

  /**
   * `RetrieveCachedData`: when the 32-byte record read from EEPROM starts
   * "765", write the three cached values (as `sscanf` parsed them: `temp`,
   * `lux`, `pressure`) into the 8-byte outputs as decimal text; otherwise
   * write "empty" into each.
   */
  method RetrieveCachedData(record: seq<char>, temp: int32, lux: uint32, pressure: int32,
                            outTemp: array<char>, outLux: array<char>, outPressure: array<char>)
    requires |record| == 32
    requires outTemp.Length == 8 && outLux.Length == 8 && outPressure.Length == 8
    requires outTemp != outLux && outLux != outPressure && outTemp != outPressure
    requires temp != -0x8000_0000 && I32(lux) != -0x8000_0000 && pressure != -0x8000_0000
    modifies outTemp, outLux, outPressure
    ensures !HasMagic(record) ==>
      CText(outTemp[..]) == "empty" && CText(outLux[..]) == "empty" && CText(outPressure[..]) == "empty"
    ensures HasMagic(record) && |Encoding(temp, 10)| < 8 ==> CText(outTemp[..]) == Encoding(temp, 10)
    ensures HasMagic(record) && |Encoding(I32(lux), 10)| < 8 ==> CText(outLux[..]) == Encoding(I32(lux), 10)
    ensures HasMagic(record) && |Encoding(pressure, 10)| < 8 ==> CText(outPressure[..]) == Encoding(pressure, 10)
  {
    if record[0] == '7' && record[1] == '6' && record[2] == '5' {
      IntToStringChecked(temp, outTemp, 8, 10);
      IntToStringChecked(I32(lux), outLux, 8, 10);
      IntToStringChecked(pressure, outPressure, 8, 10);
      ghost var e := Encoding(temp, 10);
      EncodingUnterminated(temp, 10);
      if |e| < 8 {
        WrittenText(e, outTemp[..]);
      }
      e := Encoding(I32(lux), 10);
      EncodingUnterminated(I32(lux), 10);
      if |e| < 8 {
        WrittenText(e, outLux[..]);
      }
      e := Encoding(pressure, 10);
      EncodingUnterminated(pressure, 10);
      if |e| < 8 {
        WrittenText(e, outPressure[..]);
      }
    } else {
      CopyEmpty(outTemp);
      CopyEmpty(outLux);
      CopyEmpty(outPressure);
      WrittenText("empty", outTemp[..]);
      WrittenText("empty", outLux[..]);
      WrittenText("empty", outPressure[..]);
    }
  }

  // ---------------------------------------------------- temperature display

  /**
   * The bytes main.c's split touches lie inside the arrays: it reads and
   * writes `buf[2]` and writes `buf2[0]` and `buf2[1]`.
   */
  predicate SplitInBounds(bufLength: nat, buf2Length: nat)
  {
    2 < bufLength && 1 < buf2Length
  }

  /**
   * main.c declares `buf2` with one byte next to the ten-byte `buf`, so
   * the terminator of the split goes one byte past `buf2`; two bytes are
   * enough.
   */
  lemma OneByteBuf2Overrun()
    ensures !SplitInBounds(10, 1)
    ensures SplitInBounds(10, 2)
  {
  }

  /**
   * The split of main.c on a `buf2` long enough for it: the third
   * character of the temperature text goes to `buf2` as the digit after
   * the decimal point, followed by a terminator, and the text is cut after
   * two characters.
   */
  method SplitTenths(buf: array<char>, buf2: array<char>)
    requires SplitInBounds(buf.Length, buf2.Length) && buf != buf2
    modifies buf, buf2
    ensures buf2[..2] == [old(buf[2]), '\0'] && buf2[2..] == old(buf2[2..])
    ensures buf[..] == old(buf[..])[2 := '\0']
  {
    buf2[0] := buf[2];
    buf2[1] := '\0';
    buf[2] := '\0';
  }

  /** The split of the older snapshot: `buf2` is one byte and gets no terminator. */
  method SplitTenthsUnterminated(buf: array<char>, buf2: array<char>)
    requires buf.Length == 10 && buf2.Length == 1
    modifies buf, buf2
    ensures buf2[..] == [old(buf[2])]
    ensures buf[..] == old(buf[..])[2 := '\0']
  {
    buf2[0] := buf[2];
    buf[2] := '\0';
  }

  /**
   * Page 0 of main.c: format the reading (tenths of a degree) into the
   * static ten-byte `buf`, then split it. What is shown before the point
   * is the first two characters, after it the third; a text shorter than
   * three characters leaves nothing after the point, and a one-character
   * text leaves in `buf2` whatever `buf[2]` held from an earlier pass.
   */
  method ShowTemperature(temp: int32, buf: array<char>, buf2: array<char>)
    requires temp != -0x8000_0000
    requires buf.Length == 10 && buf2.Length == 2
    modifies buf, buf2
    ensures var e := Encoding(temp, 10);
      (3 <= |e| < 10 ==> CText(buf[..]) == e[..2] && CText(buf2[..]) == [e[2]]) &&
      (|e| == 2 ==> CText(buf[..]) == e && CText(buf2[..]) == []) &&
      (|e| == 1 ==> CText(buf[..]) == e && buf2[0] == old(buf[2]))
  {
    IntToStringChecked(temp, buf, 10, 10);
    ghost var e := Encoding(temp, 10);
    ghost var written := buf[..];
    SplitTenths(buf, buf2);
    EncodingUnterminated(temp, 10);
    if 3 <= |e| < 10 {
      assert written[2] == e[2];
      WrittenText(e[..2], buf[..]);
      WrittenText([e[2]], buf2[..]);
    } else if |e| == 2 {
      WrittenText(e, buf[..]);
      WrittenText([], buf2[..]);
    } else if |e| == 1 {
      WrittenText(e, buf[..]);
    }
  }

  /** In the older snapshot a three-character reading leaves `buf2` with a digit and no terminator. */
  method ShowTemperatureOld(temp: int32, buf: array<char>, buf2: array<char>)
    requires temp != -0x8000_0000
    requires buf.Length == 10 && buf2.Length == 1
    modifies buf, buf2
    ensures 3 <= |Encoding(temp, 10)| < 10 ==> buf2[..] == [Encoding(temp, 10)[2]] && '\0' !in buf2[..]
  {
    IntToStringChecked(temp, buf, 10, 10);
    SplitTenthsUnterminated(buf, buf2);
    EncodingUnterminated(temp, 10);
  }

  /**
   * The text the display evidently means: the whole degrees (with a '-'
   * for negative readings, also below one degree) and the tenth.
   */
  function TenthsText(t: int): (seq<char>, char)
  {
    ((if t < 0 then "-" else "") + Digits(Div(Abs(t), 10), 10), DigitChar(Mod(Abs(t), 10)))
  }

  /** The two parts read back as the reading. */
  lemma TenthsTextRoundTrip(t: int)
    ensures var (whole, tenth) := TenthsText(t);
      (whole[0] == '-' <==> t < 0) &&
      ParseDigits(if t < 0 then whole[1..] else whole, 10) * 10 + DigitValue(tenth) == Abs(t)
  {
    var (whole, tenth) := TenthsText(t);
    var q := Div(Abs(t), 10);
    DigitsRoundTrip(q, 10);
    DivMod(Abs(t), 10);
    DigitValueOfAlphabet(Mod(Abs(t), 10));
    NoLeadingZero(q, 10);
    if t < 0 {
      assert whole[1..] == Digits(q, 10);
    } else {
      assert whole == Digits(q, 10);
      DigitsBelowBase(q, 10);
      assert DigitValue(whole[0]) < 10;
    }
  }

  /** From ten tenths of a degree on, the firmware's text is the whole degrees followed by the tenth. */
  lemma EncodingIsTenthsText(t: int)
    requires Abs(t) >= 10
    ensures Encoding(t, 10) == TenthsText(t).0 + [TenthsText(t).1]
  {
    var n := Abs(t);
    assert Digits(n, 10) == Digits(Div(n, 10), 10) + [DigitChar(Mod(n, 10))];
    var sign: seq<char> := if t < 0 then "-" else "";
    assert Encoding(t, 10) == sign + (Digits(Div(n, 10), 10) + [DigitChar(Mod(n, 10))]);
  }

  /** Readings of less than a degree either way take at most two characters. */
  lemma ShortEncoding(t: int)
    ensures Abs(t) < 10 ==> |Encoding(t, 10)| <= 2
  {
    if Abs(t) < 10 {
      assert Digits(Abs(t), 10) == [DigitChar(Abs(t))];
    }
  }

  /**
   * So cutting after two characters is right exactly for three-character
   * texts, 10.0 to 99.9 degrees and -1.0 to -9.9 degrees.
   */
  lemma SplitRightForThreeCharacters(t: int)
    requires |Encoding(t, 10)| == 3
    ensures Encoding(t, 10)[..2] == TenthsText(t).0
    ensures Encoding(t, 10)[2] == TenthsText(t).1
  {
    ShortEncoding(t);
    EncodingIsTenthsText(t);
  }

  /** 9.5 degrees is formatted "95" and shown as "95." with nothing after the point. */
  lemma SingleDigitDegreesShownTenfold()
    ensures Encoding(95, 10) == "95"
    ensures TenthsText(95) == ("9", '5')
  {
    DivModAgree(95, 10);
    assert Digits(9, 10) == "9";
    assert Digits(95, 10) == Digits(9, 10) + [DigitChar(5)];
    assert TenthsText(95).0 == "9";
    assert TenthsText(95).1 == '5';
  }
}
