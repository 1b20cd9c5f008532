/**
 * `intToString` (src/main.c and others/main_18112016_RGB_problem.c, the
 * two copies are identical): write a signed integer into a caller's byte
 * buffer as an optional '-' and its digits in base 2..36, most significant
 * first, terminated by a zero byte. Bytes are modelled as `char`.
 */
module IntText {
  import opened CInt

  /** The digit alphabet of `pAscii`. */
  const Alphabet: seq<char> := "0123456789abcdefghijklmnopqrstuvwxyz"

  /** Entry `d` of the alphabet: '0'..'9', then 'a'..'z'. */
  function DigitChar(d: nat): (c: char)
    requires d < 36
    ensures '0' <= c <= '9' || 'a' <= c <= 'z'
  {
    if d < 10 then ('0' as int + d) as char else ('a' as int + d - 10) as char
  }

  /** The arithmetic digit characters are exactly the entries of the table. */
  lemma DigitCharIsAlphabet(d: nat)
    requires d < 36
    ensures DigitChar(d) == Alphabet[d]
  {
  }

  /** The digits of `n` in `base`, most significant first; zero is "0". */
  function Digits(n: nat, base: nat): (s: seq<char>)
    requires 2 <= base <= 36
    ensures |s| >= 1
    decreases n
  {
    if n < base then [DigitChar(n)]
    else Digits(Div(n, base), base) + [DigitChar(Mod(n, base))]
  }

  /** `n / base` on the non-negative operands of the digit loops, by repeated subtraction. */
  function Div(n: nat, base: nat): (q: nat)
    requires 2 <= base
    ensures q > 0 <==> n >= base
    ensures n >= base ==> q < n
    decreases n
  {
    if n < base then 0 else 1 + Div(n - base, base)
  }

  /** `n % base` on the same operands. */
  function Mod(n: nat, base: nat): (r: nat)
    requires 2 <= base
    ensures r < base
    decreases n
  {
    if n < base then n else Mod(n - base, base)
  }

  /** The two make up the number: the division identity. */
  lemma {:induction false} DivMod(n: nat, base: nat)
    requires 2 <= base
    ensures n == Div(n, base) * base + Mod(n, base)
    decreases n
  {
    if n >= base {
      DivMod(n - base, base);
    }
  }

  /** On the non-negative operands of the loops, these are C's (and Dafny's) `/` and `%`. */
  lemma DivModAgree(n: nat, base: nat)
    requires 2 <= base
    ensures Div(n, base) == n / base && Mod(n, base) == n % base
  {
    DivMod(n, base);
    var d := Div(n, base) - n / base;
    assert d * base == n % base - Mod(n, base);
    MultipleBound(d, base);
  }

  /** A non-zero multiple of `b` is at least `b` away from zero. */
  lemma MultipleBound(d: int, b: int)
    requires b > 0
    ensures d >= 1 ==> d * b >= b
    ensures d <= -1 ==> d * b <= -b
  {
    if d >= 1 {
      assert d * b == (d - 1) * b + b;
    } else if d <= -1 {
      assert d * b == (d + 1) * b - b;
    }
  }

  /** The value of a digit character of the alphabet; 36 for anything else. */
  function DigitValue(c: char): (d: nat)
    ensures d <= 36
    ensures d < 36 ==> DigitChar(d) == c
  {
    if '0' <= c <= '9' then (c - '0') as nat
    else if 'a' <= c <= 'z' then (c - 'a') as nat + 10
    else 36
  }

  /** Reading digits back: the inverse the encoder is measured against. */
  function ParseDigits(s: seq<char>, base: nat): nat
  {
    if s == [] then 0 else ParseDigits(s[..|s| - 1], base) * base + DigitValue(s[|s| - 1])
  }

  /** A signed reading: a leading '-' negates the digits after it. */
  function ParseSigned(s: seq<char>, base: nat): int
  {
    if |s| > 0 && s[0] == '-' then -(ParseDigits(s[1..], base) as int) else ParseDigits(s, base)
  }

  /** The text `intToString` produces for `value`, without the terminator. */
  function Encoding(value: int, base: nat): seq<char>
    requires 2 <= base <= 36
  {
    (if value < 0 then ['-'] else []) + Digits(Abs(value), base)
  }

  lemma {:induction false} DigitValueOfAlphabet(d: nat)
    requires d < 36
    ensures DigitValue(DigitChar(d)) == d
  {
  }

  /** Every character written is a digit of the alphabet whose value is below the base. */
  lemma {:induction false} DigitsBelowBase(n: nat, base: nat)
    requires 2 <= base <= 36
    ensures forall i :: 0 <= i < |Digits(n, base)| ==> DigitValue(Digits(n, base)[i]) < base
    decreases n
  {
    if n < base {
      DigitValueOfAlphabet(n);
    } else {
      DigitsBelowBase(Div(n, base), base);
      DigitValueOfAlphabet(Mod(n, base));
    }
  }

  /** There is no leading zero: only zero itself is written with a '0' in front. */
  lemma {:induction false} NoLeadingZero(n: nat, base: nat)
    requires 2 <= base <= 36
    ensures Digits(n, base)[0] == '0' <==> n == 0
    decreases n
  {
    if n < base {
      assert DigitChar(n) == '0' <==> n == 0;
    } else {
      NoLeadingZero(Div(n, base), base);
      assert Digits(n, base)[0] == Digits(Div(n, base), base)[0];
    }
  }

  /** Parsing the digits in the same base gives the number back. */
  lemma {:induction false} DigitsRoundTrip(n: nat, base: nat)
    requires 2 <= base <= 36
    ensures ParseDigits(Digits(n, base), base) == n
    decreases n
  {
    var s := Digits(n, base);
    if n < base {
      assert s[..0] == [];
      DigitValueOfAlphabet(n);
    } else {
      var q, r := Div(n, base), Mod(n, base);
      assert s[..|s| - 1] == Digits(q, base) && s[|s| - 1] == DigitChar(r);
      DigitsRoundTrip(q, base);
      DigitValueOfAlphabet(r);
      assert ParseDigits(s, base) == q * base + r;
      DivMod(n, base);
    }
  }

  /** The whole encoding reads back as the value, with a '-' exactly for negative values. */
  lemma EncodingRoundTrip(value: int, base: nat)
    requires 2 <= base <= 36
    ensures ParseSigned(Encoding(value, base), base) == value
    ensures Encoding(value, base)[0] == '-' <==> value < 0
    ensures Encoding(0, base) == "0"
  {
    var e := Encoding(value, base);
    DigitsRoundTrip(Abs(value), base);
    if value < 0 {
      assert e[1..] == Digits(Abs(value), base);
    } else {
      assert e == Digits(Abs(value), base);
      assert DigitValue(e[0]) < base by { DigitsBelowBase(Abs(value), base); }
    }
  }

  // ------------------------------------------------------------- the loops

  /**
   * The length pre-pass: starting from `pos`, count one position per digit
   * of `tmpValue` (`do { pos++; tmpValue /= base; } while (tmpValue > 0)`).
   */
  method CountDigits(tmpValue: nat, base: nat, pos: nat) returns (end: nat)
    requires 2 <= base <= 36
    ensures end == pos + |Digits(tmpValue, base)|
  {
    end := pos;
    var t: nat := tmpValue;
    while true
      invariant end + |Digits(t, base)| == pos + |Digits(tmpValue, base)|
      decreases t
    {
      end := end + 1;
      t := Div(t, base);
      if t == 0 {
        break;
      }
    }
  }

  /**
   * The fill: write the digits of `value` backwards, ending just before
   * index `pos` (`do { pBuf[--pos] = pAscii[value % base]; value /= base; } while (value > 0)`).
   */
  method FillDigits(buf: array<char>, value: nat, base: nat, pos: nat)
    requires 2 <= base <= 36
    requires |Digits(value, base)| <= pos <= buf.Length
    modifies buf
    ensures buf[pos - |Digits(value, base)|..pos] == Digits(value, base)
    ensures forall i :: 0 <= i < pos - |Digits(value, base)| ==> buf[i] == old(buf[i])
    ensures forall i :: pos <= i < buf.Length ==> buf[i] == old(buf[i])
  {
    ghost var start := pos - |Digits(value, base)|;
    var p := pos;
    var v: nat := value;
    while true
      invariant start < p <= pos
      invariant p == start + |Digits(v, base)|
      invariant Digits(value, base) == Digits(v, base) + buf[p..pos]
      invariant forall i :: 0 <= i < p ==> buf[i] == old(buf[i])
      invariant forall i :: pos <= i < buf.Length ==> buf[i] == old(buf[i])
      decreases v
    {
      ghost var tail := buf[p..pos];
      p := p - 1;
      buf[p] := DigitChar(Mod(v, base));
      assert buf[p..pos] == [DigitChar(Mod(v, base))] + tail;
      v := Div(v, base);
      if v == 0 {
        break;
      }
    }
  }

  // ---------------------------------------------------- the whole function

  /**
   * What the code as written needs of the buffer to stay inside it: the
   * '-' goes to index 0 before the length check, and the terminator to
   * index `|Encoding|`, which the check `pos > len` lets be `len` itself.
   */
  predicate AsWrittenFits(value: int, len: nat, base: nat, size: nat)
  {
    len < 2 || base < 2 || base > 36 ||
    ((value < 0 ==> 1 <= size) &&
     (|Encoding(value, base)| <= len ==> |Encoding(value, base)| < size))
  }

  /**
   * `intToString` as written. `buf == null` stands for a NULL `pBuf`;
   * `value` is never INT_MIN, whose negation C leaves undefined.
   */
  method IntToString(value: int, buf: array?<char>, len: uint32, base: uint32)
    requires -0x8000_0000 < value < 0x8000_0000
    requires buf != null ==> AsWrittenFits(value, len, base, buf.Length)
    modifies buf
    ensures buf == null || len < 2 || base < 2 || base > 36 ==> buf == null || buf[..] == old(buf[..])
    ensures buf != null && len >= 2 && 2 <= base <= 36 ==>
      var e := Encoding(value, base);
      if |e| <= len then
        buf[..|e| + 1] == e + ['\0'] && buf[|e| + 1..] == old(buf[|e| + 1..])
      else
        buf[..] == if value < 0 then old(buf[..])[0 := '-'] else old(buf[..])
  {
    if buf == null || len < 2 {
      return;
    }
    if base < 2 || base > 36 {
      return;
    }
    var pos := 0;
    var magnitude: nat := Abs(value);
    if value < 0 {
      buf[pos] := '-';
      pos := pos + 1;
    }
    pos := CountDigits(magnitude, base, pos);
    if pos > len {
      return;
    }
    buf[pos] := '\0';
    FillDigits(buf, magnitude, base, pos);
    assert buf[..pos + 1] == buf[..pos] + [buf[pos]];
  }

  /**
   * `intToString` with the length check the comment asks for: the digits
   * and the terminator must fit in `len` bytes, so `pos >= len` is rejected.
   * Nothing at or past index `len` is ever written.
   */
  method IntToStringChecked(value: int, buf: array?<char>, len: uint32, base: uint32)
    requires -0x8000_0000 < value < 0x8000_0000
    requires buf != null ==> len <= buf.Length
    modifies buf
    ensures buf != null ==> forall i :: len <= i < buf.Length ==> buf[i] == old(buf[i])
    ensures buf == null || len < 2 || base < 2 || base > 36 ==> buf == null || buf[..] == old(buf[..])
    ensures buf != null && len >= 2 && 2 <= base <= 36 ==>
      var e := Encoding(value, base);
      if |e| < len then
        buf[..|e| + 1] == e + ['\0'] && buf[|e| + 1..] == old(buf[|e| + 1..])
      else
        buf[..] == if value < 0 then old(buf[..])[0 := '-'] else old(buf[..])
  {
    if buf == null || len < 2 {
      return;
    }
    if base < 2 || base > 36 {
      return;
    }
    var pos := 0;
    var magnitude: nat := Abs(value);
    if value < 0 {
      buf[pos] := '-';
      pos := pos + 1;
    }
    pos := CountDigits(magnitude, base, pos);
    if pos >= len {
      return;
    }
    buf[pos] := '\0';
    FillDigits(buf, magnitude, base, pos);
    assert buf[..pos + 1] == buf[..pos] + [buf[pos]];
  }

  /**
   * The off-by-one: -1234567 in base 10 needs eight characters, the check
   * `pos > len` accepts it for `len == 8`, and the terminator then goes to
   * index 8, past the eight-byte buffers the callers pass.
   */
  lemma TerminatorPastBuffer()
    ensures |Encoding(-1234567, 10)| == 8
    ensures !AsWrittenFits(-1234567, 8, 10, 8)
  {
    DivModAgree(1234567, 10);
    DivModAgree(123456, 10);
    DivModAgree(12345, 10);
    DivModAgree(1234, 10);
    DivModAgree(123, 10);
    DivModAgree(12, 10);
    assert Digits(1234567, 10) == "1234567";
  }
}
