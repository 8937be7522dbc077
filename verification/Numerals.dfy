/**
 Decimal numerals as the configuration code writes them, and the C library's
 reading of numerals (`strtol` with base 0, `strtoul` with base 16 on the two
 characters of a hexadecimal escape).
 */
module Numerals {

  // ---------------------------------------------------------------- writing

  function DigitChar(d: nat): (c: char)
    requires d < 10
    ensures c as int == 48 + d
  {
    '0' + d as char
  }

  /** The decimal numeral of `n`, most significant digit first. */
  function Decimal(n: nat): string {
    if n < 10 then [DigitChar(n)] else Decimal(n / 10) + [DigitChar(n % 10)]
  }

  /** A numeral with a sign, as `printf("%d")` writes it. */
  function SignedDecimal(n: int): string {
    if n < 0 then "-" + Decimal(-n) else Decimal(n)
  }

  /** The number that a sequence of decimal digits denotes. */
  function DigitsValue(s: string): nat
    requires forall c | c in s :: IsDigit(c)
  {
    if s == "" then 0 else 10 * DigitsValue(s[..|s| - 1]) + DigitOf(s[|s| - 1])
  }

  lemma {:induction false} DecimalDigits(n: nat)
    ensures Decimal(n) != "" && forall c | c in Decimal(n) :: IsDigit(c)
  {
    if n >= 10 {
      DecimalDigits(n / 10);
    }
  }

  /** No leading zero, except in the numeral of zero itself. */
  lemma {:induction false} DecimalNoLeadingZero(n: nat)
    ensures Decimal(n) != "" && (Decimal(n)[0] == '0' <==> n == 0)
  {
    if n >= 10 {
      DecimalNoLeadingZero(n / 10);
    }
  }

  lemma {:induction false} DecimalValue(n: nat)
    ensures forall c | c in Decimal(n) :: IsDigit(c)
    ensures DigitsValue(Decimal(n)) == n
  {
    DecimalDigits(n);
    if n >= 10 {
      DecimalValue(n / 10);
      assert Decimal(n)[..|Decimal(n)| - 1] == Decimal(n / 10);
    }
  }

  /** Different list positions get different numerals. */
  lemma DecimalInjective(m: nat, n: nat)
    ensures Decimal(m) == Decimal(n) <==> m == n
  {
    DecimalValue(m);
    DecimalValue(n);
  }

  // ---------------------------------------------------------------- reading

  /** `isspace` in the C locale. */
  predicate IsSpace(c: char)
    ensures IsSpace(c) <==> 9 <= c as int <= 13 || c as int == 32
  {
    c == ' ' || '\t' <= c <= '\r'
  }

  predicate IsDigit(c: char)
    ensures IsDigit(c) <==> 48 <= c as int <= 57
  {
    '0' <= c <= '9'
  }

  /** The value of a digit in the largest base used; 16 for any other character. */
  function DigitOf(c: char): (d: nat)
    ensures 48 <= c as int <= 57 ==> d == c as int - 48
    ensures 65 <= c as int <= 70 ==> d == c as int - 55
    ensures 97 <= c as int <= 102 ==> d == c as int - 87
    ensures d == 16 || 48 <= c as int <= 57 || 65 <= c as int <= 70 || 97 <= c as int <= 102
  {
    if IsDigit(c) then (c - '0') as nat
    else if 'a' <= c <= 'f' then 10 + (c - 'a') as nat
    else if 'A' <= c <= 'F' then 10 + (c - 'A') as nat
    else 16
  }

  predicate IsHexDigit(c: char) {
    DigitOf(c) < 16
  }

  /** What `strtoul(hex, NULL, 16)` stores in a byte for two arbitrary characters. */
  function HexByte(a: char, b: char): (c: char)
    ensures IsHexDigit(a) && IsHexDigit(b) ==> c as nat == 16 * DigitOf(a) + DigitOf(b)
  {
    if IsHexDigit(a) then
      if IsHexDigit(b) then (16 * DigitOf(a) + DigitOf(b)) as char else DigitOf(a) as char
    else if !IsHexDigit(b) then 0 as char
    else if IsSpace(a) || a == '+' then DigitOf(b) as char
    else if a == '-' then ((256 - DigitOf(b)) % 256) as char
    else 0 as char
  }

  /** The byte is the one the two characters denote exactly when both are hexadecimal digits. */
  lemma HexByteIsExact(a: char, b: char)
    ensures HexByte(a, b) as nat == 16 * DigitOf(a) + DigitOf(b) <==> IsHexDigit(a) && IsHexDigit(b)
  {
  }

  function SkipSpaces(s: string): string {
    if s != "" && IsSpace(s[0]) then SkipSpaces(s[1..]) else s
  }

  /** Digits of the given base are read until the first other character. */
  function ReadDigits(s: string, base: nat, acc: nat): nat {
    if s != "" && DigitOf(s[0]) < base then ReadDigits(s[1..], base, base * acc + DigitOf(s[0])) else acc
  }

  function Magnitude(s: string): nat {
    if |s| >= 3 && s[0] == '0' && s[1] in {'x', 'X'} && IsHexDigit(s[2]) then ReadDigits(s[2..], 16, 0)
    else if s != "" && s[0] == '0' then ReadDigits(s, 8, 0)
    else ReadDigits(s, 10, 0)
  }

  const LONG_MAX := 0x7fff_ffff_ffff_ffff

  /** `strtol(s, NULL, 0)` with a 64-bit `long`. */
  function Strtol(s: string): int {
    var t := SkipSpaces(s);
    var v: int := if t != "" && t[0] == '-' then 0 - Magnitude(t[1..])
             else if t != "" && t[0] == '+' then Magnitude(t[1..])
             else Magnitude(t);
    if v > LONG_MAX then LONG_MAX else if v < -LONG_MAX - 1 then -LONG_MAX - 1 else v
  }

  /** Conversion to a 32-bit `int`. */
  function ToInt(n: int): (r: int)
    ensures -0x8000_0000 <= r < 0x8000_0000 && (r - n) % 0x1_0000_0000 == 0
  {
    var m := n % 0x1_0000_0000;
    if m < 0x8000_0000 then m else m - 0x1_0000_0000
  }

  /** Conversion to a 16-bit `short`. */
  function ToShort(n: int): (r: int)
    ensures -0x8000 <= r < 0x8000 && (r - n) % 0x1_0000 == 0
  {
    var m := n % 0x1_0000;
    if m < 0x8000 then m else m - 0x1_0000
  }

  /** Conversion to a 64-bit `unsigned long`. */
  function ToUnsignedLong(n: int): (r: int)
    ensures 0 <= r < 0x1_0000_0000_0000_0000 && (r - n) % 0x1_0000_0000_0000_0000 == 0
  {
    n % 0x1_0000_0000_0000_0000
  }

  /** Conversion to an `unsigned char`. */
  function ToUnsignedChar(n: int): (r: int)
    ensures 0 <= r < 256 && (r - n) % 256 == 0
  {
    n % 256
  }

  // ------------------------------------------------------- numerals with leading zeros

  /** A numeral without its sign. */
  function Unsigned(s: string): string {
    if s != "" && s[0] == '-' then s[1..] else s
  }

  /** Decimal digits behind an optional minus sign. */
  predicate IsNumeral(s: string) {
    Unsigned(s) != "" && forall c | c in Unsigned(s) :: IsDigit(c)
  }

  /** The number that a numeral denotes, leading zeros or not. */
  function Denoted(s: string): int
    requires IsNumeral(s)
  {
    if s[0] == '-' then 0 - DigitsValue(Unsigned(s)) else DigitsValue(Unsigned(s))
  }

  /** No leading zero selects base 8, or it makes no difference. */
  predicate ReadAsDecimal(s: string)
    requires IsNumeral(s)
  {
    Unsigned(s)[0] != '0' || DigitsValue(Unsigned(s)) < 8
  }

  /** Reading ends at the first character that is no digit of the base. */
  lemma {:induction false} ReadDigitsStops(s: string, rest: string, base: nat, acc: nat)
    requires rest == "" || DigitOf(rest[0]) >= base
    ensures ReadDigits(s + rest, base, acc) == ReadDigits(s, base, acc)
  {
    if s == "" {
      assert s + rest == rest;
    } else {
      assert (s + rest)[1..] == s[1..] + rest;
      if DigitOf(s[0]) < base {
        ReadDigitsStops(s[1..], rest, base, base * acc + DigitOf(s[0]));
      }
    }
  }

  /** One more digit multiplies by the base and adds. */
  lemma {:induction false} ReadLastDigit(s: string, d: char, base: nat, acc: nat)
    requires DigitOf(d) < base && forall c | c in s :: DigitOf(c) < base
    ensures ReadDigits(s + [d], base, acc) == base * ReadDigits(s, base, acc) + DigitOf(d)
  {
    if s == "" {
      assert [d][1..] == "";
    } else {
      assert (s + [d])[1..] == s[1..] + [d];
      ReadLastDigit(s[1..], d, base, base * acc + DigitOf(s[0]));
    }
  }

  lemma {:induction false} ReadDigitsValue(s: string)
    requires forall c | c in s :: IsDigit(c)
    ensures ReadDigits(s, 10, 0) == DigitsValue(s)
  {
    if s != "" {
      var front := s[..|s| - 1];
      assert s == front + [s[|s| - 1]];
      ReadDigitsValue(front);
      ReadLastDigit(front, s[|s| - 1], 10, 0);
    }
  }

  /** Read in base 8, digits never denote more than in base 10, and less once the readings differ. */
  lemma {:induction false} OctalIsSmaller(s: string, eight: nat, ten: nat)
    requires eight <= ten && forall c | c in s :: IsDigit(c)
    ensures ReadDigits(s, 8, eight) <= ReadDigits(s, 10, ten) && ten <= ReadDigits(s, 10, ten)
    ensures eight < ten || (s != "" && ten > 0) ==> ReadDigits(s, 8, eight) < ReadDigits(s, 10, ten)
    ensures s != "" ==> 10 * ten <= ReadDigits(s, 10, ten)
  {
    if s != "" {
      var d := DigitOf(s[0]);
      if d < 8 {
        OctalIsSmaller(s[1..], 8 * eight + d, 10 * ten + d);
      } else {
        OctalIsSmaller(s[1..], eight, 10 * ten + d);
      }
    }
  }

  /** Both bases give the same number exactly when it has one octal digit. */
  lemma {:induction false} OctalAgreesExactly(s: string)
    requires forall c | c in s :: IsDigit(c)
    ensures ReadDigits(s, 8, 0) <= ReadDigits(s, 10, 0)
    ensures ReadDigits(s, 8, 0) == ReadDigits(s, 10, 0) <==> ReadDigits(s, 10, 0) < 8
  {
    if s != "" {
      var d := DigitOf(s[0]);
      if d == 0 {
        OctalAgreesExactly(s[1..]);
      } else {
        OctalIsSmaller(s[1..], d, d);
      }
    }
  }

  /** The digits alone: `strtol` reads at most their number, and exactly it unless a leading zero matters. */
  lemma MagnitudeExactly(s: string)
    requires s != "" && forall c | c in s :: IsDigit(c)
    ensures Magnitude(s) <= DigitsValue(s)
    ensures Magnitude(s) == DigitsValue(s) <==> s[0] != '0' || DigitsValue(s) < 8
  {
    ReadDigitsValue(s);
    OctalAgreesExactly(s);
    if |s| > 1 {
      assert s[1] in s;
    }
  }

  /**
   `strtol` in base 0 reads a numeral as the decimal number it denotes exactly
   when that fits a `long` and no leading zero makes it octal.
   */
  lemma LeadingZeroIsOctal(s: string)
    requires IsNumeral(s)
    ensures Strtol(s) == Denoted(s) <==> -LONG_MAX - 1 <= Denoted(s) <= LONG_MAX && ReadAsDecimal(s)
    ensures if Denoted(s) < 0 then Denoted(s) <= Strtol(s) <= 0 else 0 <= Strtol(s) <= Denoted(s)
  {
    hide Magnitude;
    var digits := Unsigned(s);
    MagnitudeExactly(digits);
    assert digits[0] in digits;
    assert SkipSpaces(s) == s;
  }

  lemma {:induction false} SkipAllSpaces(spaces: string, s: string)
    requires (forall c | c in spaces :: IsSpace(c)) && (s == "" || !IsSpace(s[0]))
    ensures SkipSpaces(spaces + s) == s
  {
    if spaces == "" {
      assert spaces + s == s;
    } else {
      assert (spaces + s)[1..] == spaces[1..] + s;
      SkipAllSpaces(spaces[1..], s);
    }
  }

  /** What is no digit of any base ends the digits. */
  lemma MagnitudeStops(s: string, rest: string)
    requires s != "" && (forall c | c in s :: IsDigit(c))
    requires rest == "" || (DigitOf(rest[0]) == 16 && rest[0] != 'x' && rest[0] != 'X')
    ensures Magnitude(s + rest) == Magnitude(s)
  {
    if rest != "" {
      ReadDigitsStops(s, rest, 8, 0);
      ReadDigitsStops(s, rest, 10, 0);
      if |s| > 1 {
        assert s[1] in s;
      }
    } else {
      assert s + rest == s;
    }
  }

  /** White space around a numeral makes no difference to `strtol`. */
  lemma StrtolIgnoresSpace(before: string, s: string, after: string)
    requires IsNumeral(s) && (forall c | c in before :: IsSpace(c)) && (forall c | c in after :: IsSpace(c))
    ensures Strtol(before + s + after) == Strtol(s)
  {
    hide Magnitude;
    assert after != "" ==> after[0] in after;
    StrtolStops(s, after);
    var digits := Unsigned(s);
    assert digits[0] in digits;
    assert before + s + after == before + (s + after);
    SkipAllSpaces(before, s + after);
    assert SkipSpaces(s + after) == s + after;
  }

  /** A printed number is a numeral of itself, without a leading zero that matters. */
  lemma SignedDecimalIsNumeral(n: int)
    ensures IsNumeral(SignedDecimal(n)) && Denoted(SignedDecimal(n)) == n && ReadAsDecimal(SignedDecimal(n))
  {
    var m := if n < 0 then -n else n;
    DecimalValue(m);
    DecimalNoLeadingZero(m);
    if n < 0 {
      assert SignedDecimal(n)[1..] == Decimal(m);
    } else {
      assert Decimal(m)[0] in Decimal(m);
    }
  }

  /** A number printed with `%d` is read back by `strtol` in base 0, or the nearest 64-bit number. */
  lemma StrtolSignedDecimal(n: int)
    ensures Strtol(SignedDecimal(n)) ==
            if n > 0x7fff_ffff_ffff_ffff then 0x7fff_ffff_ffff_ffff
            else if n < -0x8000_0000_0000_0000 then -0x8000_0000_0000_0000
            else n
  {
    hide Magnitude;
    SignedDecimalIsNumeral(n);
    var s := SignedDecimal(n);
    MagnitudeExactly(Unsigned(s));
    assert Unsigned(s)[0] in Unsigned(s);
    assert SkipSpaces(s) == s;
  }

  /** What is no digit of any base ends a numeral. */
  lemma StrtolStops(s: string, rest: string)
    requires IsNumeral(s)
    requires rest == "" || (DigitOf(rest[0]) == 16 && rest[0] != 'x' && rest[0] != 'X')
    ensures Strtol(s + rest) == Strtol(s)
  {
    hide Magnitude;
    var digits := Unsigned(s);
    assert digits[0] in digits;
    assert SkipSpaces(s + rest) == s + rest && SkipSpaces(s) == s;
    MagnitudeStops(digits, rest);
    if s[0] == '-' {
      assert (s + rest)[1..] == digits + rest;
    }
  }

  /** A number is read up to a dash behind it. */
  lemma StrtolUpToDash(n: int, rest: string)
    requires -0x8000_0000_0000_0000 <= n <= 0x7fff_ffff_ffff_ffff
    ensures Strtol(SignedDecimal(n) + "-" + rest) == n
  {
    hide SignedDecimal, Strtol;
    StrtolSignedDecimal(n);
    SignedDecimalIsNumeral(n);
    StrtolStops(SignedDecimal(n), "-" + rest);
    assert SignedDecimal(n) + "-" + rest == SignedDecimal(n) + ("-" + rest);
  }

  // ------------------------------------------------------------ the other two bases

  /** The number that digits denote in a base. */
  function ValueIn(s: string, base: nat): nat {
    if s == "" then 0 else base * ValueIn(s[..|s| - 1], base) + DigitOf(s[|s| - 1])
  }

  lemma {:induction false} ReadDigitsIn(s: string, base: nat)
    requires forall c | c in s :: DigitOf(c) < base
    ensures ReadDigits(s, base, 0) == ValueIn(s, base)
  {
    if s != "" {
      var front := s[..|s| - 1];
      assert s == front + [s[|s| - 1]];
      ReadDigitsIn(front, base);
      ReadLastDigit(front, s[|s| - 1], base, 0);
    }
  }

  lemma StrtolOfDigits(s: string)
    requires s != "" && IsDigit(s[0])
    ensures Strtol(s) == if Magnitude(s) > LONG_MAX then LONG_MAX else Magnitude(s)
  {
    hide Magnitude;
    assert SkipSpaces(s) == s;
  }

  lemma MagnitudeHexadecimal(x: char, s: string)
    requires s != "" && DigitOf(s[0]) < 16 && x in {'x', 'X'}
    ensures Magnitude(['0', x] + s) == ReadDigits(s, 16, 0)
  {
    assert (['0', x] + s)[2..] == s;
  }

  lemma MagnitudeOctal(s: string)
    requires s == "" || s[0] !in {'x', 'X'}
    ensures Magnitude(['0'] + s) == ReadDigits(s, 8, 0)
  {
    assert (['0'] + s)[1..] == s;
  }

  /** `0x` or `0X` and hexadecimal digits are read in base 16, up to the first other character. */
  lemma HexadecimalIsRead(x: char, s: string, rest: string)
    requires x == 'x' || x == 'X'
    requires s != "" && (forall c | c in s :: DigitOf(c) < 16) && (rest == "" || DigitOf(rest[0]) >= 16)
    requires ValueIn(s, 16) <= 0x7fff_ffff_ffff_ffff
    ensures Strtol(['0', x] + s + rest) == ValueIn(s, 16)
  {
    hide Magnitude, Strtol, DigitOf, ReadDigits, ValueIn;
    ReadDigitsIn(s, 16);
    ReadDigitsStops(s, rest, 16, 0);
    assert s[0] in s;
    assert ['0', x] + s + rest == ['0', x] + (s + rest);
    MagnitudeHexadecimal(x, s + rest);
    StrtolOfDigits(['0', x] + (s + rest));
  }

  /** A zero and octal digits are read in base 8, up to the first other character. */
  lemma OctalIsRead(s: string, rest: string)
    requires (forall c | c in s :: DigitOf(c) < 8) && (rest == "" || (DigitOf(rest[0]) >= 8 && rest[0] !in {'x', 'X'}))
    requires ValueIn(s, 8) <= 0x7fff_ffff_ffff_ffff
    ensures Strtol(['0'] + s + rest) == ValueIn(s, 8)
  {
    hide Magnitude, Strtol, ReadDigits, ValueIn;
    ReadDigitsIn(s, 8);
    ReadDigitsStops(s, rest, 8, 0);
    if s != "" {
      assert s[0] in s;
    }
    assert ['0'] + s + rest == ['0'] + (s + rest);
    MagnitudeOctal(s + rest);
    StrtolOfDigits(['0'] + (s + rest));
  }

  /** A sign in front of a digit. */
  lemma SignIsRead(s: string)
    requires s != "" && IsDigit(s[0]) && Strtol(s) < 0x7fff_ffff_ffff_ffff
    ensures Strtol("-" + s) == 0 - Strtol(s) && Strtol("+" + s) == Strtol(s)
  {
    hide Magnitude;
    assert ("-" + s)[1..] == s && ("+" + s)[1..] == s;
    assert SkipSpaces(s) == s;
  }

  /** Without a digit there is nothing to read. */
  lemma NoDigitIsZero(s: string)
    requires s == "" || (!IsSpace(s[0]) && !IsDigit(s[0]) && s[0] !in {'+', '-'})
    ensures Strtol(s) == 0
  {
    assert SkipSpaces(s) == s;
  }

  /** `strtoul(s, NULL, 16)` on a short string: white space, a sign, an optional prefix, digits. */
  function StrtoulHex(s: string): int {
    var t := SkipSpaces(s);
    var u := if t != "" && (t[0] == '-' || t[0] == '+') then t[1..] else t;
    var digits := if |u| >= 3 && u[0] == '0' && u[1] in {'x', 'X'} && IsHexDigit(u[2]) then u[2..] else u;
    var v := ReadDigits(digits, 16, 0);
    if t != "" && t[0] == '-' then 0x1_0000_0000_0000_0000 - v else v
  }

  lemma ReadTwo(a: char, b: char)
    ensures ReadDigits("", 16, 0) == 0
    ensures ReadDigits([b], 16, 0) == if IsHexDigit(b) then DigitOf(b) else 0
    ensures ReadDigits([a, b], 16, 0) ==
            if !IsHexDigit(a) then 0 else if !IsHexDigit(b) then DigitOf(a) else 16 * DigitOf(a) + DigitOf(b)
  {
    assert [a, b][1..] == [b] && [b][1..] == "";
    assert forall acc: nat :: ReadDigits([b], 16, acc) == if IsHexDigit(b) then 16 * acc + DigitOf(b) else acc;
  }

  lemma SkipTwo(a: char, b: char)
    ensures SkipSpaces([a, b]) == if !IsSpace(a) then [a, b] else if !IsSpace(b) then [b] else ""
  {
    assert [a, b][1..] == [b] && [b][1..] == "";
    assert SkipSpaces([b]) == if IsSpace(b) then "" else [b];
  }

  /** The byte of an escape is what `strtoul` makes of its two characters, cut to eight bits. */
  lemma HexByteIsStrtoul(a: char, b: char)
    ensures HexByte(a, b) as int == StrtoulHex([a, b]) % 256
  {
    hide ReadDigits, SkipSpaces;
    ReadTwo(a, b);
    SkipTwo(a, b);
    assert [a, b][1..] == [b] && [b][1..] == "";
  }

  // ------------------------------------------------------------------ narrow fields

  /** A number survives the conversions to `int` and `short` exactly when it fits. */
  lemma NarrowExactly(n: int)
    ensures ToInt(n) == n <==> -0x8000_0000 <= n < 0x8000_0000
    ensures ToShort(n) == n <==> -0x8000 <= n < 0x8000
    ensures ToShort(ToInt(n)) == n <==> -0x8000 <= n < 0x8000
  {
  }

  lemma UnsignedExactly(n: int)
    ensures ToUnsignedLong(n) == n <==> 0 <= n < 0x1_0000_0000_0000_0000
  {
  }

  /** A numeral stored in an `int` or a `short` is kept exactly when it fits and no leading zero matters. */
  lemma NarrowNumeralExactly(s: string)
    requires IsNumeral(s)
    ensures ToInt(Strtol(s)) == Denoted(s) <==> -0x8000_0000 <= Denoted(s) < 0x8000_0000 && ReadAsDecimal(s)
    ensures ToShort(Strtol(s)) == Denoted(s) <==> -0x8000 <= Denoted(s) < 0x8000 && ReadAsDecimal(s)
    ensures ToShort(ToInt(Strtol(s))) == Denoted(s) <==> -0x8000 <= Denoted(s) < 0x8000 && ReadAsDecimal(s)
  {
    hide Strtol, Denoted, ReadAsDecimal, ToInt, ToShort;
    LeadingZeroIsOctal(s);
    NarrowExactly(Strtol(s));
    NarrowExactly(ToInt(Strtol(s)));
  }
}
