/**
 `number` of stdlib/vsprintf.c: the rendering of an unsigned 64-bit number with base, field
 width, precision and flags, and the way back from the text to the number.
 */
module Numerals {

  /** The bits of `type` and `flags`. */
  datatype Flags = Flags(zeropad: bool, sign: bool, plus: bool, space: bool, left: bool, special: bool, small: bool)

  type Word64 = n: nat | n < 0x1_0000_0000_0000_0000

  const UPPER: string := "0123456789ABCDEFGHIJKLMNOPQRSTUVWXYZ"
  const LOWER: string := "0123456789abcdefghijklmnopqrstuvwxyz"

  function Digit(d: nat, small: bool): char
    requires d < 36
  {
    if small then LOWER[d] else UPPER[d]
  }

  /** `num / base` and `num % base` */
  function Quotient(n: nat, base: nat): (q: nat)
    requires base >= 2
    ensures n > 0 ==> q < n
    ensures q == 0 <==> n < base
  {
    n / base
  }

  function Remainder(n: nat, base: nat): (r: nat)
    requires base >= 2
    ensures r < base
    ensures n < base ==> r == n
  {
    n % base
  }

  lemma DivMod(n: nat, base: nat)
    requires base >= 2
    ensures Quotient(n, base) * base + Remainder(n, base) == n
  {
  }

  /** The numeral, most significant digit first. */
  function Digits(n: nat, base: nat, small: bool): (r: string)
    requires 2 <= base <= 36
    ensures |r| > 0
  {
    if n < base then [Digit(n, small)] else Digits(Quotient(n, base), base, small) + [Digit(Remainder(n, base), small)]
  }

  function Repeat(c: char, n: int): (r: string)
    ensures |r| == if n > 0 then n else 0
    ensures forall i :: 0 <= i < |r| ==> r[i] == c
  {
    if n <= 0 then "" else Repeat(c, n - 1) + [c]
  }

  function Max(a: int, b: int): int
  {
    if a > b then a else b
  }

  /** The sign; the minus sign is never used, because the number is unsigned. */
  function Sign(f: Flags): string
  {
    if f.plus then "+" else if f.space then " " else ""
  }

  function Prefix(base: nat, f: Flags): string
  {
    if !f.special then "" else if base == 8 then "0" else if base == 16 then ['0', if f.small then 'x' else 'X'] else ""
  }

  /** The numeral, extended by zeros to the precision. */
  function Body(n: nat, base: nat, precision: int, f: Flags): string
    requires 2 <= base <= 36
  {
    var digits := Digits(n, base, f.small);
    Repeat('0', precision - |digits|) + digits
  }

  /** Padding up to the width goes to the right, between prefix and digits as zeros, or to the
      left; the prefix does not count for the width. */
  function Rendered(n: nat, base: nat, width: int, precision: int, f: Flags): string
    requires 2 <= base <= 36
  {
    var body := Body(n, base, precision, f);
    var pad := width - |Sign(f)| - |body|;
    if f.left then Sign(f) + Prefix(base, f) + body + Repeat(' ', pad)
    else if f.zeropad then Sign(f) + Prefix(base, f) + Repeat('0', pad) + body
    else Repeat(' ', pad) + Sign(f) + Prefix(base, f) + body
  }

  lemma RenderedLength(n: nat, base: nat, width: int, precision: int, f: Flags)
    requires 2 <= base <= 36
    ensures |Rendered(n, base, width, precision, f)| ==
              Max(width, |Sign(f)| + Max(|Digits(n, base, f.small)|, precision)) + |Prefix(base, f)|
  {
    hide Digits, Repeat, Sign, Prefix;
  }

  // ---- reading a number ---------------------------------------------------------------------

  /** The value of a digit, or 36. */
  function DigitValue(c: char): nat
  {
    if '0' <= c <= '9' then c as nat - '0' as nat
    else if 'A' <= c <= 'Z' then c as nat - 'A' as nat + 10
    else if 'a' <= c <= 'z' then c as nat - 'a' as nat + 10
    else 36
  }

  /** The number of leading digits of s. */
  function DigitCount(s: string, base: nat): (k: nat)
    ensures k <= |s|
  {
    if s == "" || DigitValue(s[0]) >= base then 0 else 1 + DigitCount(s[1..], base)
  }

  /** The number that a string of digits denotes. */
  function Parsed(s: string, base: nat): nat
  {
    if s == "" then 0 else Parsed(s[..|s| - 1], base) * base + DigitValue(s[|s| - 1])
  }

  function SkipSpaces(s: string): string
  {
    if s != "" && s[0] == ' ' then SkipSpaces(s[1..]) else s
  }

  function SkipPlus(s: string): string
  {
    if s != "" && s[0] == '+' then s[1..] else s
  }

  function SkipHex(s: string, base: nat): string
  {
    if base == 16 && |s| >= 2 && s[0] == '0' && (s[1] == 'x' || s[1] == 'X') then s[2..] else s
  }

  /** Reading as `strtoul` of ISO C does (section 7.22.1.4): spaces, a sign, for base 16 an
      optional 0x, then all digits that follow. */
  function ReadNumber(s: string, base: nat): nat
  {
    var t := SkipHex(SkipPlus(SkipSpaces(s)), base);
    Parsed(t[..DigitCount(t, base)], base)
  }

  lemma DigitValues(d: nat, small: bool)
    requires d < 36
    ensures DigitValue(Digit(d, small)) == d
  {
    DigitTable(d);
  }

  lemma DigitTable(d: nat)
    requires d < 36
    ensures UPPER[d] == if d < 10 then '0' + d as char else 'A' + (d - 10) as char
    ensures LOWER[d] == if d < 10 then '0' + d as char else 'a' + (d - 10) as char
  {
  }

  predicate AllDigits(s: string, base: nat)
  {
    forall i :: 0 <= i < |s| ==> DigitValue(s[i]) < base
  }

  /** Reading the numeral gives the number. */
  lemma {:induction false} DigitsParse(n: nat, base: nat, small: bool)
    requires 2 <= base <= 36
    ensures Parsed(Digits(n, base, small), base) == n && AllDigits(Digits(n, base, small), base)
  {
    hide Digit, DigitValue, Quotient, Remainder;
    if n < base {
      DigitValues(n, small);
      assert [Digit(n, small)][..0] == "";
    } else {
      var q, r := Quotient(n, base), Remainder(n, base);
      DivMod(n, base);
      var high, low := Digits(q, base, small), Digit(r, small);
      DigitsParse(q, base, small);
      DigitValues(r, small);
      var s := high + [low];
      assert Digits(n, base, small) == s;
      assert s[..|s| - 1] == high && s[|s| - 1] == low;
    }
  }

  lemma {:induction false} ZerosParse(z: int, s: string, base: nat)
    requires 2 <= base && AllDigits(s, base)
    ensures Parsed(Repeat('0', z) + s, base) == Parsed(s, base) && AllDigits(Repeat('0', z) + s, base)
    decreases |s|, z
  {
    hide DigitValue;
    var t := Repeat('0', z) + s;
    assert DigitValue('0') == 0 by { ZeroDigit(); }
    if s != "" {
      assert t[..|t| - 1] == Repeat('0', z) + s[..|s| - 1];
      ZerosParse(z, s[..|s| - 1], base);
    } else if z > 0 {
      assert t[..|t| - 1] == Repeat('0', z - 1) + "";
      ZerosParse(z - 1, "", base);
    } else {
      assert t == "";
    }
  }

  lemma ZeroDigit()
    ensures DigitValue('0') == 0 && DigitValue(' ') == 36 && DigitValue('+') == 36 && DigitValue('x') == 33
    ensures DigitValue('X') == 33
  {
  }

  lemma {:induction false} CountDigits(s: string, t: string, base: nat)
    requires 2 <= base <= 36 && AllDigits(s, base) && (t == "" || DigitValue(t[0]) >= base)
    ensures DigitCount(s + t, base) == |s|
  {
    hide DigitValue;
    if s == "" {
      assert s + t == t;
    } else {
      assert (s + t)[1..] == s[1..] + t;
      CountDigits(s[1..], t, base);
    }
  }

  lemma {:induction false} SkipPadding(n: int, s: string)
    ensures SkipSpaces(Repeat(' ', n) + s) == SkipSpaces(s)
    decreases n
  {
    if n <= 0 {
      assert Repeat(' ', n) + s == s;
    } else {
      assert Repeat(' ', n) + s == Repeat(' ', n - 1) + ([' '] + s);
      SkipPadding(n - 1, [' '] + s);
      assert ([' '] + s)[1..] == s;
    }
  }

  lemma {:induction false} RepeatAdd(c: char, m: int, n: int)
    requires m >= 0 && n >= 0
    ensures Repeat(c, m) + Repeat(c, n) == Repeat(c, m + n)
    decreases n
  {
    if n > 0 {
      assert Repeat(c, m) + Repeat(c, n) == Repeat(c, m) + Repeat(c, n - 1) + [c];
      RepeatAdd(c, m, n - 1);
    } else {
      assert Repeat(c, m) + Repeat(c, n) == Repeat(c, m);
    }
  }

  /** All renderings have one shape: blanks, sign, prefix, zeros, numeral, blanks. */
  function Shape(a: int, f: Flags, base: nat, z: int, digits: string, t: int): string
  {
    Repeat(' ', a) + (Sign(f) + (Prefix(base, f) + ((Repeat('0', z) + digits) + Repeat(' ', t))))
  }

  lemma ShapeOf(n: nat, base: nat, width: int, precision: int, f: Flags) returns (a: int, z: int, t: int)
    requires 2 <= base <= 36
    ensures Rendered(n, base, width, precision, f) == Shape(a, f, base, z, Digits(n, base, f.small), t)
    ensures var zeros := precision - |Digits(n, base, f.small)|;
            var pad := width - |Sign(f)| - Max(|Digits(n, base, f.small)|, precision);
            if f.left then a == 0 && z == zeros && t == pad
            else if f.zeropad then a == 0 && z == Max(pad, 0) + Max(zeros, 0) && t == 0
            else a == pad && z == zeros && t == 0
  {
    hide Digits, Sign, Prefix, Repeat;
    var digits, body := Digits(n, base, f.small), Body(n, base, precision, f);
    var zeros, pad := precision - |digits|, width - |Sign(f)| - |body|;
    RepeatNone();
    if f.left {
      a, z, t := 0, zeros, pad;
      Regroup("", Sign(f), Prefix(base, f), body, Repeat(' ', pad));
    } else if f.zeropad {
      a, z, t := 0, Max(pad, 0) + Max(zeros, 0), 0;
      RepeatNegative('0', pad);
      RepeatNegative('0', zeros);
      RepeatAdd('0', Max(pad, 0), Max(zeros, 0));
      assert Repeat('0', z) + digits == Repeat('0', pad) + body;
      Regroup("", Sign(f), Prefix(base, f), Repeat('0', pad) + body, "");
      var sign := Sign(f) + Prefix(base, f);
      assert sign + Repeat('0', pad) + body == sign + (Repeat('0', pad) + body);
    } else {
      a, z, t := pad, zeros, 0;
      Regroup(Repeat(' ', pad), Sign(f), Prefix(base, f), body, "");
    }
  }

  lemma Regroup(a: string, b: string, c: string, d: string, e: string)
    ensures a + (b + (c + (d + e))) == a + b + c + d + e
    ensures "" + b == b && d + "" == d && a + b + c + d + "" == a + b + c + d
  {
  }

  lemma RepeatNone()
    ensures Repeat(' ', 0) == ""
  {
  }

  lemma RepeatNegative(c: char, n: int)
    ensures Repeat(c, n) == Repeat(c, Max(n, 0))
  {
  }

  lemma ReadDigits(s: string, t: int, base: nat)
    requires 2 <= base <= 36 && AllDigits(s, base)
    ensures DigitCount(s + Repeat(' ', t), base) == |s| && (s + Repeat(' ', t))[..|s|] == s
  {
    ZeroDigit();
    CountDigits(s, Repeat(' ', t), base);
  }

  /** Round trip: the text can be read back to the number, whatever width, precision and flags. */
  lemma ReadsBack(n: nat, base: nat, width: int, precision: int, f: Flags)
    requires 2 <= base <= 36
    ensures ReadNumber(Rendered(n, base, width, precision, f), base) == n
  {
    hide Digits, DigitValue, Rendered, DigitCount, Parsed;
    var a, z, t := ShapeOf(n, base, width, precision, f);
    var digits := Digits(n, base, f.small);
    DigitsParse(n, base, f.small);
    ZerosParse(z, digits, base);
    var body := Repeat('0', z) + digits;
    var tail := body + Repeat(' ', t);
    var rest := Prefix(base, f) + tail;
    ZeroDigit();
    SkipPadding(a, Sign(f) + rest);
    assert rest[0] == '0' || rest[0] == body[0];
    assert DigitValue(rest[0]) < base;
    assert SkipPlus(SkipSpaces(Sign(f) + rest)) == rest by { SkipSign(f, rest); }
    ReadTail(body, base, f, t);
  }

  lemma SkipSign(f: Flags, rest: string)
    requires rest != "" && rest[0] != ' ' && rest[0] != '+'
    ensures SkipPlus(SkipSpaces(Sign(f) + rest)) == rest
  {
    assert [' '] + rest == " " + rest && (" " + rest)[1..] == rest;
    assert ("+" + rest)[1..] == rest;
    assert "" + rest == rest;
  }

  lemma ReadTail(body: string, base: nat, f: Flags, t: int)
    requires 2 <= base <= 36 && AllDigits(body, base) && body != ""
    ensures var u := SkipHex(Prefix(base, f) + (body + Repeat(' ', t)), base);
            Parsed(u[..DigitCount(u, base)], base) == Parsed(body, base)
  {
    hide DigitValue, DigitCount, Parsed;
    var tail := body + Repeat(' ', t);
    ZeroDigit();
    if f.special && base == 16 {
      assert SkipHex(Prefix(base, f) + tail, base) == tail;
      ReadDigits(body, t, base);
    } else if f.special && base == 8 {
      var body' := Repeat('0', 1) + body;
      assert Repeat('0', 1) == "0" by { assert Repeat('0', 0) + ['0'] == "0"; }
      assert Prefix(base, f) + tail == body' + Repeat(' ', t);
      ZerosParse(1, body, base);
      ReadDigits(body', t, base);
    } else {
      assert Prefix(base, f) + tail == tail;
      assert |tail| >= 2 ==> tail[1] == ' ' || DigitValue(tail[1]) < base;
      ReadDigits(body, t, base);
    }
  }

  // ---- where everything stands in the text ----------------------------------------------------

  /** s is the numeral of n: digits only, of one letter case, that denote n, with no zero to spare. */
  predicate IsNumeral(s: string, n: nat, base: nat, small: bool)
  {
    && s != "" && AllDigits(s, base) && Parsed(s, base) == n && (|s| > 1 ==> s[0] != '0')
    && forall i :: 0 <= i < |s| ==> if small then !('A' <= s[i] <= 'Z') else !('a' <= s[i] <= 'z')
  }

  /** t consists of `blanks` blanks, the sign, the prefix, `zeros` zeros, the digits and `after` blanks.
      A plus sign goes before a blank as the sign; `#` asks for 0 before octal and for 0x or 0X,
      as the digits are, before hexadecimal digits. */
  predicate LaidOut(t: string, base: nat, f: Flags, blanks: nat, zeros: nat, digits: string, after: nat)
  {
    var sign := if f.plus then "+" else if f.space then " " else "";
    var prefix := if f.special && base == 8 then "0" else if f.special && base == 16 && f.small then "0x"
                  else if f.special && base == 16 then "0X" else "";
    t == Repeat(' ', blanks) + sign + prefix + Repeat('0', zeros) + digits + Repeat(' ', after)
  }

  /** The digits are extended by zeros to the precision.  What sign and digits leave of the width is
      filled with blanks after the digits for LEFT, else with zeros before them for ZEROPAD,
      else with blanks before the sign. */
  predicate Placed(t: string, n: nat, base: nat, width: int, precision: int, f: Flags, digits: string)
  {
    var signs: nat := if f.plus || f.space then 1 else 0;
    var zeros: nat := if precision > |digits| then precision - |digits| else 0;
    var used := signs + zeros + |digits|;
    var pad: nat := if width > used then width - used else 0;
    && IsNumeral(digits, n, base, f.small)
    && if f.left then LaidOut(t, base, f, 0, zeros, digits, pad)
       else if f.zeropad then LaidOut(t, base, f, 0, zeros + pad, digits, 0)
       else LaidOut(t, base, f, pad, zeros, digits, 0)
  }

  ghost predicate PlacedText(t: string, n: nat, base: nat, width: int, precision: int, f: Flags)
  {
    exists digits :: Placed(t, n, base, width, precision, f, digits)
  }

  lemma DigitsCase(d: nat, small: bool)
    requires d < 36
    ensures if small then !('A' <= Digit(d, small) <= 'Z') else !('a' <= Digit(d, small) <= 'z')
    ensures Digit(d, small) == '0' <==> d == 0
  {
    DigitTable(d);
  }

  lemma {:induction false} DigitsNumeral(n: nat, base: nat, small: bool)
    requires 2 <= base <= 36
    ensures IsNumeral(Digits(n, base, small), n, base, small) && (Digits(n, base, small)[0] == '0' <==> n == 0)
    decreases n
  {
    hide Digit, DigitValue, Quotient, Remainder, Parsed;
    DigitsParse(n, base, small);
    if n < base {
      DigitsCase(n, small);
    } else {
      DigitsNumeral(Quotient(n, base), base, small);
      DigitsCase(Remainder(n, base), small);
    }
  }

  lemma DigitOf(c: char, small: bool)
    requires DigitValue(c) < 36 && if small then !('A' <= c <= 'Z') else !('a' <= c <= 'z')
    ensures Digit(DigitValue(c), small) == c
  {
    DigitTable(DigitValue(c));
  }

  lemma Divided(q: nat, base: nat, r: nat)
    requires base >= 2 && r < base
    ensures Quotient(q * base + r, base) == q && Remainder(q * base + r, base) == r
  {
    hide Quotient, Remainder;
    var n := q * base + r;
    DivMod(n, base);
    var q', r' := Quotient(n, base), Remainder(n, base);
    assert (q' - q) * base == r - r';
    if q' > q {
      Product(q' - q, base, 1, base);
    } else if q > q' {
      assert (q - q') * base == r' - r;
      Product(q - q', base, 1, base);
    }
  }

  /** There is only one numeral of a number. */
  lemma {:induction false} NumeralUnique(s: string, n: nat, base: nat, small: bool)
    requires 2 <= base <= 36 && IsNumeral(s, n, base, small)
    ensures s == Digits(n, base, small)
    decreases |s|
  {
    hide Digit, DigitValue, Quotient, Remainder;
    var high, c := s[..|s| - 1], s[|s| - 1];
    DigitOf(c, small);
    if |s| == 1 {
      assert high == "" && s == [c] && Parsed(s, base) == DigitValue(c);
    } else {
      var q := Parsed(high, base);
      NumeralUnique(high, q, base, small);
      DigitsNumeral(q, base, small);
      assert high[0] == s[0];
      Divided(q, base, DigitValue(c));
      Product(q, base, 1, base);
      assert s == high + [c];
    }
  }

  lemma LaidOutShape(t: string, base: nat, f: Flags, a: int, z: int, digits: string, b: int)
    ensures LaidOut(t, base, f, Max(a, 0), Max(z, 0), digits, Max(b, 0)) <==> t == Shape(a, f, base, z, digits, b)
  {
    hide Repeat;
    RepeatNegative(' ', a);
    RepeatNegative('0', z);
    RepeatNegative(' ', b);
    assert f.special && base == 16 ==> Prefix(base, f) == if f.small then "0x" else "0X";
    var sign, prefix := Sign(f), Prefix(base, f);
    assert Repeat(' ', a) + sign + prefix + Repeat('0', z) + digits + Repeat(' ', b) == Shape(a, f, base, z, digits, b);
  }

  /** These placement rules hold of the rendering, and of no other text. */
  lemma RenderedPlaced(t: string, n: nat, base: nat, width: int, precision: int, f: Flags)
    requires 2 <= base <= 36
    ensures PlacedText(t, n, base, width, precision, f) <==> t == Rendered(n, base, width, precision, f)
  {
    hide Digits, Shape, LaidOut, IsNumeral, Rendered;
    var digits := Digits(n, base, f.small);
    DigitsNumeral(n, base, f.small);
    var a, z, b := ShapeOf(n, base, width, precision, f);
    LaidOutShape(t, base, f, a, z, digits, b);
    if digits' :| Placed(t, n, base, width, precision, f, digits') {
      NumeralUnique(digits', n, base, f.small);
    }
    if t == Rendered(n, base, width, precision, f) {
      assert Placed(t, n, base, width, precision, f, digits);
    }
  }

  /** No capital letters for SMALL, no small letters otherwise, no letters at all for base 10. */
  lemma PlacedCase(t: string, n: nat, base: nat, width: int, precision: int, f: Flags)
    requires PlacedText(t, n, base, width, precision, f)
    ensures f.small || base == 10 ==> forall a :: a in t ==> !('A' <= a <= 'Z')
    ensures !f.small || base == 10 ==> forall a :: a in t ==> !('a' <= a <= 'z')
  {
    hide LaidOut, DigitValue, Parsed;
    var digits :| Placed(t, n, base, width, precision, f, digits);
    var blanks, zeros, after :| LaidOut(t, base, f, blanks, zeros, digits, after);
    forall a | a in t
      ensures f.small || base == 10 ==> !('A' <= a <= 'Z')
      ensures !f.small || base == 10 ==> !('a' <= a <= 'z')
    {
      LaidOutChars(t, base, f, blanks, zeros, digits, after, a);
      if a in digits && base == 10 {
        DigitRange(a);
      }
    }
  }

  lemma LaidOutChars(t: string, base: nat, f: Flags, blanks: nat, zeros: nat, digits: string, after: nat, a: char)
    requires LaidOut(t, base, f, blanks, zeros, digits, after) && a in t
    ensures a in digits || a in {' ', '+', '0'} || (base == 16 && a == if f.small then 'x' else 'X')
  {
    hide Repeat;
    var sign := if f.plus then "+" else if f.space then " " else "";
    var prefix := if f.special && base == 8 then "0" else if f.special && base == 16 && f.small then "0x"
                  else if f.special && base == 16 then "0X" else "";
    assert a in Repeat(' ', blanks) || a in sign || a in prefix || a in Repeat('0', zeros) || a in digits
             || a in Repeat(' ', after);
  }

  lemma DigitRange(c: char)
    requires DigitValue(c) < 10
    ensures '0' <= c <= '9'
  {
  }

  // ---- the scratch array ----------------------------------------------------------------------

  /** Digits held by `tmp`. */
  const SCRATCH: nat := 36

  function Pow(b: nat, k: nat): (r: nat)
    requires b >= 1
    ensures r >= 1
  {
    if k == 0 then 1 else b * Pow(b, k - 1)
  }

  lemma FourMore(b: nat, k: nat)
    requires b >= 1
    ensures Pow(b, k + 4) == b * (b * (b * (b * Pow(b, k))))
  {
    assert Pow(b, k + 4) == b * Pow(b, k + 3) && Pow(b, k + 3) == b * Pow(b, k + 2)
             && Pow(b, k + 2) == b * Pow(b, k + 1);
  }

  lemma PowTable()
    ensures Pow(4, 32) == 0x1_0000_0000_0000_0000 && Pow(2, 36) == 0x10_0000_0000 && Pow(3, 36) == 150094635296999121
  {
    PowTable32(4);
    PowTable32(2);
    PowTable32(3);
    FourMore(2, 32);
    FourMore(3, 32);
  }

  lemma PowTable32(b: nat)
    requires 2 <= b <= 4
    ensures Pow(b, 32) == if b == 2 then 0x1_0000_0000 else if b == 3 then 1853020188851841 else 0x1_0000_0000_0000_0000
  {
    hide Pow;
    assert Pow(b, 0) == 1 by { PowZero(b); }
    FourMore(b, 0);
    FourMore(b, 4);
    FourMore(b, 8);
    FourMore(b, 12);
    FourMore(b, 16);
    FourMore(b, 20);
    FourMore(b, 24);
    FourMore(b, 28);
    if b == 2 {
      assert Pow(2, 16) == 65536;
    } else if b == 3 {
      assert Pow(3, 16) == 43046721;
    } else {
      assert Pow(4, 16) == 0x1_0000_0000;
    }
  }

  lemma PowZero(b: nat)
    requires b >= 1
    ensures Pow(b, 0) == 1
  {
  }

  lemma {:induction false} FewDigits(n: nat, base: nat, small: bool, k: nat)
    requires 4 <= base <= 36 && n < Pow(4, k) && k > 0
    ensures |Digits(n, base, small)| <= k
    decreases k
  {
    if n >= base {
      QuarterBound(n, base, Pow(4, k - 1));
      assert k > 1;
      FewDigits(Quotient(n, base), base, small, k - 1);
    }
  }

  lemma QuarterBound(n: nat, base: nat, p: nat)
    requires 4 <= base && n < 4 * p
    ensures Quotient(n, base) < p
  {
    hide Quotient, Remainder;
    DivMod(n, base);
    var q := Quotient(n, base);
    if q >= p {
      Product(q, base, p, 4);
    }
  }

  lemma Product(a: nat, b: nat, c: nat, d: nat)
    requires a >= c && b >= d
    ensures a * b >= c * d
  {
    assert a * b >= c * b;
    assert c * b >= c * d;
  }

  lemma {:induction false} ManyDigits(base: nat, small: bool, k: nat)
    requires base == 2 || base == 3
    ensures |Digits(Pow(base, k), base, small)| == k + 1
  {
    if k > 0 {
      var n, a := Pow(base, k), Pow(base, k - 1);
      assert n == if base == 2 then 2 * a else 3 * a;
      assert Quotient(n, base) == a && n >= base;
      ManyDigits(base, small, k - 1);
    }
  }

  /** The scratch array is large enough for every 64-bit number if and only if the base is 4 or
      more; `vsprintf` uses 10 and 16. */
  lemma ScratchFits(base: nat, small: bool)
    requires 2 <= base <= 36
    ensures (forall n: Word64 :: |Digits(n, base, small)| <= SCRATCH) <==> base >= 4
  {
    hide Digits, Pow;
    PowTable();
    if base >= 4 {
      forall n: Word64
        ensures |Digits(n, base, small)| <= SCRATCH
      {
        FewDigits(n, base, small, 32);
      }
    } else {
      ManyDigits(base, small, 36);
      var n: Word64 := Pow(base, 36);
      assert |Digits(n, base, small)| == 37;
    }
  }

  /** Negative arguments lose their sign: a signed 64-bit value comes back from the text exactly
      if it is not negative, and no minus sign is ever written. */
  lemma SignLost(v: int, width: int, precision: int, f: Flags)
    requires -0x8000_0000_0000_0000 <= v < 0x8000_0000_0000_0000
    ensures var s := Rendered(v % 0x1_0000_0000_0000_0000, 10, width, precision, f);
            (ReadNumber(s, 10) == v <==> v >= 0) && '-' !in s
  {
    hide Digits, DigitValue, ReadNumber, Repeat;
    var n := v % 0x1_0000_0000_0000_0000;
    ReadsBack(n, 10, width, precision, f);
    DigitsParse(n, 10, f.small);
    assert DigitValue('-') == 36 by { MinusDigit(); }
  }

  lemma MinusDigit()
    ensures DigitValue('-') == 36
  {
  }

  // ---- the code -------------------------------------------------------------------------------

  /** The buffer as a sequence. */
  ghost function Text(buf: array<char>): (r: seq<char>)
    reads buf
    ensures |r| == buf.Length
  {
    buf[..]
  }

  /** s was written at position str. */
  predicate Appended(before: seq<char>, after: seq<char>, str: nat, s: string)
  {
    str + |s| <= |before| && after == before[..str] + s + before[str + |s|..]
  }

  lemma AppendedTwice(a: seq<char>, b: seq<char>, c: seq<char>, str: nat, s: string, t: string)
    requires Appended(a, b, str, s) && Appended(b, c, str + |s|, t)
    ensures Appended(a, c, str, s + t)
  {
  }

  /** `*str++ = c` */
  method Put(buf: array<char>, str: nat, c: char) returns (end: nat)
    requires str < buf.Length
    modifies buf
    ensures end == str + 1 && Appended(old(Text(buf)), Text(buf), str, [c])
  {
    buf[str] := c;
    end := str + 1;
  }

  /** `while(size-- > 0) *str++ = c;` */
  method Fill(buf: array<char>, str: nat, c: char, size: int) returns (end: nat)
    requires str + Max(size, 0) <= buf.Length
    modifies buf
    ensures end == str + Max(size, 0) && Appended(old(Text(buf)), Text(buf), str, Repeat(c, size))
  {
    end := str;
    var n := size;
    ghost var done := 0;
    while n > 0
      invariant end == str + done && (size > 0 ==> n == size - done && 0 <= n) && (size <= 0 ==> n == size && done == 0)
      invariant Appended(old(Text(buf)), Text(buf), str, Repeat(c, done))
    {
      ghost var a := Text(buf);
      end := Put(buf, end, c);
      AppendedTwice(old(Text(buf)), a, Text(buf), str, Repeat(c, done), [c]);
      n := n - 1;
      done := done + 1;
    }
  }

  function Reversed(s: string): (r: string)
    ensures |r| == |s|
  {
    if s == "" then "" else [s[|s| - 1]] + Reversed(s[..|s| - 1])
  }

  lemma ReversedSnoc(s: string, c: char)
    ensures Reversed(s + [c]) == [c] + Reversed(s)
  {
    assert (s + [c])[..|s|] == s;
  }

  lemma ReversedEmpty()
    ensures Reversed("") == ""
  {
  }

  /** The digits still to come. */
  function HighDigits(n: nat, base: nat, small: bool): string
    requires 2 <= base <= 36
  {
    if n == 0 then "" else Digits(n, base, small)
  }

  lemma NextDigit(n: nat, base: nat, small: bool)
    requires 2 <= base <= 36 && n > 0
    ensures HighDigits(n, base, small) ==
              HighDigits(Quotient(n, base), base, small) + [Digit(Remainder(n, base), small)]
  {
    hide Quotient, Remainder;
  }

  /** Filling `tmp`, least significant digit first. */
  method Scratch(num: Word64, base: nat, small: bool) returns (tmp: array<char>, i: nat)
    requires 2 <= base <= 36 && |Digits(num, base, small)| <= SCRATCH
    ensures fresh(tmp) && tmp.Length == SCRATCH && i <= SCRATCH && Reversed(tmp[..i]) == Digits(num, base, small)
  {
    hide Digits, Digit, Reversed, HighDigits, Quotient, Remainder;
    tmp := new char[SCRATCH];
    i := 0;
    ReversedEmpty();
    assert tmp[..0] == "";
    if num == 0 {
      tmp[i] := '0';
      i := i + 1;
      assert tmp[..1] == "" + ['0'];
      ReversedSnoc("", '0');
      ZeroNumeral(base, small);
    } else {
      var n: nat := num;
      HighDigitsEnds(num, base, small);
      while n != 0
        invariant i <= SCRATCH && HighDigits(n, base, small) + Reversed(tmp[..i]) == Digits(num, base, small)
      {
        ScratchStep(num, n, base, small, tmp[..i]);
        ghost var before := tmp[..i];
        tmp[i] := Digit(Remainder(n, base), small);
        assert tmp[..i + 1] == before + [tmp[i]];
        n := Quotient(n, base);
        i := i + 1;
      }
      HighDigitsEnds(num, base, small);
    }
  }

  lemma ScratchStep(num: nat, n: nat, base: nat, small: bool, s: string)
    requires 2 <= base <= 36 && n > 0 && HighDigits(n, base, small) + Reversed(s) == Digits(num, base, small)
    ensures |s| < |Digits(num, base, small)| && Quotient(n, base) < n
    ensures var t := s + [Digit(Remainder(n, base), small)];
            HighDigits(Quotient(n, base), base, small) + Reversed(t) == Digits(num, base, small)
  {
    hide Digits, Digit, Reversed, HighDigits, Quotient, Remainder;
    NextDigit(n, base, small);
    var high, d := HighDigits(Quotient(n, base), base, small), Digit(Remainder(n, base), small);
    ReversedSnoc(s, d);
    assert high + [d] + Reversed(s) == high + ([d] + Reversed(s));
  }

  lemma HighDigitsEnds(n: nat, base: nat, small: bool)
    requires 2 <= base <= 36
    ensures HighDigits(0, base, small) == "" && (n > 0 ==> HighDigits(n, base, small) == Digits(n, base, small))
  {
  }

  lemma ZeroNumeral(base: nat, small: bool)
    requires 2 <= base <= 36
    ensures Digits(0, base, small) == "0"
  {
    assert Digit(0, small) == '0';
  }

  /** `while(i-- > 0) *str++ = tmp[i];` */
  method CopyBack(buf: array<char>, str: nat, tmp: array<char>, count: nat) returns (end: nat)
    requires buf != tmp && count <= tmp.Length && str + count <= buf.Length
    modifies buf
    ensures end == str + count && Appended(old(Text(buf)), Text(buf), str, Reversed(tmp[..count]))
  {
    hide Reversed, Appended, Text;
    end := str;
    var i := count;
    ghost var done := "";
    NothingAppended(Text(buf), str);
    while i > 0
      invariant 0 <= i <= count && end == str + (count - i) && |done| == count - i
      invariant done + Reversed(tmp[..i]) == Reversed(tmp[..count])
      invariant Appended(old(Text(buf)), Text(buf), str, done)
    {
      i := i - 1;
      assert tmp[..i + 1] == tmp[..i] + [tmp[i]];
      ReversedSnoc(tmp[..i], tmp[i]);
      assert done + ([tmp[i]] + Reversed(tmp[..i])) == Reversed(tmp[..count]);
      ghost var a := Text(buf);
      end := Put(buf, end, tmp[i]);
      AppendedTwice(old(Text(buf)), a, Text(buf), str, done, [tmp[i]]);
      done := done + [tmp[i]];
    }
    assert tmp[..0] == "" && done + "" == done;
    ReversedEmpty();
  }

  lemma NothingAppended(s: seq<char>, str: nat)
    requires str <= |s|
    ensures Appended(s, s, str, "")
  {
  }

  function Min(a: int, b: int): int
  {
    if a < b then a else b
  }

  /** What `number` writes before the digits, with `size` characters to pad. */
  function Head(f: Flags, base: nat, size: int): string
  {
    Repeat(' ', if f.zeropad || f.left then 0 else size) + (Sign(f) + Prefix(base, f))
    + Repeat('0', if f.zeropad && !f.left then size else 0)
  }

  function Tail(f: Flags, size: int, zeros: int, digits: string): string
  {
    Repeat('0', zeros) + digits + Repeat(' ', if f.left then size else 0)
  }

  lemma PartsRendered(n: nat, base: nat, width: int, precision: int, f: Flags)
    requires 2 <= base <= 36
    ensures var digits := Digits(n, base, f.small);
            var size := width - |Sign(f)| - Max(|digits|, precision);
            Head(f, base, size) + Tail(f, size, precision - |digits|, digits) == Rendered(n, base, width, precision, f)
  {
    hide Digits, Sign, Prefix, Repeat;
    var digits, body := Digits(n, base, f.small), Body(n, base, precision, f);
    var size := width - |Sign(f)| - |body|;
    var head, tail := Head(f, base, size), Tail(f, size, precision - |digits|, digits);
    assert size == width - |Sign(f)| - Max(|digits|, precision);
    assert Repeat(' ', 0) == "" && Repeat('0', 0) == "";
    if f.left {
      assert head + tail == Sign(f) + Prefix(base, f) + body + Repeat(' ', size);
    } else if f.zeropad {
      assert head + tail == Sign(f) + Prefix(base, f) + Repeat('0', size) + body;
    } else {
      assert head + tail == Repeat(' ', size) + Sign(f) + Prefix(base, f) + body;
    }
  }

  /** The prefix that `#` asks for. */
  method PutPrefix(buf: array<char>, str: nat, base: nat, f: Flags) returns (end: nat)
    requires str + |Prefix(base, f)| <= buf.Length
    modifies buf
    ensures end == str + |Prefix(base, f)| && Appended(old(Text(buf)), Text(buf), str, Prefix(base, f))
  {
    hide Appended, Text, LOWER, UPPER;
    end := str;
    NothingAppended(Text(buf), str);
    if f.special {
      if base == 8 {
        end := Put(buf, end, '0');
      } else if base == 16 {
        var x := Digit(33, f.small);
        assert x == if f.small then 'x' else 'X' by { DigitTable(33); }
        end := Put(buf, end, '0');
        ghost var a := Text(buf);
        end := Put(buf, end, x);
        AppendedTwice(old(Text(buf)), a, Text(buf), str, ['0'], [x]);
        assert ['0'] + [x] == Prefix(base, f);
      }
    }
  }

  /** Sign and prefix. */
  method PutSign(buf: array<char>, str: nat, base: nat, f: Flags) returns (end: nat)
    requires str + |Sign(f) + Prefix(base, f)| <= buf.Length
    modifies buf
    ensures end == str + |Sign(f) + Prefix(base, f)|
    ensures Appended(old(Text(buf)), Text(buf), str, Sign(f) + Prefix(base, f))
  {
    hide Prefix, Appended, Text;
    end := str;
    NothingAppended(Text(buf), str);
    if f.plus || f.space {
      end := Put(buf, end, if f.plus then '+' else ' ');
    }
    ghost var b := Text(buf);
    end := PutPrefix(buf, end, base, f);
    AppendedTwice(old(Text(buf)), b, Text(buf), str, Sign(f), Prefix(base, f));
  }

  /** Padding, sign and prefix up to the digits; `rest` is what is left of the padding. */
  method PutHead(buf: array<char>, str: nat, base: nat, f: Flags, size: int) returns (end: nat, rest: int)
    requires str + |Head(f, base, size)| <= buf.Length
    modifies buf
    ensures end == str + |Head(f, base, size)| && Appended(old(Text(buf)), Text(buf), str, Head(f, base, size))
    ensures if f.left then rest == size else rest < 0
  {
    hide Prefix, Sign, Repeat, Appended, Text;
    ghost var a, sign := Text(buf), Sign(f) + Prefix(base, f);
    rest := size;
    end := str;
    NoRepeat(' ', '0', 0);
    NothingAppended(a, str);
    ghost var blanks := Repeat(' ', if f.zeropad || f.left then 0 else size);
    if !(f.zeropad || f.left) {
      end := Fill(buf, end, ' ', rest);
      rest := Min(rest, 0) - 1;
    }
    ghost var b := Text(buf);
    assert end == str + |blanks| && Appended(a, b, str, blanks);
    end := PutSign(buf, end, base, f);
    AppendedTwice(a, b, Text(buf), str, blanks, sign);
    b := Text(buf);
    end, rest := PutZeros(buf, end, f, size, rest);
    AppendedTwice(a, b, Text(buf), str, blanks + sign, Repeat('0', if f.zeropad && !f.left then size else 0));
  }

  /** `if(!(type & LEFT)) while(size-- > 0) *str++ = c;` */
  method PutZeros(buf: array<char>, str: nat, f: Flags, ghost size: int, rest: int) returns (end: nat, rest': int)
    requires if f.zeropad || f.left then rest == size else rest < 0
    requires str + |Repeat('0', if f.zeropad && !f.left then size else 0)| <= buf.Length
    modifies buf
    ensures var s := Repeat('0', if f.zeropad && !f.left then size else 0);
            end == str + |s| && Appended(old(Text(buf)), Text(buf), str, s)
    ensures if f.left then rest' == size else rest' < 0
  {
    hide Repeat, Appended, Text;
    var c := if f.zeropad && !f.left then '0' else ' ';
    NoRepeat(c, '0', rest);
    NothingAppended(Text(buf), str);
    end, rest' := str, rest;
    if !f.left {
      end := Fill(buf, end, c, rest);
      rest' := Min(rest, 0) - 1;
    }
  }

  lemma NoRepeat(c: char, d: char, n: int)
    ensures Repeat(c, 0) == "" && Repeat(d, 0) == "" && Repeat(' ', 0) == ""
    ensures n <= 0 ==> Repeat(c, n) == "" && Repeat(d, n) == ""
  {
  }

  /** The digits, extended by zeros to p characters. */
  method PutDigits(buf: array<char>, str: nat, tmp: array<char>, i: nat, p: int, ghost precision: int)
    returns (end: nat)
    requires buf != tmp && i <= tmp.Length && p == Max(i, precision)
    requires str + |Repeat('0', precision - i) + Reversed(tmp[..i])| <= buf.Length
    modifies buf
    ensures var s := Repeat('0', precision - i) + Reversed(old(tmp[..i]));
            end == str + |s| && Appended(old(Text(buf)), Text(buf), str, s)
  {
    hide Repeat, Appended, Reversed, Text;
    ghost var a, zeros, digits := Text(buf), Repeat('0', precision - i), Reversed(tmp[..i]);
    assert Repeat('0', p - i) == zeros by { RepeatNegative('0', precision - i); }
    end := Fill(buf, str, '0', p - i);
    ghost var b := Text(buf);
    end := CopyBack(buf, end, tmp, i);
    AppendedTwice(a, b, Text(buf), str, zeros, digits);
  }

  /** The digits and the padding that is left. */
  method PutTail(buf: array<char>, str: nat, f: Flags, rest: int, tmp: array<char>, i: nat, p: int, ghost size: int,
                 ghost precision: int)
    returns (end: nat)
    requires buf != tmp && i <= tmp.Length && p == Max(i, precision) && (if f.left then rest == size else rest < 0)
    requires str + |Tail(f, size, precision - i, Reversed(tmp[..i]))| <= buf.Length
    modifies buf
    ensures var tail := Tail(f, size, precision - i, Reversed(old(tmp[..i])));
            end == str + |tail| && Appended(old(Text(buf)), Text(buf), str, tail)
  {
    hide Repeat, Appended, Reversed, Text;
    ghost var a, body := Text(buf), Repeat('0', precision - i) + Reversed(tmp[..i]);
    ghost var blanks := Repeat(' ', if f.left then size else 0);
    assert Repeat(' ', rest) == blanks by { NoRepeat(' ', '0', rest); }
    end := PutDigits(buf, str, tmp, i, p, precision);
    ghost var b := Text(buf);
    end := Fill(buf, end, ' ', rest);
    AppendedTwice(a, b, Text(buf), str, body, blanks);
  }

  /** `number`; ok is false when the base is refused and nothing is written. */
  method Number(buf: array<char>, str: nat, num: Word64, base: int, width: int, precision: int, f: Flags)
    returns (ok: bool, end: nat)
    requires str <= buf.Length
    requires 2 <= base <= 36 ==> |Digits(num, base, f.small)| <= SCRATCH
    requires 2 <= base <= 36 ==> str + |Rendered(num, base, width, precision, f)| <= buf.Length
    modifies buf
    ensures ok <==> 2 <= base <= 36
    ensures !ok ==> Text(buf) == old(Text(buf))
    ensures ok ==> end == str + |Rendered(num, base, width, precision, f)|
                   && Appended(old(Text(buf)), Text(buf), str, Rendered(num, base, width, precision, f))
    ensures ok ==> str <= end <= buf.Length && PlacedText(Text(buf)[str..end], num, base, width, precision, f)
  {
    hide Digits, Prefix, Repeat, Rendered, Appended, Reversed, Head, Tail, Text, PlacedText;
    if base < 2 || base > 36 {
      return false, str;
    }
    ok := true;
    var size := if f.plus || f.space then width - 1 else width;
    var tmp, i := Scratch(num, base, f.small);
    var p := if i > precision then i else precision;
    size := size - p;
    ghost var a, size0, digits := Text(buf), size, Digits(num, base, f.small);
    ghost var head, tail := Head(f, base, size), Tail(f, size, precision - i, digits);
    PartsRendered(num, base, width, precision, f);
    assert |Reversed(tmp[..i])| == i;
    assert head + tail == Rendered(num, base, width, precision, f);
    end, size := PutHead(buf, str, base, f, size);
    ghost var b := Text(buf);
    end := PutTail(buf, end, f, size, tmp, i, p, size0, precision);
    AppendedTwice(a, b, Text(buf), str, head, tail);
    WrittenText(a, Text(buf), str, head + tail);
    RenderedPlaced(Text(buf)[str..end], num, base, width, precision, f);
  }

  lemma WrittenText(before: seq<char>, after: seq<char>, str: nat, s: string)
    requires Appended(before, after, str, s)
    ensures str + |s| <= |after| && after[str..str + |s|] == s
  {
  }
}
