/**
 * The numerals `socket.inet_aton` takes for one part of an address (mcp.py): decimal, octal
 * after a zero, hexadecimal after `0x`, each letter in either case. A reader, a writer, and
 * the proof that the reader accepts exactly what the writer can write.
 */
module Numerals {
  import opened Wrappers

  // -----  Reading  -----

  function DigitOf(c: char): Option<nat>
  {
    if '0' <= c <= '9' then Some(c as nat - '0' as nat)
    else if 'a' <= c <= 'f' then Some(c as nat - 'a' as nat + 10)
    else if 'A' <= c <= 'F' then Some(c as nat - 'A' as nat + 10)
    else None
  }

  predicate IsDigit(c: char, base: nat)
  {
    DigitOf(c).Some? && DigitOf(c).value < base
  }

  predicate AllDigits(s: string, base: nat)
  {
    forall c :: c in s ==> IsDigit(c, base)
  }

  lemma FrontAndLast(s: string, base: nat)
    requires s != "" && AllDigits(s, base)
    ensures AllDigits(s[..|s| - 1], base) && IsDigit(s[|s| - 1], base)
  {
    assert s[|s| - 1] in s;
    forall c | c in s[..|s| - 1] ensures IsDigit(c, base) {
      var i :| 0 <= i < |s| - 1 && s[..|s| - 1][i] == c;
      assert s[i] in s;
    }
  }

  function ValueOf(s: string, base: nat): nat
    requires AllDigits(s, base)
  {
    if s == "" then 0
    else
      FrontAndLast(s, base);
      ValueOf(s[..|s| - 1], base) * base + DigitOf(s[|s| - 1]).value
  }

  /** A number as `strtoul` with base 0 reads it, all of it. */
  function ParseNumber(s: string): Option<nat>
  {
    if |s| >= 2 && s[0] == '0' && (s[1] == 'x' || s[1] == 'X') then
      if |s| > 2 && AllDigits(s[2..], 16) then Some(ValueOf(s[2..], 16)) else None
    else if s != "" && s[0] == '0' then
      if AllDigits(s, 8) then Some(ValueOf(s, 8)) else None
    else if s != "" && AllDigits(s, 10) then Some(ValueOf(s, 10))
    else None
  }

  // -----  Writing  -----

  datatype Radix = Decimal | Hexadecimal | Octal

  function Base(radix: Radix): (base: nat)
    ensures 8 <= base <= 16
  {
    match radix
    case Decimal => 10
    case Hexadecimal => 16
    case Octal => 8
  }

  /** A digit, and the case it is written in if it is a letter. */
  datatype Digit = Digit(value: nat, upper: bool)

  predicate Below(digits: seq<Digit>, base: nat)
  {
    forall i :: 0 <= i < |digits| ==> digits[i].value < base
  }

  function DigitChar(d: Digit): (c: char)
    requires d.value < 16
    ensures DigitOf(c) == Some(d.value)
  {
    if d.value < 10 then (d.value + '0' as nat) as char
    else if d.upper then (d.value - 10 + 'A' as nat) as char
    else (d.value - 10 + 'a' as nat) as char
  }

  function Chars(digits: seq<Digit>): (s: string)
    requires Below(digits, 16)
    ensures |s| == |digits| && forall i :: 0 <= i < |s| ==> s[i] == DigitChar(digits[i])
  {
    seq(|digits|, i requires 0 <= i < |digits| => DigitChar(digits[i]))
  }

  function Power(base: nat, k: nat): nat
  {
    if k == 0 then 1 else Power(base, k - 1) * base
  }

  /** The number the digits stand for: each counts by its place. */
  function NumberOf(digits: seq<Digit>, base: nat): nat
  {
    if digits == [] then 0 else digits[0].value * Power(base, |digits| - 1) + NumberOf(digits[1..], base)
  }

  /** A way to write a number. Leading zeros are digits like others; `capital` is the case of the `x`. */
  datatype Spelling = Spelling(radix: Radix, digits: seq<Digit>, capital: bool)

  predicate IsSpelling(part: Spelling)
  {
    && Below(part.digits, Base(part.radix))
    && match part.radix
       case Decimal => part.digits != [] && part.digits[0].value != 0
       case Hexadecimal => part.digits != []
       case Octal => true
  }

  function Written(part: Spelling): string
    requires IsSpelling(part)
  {
    match part.radix
    case Decimal => Chars(part.digits)
    case Octal => "0" + Chars(part.digits)
    case Hexadecimal => (if part.capital then "0X" else "0x") + Chars(part.digits)
  }

  function SpelledValue(part: Spelling): nat
  {
    NumberOf(part.digits, Base(part.radix))
  }

  // -----  The reader accepts exactly what can be written  -----

  lemma Distribute(a: nat, p: nat, w: nat, base: nat)
    ensures (a * p + w) * base == a * (p * base) + w * base
  {
  }

  lemma {:induction false} NumberAppend(digits: seq<Digit>, d: Digit, base: nat)
    ensures NumberOf(digits + [d], base) == NumberOf(digits, base) * base + d.value
  {
    if digits == [] {
      assert digits + [d] == [d] && [d][1..] == [];
      assert Power(base, 0) == 1;
    } else {
      assert (digits + [d])[1..] == digits[1..] + [d];
      NumberAppend(digits[1..], d, base);
      Distribute(digits[0].value, Power(base, |digits| - 1), NumberOf(digits[1..], base), base);
    }
  }

  /** What a run of digits is read as. */
  lemma {:induction false} CharsAreRead(digits: seq<Digit>, base: nat)
    requires base <= 16 && Below(digits, base)
    ensures AllDigits(Chars(digits), base) && ValueOf(Chars(digits), base) == NumberOf(digits, base)
  {
    var s := Chars(digits);
    forall c | c in s ensures IsDigit(c, base) {
      var i :| 0 <= i < |s| && s[i] == c;
    }
    if digits != [] {
      var n := |digits| - 1;
      CharsAreRead(digits[..n], base);
      NumberAppend(digits[..n], digits[n], base);
      assert digits == digits[..n] + [digits[n]];
      assert s[..n] == Chars(digits[..n]);
    }
  }

  lemma DecimalIsRead(part: Spelling)
    requires IsSpelling(part) && part.radix == Decimal
    ensures ParseNumber(Written(part)) == Some(SpelledValue(part))
  {
    CharsAreRead(part.digits, 10);
    assert Written(part)[0] == DigitChar(part.digits[0]) != '0';
  }

  lemma OctalIsRead(part: Spelling)
    requires IsSpelling(part) && part.radix == Octal
    ensures ParseNumber(Written(part)) == Some(SpelledValue(part))
  {
    var zero := Digit(0, false);
    var digits := [zero] + part.digits;
    assert Below(digits, 8);
    assert digits[1..] == part.digits;
    CharsAreRead(digits, 8);
    assert Chars(digits) == Written(part);
    assert |digits| > 1 ==> DigitOf(Written(part)[1]) == Some(digits[1].value);
  }

  lemma HexadecimalIsRead(part: Spelling)
    requires IsSpelling(part) && part.radix == Hexadecimal
    ensures ParseNumber(Written(part)) == Some(SpelledValue(part))
  {
    CharsAreRead(part.digits, 16);
    assert Written(part)[2..] == Chars(part.digits);
  }

  lemma WrittenIsRead(part: Spelling)
    requires IsSpelling(part)
    ensures ParseNumber(Written(part)) == Some(SpelledValue(part))
  {
    match part.radix
    case Decimal => DecimalIsRead(part);
    case Octal => OctalIsRead(part);
    case Hexadecimal => HexadecimalIsRead(part);
  }

  lemma DigitsOf(s: string, base: nat) returns (digits: seq<Digit>)
    requires base <= 16 && AllDigits(s, base)
    ensures Below(digits, base) && Chars(digits) == s
  {
    forall i | 0 <= i < |s| ensures IsDigit(s[i], base) {
      assert s[i] in s;
    }
    digits := seq(|s|, i requires 0 <= i < |s| && IsDigit(s[i], base) =>
                         Digit(DigitOf(s[i]).value, 'A' <= s[i] <= 'F'));
    assert Chars(digits) == s;
  }

  lemma ReadIsWritten(s: string) returns (part: Spelling)
    requires ParseNumber(s).Some?
    ensures IsSpelling(part) && Written(part) == s
  {
    if |s| >= 2 && s[0] == '0' && (s[1] == 'x' || s[1] == 'X') {
      var digits := DigitsOf(s[2..], 16);
      part := Spelling(Hexadecimal, digits, s[1] == 'X');
      assert s == [s[0], s[1]] + s[2..];
    } else if s[0] == '0' {
      var digits := DigitsOf(s, 8);
      part := Spelling(Octal, digits[1..], false);
      assert Below(digits[1..], 8);
      assert Written(part) == s;
    } else {
      var digits := DigitsOf(s, 10);
      part := Spelling(Decimal, digits, false);
      assert s[0] == DigitChar(digits[0]);
    }
  }

  /** A text is read as a number exactly when it is a numeral of that number. */
  lemma NumeralsAreExact(s: string, v: nat)
    ensures ParseNumber(s) == Some(v)
            <==> exists part :: IsSpelling(part) && Written(part) == s && SpelledValue(part) == v
  {
    if ParseNumber(s) == Some(v) {
      var part := ReadIsWritten(s);
      WrittenIsRead(part);
    }
    if part :| IsSpelling(part) && Written(part) == s && SpelledValue(part) == v {
      WrittenIsRead(part);
    }
  }

  /** A numeral is made of digits and the hexadecimal mark. */
  lemma NumberHolds(s: string, c: char)
    requires ParseNumber(s).Some? && c in s
    ensures DigitOf(c).Some? || c == 'x' || c == 'X'
  {
    if |s| >= 2 && s[0] == '0' && (s[1] == 'x' || s[1] == 'X') {
      assert s == [s[0], s[1]] + s[2..];
    }
  }

  // -----  The canonical numeral  -----

  function DecimalDigits(n: nat): (digits: seq<Digit>)
    ensures Below(digits, 10)
    ensures n > 0 ==> digits != [] && digits[0].value != 0
  {
    if n == 0 then [] else DecimalDigits(n / 10) + [Digit(n % 10, false)]
  }

  /** A number without leading zeros: decimal, zero itself a single zero. */
  function Plain(n: nat): (part: Spelling)
    ensures IsSpelling(part)
  {
    if n == 0 then Spelling(Octal, [], false) else Spelling(Decimal, DecimalDigits(n), false)
  }

  lemma {:induction false} DecimalDigitsMake(n: nat)
    ensures NumberOf(DecimalDigits(n), 10) == n
  {
    if n > 0 {
      DecimalDigitsMake(n / 10);
      NumberAppend(DecimalDigits(n / 10), Digit(n % 10, false), 10);
    }
  }

  lemma PlainMakes(n: nat)
    ensures SpelledValue(Plain(n)) == n
  {
    DecimalDigitsMake(n);
  }

  lemma {:induction false} PowerIsPositive(base: nat, k: nat)
    requires base > 0
    ensures Power(base, k) > 0
  {
    if k > 0 {
      PowerIsPositive(base, k - 1);
    }
  }

  lemma NonZero(digits: seq<Digit>)
    requires digits != [] && digits[0].value != 0
    ensures NumberOf(digits, 10) > 0
  {
    PowerIsPositive(10, |digits| - 1);
    assert digits[0].value * Power(10, |digits| - 1) >= Power(10, |digits| - 1);
  }

  /** No number has two decimal numerals without leading zeros. */
  lemma {:induction false} DecimalIsUnique(digits: seq<Digit>)
    requires Below(digits, 10) && (digits != [] ==> digits[0].value != 0)
    ensures Chars(DecimalDigits(NumberOf(digits, 10))) == Chars(digits)
  {
    if digits != [] {
      var n := |digits| - 1;
      var front, last := digits[..n], digits[n];
      assert digits == front + [last];
      NumberAppend(front, last, 10);
      DecimalIsUnique(front);
      NonZero(digits);
      var number := NumberOf(digits, 10);
      assert number / 10 == NumberOf(front, 10) && number % 10 == last.value;
      assert DigitChar(Digit(last.value, false)) == DigitChar(last);
      assert |DecimalDigits(NumberOf(front, 10))| == |Chars(front)| == n;
      assert Chars(DecimalDigits(number)) == Chars(DecimalDigits(number / 10)) + [DigitChar(last)];
      assert Chars(digits) == Chars(front) + [DigitChar(last)];
    }
  }
}
