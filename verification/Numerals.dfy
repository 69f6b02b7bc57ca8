// Integers in response lines: the C library conversions that the tokenizer calls, with their
// clamping and truncation, and the numerals a modem prints.
module Numerals {
  import opened CString
  import opened Tokens

  const TWO_31: int := 0x8000_0000
  const TWO_32: int := 0x1_0000_0000
  const TWO_63: int := 0x8000_0000_0000_0000
  const TWO_64: int := 0x1_0000_0000_0000_0000

  // The bases the tokenizer converts from.
  datatype Base = Dec | Hex

  function Radix(base: Base): nat {
    if base.Hex? then 16 else 10
  }

  // Arithmetic in either base, written so that the factors are constants.
  function Times(v: nat, base: Base): nat {
    if base.Hex? then 16 * v else 10 * v
  }

  function Over(n: nat, base: Base): (q: nat)
    ensures n >= Radix(base) ==> q < n
    ensures Times(q, base) <= n < Times(q, base) + Radix(base)
    ensures n >= Radix(base) ==> q > 0
  {
    if base.Hex? then n / 16 else n / 10
  }

  // The value of a digit; 36 if c is none.
  function DigitValue(c: char): (v: nat)
    ensures v <= 36
  {
    if '0' <= c <= '9' then (c - '0') as nat
    else if 'a' <= c <= 'z' then (c - 'a') as nat + 10
    else if 'A' <= c <= 'Z' then (c - 'A') as nat + 10
    else 36
  }

  function DigitCount(s: string, base: Base): (n: nat)
    ensures n <= |s|
  {
    if s != [] && DigitValue(s[0]) < Radix(base) then 1 + DigitCount(s[1..], base) else 0
  }

  function Value(digits: string, base: Base): nat {
    if digits == [] then 0
    else Times(Value(digits[..|digits| - 1], base), base) + DigitValue(digits[|digits| - 1])
  }

  // What strtol and strtoul read; found is false when there are no digits.
  datatype Number = Number(found: bool, negative: bool, magnitude: nat)

  function Parse(s: string, base: Base): Number {
    var u := SkipWhite(s);
    var negative := u != [] && u[0] == '-';
    var v := if negative || (u != [] && u[0] == '+') then u[1..] else u;
    var w := if base.Hex? && |v| > 2 && v[0] == '0' && (v[1] == 'x' || v[1] == 'X') && DigitValue(v[2]) < 16
             then v[2..] else v;
    var n := DigitCount(w, base);
    Number(n > 0, negative, Value(w[..n], base))
  }

  // The value of bits, read as a signed word of the given size.
  function Signed(bits: int, size: int): int
    requires size > 0
  {
    var m := bits % size;
    if m < size / 2 then m else m - size
  }

  function Strtol(s: string, base: Base): int {
    var p := Parse(s, base);
    var m: int := p.magnitude;
    if p.negative then (if m > TWO_63 then -TWO_63 else -m)
    else if m > TWO_63 - 1 then TWO_63 - 1 else m
  }

  // strtoul, assigned to a long.
  function StrtoulAsLong(s: string, base: Base): int {
    var p := Parse(s, base);
    var m: int := p.magnitude;
    Signed(if m > TWO_64 - 1 then TWO_64 - 1 else if p.negative then -m else m, TWO_64)
  }

  // The int a token stands for; None when it holds no number.
  function IntOf(text: string, base: Base, uns: bool): Option<int> {
    if Parse(text, base).found
    then Some(Signed(if uns then StrtoulAsLong(text, base) else Strtol(text, base), TWO_32))
    else None
  }

  // --- printed numerals ---

  function DigitChar(d: nat): char
    requires d < 16
  {
    if d < 10 then '0' + d as char else 'a' + (d - 10) as char
  }

  function Digits(n: nat, base: Base): (s: string)
    ensures s != []
    decreases n
  {
    if n < Radix(base) then [DigitChar(n)]
    else Digits(Over(n, base), base) + [DigitChar(n - Times(Over(n, base), base))]
  }

  function Decimal(n: int): string {
    if n < 0 then ['-'] + Digits(-n, Dec) else Digits(n, Dec)
  }

  function Hexadecimal(bits: nat): string {
    Digits(bits, Hex)
  }

  lemma DigitCharValue(d: nat)
    requires d < 16
    ensures DigitValue(DigitChar(d)) == d
  {
  }

  lemma {:induction false} DigitsAreDigits(n: nat, base: Base)
    ensures forall k :: 0 <= k < |Digits(n, base)| ==> DigitValue(Digits(n, base)[k]) < Radix(base)
    decreases n
  {
    hide DigitValue, DigitChar;
    if n < Radix(base) {
      DigitCharValue(n);
    } else {
      DigitsAreDigits(Over(n, base), base);
      DigitCharValue(n - Times(Over(n, base), base));
    }
  }

  lemma {:induction false} ValueOfDigits(n: nat, base: Base)
    ensures Value(Digits(n, base), base) == n
    decreases n
  {
    hide DigitValue, DigitChar, Over;
    var s := Digits(n, base);
    if n < Radix(base) {
      DigitCharValue(n);
      assert s[..0] == [];
    } else {
      assert s[..|s| - 1] == Digits(Over(n, base), base);
      ValueOfDigits(Over(n, base), base);
      DigitCharValue(n - Times(Over(n, base), base));
    }
  }

  lemma {:induction false} AllDigits(s: string, base: Base)
    requires forall k :: 0 <= k < |s| ==> DigitValue(s[k]) < Radix(base)
    ensures DigitCount(s, base) == |s|
  {
    if s != [] {
      AllDigits(s[1..], base);
    }
  }

  lemma NoBlankDigit(c: char)
    requires DigitValue(c) < 36
    ensures !IsSpace(c) && c != '-' && c != '+' && c != '"' && c != ','
  {
  }

  // Digits alone are one number.
  lemma DigitsNumber(n: nat, base: Base)
    ensures var s := Digits(n, base);
            DigitCount(s, base) == |s| && Value(s[..|s|], base) == n
  {
    hide Digits, DigitValue;
    var s := Digits(n, base);
    DigitsAreDigits(n, base);
    AllDigits(s, base);
    assert s[..|s|] == s;
    ValueOfDigits(n, base);
  }

  // A digit is neither a blank, a sign nor the mark of a hexadecimal number.
  lemma PlainDigit(n: nat, base: Base, k: nat)
    requires k < |Digits(n, base)|
    ensures var c := Digits(n, base)[k]; !IsSpace(c) && c != '-' && c != '+' && c != 'x' && c != 'X'
  {
    hide Digits;
    DigitsAreDigits(n, base);
    var c := Digits(n, base)[k];
    assert DigitValue(c) < Radix(base);
    NoBlankDigit(c);
  }

  lemma ParseDigits(n: nat, base: Base)
    ensures Parse(Digits(n, base), base) == Number(true, false, n)
  {
    hide Digits, DigitValue, DigitCount, Value, IsSpace;
    var s := Digits(n, base);
    PlainDigit(n, base, 0);
    if |s| > 1 {
      PlainDigit(n, base, 1);
    }
    assert SkipWhite(s) == s;
    hide SkipWhite;
    DigitsNumber(n, base);
  }

  lemma ParseDecimal(n: int)
    ensures Parse(Decimal(n), Dec) == Number(true, n < 0, if n < 0 then -n else n)
  {
    hide Digits, DigitValue, DigitCount, Value;
    if n < 0 {
      var s := Decimal(n);
      assert SkipWhite(s) == s && s[1..] == Digits(-n, Dec);
      DigitsNumber(-n, Dec);
    } else {
      ParseDigits(n, Dec);
    }
  }

  // A decimal text is read back as its number if and only if that is a 32-bit int.
  lemma DecimalRoundTrip(n: int)
    ensures IntOf(Decimal(n), Dec, false) == Some(n) <==> -TWO_31 <= n < TWO_31
  {
    hide Parse, Decimal;
    ParseDecimal(n);
  }

  // The hexadecimal text of a 32-bit pattern is read back as its two's-complement value.
  lemma HexRoundTrip(bits: nat)
    requires bits < TWO_32
    ensures IntOf(Hexadecimal(bits), Hex, true) == Some(if bits < TWO_31 then bits else bits - TWO_32)
  {
    hide Parse, Digits;
    ParseDigits(bits, Hex);
  }

  // The mark of a hexadecimal number may come before it.
  lemma MarkedHexRoundTrip(bits: nat)
    requires bits < TWO_32
    ensures IntOf("0x" + Hexadecimal(bits), Hex, true) == IntOf(Hexadecimal(bits), Hex, true)
  {
    var s := "0x" + Hexadecimal(bits);
    DigitsAreDigits(bits, Hex);
    assert s[2] == Hexadecimal(bits)[0];
    hide Digits, DigitValue, DigitCount, Value, IsSpace;
    assert DigitValue(s[2]) < 16;
    assert !IsSpace('0') by { ZeroIsPlain(); }
    assert SkipWhite(s) == s && s[2..] == Hexadecimal(bits);
    ParseDigits(bits, Hex);
    DigitsNumber(bits, Hex);
  }

  lemma ZeroIsPlain()
    ensures !IsSpace('0')
  {
  }

  // A numeral is a field that needs no quotes.
  lemma NumeralPrintable(blanks: string, quoted: bool, n: int)
    requires forall k :: 0 <= k < |blanks| ==> IsSpace(blanks[k])
    ensures Printable(Field(blanks, quoted, Decimal(n)))
  {
    var s := Decimal(n);
    DigitsAreDigits(if n < 0 then -n else n, Dec);
    hide Digits;
    forall k | 0 <= k < |s|
      ensures s[k] != ',' && s[k] != '"' && !IsSpace(s[k])
    {
      if n < 0 {
        if k > 0 {
          assert s[k] == Digits(-n, Dec)[k - 1];
          NoBlankDigit(s[k]);
        }
      } else {
        NoBlankDigit(s[k]);
      }
    }
  }

  // --- +CME ERROR ---

  const CME_ERROR_NON_CME: int := -1
  const CME_SUCCESS: int := 0
  const CME_SIM_NOT_INSERTED: int := 10
  const CME_PREFIX: string := "+CME ERROR:"

  // at_get_cme_error, for the success flag and the final line of a response.
  function CmeError(success: bool, final: Option<string>): int {
    if success then CME_SUCCESS
    else if final.None? || !(CME_PREFIX <= final.value) then CME_ERROR_NON_CME
    else match Start(final.value)
      case None => CME_ERROR_NON_CME
      case Some(s) =>
        match IntOf(NextTok(s).text, Dec, false)
        case None => CME_ERROR_NON_CME
        case Some(n) => n
  }

  lemma StartOfCme(line: string)
    requires CME_PREFIX <= line
    ensures Start(line) == Some(line[|CME_PREFIX|..])
  {
    assert line[..10] == CME_PREFIX[..10];
    assert line[10] == CME_PREFIX[10] == ':';
    FindIs(line, ':', 10);
  }

  // A failed response with a printed error number yields that number.
  lemma CmeErrorRoundTrip(blanks: string, n: int)
    requires (forall k :: 0 <= k < |blanks| ==> IsSpace(blanks[k])) && -TWO_31 <= n < TWO_31
    ensures CmeError(false, Some("+CME ERROR:" + blanks + Decimal(n))) == n
  {
    hide NextTok, Parse, Find, Decimal, IntOf;
    var f := Field(blanks, false, Decimal(n));
    var name := "+CME ERROR";
    var line := name + [':'] + PrintFields([f]);
    assert line == CME_PREFIX + blanks + Decimal(n);
    NumeralPrintable(blanks, false, n);
    assert ':' !in name;
    StartPrinted(name, [f]);
    TokOfLast(f);
    DecimalRoundTrip(n);
  }

  // The other cases: 0 for a success, whatever its final line, and -1 for a failure that has no
  // final line, one of another kind, or one that gives no number.
  lemma CmeErrorElse(final: Option<string>)
    ensures CmeError(true, final) == 0
    ensures CmeError(false, None) == -1
    ensures final.Some? && !("+CME ERROR:" <= final.value) ==> CmeError(false, final) == -1
    ensures final.Some? && "+CME ERROR:" <= final.value && IntOf(NextTok(final.value[11..]).text, Dec, false).None? ==>
              CmeError(false, final) == -1
  {
    hide NextTok, IntOf;
    if final.Some? && CME_PREFIX <= final.value {
      StartOfCme(final.value);
    }
  }

  // --- numbers as they may be written ---

  // What a C library conversion of a whole number gives, as an int: the number is first clamped to
  // 64 bits, signed or not, and then the low 32 bits are taken.
  lemma DecimalBeyond(n: int)
    ensures IntOf(Decimal(n), Dec, false).Some?
    ensures n >= 0x8000_0000_0000_0000 ==> IntOf(Decimal(n), Dec, false) == Some(-1)
    ensures n < -0x8000_0000_0000_0000 ==> IntOf(Decimal(n), Dec, false) == Some(0)
    ensures -0x8000_0000_0000_0000 <= n < 0x8000_0000_0000_0000 ==>
              var v := IntOf(Decimal(n), Dec, false).value;
              -0x8000_0000 <= v < 0x8000_0000 && (n - v) % 0x1_0000_0000 == 0
  {
    hide Parse, Decimal;
    ParseDecimal(n);
  }

  lemma HexBeyond(bits: nat)
    ensures IntOf(Hexadecimal(bits), Hex, true).Some?
    ensures bits >= 0x1_0000_0000_0000_0000 ==> IntOf(Hexadecimal(bits), Hex, true) == Some(-1)
    ensures bits < 0x1_0000_0000_0000_0000 ==>
              var v := IntOf(Hexadecimal(bits), Hex, true).value;
              -0x8000_0000 <= v < 0x8000_0000 && (bits - v) % 0x1_0000_0000 == 0
  {
    hide Parse, Digits;
    ParseDigits(bits, Hex);
  }

  // Text that starts neither with a digit nor with a sign is no number, nor is a sign alone.
  lemma NoNumber(blanks: string, text: string, base: Base, uns: bool)
    requires forall k :: 0 <= k < |blanks| ==> IsSpace(blanks[k])
    requires text != [] ==> !IsSpace(text[0]) && DigitValue(text[0]) >= Radix(base)
    requires text != [] && (text[0] == '-' || text[0] == '+') && |text| > 1 ==> DigitValue(text[1]) >= Radix(base)
    ensures IntOf(blanks + text, base, uns).None?
  {
    hide SkipWhite;
    SkipBlanks(blanks, text);
  }

  lemma {:induction false} DigitsThen(s: string, junk: string, base: Base)
    requires forall k :: 0 <= k < |s| ==> DigitValue(s[k]) < Radix(base)
    requires junk != [] ==> DigitValue(junk[0]) >= Radix(base)
    ensures DigitCount(s + junk, base) == |s|
  {
    hide DigitValue;
    if s == [] {
      assert s + junk == junk;
    } else {
      assert (s + junk)[1..] == s[1..] + junk && (s + junk)[0] == s[0];
      DigitsThen(s[1..], junk, base);
    }
  }

  lemma ParseBlanks(blanks: string, u: string, base: Base)
    requires forall k :: 0 <= k < |blanks| ==> IsSpace(blanks[k])
    requires u != [] && !IsSpace(u[0])
    ensures Parse(blanks + u, base) == Parse(u, base)
  {
    SkipBlanks(blanks, u);
    assert SkipWhite(u) == u;
    hide SkipWhite, DigitCount, Value, DigitValue;
  }

  predicate Sign(s: string) {
    s == [] || s == ['+'] || s == ['-']
  }

  lemma ParseSigned(sign: string, n: nat, junk: string)
    requires Sign(sign) && (junk != [] ==> DigitValue(junk[0]) >= 10)
    ensures var u := sign + (Digits(n, Dec) + junk);
            !IsSpace(u[0]) && Parse(u, Dec) == Number(true, sign == ['-'], n)
  {
    var s := Digits(n, Dec);
    DigitsAreDigits(n, Dec);
    PlainDigit(n, Dec, 0);
    ValueOfDigits(n, Dec);
    DigitsThen(s, junk, Dec);
    SignsArePlain();
    hide Digits, DigitValue, DigitCount, Value, IsSpace;
    var v := s + junk;
    var u := sign + v;
    assert v[..|s|] == s && v[0] == s[0];
    assert sign == [] ==> u == v;
    assert sign != [] ==> u[0] == sign[0] && u[1..] == v;
    assert SkipWhite(u) == u;
    hide SkipWhite;
  }

  // Blanks and a sign may come before a decimal number, and anything but a digit behind it.
  lemma DecimalThen(blanks: string, sign: string, n: nat, junk: string)
    requires forall k :: 0 <= k < |blanks| ==> IsSpace(blanks[k])
    requires Sign(sign) && (junk != [] ==> DigitValue(junk[0]) >= 10)
    requires n < 0x8000_0000
    ensures IntOf(blanks + (sign + (Decimal(n) + junk)), Dec, false) == Some(if sign == ['-'] then -(n as int) else n)
  {
    hide Parse, Digits, DigitValue, IsSpace;
    ParseSigned(sign, n, junk);
    ParseBlanks(blanks, sign + (Decimal(n) + junk), Dec);
  }

  lemma SignsArePlain()
    ensures !IsSpace('-') && !IsSpace('+')
  {
  }
}
