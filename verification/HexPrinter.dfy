/** print_integer_as_hex: a number into a 16-digit field, leading zeros trimmed to a minimum width. */
module HexPrinter {

  const FIELD: nat := 16

  function Pow16(n: nat): nat {
    if n == 0 then 1 else 16 * Pow16(n - 1)
  }

  /** The character of a digit: 0x30 for decimal digits, 0x57 or 0x37 for letters. */
  function HexDigit(d: nat, upper: bool): char
    requires d < 16
  {
    if d < 10 then (d + 0x30) as char else (d + if upper then 0x37 else 0x57) as char
  }

  /** The digits of either case, read back. */
  function DigitValue(c: char): nat {
    if '0' <= c <= '9' then (c - '0') as nat
    else if 'a' <= c <= 'f' then (c - 'a') as nat + 10
    else if 'A' <= c <= 'F' then (c - 'A') as nat + 10
    else 0
  }

  predicate IsHexDigit(c: char, upper: bool) {
    '0' <= c <= '9' || (if upper then 'A' <= c <= 'F' else 'a' <= c <= 'f')
  }

  /** The number a string of digits denotes in base 16. */
  function Value(s: string): nat {
    if s == [] then 0 else 16 * Value(s[..|s| - 1]) + DigitValue(s[|s| - 1])
  }

  /** The number of digits a number needs; none for zero. */
  function HexLength(num: nat): nat {
    if num == 0 then 0 else 1 + HexLength(num / 16)
  }

  /** The n lowest digits. */
  function Digits(num: nat, n: nat, upper: bool): (s: string)
    ensures |s| == n
  {
    if n == 0 then [] else Digits(num / 16, n - 1, upper) + [HexDigit(num % 16, upper)]
  }

  lemma {:induction false} ValueOfDigits(num: nat, n: nat, upper: bool)
    requires num < Pow16(n)
    ensures Value(Digits(num, n, upper)) == num
    ensures forall i :: 0 <= i < n ==> IsHexDigit(Digits(num, n, upper)[i], upper)
  {
    hide HexDigit, DigitValue, IsHexDigit;
    if n > 0 {
      ValueOfDigits(num / 16, n - 1, upper);
      DigitReadsBack(num % 16, upper);
      var front, s := Digits(num / 16, n - 1, upper), Digits(num, n, upper);
      assert s == front + [HexDigit(num % 16, upper)];
      assert s[..n - 1] == front && s[n - 1] == HexDigit(num % 16, upper);
    }
  }

  lemma DigitReadsBack(d: nat, upper: bool)
    requires d < 16
    ensures DigitValue(HexDigit(d, upper)) == d && IsHexDigit(HexDigit(d, upper), upper)
    ensures HexDigit(d, upper) == (if upper then "0123456789ABCDEF" else "0123456789abcdef")[d]
  {
  }

  predicate Zeros(s: string, k: nat) {
    k <= |s| && forall j :: 0 <= j < k ==> s[j] == '0'
  }

  lemma {:induction false} DigitsOfZero(n: nat, upper: bool)
    ensures Zeros(Digits(0, n, upper), n)
  {
    if n > 0 {
      DigitsOfZero(n - 1, upper);
    }
  }

  lemma {:induction false} LeadingZeros(s: string, k: nat)
    requires Zeros(s, k)
    ensures Value(s[k..]) == Value(s)
  {
    if k < |s| {
      var n := |s| - 1;
      LeadingZeros(s[..n], k);
      assert s[k..][..n - k] == s[..n][k..] && s[k..][n - k] == s[n];
    } else {
      AllZeros(s);
    }
  }

  lemma {:induction false} AllZeros(s: string)
    requires Zeros(s, |s|)
    ensures Value(s) == 0
  {
    if s != [] {
      AllZeros(s[..|s| - 1]);
    }
  }

  lemma ZeroDigit(d: nat, upper: bool)
    requires d < 16
    ensures HexDigit(d, upper) == '0' <==> d == 0
  {
  }

  /** The first digit that is not zero tells how many digits the number needs. */
  lemma {:induction false} LengthFromZeros(num: nat, n: nat, k: nat, upper: bool)
    requires num < Pow16(n) && k <= n
    requires var s := Digits(num, n, upper); Zeros(s, k) && (k < n ==> s[k] != '0')
    ensures HexLength(num) == n - k
  {
    var s := Digits(num, n, upper);
    if num == 0 {
      DigitsOfZero(n, upper);
    } else {
      var front := Digits(num / 16, n - 1, upper);
      assert s == front + [HexDigit(num % 16, upper)];
      ZeroDigit(num % 16, upper);
      if k == n {
        assert s[n - 1] == '0';
        forall j | 0 <= j < n - 1
          ensures front[j] == '0'
        {
          assert s[j] == front[j];
        }
        ValueOfDigits(num / 16, n - 1, upper);
        AllZeros(front);
        assert false;
      } else {
        assert forall j :: 0 <= j < k ==> front[j] == s[j];
        assert k < n - 1 ==> front[k] == s[k];
        LengthFromZeros(num / 16, n - 1, k, upper);
      }
    }
  }

  function Prefix(alternate: bool, upper: bool): string {
    if !alternate then "" else if upper then "0X" else "0x"
  }

  /** The digits after the prefix denote the number, in the chosen case, and there are as many
      as the number needs but at least width + 1. */
  method PrintIntegerAsHex(number: nat, width: nat, upper: bool, alternate: bool) returns (text: string)
    requires number < Pow16(FIELD) && width < FIELD
    ensures Prefix(alternate, upper) <= text
    ensures var digits := text[|Prefix(alternate, upper)|..];
      && Value(digits) == number
      && |digits| == (if HexLength(number) > width + 1 then HexLength(number) else width + 1)
      && (forall i :: 0 <= i < |digits| ==> IsHexDigit(digits[i], upper))
      && (|digits| > width + 1 ==> digits[0] != '0')
    ensures Prefix(alternate, upper) == if !alternate then [] else ['0', if upper then 'X' else 'x']
  {
    hide Digits, Value, Pow16, HexLength, DigitValue, IsHexDigit, HexDigit;
    var buf := FillField(number, upper);
    ghost var field := Digits(number, FIELD, upper);
    ValueOfDigits(number, FIELD, upper);
    var i := 0;
    while i < FIELD && buf[i] == '0'
      invariant i <= FIELD && Zeros(field, i)
    {
      i := i + 1;
    }
    assert i < FIELD ==> field[i] == buf[i];
    LengthFromZeros(number, FIELD, i, upper);
    if 15 - width < i {
      i := 15 - width;
    }
    LeadingZeros(field, i);
    text := Prefix(alternate, upper) + buf[i..];
    assert text[|Prefix(alternate, upper)|..] == field[i..];
  }

  /** The digit loop: from the last place of the field backwards. */
  method FillField(number: nat, upper: bool) returns (buf: array<char>)
    requires number < Pow16(FIELD)
    ensures fresh(buf) && buf[..] == Digits(number, FIELD, upper)
  {
    hide InField, Digits, HexDigit;
    buf := new char[FIELD](_ => '0');
    FieldStart(buf[..], number, upper);
    var num: nat := number;
    var i: int := 15;
    while num > 0
      invariant -1 <= i <= 15 && InField(buf[..], num, i + 1, number, upper)
      decreases num
    {
      var endDigit := num % 16;
      FieldStep(buf[..], num, i + 1, number, upper);
      ghost var s := buf[..];
      buf[i] := HexDigit(endDigit, upper);
      assert buf[..] == s[i := HexDigit(endDigit, upper)];
      i := i - 1;
      num := num / 16;
    }
    FieldDone(buf[..], i + 1, number, upper);
  }

  /** The places from n on hold the low digits; what is left of the number goes before them. */
  predicate InField(s: string, num: nat, n: int, number: nat, upper: bool) {
    && |s| == FIELD && 0 <= n <= FIELD && num < Pow16(n) && Zeros(s, n)
    && Digits(number, FIELD, upper) == Digits(num, n, upper) + s[n..]
  }

  lemma FieldStart(s: string, number: nat, upper: bool)
    requires |s| == FIELD && Zeros(s, FIELD) && number < Pow16(FIELD)
    ensures InField(s, number, FIELD, number, upper)
  {
  }

  lemma FieldStep(s: string, num: nat, n: int, number: nat, upper: bool)
    requires InField(s, num, n, number, upper) && num > 0
    ensures n > 0 && InField(s[n - 1 := HexDigit(num % 16, upper)], num / 16, n - 1, number, upper)
  {
    var r := s[n - 1 := HexDigit(num % 16, upper)];
    assert r[n - 1..] == [HexDigit(num % 16, upper)] + s[n..];
  }

  lemma FieldDone(s: string, n: int, number: nat, upper: bool)
    requires InField(s, 0, n, number, upper)
    ensures s == Digits(number, FIELD, upper)
  {
    DigitsOfZero(n, upper);
    assert s[..n] == Digits(0, n, upper);
    assert s == s[..n] + s[n..];
  }
}
