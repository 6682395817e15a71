/** Decimal numerals (strconv.Itoa, strconv.Atoi) and lower-case hexadecimal. */
module Numerals {
  import opened Wrappers

  type Byte = b: int | 0 <= b < 256

  const INT64_MAX := 0x7fff_ffff_ffff_ffff

  const DIGITS := "0123456789abcdef"

  function Digit(d: nat): (c: char)
    requires d < 16
    ensures forall e: nat :: e < 16 && DIGITS[e] == c ==> e == d
  {
    DIGITS[d]
  }

  /** The value of a decimal digit. */
  function DigitValue(c: char): (r: Option<nat>)
    ensures r.Some? ==> r.value < 10 && Digit(r.value) == c
    ensures r.None? ==> forall d: nat :: d < 10 ==> Digit(d) != c
  {
    if '0' <= c <= '9' then Some(c as int - '0' as int) else None
  }

  lemma DigitValueOfDigit(d: nat)
    requires d < 10
    ensures DigitValue(Digit(d)) == Some(d)
  {
  }

  function Decimal(n: nat): (s: string)
    ensures |s| >= 1
  {
    if n < 10 then [Digit(n)] else Decimal(n / 10) + [Digit(n % 10)]
  }

  /** A non-empty run of decimal digits, read as a number. */
  function ParseDigits(s: string): Option<nat> {
    if s == "" then None
    else
      var last := DigitValue(s[|s| - 1]);
      if |s| == 1 || last.None? then last
      else
        var front := ParseDigits(s[..|s| - 1]);
        if front.None? then None else Some(front.value * 10 + last.value)
  }

  /** strconv.Atoi on a 64-bit platform: an optional sign, digits, and no overflow. */
  function Atoi(s: string): Option<int> {
    var signed := s != "" && (s[0] == '-' || s[0] == '+');
    match ParseDigits(if signed then s[1..] else s)
    case None => None
    case Some(n) =>
      if signed && s[0] == '-' then (if n <= INT64_MAX + 1 then Some(0 - n) else None)
      else if n <= INT64_MAX then Some(n) else None
  }

  lemma {:induction false} ParseDecimal(n: nat)
    ensures ParseDigits(Decimal(n)) == Some(n)
    ensures Decimal(n)[0] != '-' && Decimal(n)[0] != '+'
  {
    if n >= 10 {
      ParseDecimal(n / 10);
      DigitValueOfDigit(n % 10);
      var s := Decimal(n);
      assert s[..|s| - 1] == Decimal(n / 10);
    } else {
      DigitValueOfDigit(n);
    }
  }

  lemma AtoiDecimal(n: nat)
    requires n <= INT64_MAX
    ensures Atoi(Decimal(n)) == Some(n)
  {
    ParseDecimal(n);
  }

  lemma DecimalInjective(m: nat, n: nat)
    requires Decimal(m) == Decimal(n)
    ensures m == n
  {
    ParseDecimal(m);
    ParseDecimal(n);
  }

  function Hex(bytes: seq<Byte>): (s: string)
    ensures |s| == 2 * |bytes|
  {
    if bytes == [] then ""
    else [Digit(bytes[0] / 16), Digit(bytes[0] % 16)] + Hex(bytes[1..])
  }

  lemma {:induction false} HexInjective(a: seq<Byte>, b: seq<Byte>)
    requires Hex(a) == Hex(b)
    ensures a == b
  {
    if a != [] {
      assert Hex(a)[0] == Hex(b)[0] && Hex(a)[1] == Hex(b)[1];
      assert Hex(a)[2..] == Hex(a[1..]) && Hex(b)[2..] == Hex(b[1..]);
      HexInjective(a[1..], b[1..]);
      assert a == [a[0]] + a[1..] && b == [b[0]] + b[1..];
    }
  }

  // ------------------------------------------------- what the texts are, in characters

  /** The value of a decimal digit is its distance from '0'. */
  lemma DigitsAre(d: nat)
    requires d < 16
    ensures d < 10 ==> '0' <= Digit(d) <= '9' && Digit(d) as int - '0' as int == d
    ensures d >= 10 ==> 'a' <= Digit(d) <= 'f' && Digit(d) as int - 'a' as int + 10 == d
  {
  }

  /** Hexadecimal is lower-case, two characters for each byte, the high one first. */
  lemma {:induction false} HexIs(bytes: seq<Byte>, k: nat)
    requires k < |bytes|
    ensures |Hex(bytes)| == 2 * |bytes|
    ensures var hi, lo := Hex(bytes)[2 * k], Hex(bytes)[2 * k + 1];
            && ('0' <= hi <= '9' || 'a' <= hi <= 'f') && ('0' <= lo <= '9' || 'a' <= lo <= 'f')
            && 16 * (if hi <= '9' then hi as int - '0' as int else hi as int - 'a' as int + 10)
               + (if lo <= '9' then lo as int - '0' as int else lo as int - 'a' as int + 10) == bytes[k]
  {
    var s := Hex(bytes);
    if k == 0 {
      DigitsAre(bytes[0] / 16);
      DigitsAre(bytes[0] % 16);
    } else {
      HexIs(bytes[1..], k - 1);
      assert s[2..] == Hex(bytes[1..]);
      assert s[2 * k] == s[2..][2 * (k - 1)] && s[2 * k + 1] == s[2..][2 * (k - 1) + 1];
    }
  }

  /** Only non-empty runs of digits are read, and each further digit counts ten
      times what came before. */
  lemma {:induction false} ParseDigitsIs(s: string)
    ensures ParseDigits(s).Some? <==> s != "" && forall k :: 0 <= k < |s| ==> '0' <= s[k] <= '9'
    ensures |s| == 1 && '0' <= s[0] <= '9' ==> ParseDigits(s) == Some(s[0] as int - '0' as int)
    ensures |s| > 1 && ParseDigits(s).Some? ==>
              ParseDigits(s[..|s| - 1]).Some? &&
              ParseDigits(s).value == 10 * ParseDigits(s[..|s| - 1]).value + (s[|s| - 1] as int - '0' as int)
  {
    if |s| > 1 {
      ParseDigitsIs(s[..|s| - 1]);
    }
  }

  lemma {:induction false} LeadingDigit(s: string)
    requires ParseDigits(s).Some? && s[0] != '0'
    ensures ParseDigits(s).value >= 1 && (|s| > 1 ==> ParseDigits(s).value >= 10)
  {
    ParseDigitsIs(s);
    if |s| > 1 {
      LeadingDigit(s[..|s| - 1]);
    }
  }

  lemma {:induction false} DecimalDigits(n: nat)
    ensures forall k :: 0 <= k < |Decimal(n)| ==> '0' <= Decimal(n)[k] <= '9'
    ensures if n == 0 then Decimal(n) == "0" else Decimal(n)[0] != '0'
  {
    DigitsAre(n % 10);
    if n >= 10 {
      DecimalDigits(n / 10);
    }
  }

  lemma DecimalLast(n: nat, d: nat)
    requires d < 10 && n > 0
    ensures Decimal(10 * n + d) == Decimal(n) + [Digit(d)]
  {
    hide Decimal, Digit;
    DecimalStep(10 * n + d);
  }

  lemma DecimalStep(n: nat)
    ensures Decimal(n) == if n < 10 then [Digit(n)] else Decimal(n / 10) + [Digit(n % 10)]
  {
  }

  lemma {:induction false} ShortestIsDecimal(s: string, n: nat)
    requires ParseDigits(s) == Some(n) && (s[0] == '0' ==> |s| == 1)
    ensures s == Decimal(n)
    decreases |s|
  {
    hide ParseDigits, Decimal;
    ParseDigitsIs(s);
    var last := s[|s| - 1] as int - '0' as int;
    DigitsAre(last);
    hide Digit;
    assert Digit(last) == s[|s| - 1];
    if |s| == 1 {
      DecimalStep(n);
      assert s == [s[0]];
    } else {
      var front := s[..|s| - 1];
      var m := ParseDigits(front).value;
      assert front[0] == s[0] != '0';
      LeadingDigit(front);
      ShortestIsDecimal(front, m);
      DecimalLast(m, last);
      assert s == front + [s[|s| - 1]];
    }
  }

  /** The decimal form of a number is its only form without a leading zero. */
  lemma DecimalIs(s: string, n: nat)
    ensures s == Decimal(n) <==>
            && s != "" && (forall k :: 0 <= k < |s| ==> '0' <= s[k] <= '9')
            && (s[0] == '0' ==> |s| == 1) && ParseDigits(s) == Some(n)
  {
    hide Decimal, ParseDigits;
    ParseDecimal(n);
    DecimalDigits(n);
    if s != "" && (s[0] == '0' ==> |s| == 1) && ParseDigits(s) == Some(n) {
      ShortestIsDecimal(s, n);
    }
  }

  /** A run of digits without a leading zero. */
  predicate Shortest(s: string) {
    s != "" && (forall k :: 0 <= k < |s| ==> '0' <= s[k] <= '9') && (s[0] == '0' ==> |s| == 1)
  }

  /** So such runs and numbers correspond one to one. */
  lemma ShortestIs(s: string, n: nat)
    ensures s == Decimal(n) <==> Shortest(s) && ParseDigits(s) == Some(n)
    ensures Shortest(s) ==> ParseDigits(s).Some? && s == Decimal(ParseDigits(s).value)
  {
    ParseDigitsIs(s);
    DecimalIs(s, n);
    if Shortest(s) {
      DecimalIs(s, ParseDigits(s).value);
    }
  }

  /** The number that a shortest run of digits stands for. */
  function NumberOf(s: string): nat
    requires Shortest(s)
  {
    ShortestIs(s, 0);
    ParseDigits(s).value
  }

  /** Atoi accepts an optional sign and digits, within the range of 64 bits. */
  lemma AtoiIs(s: string)
    ensures var digits := if s != "" && (s[0] == '-' || s[0] == '+') then s[1..] else s;
            var negative := s != "" && s[0] == '-';
            && (ParseDigits(digits).Some? <==>
                digits != "" && forall k :: 0 <= k < |digits| ==> '0' <= digits[k] <= '9')
            && (Atoi(s).Some? <==>
                && ParseDigits(digits).Some?
                && ParseDigits(digits).value <= 9223372036854775807 + if negative then 1 else 0)
            && (Atoi(s).Some? ==>
                  Atoi(s).value == if negative then 0 - ParseDigits(digits).value else ParseDigits(digits).value)
  {
    ParseDigitsIs(if s != "" && (s[0] == '-' || s[0] == '+') then s[1..] else s);
  }
}
