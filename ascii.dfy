/** Bytes of the serial line and the pieces of the C library the sentence
    codec leans on: NUL-terminated strings and `atoi`. */
module Ascii {

  /** A C `char` / `uint8_t`; arithmetic on it wraps modulo 256. */
  type byte = bv8
  type Bytes = seq<byte>

  const NUL: byte := 0x00
  const LF: byte := 0x0A
  const CR: byte := 0x0D
  const SPACE: byte := 0x20
  const DOLLAR: byte := 0x24
  const STAR: byte := 0x2A
  const PLUS: byte := 0x2B
  const COMMA: byte := 0x2C
  const MINUS: byte := 0x2D
  const DIGIT_0: byte := 0x30
  const DIGIT_9: byte := 0x39
  const UPPER_A: byte := 0x41
  const UPPER_F: byte := 0x46
  const LOWER_A: byte := 0x61
  const LOWER_F: byte := 0x66

  predicate IsDigit(c: byte) { DIGIT_0 <= c <= DIGIT_9 }

  /** The characters C's `isspace` accepts in the "C" locale. */
  predicate IsSpace(c: byte) { c == SPACE || 0x09 <= c <= 0x0D }

  /** Some byte at index `from` or later is `c`. */
  predicate OccursFrom(s: Bytes, from: nat, c: byte) {
    exists k :: from <= k < |s| && s[k] == c
  }

  /** The first index at or after `from` that holds `c`: where a C loop
      scanning for `c` from `from` stops. */
  function FirstFrom(s: Bytes, from: nat, c: byte): (k: nat)
    requires OccursFrom(s, from, c)
    ensures from <= k < |s| && s[k] == c
    ensures forall j :: from <= j < k ==> s[j] != c
    decreases |s| - from
  {
    if s[from] == c then from else FirstFrom(s, from + 1, c)
  }

  /** The characters a `char *` reader (`strlen`, `strcat`, `atof`) sees:
      everything before the first NUL. */
  function CStr(s: Bytes): (r: Bytes)
    ensures NUL !in r
    ensures |r| <= |s| && r == s[..|r|]
    ensures |r| < |s| ==> s[|r|] == NUL
  {
    if OccursFrom(s, 0, NUL) then s[..FirstFrom(s, 0, NUL)] else s
  }

  // ---------------------------------------------------------------------
  // atoi: optional white space, optional sign, then the longest run of
  // decimal digits; anything else ends the number.
  // ---------------------------------------------------------------------

  function SkipSpaces(s: Bytes): (r: Bytes)
    ensures |r| <= |s| && r == s[|s| - |r|..]
    ensures r == [] || !IsSpace(r[0])
    ensures forall k :: 0 <= k < |s| - |r| ==> IsSpace(s[k])
  {
    if |s| > 0 && IsSpace(s[0]) then SkipSpaces(s[1..]) else s
  }

  /** The length of the run of digits at the front of `s`. */
  function DigitRun(s: Bytes): (n: nat)
    ensures n <= |s|
    ensures forall k :: 0 <= k < n ==> IsDigit(s[k])
    ensures n == |s| || !IsDigit(s[n])
  {
    if |s| > 0 && IsDigit(s[0]) then 1 + DigitRun(s[1..]) else 0
  }

  predicate AllDigits(d: Bytes) { forall k :: 0 <= k < |d| ==> IsDigit(d[k]) }

  function DigitValue(c: byte): nat
    requires IsDigit(c)
  {
    (c - DIGIT_0) as nat
  }

  /** The value of a run of decimal digits, most significant first. */
  function DecimalValue(d: Bytes): nat
    requires AllDigits(d)
  {
    if d == [] then 0 else DecimalValue(d[..|d| - 1]) * 10 + DigitValue(d[|d| - 1])
  }

  function UnsignedPrefix(s: Bytes): nat {
    DecimalValue(s[..DigitRun(s)])
  }

  /** C's `atoi` (serial.cpp:85, 92). Out-of-range results, which are
      undefined behaviour in C, are not modelled: the value is unbounded. */
  function Atoi(s: Bytes): int {
    var t := SkipSpaces(s);
    if |t| > 0 && t[0] == MINUS then -(UnsignedPrefix(t[1..]) as int)
    else if |t| > 0 && t[0] == PLUS then UnsignedPrefix(t[1..])
    else UnsignedPrefix(t)
  }

  /** `%d` of a natural number: its decimal digits without leading zeros. */
  function Decimal(n: nat): (d: Bytes)
    ensures |d| >= 1 && AllDigits(d)
    ensures d[0] != DIGIT_0 || n == 0
  {
    if n < 10 then [DIGIT_0 + n as byte] else Decimal(n / 10) + [DIGIT_0 + (n % 10) as byte]
  }

  lemma DigitValueOfDigit(k: nat)
    requires k < 10
    ensures IsDigit(DIGIT_0 + k as byte) && DigitValue(DIGIT_0 + k as byte) == k
  {
    if k == 0 {} else if k == 1 {} else if k == 2 {} else if k == 3 {} else if k == 4 {}
    else if k == 5 {} else if k == 6 {} else if k == 7 {} else if k == 8 {} else {}
  }

  lemma {:induction false} DecimalValueOfDecimal(n: nat)
    ensures DecimalValue(Decimal(n)) == n
  {
    if n < 10 {
      DigitValueOfDigit(n);
    } else {
      var d, k := Decimal(n), n % 10;
      DigitValueOfDigit(k);
      assert d == Decimal(n / 10) + [DIGIT_0 + k as byte];
      assert d[..|d| - 1] == Decimal(n / 10);
      DecimalValueOfDecimal(n / 10);
    }
  }

  lemma {:induction false} DigitRunOfDigits(d: Bytes, rest: Bytes)
    requires AllDigits(d)
    requires rest == [] || !IsDigit(rest[0])
    ensures DigitRun(d + rest) == |d|
  {
    if d != [] {
      assert (d + rest)[1..] == d[1..] + rest;
      DigitRunOfDigits(d[1..], rest);
    }
  }

  /** `atoi` reads back what `%d` wrote, whatever non-digit follows. */
  lemma AtoiOfDecimal(n: nat, rest: Bytes)
    requires rest == [] || !IsDigit(rest[0])
    ensures Atoi(Decimal(n) + rest) == n
  {
    var s := Decimal(n) + rest;
    assert SkipSpaces(s) == s;
    DigitRunOfDigits(Decimal(n), rest);
    assert s[..DigitRun(s)] == Decimal(n);
    DecimalValueOfDecimal(n);
  }

  /** A string that starts with something other than white space, a sign
      or a digit reads as 0 (the empty string included). */
  lemma AtoiOfNonNumeric(s: Bytes)
    requires s == [] || !(IsSpace(s[0]) || IsDigit(s[0]) || s[0] == PLUS || s[0] == MINUS)
    ensures Atoi(s) == 0
  {
    assert SkipSpaces(s) == s;
    assert s[..DigitRun(s)] == [];
  }
}
