/** Decimal digits as the C library reads and writes them: `strtol` on the way in,
    `%d` on the way out, and the conversion of a `long` into a 32-bit `int`. */
module Decimal {
  import opened CStrings

  const IntMax: int := 0x7FFF_FFFF
  const IntMin: int := -0x8000_0000
  /** LONG_MAX on an LP64 target, where `strtol` saturates. */
  const LongMax: nat := 0x7FFF_FFFF_FFFF_FFFF
  const Modulus32: nat := 0x1_0000_0000

  predicate IsDigit(c: char) {
    '0' <= c <= '9'
  }

  predicate AllDigits(s: string) {
    forall i :: 0 <= i < |s| ==> IsDigit(s[i])
  }

  function DigitChar(d: nat): (c: char)
    requires d < 10
    ensures IsDigit(c) && c as int - '0' as int == d
  {
    ('0' as int + d) as char
  }

  function DigitValue(c: char): (d: nat)
    requires IsDigit(c)
    ensures d < 10 && DigitChar(d) == c
  {
    c as int - '0' as int
  }

  /** The number a string of decimal digits denotes, most significant digit first. */
  function Value(ds: string): nat
    requires AllDigits(ds)
  {
    if |ds| == 0 then 0 else 10 * Value(ds[..|ds| - 1]) + DigitValue(ds[|ds| - 1])
  }

  /** The `%d` rendering of a natural number. */
  function Text(n: nat): string {
    if n < 10 then [DigitChar(n)] else Text(n / 10) + [DigitChar(n % 10)]
  }

  /** `%d` writes the shortest numeral: digits only, no leading zero, and it
      denotes the number written. */
  lemma {:induction false} TextIsNumeral(n: nat)
    ensures |Text(n)| > 0 && AllDigits(Text(n))
    ensures Value(Text(n)) == n
    ensures n > 0 ==> Text(n)[0] != '0'
  {
    if n >= 10 {
      TextIsNumeral(n / 10);
      var r := Text(n);
      assert r == Text(n / 10) + [DigitChar(n % 10)];
      assert r[..|r| - 1] == Text(n / 10);
    }
  }

  /** Index just past the run of digits starting at index `i`: how far
      `strtol` reads. */
  function DigitEnd(s: string, i: nat): (j: nat)
    requires i <= |s|
    ensures i <= j <= |s|
    ensures !IsDigit(At(s, j))
    decreases |s| - i
  {
    if !IsDigit(At(s, i)) then i else DigitEnd(s, i + 1)
  }

  /** `strtol` reads only digits. */
  lemma {:induction false} DigitEndAllDigits(s: string, i: nat)
    requires i <= |s|
    ensures AllDigits(s[i..DigitEnd(s, i)])
    decreases |s| - i
  {
    if i < |s| && IsDigit(s[i]) {
      DigitEndAllDigits(s, i + 1);
    }
  }

  /** The number the digits between indices `i` and `j` denote. */
  function ValueAt(s: string, i: nat, j: nat): nat
    requires i <= j <= |s|
    decreases j
  {
    if j == i then 0
    else 10 * ValueAt(s, i, j - 1) + (if IsDigit(s[j - 1]) then DigitValue(s[j - 1]) else 0)
  }

  /** `strtol` stops just after a numeral followed by a non-digit. */
  lemma {:induction false} DigitEndOfNumeral(s: string, i: nat, ds: string)
    requires SpellsAt(s, i, ds) && AllDigits(ds)
    requires !IsDigit(At(s, i + |ds|))
    ensures DigitEnd(s, i) == i + |ds|
    decreases |ds|
  {
    if |ds| > 0 {
      SpellsConcat(s, i, [ds[0]], ds[1..]);
      assert [ds[0]] + ds[1..] == ds;
      assert s[i] == ds[0];
      DigitEndOfNumeral(s, i + 1, ds[1..]);
    }
  }

  /** `ValueAt` reads the same number as `Value` of the digits in place. */
  lemma {:induction false} ValueAtOfNumeral(s: string, i: nat, ds: string)
    requires SpellsAt(s, i, ds) && AllDigits(ds)
    ensures ValueAt(s, i, i + |ds|) == Value(ds)
    decreases |ds|
  {
    if |ds| > 0 {
      var last := |ds| - 1;
      assert ds[..last] + [ds[last]] == ds;
      SpellsConcat(s, i, ds[..last], [ds[last]]);
      ValueAtOfNumeral(s, i, ds[..last]);
    }
  }

  function Min(a: int, b: int): int {
    if a <= b then a else b
  }

  /** What `int w = strtol(digits, ...)` stores for a numeral of value `v` on an
      LP64 target: `strtol` saturates at LONG_MAX, and the conversion of the
      `long` to a 32-bit `int` keeps its low 32 bits in two's complement. */
  function StoreWidth(v: nat): (w: int)
    ensures IntMin <= w <= IntMax
    ensures v <= IntMax ==> w == v
    ensures (Min(v, LongMax) - w) % Modulus32 == 0
  {
    var m := Min(v, LongMax) % Modulus32;
    if m > IntMax then m - Modulus32 else m
  }
}
