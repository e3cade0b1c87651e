/** The parsed form of an assertion-message format: a list of literal text
    parts and replacement records, and the table of time units a `t`
    replacement may be scaled to. */
module FormatParts {
  import opened Wrappers
  import opened CStrings
  import Decimal

  /** One element of a parsed format. A replacement keeps what the source's
      `replacement_t` keeps: the variable letter, fill character, alignment,
      the width as stored in an `int`, and the precision with its unit name
      (zero and the empty name when no precision was given). */
  datatype Part =
    | Text(text: string)
    | Replacement(variable: char, fill: char, align: char, width: int, precision: nat, units: string)

  /** Number of entries in the precision table. */
  const UnitCount: nat := 9

  /** The precision table, in the order both the parser and the printer scan
      it: entry `k` names a unit and gives its length in femtoseconds. "min" is
      a non-standard alias of "m", and comes after it. */
  function UnitName(k: nat): string
    requires k < UnitCount
  {
    match k
    case 0 => "fs"
    case 1 => "ps"
    case 2 => "ns"
    case 3 => "us"
    case 4 => "ms"
    case 5 => "sec"
    case 6 => "m"
    case 7 => "min"
    case _ => "hr"
  }

  function UnitValue(k: nat): nat
    requires k < UnitCount
  {
    match k
    case 0 => 1
    case 1 => 1000
    case 2 => 1000000
    case 3 => 1000000000
    case 4 => 1000000000000
    case 5 => 1000000000000000
    case 6 => 60000000000000000
    case 7 => 60000000000000000
    case _ => 3600000000000000000
  }

  /** Index of the alias "min" in the table. */
  const MinAlias: nat := 7

  predicate IsVariable(c: char) {
    c == 's' || c == 'S' || c == 'r' || c == 't' || c == 'i'
  }

  predicate IsAlign(c: char) {
    c == '<' || c == '>' || c == '^'
  }

  /** Time is right-aligned by default, everything else left-aligned. */
  function DefaultAlign(variable: char): char {
    if variable == 't' then '>' else '<'
  }

  /** The first table entry from index `k` on whose value is `precision`. */
  function UnitFrom(precision: nat, k: nat): (r: Option<nat>)
    ensures r.Some? ==> k <= r.value < UnitCount && UnitValue(r.value) == precision
    decreases UnitCount - k
  {
    if k >= UnitCount then None
    else if UnitValue(k) == precision then Some(k)
    else UnitFrom(precision, k + 1)
  }

  /** The scan stops at the first entry with the value: no earlier one has it. */
  lemma {:induction false} UnitFromIsFirst(precision: nat, k: nat, j: nat)
    requires k <= j < UnitCount
    requires UnitFrom(precision, k).None? || j < UnitFrom(precision, k).value
    ensures UnitValue(j) != precision
    decreases UnitCount - k
  {
    if j > k {
      UnitFromIsFirst(precision, k + 1, j);
    }
  }

  /** The unit the printer names for a precision: the first entry with that value. */
  function UnitFor(precision: nat): Option<nat> {
    UnitFrom(precision, 0)
  }

  /** Literal text as the parser leaves it: no opening brace, no terminator. */
  predicate PlainText(t: string) {
    '{' !in t && NUL !in t
  }

  /** A replacement record the parser can produce. */
  predicate WellFormedReplacement(p: Part) {
    && p.Replacement?
    && IsVariable(p.variable)
    && p.fill != NUL && p.fill != '}'
    && IsAlign(p.align)
    && Decimal.IntMin <= p.width <= Decimal.IntMax
    && (if p.precision == 0 then p.units == []
        else p.variable == 't' && UnitFor(p.precision).Some? && p.units == UnitName(UnitFor(p.precision).value))
  }

  /** The shape `(TEXT REPLACEMENT)* TEXT` with every part well formed. */
  predicate WellFormed(ps: seq<Part>)
    decreases |ps|
  {
    && |ps| > 0
    && ps[0].Text? && PlainText(ps[0].text)
    && (|ps| == 1 || (|ps| > 2 && WellFormedReplacement(ps[1]) && WellFormed(ps[2..])))
  }

  /** The form a part takes after printing and parsing again: a negative width
      is not printed, so it comes back as zero. */
  function CanonPart(p: Part): Part {
    if p.Replacement? && p.width < 0 then p.(width := 0) else p
  }

  function Canon(ps: seq<Part>): (r: seq<Part>)
    ensures |r| == |ps|
  {
    if |ps| == 0 then [] else [CanonPart(ps[0])] + Canon(ps[1..])
  }

  /** Number of replacement records in a part list. */
  function Replacements(ps: seq<Part>): nat {
    if |ps| == 0 then 0 else (if ps[0].Replacement? then 1 else 0) + Replacements(ps[1..])
  }

  /** Number of replacement records whose fill character is an opening brace. */
  function BraceFills(ps: seq<Part>): nat {
    if |ps| == 0 then 0
    else (if ps[0].Replacement? && ps[0].fill == '{' then 1 else 0) + BraceFills(ps[1..])
  }

  /** Number of opening braces in a string. */
  function Braces(s: string): nat {
    if |s| == 0 then 0 else (if s[0] == '{' then 1 else 0) + Braces(s[1..])
  }

  lemma {:induction false} BracesAppend(a: string, b: string)
    ensures Braces(a + b) == Braces(a) + Braces(b)
    decreases |a|
  {
    if |a| == 0 {
      assert a + b == b;
    } else {
      assert (a + b)[1..] == a[1..] + b;
      BracesAppend(a[1..], b);
    }
  }

  lemma {:induction false} NoBraces(s: string)
    requires '{' !in s
    ensures Braces(s) == 0
    decreases |s|
  {
    if |s| > 0 {
      assert s[0] in s;
      assert forall c :: c in s[1..] ==> c in s;
      NoBraces(s[1..]);
    }
  }
}
