/** The parser of assertion-message formats (`check_format`). A replacement
    is an opening brace, a one-letter variable and a closing brace; between
    the variable and the closing brace there may be a colon followed, in this
    order, by an optional alignment (itself optionally preceded by a fill
    character), an optional decimal width, and an optional dot with a time
    unit. Any text outside a replacement is copied literally. The input is read
    as a C string: an embedded NUL ends it, and reading past the end yields NUL.
    Any syntax error rejects the whole format. Every function here reads the
    format through an index into it, as the C code reads it through a pointer. */
module FormatParse {
  import opened Wrappers
  import opened CStrings
  import opened FormatParts
  import Decimal

  /** Index of the first opening brace or NUL at or after index `i`, the end
      of the literal text that starts at `i`. */
  function TextEnd(s: string, i: nat): (j: nat)
    requires i <= |s|
    ensures i <= j <= |s|
    ensures At(s, j) == '{' || At(s, j) == NUL
    decreases |s| - i
  {
    if At(s, i) == '{' || At(s, i) == NUL then i else TextEnd(s, i + 1)
  }

  /** Characters from index `i` up to the next closing brace or NUL (`flen`). */
  function FieldLen(s: string, i: nat): (n: nat)
    ensures n > 0 ==> At(s, i) != NUL && At(s, i) != '}'
    ensures At(s, i + n) == NUL || At(s, i + n) == '}'
    decreases |s| - i
  {
    if At(s, i) == NUL || At(s, i) == '}' then 0 else 1 + FieldLen(s, i + 1)
  }

  /** The optional `[fill] align` at index `i`: the fill, the alignment and the
      index after them. A fill is taken only when at least two characters
      precede the closing brace and the second is an alignment. */
  function FillAlign(s: string, i: nat, variable: char): (r: (char, char, nat))
    requires i <= |s|
    ensures i <= r.2 <= |s|
    ensures r.0 != NUL && r.0 != '}' && IsAlign(r.1)
  {
    if FieldLen(s, i) >= 2 && IsAlign(At(s, i + 1)) then (At(s, i), At(s, i + 1), i + 2)
    else if IsAlign(At(s, i)) then (' ', At(s, i), i + 1)
    else (' ', DefaultAlign(variable), i)
  }

  /** The optional width at index `i` and the index after it. */
  function Width(s: string, i: nat): (r: (int, nat))
    requires i <= |s|
    ensures i <= r.1 <= |s|
    ensures Decimal.IntMin <= r.0 <= Decimal.IntMax
  {
    if Decimal.IsDigit(At(s, i)) then
      var j := Decimal.DigitEnd(s, i);
      (Decimal.StoreWidth(Decimal.ValueAt(s, i, j)), j)
    else (0, i)
  }

  /** The characters of `s` from index `i` on spell `name` (`strncmp` over the
      length of `name`). */
  predicate NameAt(s: string, i: nat, name: string)
    decreases |name|
  {
    |name| == 0 || (At(s, i) == name[0] && NameAt(s, i + 1, name[1..]))
  }

  /** The first precision unit, from table index `k` on, whose name is spelt
      at index `i` of `s` (the `strncmp` scan). */
  function MatchUnit(s: string, i: nat, k: nat): (r: Option<nat>)
    ensures r.Some? ==> k <= r.value < UnitCount && NameAt(s, i, UnitName(r.value))
    decreases UnitCount - k
  {
    if k >= UnitCount then None
    else if NameAt(s, i, UnitName(k)) then Some(k)
    else MatchUnit(s, i, k + 1)
  }

  /** The scan stops at the first match: no earlier entry is spelt there. */
  lemma {:induction false} MatchUnitIsFirst(s: string, i: nat, k: nat, j: nat)
    requires k <= j < UnitCount
    requires MatchUnit(s, i, k).None? || j < MatchUnit(s, i, k).value
    ensures !NameAt(s, i, UnitName(j))
    decreases UnitCount - k
  {
    if j > k {
      MatchUnitIsFirst(s, i, k + 1, j);
    }
  }

  /** Accepts `rep` when the character at `i` is the closing brace; the index
      after the brace comes with it. */
  function Close(s: string, i: nat, rep: Part): (r: Option<(Part, nat)>)
    ensures r.Some? ==> r.value.1 == i + 1 && i < |s| && s[i] == '}'
  {
    if At(s, i) == '}' then Some((rep, i + 1)) else None
  }

  /** The optional `.precision` at index `i`, then the closing brace. */
  function Precision(s: string, i: nat, variable: char, fill: char, align: char, width: int): (r: Option<(Part, nat)>)
    ensures r.Some? ==> i < r.value.1 <= |s| && s[r.value.1 - 1] == '}'
  {
    if At(s, i) != '.' then Close(s, i, Replacement(variable, fill, align, width, 0, []))
    else
      match MatchUnit(s, i + 1, 0)
      case None => None
      case Some(k) =>
        if variable != 't' then None
        else Close(s, i + 1 + |UnitName(k)|,
                   Replacement(variable, fill, align, width, UnitValue(k), UnitName(k)))
  }

  /** The format specification of replacement `variable`, starting at index `i`
      just after the colon. */
  function ParseSpec(s: string, i: nat, variable: char): (r: Option<(Part, nat)>)
    requires i <= |s|
    ensures r.Some? ==> i < r.value.1 <= |s| && s[r.value.1 - 1] == '}'
  {
    var (fill, align, i1) := FillAlign(s, i, variable);
    var (width, i2) := Width(s, i1);
    Precision(s, i2, variable, fill, align, width)
  }

  /** One replacement whose variable letter is at index `i`, just after the
      opening brace: the record and the index after its closing brace. */
  function ParseReplacement(s: string, i: nat): (r: Option<(Part, nat)>)
    ensures r.Some? ==> i < r.value.1 <= |s| && s[r.value.1 - 1] == '}'
  {
    var variable := At(s, i);
    if !IsVariable(variable) then None
    else if At(s, i + 1) != ':' then Close(s, i + 1, Replacement(variable, ' ', DefaultAlign(variable), 0, 0, []))
    else ParseSpec(s, i + 2, variable)
  }

  /** The format from index `i` on: `None` when any replacement is malformed. */
  function ParseFrom(s: string, i: nat): Option<seq<Part>>
    requires i <= |s|
    decreases |s| - i
  {
    var j := TextEnd(s, i);
    if At(s, j) == NUL then Some([Text(Copy(s, i, j))])
    else
      var r := ParseReplacement(s, j + 1);
      if r.None? then None
      else
        var tail := ParseFrom(s, r.value.1);
        if tail.None? then None else Some([Text(Copy(s, i, j)), r.value.0] + tail.value)
  }

  /** `check_format`: the parts of an accepted format, which are always well
      formed (see `ParseFromWellFormed`), or `None`. */
  function Parse(s: string): (r: Option<seq<Part>>)
    ensures r.Some? ==> WellFormed(r.value)
  {
    ParseFromWellFormed(s, 0);
    ParseFrom(s, 0)
  }

  /** One step of the parse: literal text, one replacement, the rest. */
  lemma ParseFromStep(s: string, i: nat, j: nat, rep: Part, k: nat, tail: seq<Part>)
    requires i <= |s| && TextEnd(s, i) == j && At(s, j) != NUL
    requires ParseReplacement(s, j + 1) == Some((rep, k))
    requires ParseFrom(s, k) == Some(tail)
    ensures ParseFrom(s, i) == Some([Text(Copy(s, i, j)), rep] + tail)
  {
  }

  /** The literal text holds neither an opening brace nor a NUL. */
  lemma {:induction false} TextEndIsPlain(s: string, i: nat)
    requires i <= |s|
    ensures PlainText(Copy(s, i, TextEnd(s, i)))
    decreases |s| - i
  {
    if TextEnd(s, i) > i {
      TextEndIsPlain(s, i + 1);
    }
  }

  /** Every accepted format has the shape `(TEXT REPLACEMENT)* TEXT`, with no
      opening brace or NUL in its text and only well-formed replacements. */
  lemma {:induction false} ParseFromWellFormed(s: string, i: nat)
    requires i <= |s|
    ensures ParseFrom(s, i).Some? ==> WellFormed(ParseFrom(s, i).value)
    decreases |s| - i
  {
    var j := TextEnd(s, i);
    TextEndIsPlain(s, i);
    if At(s, j) != NUL && ParseReplacement(s, j + 1).Some? {
      var (rep, k) := ParseReplacement(s, j + 1).value;
      ReplacementWellFormed(s, j + 1);
      ParseFromWellFormed(s, k);
      if ParseFrom(s, k).Some? {
        var tail := ParseFrom(s, k).value;
        ConsWellFormed(Copy(s, i, j), rep, tail);
        ParseFromStep(s, i, j, rep, k, tail);
      }
    }
  }

  lemma ConsWellFormed(t: string, rep: Part, tail: seq<Part>)
    requires PlainText(t) && WellFormedReplacement(rep) && WellFormed(tail)
    ensures WellFormed([Text(t), rep] + tail)
  {
    var r := [Text(t), rep] + tail;
    forall k | 2 <= k < |r|
      ensures r[k] == tail[k - 2] && (k % 2 == (k - 2) % 2)
    {
    }
  }

  /** Every table entry but the alias "min" is the one the printer names for
      its value. */
  lemma UnitsCanonical(k: nat)
    requires k < UnitCount && k != MinAlias
    ensures UnitFor(UnitValue(k)) == Some(k)
  {
  }

  /** "m" precedes "min" in the table and is a prefix of it, so the scan never
      stops at the alias. */
  lemma MatchNeverAlias(s: string, i: nat)
    ensures MatchUnit(s, i, 0) != Some(MinAlias)
  {
  }

  /** Every replacement the parser accepts is one it could produce again. */
  lemma ReplacementWellFormed(s: string, i: nat)
    ensures ParseReplacement(s, i).Some? ==> WellFormedReplacement(ParseReplacement(s, i).value.0)
  {
    var variable := At(s, i);
    if IsVariable(variable) && At(s, i + 1) == ':' && i + 2 <= |s| {
      var (fill, align, i1) := FillAlign(s, i + 2, variable);
      var (width, i2) := Width(s, i1);
      PrecisionWellFormed(s, i2, variable, fill, align, width);
    }
  }

  lemma PrecisionWellFormed(s: string, i: nat, variable: char, fill: char, align: char, width: int)
    requires IsVariable(variable) && fill != NUL && fill != '}' && IsAlign(align)
    requires Decimal.IntMin <= width <= Decimal.IntMax
    ensures Precision(s, i, variable, fill, align, width).Some? ==>
      WellFormedReplacement(Precision(s, i, variable, fill, align, width).value.0)
  {
    if At(s, i) == '.' {
      MatchNeverAlias(s, i + 1);
      match MatchUnit(s, i + 1, 0)
      case None =>
      case Some(k) => UnitsCanonical(k);
    }
  }
}
