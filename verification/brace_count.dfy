/** How the opening braces of an accepted format are accounted for: each one
    opens a replacement, except one used as a replacement's fill character. */
module BraceCount {
  import opened Wrappers
  import opened CStrings
  import opened FormatParts
  import opened FormatParse
  import opened FormatPrint
  import FormatRoundTrip
  import Decimal

  /** Opening braces in the C string from index `i` to its terminator. */
  function BracesFrom(s: string, i: nat): nat
    decreases |s| - i
  {
    if At(s, i) == NUL then 0 else (if s[i] == '{' then 1 else 0) + BracesFrom(s, i + 1)
  }

  /** `BracesFrom` counts the braces of the C string held from `i` on. */
  lemma {:induction false} BracesFromIsBraces(s: string, i: nat)
    requires i <= |s|
    ensures BracesFrom(s, i) == Braces(CStr(s[i..]))
    decreases |s| - i
  {
    if i < |s| && s[i] != NUL {
      var c := CStr(s[i..]);
      assert s[i..][1..] == s[i + 1..];
      assert c == [s[i]] + CStr(s[i + 1..]);
      assert c[1..] == CStr(s[i + 1..]);
      BracesFromIsBraces(s, i + 1);
    }
  }

  /** Literal text holds no opening brace. */
  lemma {:induction false} TextSpan(s: string, i: nat)
    requires i <= |s|
    ensures BracesFrom(s, i) == BracesFrom(s, TextEnd(s, i))
    decreases |s| - i
  {
    if At(s, i) != '{' && At(s, i) != NUL {
      TextSpan(s, i + 1);
    }
  }

  /** Nor does a width. */
  lemma {:induction false} DigitSpan(s: string, i: nat)
    requires i <= |s|
    ensures BracesFrom(s, i) == BracesFrom(s, Decimal.DigitEnd(s, i))
    decreases |s| - i
  {
    if Decimal.IsDigit(At(s, i)) {
      DigitSpan(s, i + 1);
    }
  }

  /** Nor does a name spelt in the text that holds neither a brace nor NUL. */
  lemma {:induction false} NameSpan(s: string, i: nat, name: string)
    requires NameAt(s, i, name)
    requires forall k :: 0 <= k < |name| ==> name[k] != '{' && name[k] != NUL
    ensures BracesFrom(s, i) == BracesFrom(s, i + |name|)
    decreases |name|
  {
    if |name| > 0 {
      NameSpan(s, i + 1, name[1..]);
    }
  }

  lemma UnitNamePlain(k: nat)
    requires k < UnitCount
    ensures forall j :: 0 <= j < |UnitName(k)| ==> UnitName(k)[j] != '{' && UnitName(k)[j] != NUL
  {
  }

  /** The fill and alignment hold a brace exactly when the fill is one. */
  lemma FillAlignSpan(s: string, i: nat, v: char)
    requires i <= |s|
    ensures BracesFrom(s, i) == (if FillAlign(s, i, v).0 == '{' then 1 else 0) + BracesFrom(s, FillAlign(s, i, v).2)
  {
    if FieldLen(s, i) >= 2 && IsAlign(At(s, i + 1)) {
      assert BracesFrom(s, i + 1) == BracesFrom(s, i + 2);
    }
  }

  lemma WidthSpan(s: string, i: nat)
    requires i <= |s|
    ensures BracesFrom(s, i) == BracesFrom(s, Width(s, i).1)
  {
    if Decimal.IsDigit(At(s, i)) {
      DigitSpan(s, i);
    }
  }

  /** An accepted precision and closing brace hold no opening brace; the fill
      comes through unchanged. */
  lemma PrecisionSpan(s: string, i: nat, v: char, fill: char, align: char, width: int)
    requires Precision(s, i, v, fill, align, width).Some?
    ensures BracesFrom(s, i) == BracesFrom(s, Precision(s, i, v, fill, align, width).value.1)
    ensures Precision(s, i, v, fill, align, width).value.0.fill == fill
  {
    if At(s, i) == '.' {
      var k := MatchUnit(s, i + 1, 0).value;
      UnitNamePlain(k);
      NameSpan(s, i + 1, UnitName(k));
    }
  }

  /** A replacement, read from its variable letter on, holds one opening brace
      when its fill is one and none otherwise. */
  lemma ReplacementSpan(s: string, i: nat)
    requires ParseReplacement(s, i).Some?
    ensures var (rep, k) := ParseReplacement(s, i).value;
      BracesFrom(s, i) == (if rep.fill == '{' then 1 else 0) + BracesFrom(s, k)
  {
    var v := At(s, i);
    if At(s, i + 1) == ':' {
      var (fill, align, i1) := FillAlign(s, i + 2, v);
      var (width, i2) := Width(s, i1);
      FillAlignSpan(s, i + 2, v);
      WidthSpan(s, i1);
      PrecisionSpan(s, i2, v, fill, align, width);
    }
  }

  lemma CountsCons(t: string, rep: Part, tail: seq<Part>)
    requires rep.Replacement?
    ensures Replacements([Text(t), rep] + tail) == 1 + Replacements(tail)
    ensures BraceFills([Text(t), rep] + tail) == (if rep.fill == '{' then 1 else 0) + BraceFills(tail)
  {
    var ps := [Text(t), rep] + tail;
    assert ps[1..][1..] == tail;
  }

  /** From any index, the braces up to the terminator are the replacements
      parsed from there plus those whose fill is a brace. */
  lemma {:induction false} ParseFromBraces(s: string, i: nat)
    requires i <= |s| && ParseFrom(s, i).Some?
    ensures BracesFrom(s, i) == Replacements(ParseFrom(s, i).value) + BraceFills(ParseFrom(s, i).value)
    decreases |s| - i
  {
    var j := TextEnd(s, i);
    TextSpan(s, i);
    if At(s, j) != NUL {
      var (rep, k) := ParseReplacement(s, j + 1).value;
      ReplacementSpan(s, j + 1);
      ParseFromBraces(s, k);
      var tail := ParseFrom(s, k).value;
      ParseFromStep(s, i, j, rep, k, tail);
      CountsCons(Copy(s, i, j), rep, tail);
    }
  }

  /** Every opening brace of an accepted format opens a replacement or is the
      fill character of one. */
  lemma BracesOfAccepted(s: string)
    requires Parse(s).Some?
    ensures Braces(CStr(s)) == Replacements(Parse(s).value) + BraceFills(Parse(s).value)
  {
    ParseFromBraces(s, 0);
    BracesFromIsBraces(s, 0);
    assert s[0..] == s;
  }

  /** So there is one replacement per opening brace when no fill is a brace. */
  lemma OneReplacementPerBrace(s: string)
    requires Parse(s).Some? && BraceFills(Parse(s).value) == 0
    ensures Braces(CStr(s)) == Replacements(Parse(s).value)
  {
    BracesOfAccepted(s);
  }

  /** A brace used as a fill: two braces, one replacement. */
  lemma BraceAsFill()
    ensures Parse("{s:{<}") == Some([Text([]), Replacement('s', '{', '<', 0, 0, []), Text([])])
  {
    var s := "{s:{<}";
    var rep := Replacement('s', '{', '<', 0, 0, []);
    assert FieldLen(s, 3) == 2;
    assert FillAlign(s, 3, 's') == ('{', '<', 5);
    assert ParseReplacement(s, 1) == Some((rep, 6));
    assert ParseFrom(s, 6) == Some([Text([])]);
    ParseFromStep(s, 0, 0, rep, 6, [Text([])]);
    assert [Text(Copy(s, 0, 0)), rep] + [Text([])] == [Text([]), rep, Text([])];
  }

  /** The printer's side of the count: a printed well-formed list holds one
      opening brace per replacement plus one per brace fill. */
  lemma {:induction false} PrintedBraces(ps: seq<Part>)
    requires WellFormed(ps)
    ensures Braces(Print(ps)) == Replacements(ps) + BraceFills(ps)
    decreases |ps|
  {
    if |ps| == 1 {
      FormatRoundTrip.PrintSingle(ps);
      NoBraces(ps[0].text);
    } else {
      FormatRoundTrip.WellFormedTail(ps);
      FormatRoundTrip.PrintCons(ps);
      PrintedBraces(ps[2..]);
      NoBraces(ps[0].text);
      ReplacementBraces(ps[1]);
      BracesAppend(PrintPart(ps[1]), Print(ps[2..]));
      BracesAppend(ps[0].text, PrintPart(ps[1]) + Print(ps[2..]));
      CountsCons(ps[0].text, ps[1], ps[2..]);
      assert [Text(ps[0].text), ps[1]] + ps[2..] == ps;
    }
  }
}
