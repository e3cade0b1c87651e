/** Printing a part list and parsing the result again gives the list back;
    parsing a format and printing it gives a fixed point of print-then-parse.
    The lemmas read each printed piece at an arbitrary index of a longer
    string, which is where the parser meets it inside a whole format. */
module FormatRoundTrip {
  import opened Wrappers
  import opened CStrings
  import opened FormatParts
  import opened FormatParse
  import opened FormatPrint
  import Decimal

  /** Literal text stops at the brace or NUL that follows it. */
  lemma {:induction false} TextEndOfPlain(s: string, i: nat, t: string)
    requires SpellsAt(s, i, t) && PlainText(t)
    requires At(s, i + |t|) == '{' || At(s, i + |t|) == NUL
    ensures TextEnd(s, i) == i + |t|
    decreases |t|
  {
    if |t| > 0 {
      assert t[0] in t && forall c :: c in t[1..] ==> c in t;
      assert [t[0]] + t[1..] == t;
      SpellsConcat(s, i, [t[0]], t[1..]);
      assert At(s, i) == t[0];
      TextEndOfPlain(s, i + 1, t[1..]);
    }
  }

  lemma FieldOfPrinted(s: string, i: nat, fill: char, align: char, variable: char)
    requires i <= |s| && At(s, i) == fill && At(s, i + 1) == align
    requires fill != NUL && fill != '}' && IsAlign(align)
    ensures FillAlign(s, i, variable) == (fill, align, i + 2)
  {
    assert FieldLen(s, i) == 1 + FieldLen(s, i + 1) == 2 + FieldLen(s, i + 2);
  }

  /** A printed width reads back as itself; no width reads back as zero. */
  lemma WidthOfPrinted(s: string, i: nat, width: int)
    requires width <= Decimal.IntMax
    requires SpellsAt(s, i, WidthText(width))
    requires At(s, i + |WidthText(width)|) == '.' || At(s, i + |WidthText(width)|) == '}'
    ensures i <= |s|
    ensures Width(s, i) == (if width > 0 then width else 0, i + |WidthText(width)|)
  {
    var w := WidthText(width);
    if width > 0 {
      Decimal.TextIsNumeral(width);
      Decimal.DigitEndOfNumeral(s, i, w);
      Decimal.ValueAtOfNumeral(s, i, w);
      SpellsChar(s, i, w, 0);
    }
  }

  lemma {:induction false} NameAtOfName(s: string, i: nat, name: string)
    requires SpellsAt(s, i, name)
    ensures NameAt(s, i, name)
    decreases |name|
  {
    if |name| > 0 {
      assert [name[0]] + name[1..] == name;
      SpellsConcat(s, i, [name[0]], name[1..]);
      assert At(s, i) == name[0];
      NameAtOfName(s, i + 1, name[1..]);
    }
  }

  /** A unit name followed by the closing brace is not spelt by any earlier
      entry: "m" shares its first letter only with "ms" and "min", and "ms"
      needs an `s` where the brace stands. */
  lemma EarlierUnitsDoNotMatch(s: string, i: nat, j: nat, k: nat)
    requires j < k < UnitCount && k != MinAlias
    requires SpellsAt(s, i, UnitName(k) + "}")
    ensures !NameAt(s, i, UnitName(j))
  {
    SpellsChar(s, i, UnitName(k) + "}", 0);
    if UnitName(j)[0] == UnitName(k)[0] {
      SpellsChar(s, i, UnitName(k) + "}", 1);
    }
  }

  /** The unit named by the printer is the one the parser finds again. */
  lemma UnitOfPrinted(s: string, i: nat, k: nat)
    requires k < UnitCount && k != MinAlias
    requires SpellsAt(s, i, UnitName(k) + "}")
    ensures MatchUnit(s, i, 0) == Some(k)
  {
    SpellsConcat(s, i, UnitName(k), "}");
    NameAtOfName(s, i, UnitName(k));
    forall j | 0 <= j < k
      ensures !NameAt(s, i, UnitName(j))
    {
      EarlierUnitsDoNotMatch(s, i, j, k);
    }
    MatchUnitFindsFrom(s, i, 0, k);
  }

  /** The scan returns an entry that is spelt when no earlier one is. */
  lemma {:induction false} MatchUnitFindsFrom(s: string, i: nat, m: nat, k: nat)
    requires m <= k < UnitCount && NameAt(s, i, UnitName(k))
    requires forall j :: m <= j < k ==> !NameAt(s, i, UnitName(j))
    ensures MatchUnit(s, i, m) == Some(k)
    decreases k - m
  {
    if m < k {
      MatchUnitFindsFrom(s, i, m + 1, k);
    }
  }

  /** The printer names the first table entry with a given value, never the alias. */
  lemma PrintedUnitNotAlias(precision: nat)
    requires UnitFor(precision).Some?
    ensures UnitFor(precision).value != MinAlias
  {
    assert UnitValue(MinAlias - 1) == UnitValue(MinAlias);
  }

  lemma PrecisionOfPrinted(s: string, i: nat, p: Part, width: int)
    requires WellFormedReplacement(p)
    requires SpellsAt(s, i, PrecisionText(p.precision) + "}")
    ensures Precision(s, i, p.variable, p.fill, p.align, width)
         == Some((p.(width := width), i + |PrecisionText(p.precision)| + 1))
  {
    var pr := PrecisionText(p.precision);
    if p.precision == 0 {
      SpellsChar(s, i, pr + "}", 0);
    } else {
      var k := UnitFor(p.precision).value;
      var name := UnitName(k);
      PrintedUnitNotAlias(p.precision);
      assert pr + "}" == "." + (name + "}");
      SpellsConcat(s, i, ".", name + "}");
      SpellsChar(s, i, ".", 0);
      UnitOfPrinted(s, i + 1, k);
      SpellsChar(s, i + 1, name + "}", |name|);
      assert p.(width := width) == Replacement(p.variable, p.fill, p.align, width, UnitValue(k), name);
    }
  }

  /** The pieces of a printed replacement. */
  lemma PrintedPieces(p: Part)
    requires p.Replacement?
    ensures PrintPart(p) == ['{', p.variable, ':', p.fill, p.align] + (WidthText(p.width) + (PrecisionText(p.precision) + "}"))
  {
  }

  /** A replacement whose variable is followed by a colon is its specification. */
  lemma ReplacementWithSpec(s: string, i: nat)
    requires i + 2 <= |s| && IsVariable(s[i]) && s[i + 1] == ':'
    ensures ParseReplacement(s, i) == ParseSpec(s, i + 2, s[i])
  {
  }

  /** ParseSpec is its three stages in sequence. */
  lemma SpecStages(s: string, i: nat, v: char, fill: char, align: char, i1: nat, width: int, i2: nat)
    requires i <= |s| && i1 <= |s|
    requires FillAlign(s, i, v) == (fill, align, i1)
    requires Width(s, i1) == (width, i2)
    ensures ParseSpec(s, i, v) == Precision(s, i2, v, fill, align, width)
  {
  }

  /** Where the pieces of a printed replacement lie. */
  lemma ReplacementPieces(s: string, i: nat, v: char, fill: char, align: char, w: string, pr: string)
    requires SpellsAt(s, i, ['{', v, ':', fill, align] + (w + (pr + "}")))
    ensures i + 5 <= |s|
    ensures At(s, i + 1) == v && At(s, i + 2) == ':' && At(s, i + 3) == fill && At(s, i + 4) == align
    ensures SpellsAt(s, i + 5, w) && SpellsAt(s, i + 5 + |w|, pr + "}")
  {
    var head: string := ['{', v, ':', fill, align];
    SpellsConcat(s, i, head, w + (pr + "}"));
    SpellsConcat(s, i + 5, w, pr + "}");
    SpellsChar(s, i, head, 1);
    SpellsChar(s, i, head, 2);
    SpellsChar(s, i, head, 3);
    SpellsChar(s, i, head, 4);
  }

  /** The variable, the colon, the fill and the alignment of a printed
      replacement read back as themselves. */
  lemma HeadOfPrinted(s: string, i: nat, p: Part)
    requires p.Replacement? && p.fill != NUL && p.fill != '}' && IsAlign(p.align)
    requires SpellsAt(s, i, PrintPart(p))
    ensures i + 5 <= |s| && At(s, i + 1) == p.variable && At(s, i + 2) == ':'
    ensures FillAlign(s, i + 3, p.variable) == (p.fill, p.align, i + 5)
  {
    PrintedPieces(p);
    ReplacementPieces(s, i, p.variable, p.fill, p.align, WidthText(p.width), PrecisionText(p.precision));
    FieldOfPrinted(s, i + 3, p.fill, p.align, p.variable);
  }

  /** The printed width of a replacement reads back, zero when none is printed. */
  lemma WidthOfPrintedPart(s: string, i: nat, p: Part)
    requires p.Replacement? && p.width <= Decimal.IntMax
    requires SpellsAt(s, i, PrintPart(p))
    ensures Width(s, i + 5) == (CanonPart(p).width, i + 5 + |WidthText(p.width)|)
  {
    var w := WidthText(p.width);
    var pr := PrecisionText(p.precision);
    PrintedPieces(p);
    ReplacementPieces(s, i, p.variable, p.fill, p.align, w, pr);
    SpellsChar(s, i + 5 + |w|, pr + "}", 0);
    WidthOfPrinted(s, i + 5, p.width);
  }

  /** The printed precision of a replacement reads back, and so does the
      closing brace after it. */
  lemma PrecisionOfPrintedPart(s: string, i: nat, p: Part)
    requires WellFormedReplacement(p)
    requires SpellsAt(s, i, PrintPart(p))
    ensures Precision(s, i + 5 + |WidthText(p.width)|, p.variable, p.fill, p.align, CanonPart(p).width)
         == Some((CanonPart(p), i + |PrintPart(p)|))
  {
    var w := WidthText(p.width);
    PrintedPieces(p);
    ReplacementPieces(s, i, p.variable, p.fill, p.align, w, PrecisionText(p.precision));
    PrecisionOfPrinted(s, i + 5 + |w|, p, CanonPart(p).width);
  }

  /** The replacement parser is its stages in sequence. */
  lemma ReplacementStages(s: string, i: nat, p: Part, width: int, iw: nat, r: Option<(Part, nat)>)
    requires p.Replacement? && IsVariable(p.variable)
    requires i + 4 <= |s| && At(s, i) == p.variable && At(s, i + 1) == ':'
    requires FillAlign(s, i + 2, p.variable) == (p.fill, p.align, i + 4)
    requires Width(s, i + 4) == (width, iw)
    requires Precision(s, iw, p.variable, p.fill, p.align, width) == r
    ensures ParseReplacement(s, i) == r
  {
    ReplacementWithSpec(s, i);
    SpecStages(s, i + 2, p.variable, p.fill, p.align, i + 4, width, iw);
  }

  /** A well-formed replacement printed at index `i` parses back to itself (a
      negative width coming back as zero) and ends where its printed form ends. */
  lemma ReplacementRoundTrip(s: string, i: nat, p: Part)
    requires WellFormedReplacement(p)
    requires SpellsAt(s, i, PrintPart(p))
    ensures ParseReplacement(s, i + 1) == Some((CanonPart(p), i + |PrintPart(p)|))
  {
    var j, iw, r := i + 1, i + 5 + |WidthText(p.width)|, Some((CanonPart(p), i + |PrintPart(p)|));
    HeadOfPrinted(s, i, p);
    assert j + 4 <= |s| && At(s, j) == p.variable && At(s, j + 1) == ':';
    assert FillAlign(s, j + 2, p.variable) == (p.fill, p.align, j + 4);
    WidthOfPrintedPart(s, i, p);
    assert Width(s, j + 4) == (CanonPart(p).width, iw);
    PrecisionOfPrintedPart(s, i, p);
    ReplacementStages(s, j, p, CanonPart(p).width, iw, r);
  }

  lemma ParseFromEnd(s: string, i: nat, j: nat)
    requires i <= |s| && TextEnd(s, i) == j && At(s, j) == NUL
    ensures ParseFrom(s, i) == Some([Text(Copy(s, i, j))])
  {
  }

  /** A printed well-formed list that runs to the end of the string is laid out. */
  lemma {:induction false} LaidOfPrinted(s: string, i: nat, ps: seq<Part>)
    requires WellFormed(ps)
    requires SpellsAt(s, i, Print(ps))
    requires i + |Print(ps)| == |s|
    ensures Laid(s, i, ps)
    decreases |ps|
  {
    if |ps| == 1 {
      PrintSingle(ps);
    } else {
      WellFormedTail(ps);
      PrintCons(ps);
      SpellsSplit(s, i, ps[0].text, PrintPart(ps[1]), Print(ps[2..]));
      LaidOfPrinted(s, i + |ps[0].text| + |PrintPart(ps[1])|, ps[2..]);
      LaidStep(s, i, ps);
    }
  }

  /** A well-formed list longer than one part continues with a well-formed list. */
  lemma WellFormedTail(ps: seq<Part>)
    requires WellFormed(ps) && |ps| > 1
    ensures |ps| > 2 && ps[0].Text? && WellFormed(ps[2..])
  {
  }

  /** Where the first text, the first replacement and the rest of a printed
      list lie. */
  lemma SpellsSplit(s: string, i: nat, t: string, printed: string, rest: string)
    requires SpellsAt(s, i, t + (printed + rest)) && i + |t + (printed + rest)| == |s|
    ensures SpellsAt(s, i, t) && SpellsAt(s, i + |t|, printed) && SpellsAt(s, i + |t| + |printed|, rest)
    ensures i + |t| + |printed| + |rest| == |s|
  {
    SpellsConcat(s, i, t, printed + rest);
    SpellsConcat(s, i + |t|, printed, rest);
  }

  lemma LaidStep(s: string, i: nat, ps: seq<Part>)
    requires |ps| > 2 && ps[0].Text?
    requires SpellsAt(s, i, ps[0].text)
    requires SpellsAt(s, i + |ps[0].text|, PrintPart(ps[1]))
    requires Laid(s, i + |ps[0].text| + |PrintPart(ps[1])|, ps[2..])
    ensures Laid(s, i, ps)
  {
  }

  /** The parse of a laid-out list, by induction on the list. */
  lemma {:induction false} ParseFromLaid(s: string, i: nat, ps: seq<Part>)
    requires WellFormed(ps) && Laid(s, i, ps)
    ensures i <= |s|
    ensures ParseFrom(s, i) == Some(Canon(ps))
    decreases |ps|
  {
    if |ps| == 1 {
      LaidSingle(s, i, ps);
    } else {
      LaidTail(s, i, ps);
      ParseFromLaid(s, i + |ps[0].text| + |PrintPart(ps[1])|, ps[2..]);
      LaidCons(s, i, ps);
    }
  }

  /** The rest of a laid-out well-formed list is again well formed and laid
      out, after the first text and the first replacement. */
  lemma LaidTail(s: string, i: nat, ps: seq<Part>)
    requires WellFormed(ps) && Laid(s, i, ps) && |ps| > 1
    ensures |ps| > 2 && ps[1].Replacement?
    ensures WellFormed(ps[2..]) && Laid(s, i + |ps[0].text| + |PrintPart(ps[1])|, ps[2..])
  {
  }

  lemma LaidSingle(s: string, i: nat, ps: seq<Part>)
    requires WellFormed(ps) && Laid(s, i, ps) && |ps| == 1
    ensures i <= |s|
    ensures ParseFrom(s, i) == Some(Canon(ps))
  {
    var t := ps[0].text;
    TextEndOfPlain(s, i, t);
    CopyOfSpelt(s, i, t);
    ParseFromEnd(s, i, i + |t|);
    PrintSingle(ps);
  }

  lemma LaidCons(s: string, i: nat, ps: seq<Part>)
    requires WellFormed(ps) && Laid(s, i, ps) && |ps| > 1
    requires i + |ps[0].text| + |PrintPart(ps[1])| <= |s|
    requires ParseFrom(s, i + |ps[0].text| + |PrintPart(ps[1])|) == Some(Canon(ps[2..]))
    ensures i <= |s|
    ensures ParseFrom(s, i) == Some(Canon(ps))
  {
    LaidConsParts(s, i, ps[0].text, ps[1], Canon(ps[2..]));
    CanonCons(ps);
  }

  /** Literal text, then a printed replacement, then whatever parses to `tail`. */
  lemma LaidConsParts(s: string, i: nat, t: string, rep: Part, tail: seq<Part>)
    requires PlainText(t) && WellFormedReplacement(rep)
    requires SpellsAt(s, i, t) && SpellsAt(s, i + |t|, PrintPart(rep))
    requires i + |t| + |PrintPart(rep)| <= |s|
    requires ParseFrom(s, i + |t| + |PrintPart(rep)|) == Some(tail)
    ensures ParseFrom(s, i) == Some([Text(t), CanonPart(rep)] + tail)
  {
    var printed := PrintPart(rep);
    var j := i + |t|;
    PrintedOpens(rep);
    SpellsChar(s, j, printed, 0);
    TextEndOfPlain(s, i, t);
    CopyOfSpelt(s, i, t);
    ReplacementRoundTrip(s, j, rep);
    ParseFromStep(s, i, j, CanonPart(rep), j + |printed|, tail);
  }

  lemma PrintedOpens(p: Part)
    requires p.Replacement?
    ensures |PrintPart(p)| > 0 && PrintPart(p)[0] == '{'
  {
  }

  /** Print-then-parse is the identity on well-formed lists, up to negative
      widths, which come back as zero. */
  lemma PrintParseRoundTrip(ps: seq<Part>)
    requires WellFormed(ps)
    ensures Parse(Print(ps)) == Some(Canon(ps))
  {
    SpellsSuffix(Print(ps), 0);
    assert Print(ps)[0..] == Print(ps);
    LaidOfPrinted(Print(ps), 0, ps);
    ParseFromLaid(Print(ps), 0, ps);
  }

  lemma PrintSingle(ps: seq<Part>)
    requires WellFormed(ps) && |ps| == 1
    ensures Print(ps) == ps[0].text
    ensures Canon(ps) == [Text(ps[0].text)]
  {
    CStrOfPlain(ps[0].text, []);
    assert ps[0].text + [] == ps[0].text;
  }

  lemma PrintCons(ps: seq<Part>)
    requires WellFormed(ps) && |ps| > 1
    ensures Print(ps) == ps[0].text + (PrintPart(ps[1]) + Print(ps[2..]))
    ensures PrintPart(ps[1])[0] == '{'
  {
    CStrOfPlain(ps[0].text, []);
    assert ps[0].text + [] == ps[0].text;
    assert ps[1..][1..] == ps[2..];
  }

  lemma CanonCons(ps: seq<Part>)
    requires |ps| > 1 && ps[0].Text?
    ensures Canon(ps) == [Text(ps[0].text), CanonPart(ps[1])] + Canon(ps[2..])
  {
    assert ps[1..][1..] == ps[2..];
  }

  lemma {:induction false} PrintCanon(ps: seq<Part>)
    ensures Print(Canon(ps)) == Print(ps)
    decreases |ps|
  {
    if |ps| > 0 {
      assert Canon(ps)[1..] == Canon(ps[1..]);
      PrintCanon(ps[1..]);
    }
  }

  lemma {:induction false} CanonFixed(ps: seq<Part>)
    requires forall k :: 0 <= k < |ps| && ps[k].Replacement? ==> ps[k].width >= 0
    ensures Canon(ps) == ps
    decreases |ps|
  {
    if |ps| > 0 {
      assert ps[0].Replacement? ==> ps[0].width >= 0;
      assert forall k :: 0 <= k < |ps[1..]| ==> ps[1..][k] == ps[k + 1];
      CanonFixed(ps[1..]);
      assert [ps[0]] + ps[1..] == ps;
    }
  }

  /** Reading back any accepted format gives a format that is accepted again and
      prints identically: print-then-parse is idempotent on what the parser
      produces. */
  lemma ReprintStable(s: string, ps: seq<Part>)
    requires Parse(s) == Some(ps)
    ensures Parse(Print(ps)).Some?
    ensures Print(Parse(Print(ps)).value) == Print(ps)
  {
    PrintParseRoundTrip(ps);
    PrintCanon(ps);
  }

  /** When no width in an accepted format is negative, printing and parsing
      again gives exactly the same list. */
  lemma ParsePrintParse(s: string, ps: seq<Part>)
    requires Parse(s) == Some(ps)
    requires forall k :: 0 <= k < |ps| && ps[k].Replacement? ==> ps[k].width >= 0
    ensures Parse(Print(ps)) == Some(ps)
  {
    PrintParseRoundTrip(ps);
    CanonFixed(ps);
  }
}
