/** What the parser accepts and rejects, stated about whole formats and about
    the single replacement at a given index. */
module FormatProps {
  import opened Wrappers
  import opened CStrings
  import opened FormatParts
  import opened FormatParse
  import FormatRoundTrip

  /** A character other than `s`, `S`, `r`, `t` or `i` right after the
      opening brace that ends the literal text at index `i` rejects the
      remainder from `i`. */
  lemma BadVariableRejected(s: string, i: nat)
    requires i <= |s|
    requires At(s, TextEnd(s, i)) == '{' && !IsVariable(At(s, TextEnd(s, i) + 1))
    ensures ParseFrom(s, i) == None
  {
  }

  /** A format ending in a lone opening brace is rejected, whatever precedes
      it: the terminator is read where a variable must be. */
  lemma TrailingBraceRejected(t: string)
    requires NUL !in t
    ensures Parse(t + "{") == None
  {
    TrailingBraceFrom(t + "{", 0);
  }

  /** From any index before a trailing opening brace, the parse fails: every
      replacement it reads closes before that brace, which then opens one that
      the end of the string cuts short. */
  lemma {:induction false} TrailingBraceFrom(s: string, i: nat)
    requires i < |s| && s[|s| - 1] == '{' && NUL !in s
    ensures ParseFrom(s, i) == None
    decreases |s| - i
  {
    var j := TextEnd(s, i);
    TextEndBeforeLast(s, i);
    assert At(s, j) == s[j] && s[j] in s;
    var r := ParseReplacement(s, j + 1);
    if r.Some? {
      var k := r.value.1;
      assert s[k - 1] == '}';
      TrailingBraceFrom(s, k);
    }
  }

  /** The literal text ends before the last character when that one is an
      opening brace. */
  lemma {:induction false} TextEndBeforeLast(s: string, i: nat)
    requires i < |s| && s[|s| - 1] == '{'
    ensures TextEnd(s, i) < |s|
    decreases |s| - i
  {
    if At(s, i) != '{' && At(s, i) != NUL {
      TextEndBeforeLast(s, i + 1);
    }
  }

  /** `{v}` gets the defaults: a space fill, `>` for `t` and `<` for every
      other variable, no width and no precision. */
  lemma DefaultsWithoutSpec(s: string, i: nat)
    requires IsVariable(At(s, i)) && At(s, i + 1) == '}'
    ensures ParseReplacement(s, i)
         == Some((Replacement(At(s, i), ' ', if At(s, i) == 't' then '>' else '<', 0, 0, []), i + 2))
  {
  }

  /** An empty specification, `{v:}`, gets the same defaults. */
  lemma DefaultsWithEmptySpec(s: string, i: nat)
    requires IsVariable(At(s, i)) && At(s, i + 1) == ':' && At(s, i + 2) == '}'
    ensures ParseReplacement(s, i)
         == Some((Replacement(At(s, i), ' ', if At(s, i) == 't' then '>' else '<', 0, 0, []), i + 3))
  {
    assert FieldLen(s, i + 2) == 0;
  }

  /** Without a specification, anything but the closing brace after the
      variable rejects the replacement. */
  lemma CloseRequiredAfterVariable(s: string, i: nat)
    requires At(s, i + 1) != ':' && At(s, i + 1) != '}'
    ensures ParseReplacement(s, i) == None
  {
  }

  /** After the fill, alignment and width, only a precision or the closing
      brace may follow. */
  lemma CloseRequiredAfterWidth(s: string, i: nat, v: char)
    requires i <= |s|
    ensures var (fill, align, i1) := FillAlign(s, i, v);
            var (width, i2) := Width(s, i1);
            At(s, i2) != '.' && At(s, i2) != '}' ==> ParseSpec(s, i, v) == None
  {
  }

  /** A precision is accepted exactly when some unit name is spelt after the
      dot, the variable is `t`, and the closing brace follows the first unit
      name spelt there. */
  lemma PrecisionAccepted(s: string, i: nat, v: char, fill: char, align: char, width: int)
    requires At(s, i) == '.'
    ensures Precision(s, i, v, fill, align, width).Some?
        <==> && MatchUnit(s, i + 1, 0).Some?
             && v == 't'
             && At(s, i + 1 + |UnitName(MatchUnit(s, i + 1, 0).value)|) == '}'
  {
  }

  /** The unit an accepted precision records is the first entry of the table
      whose name is spelt after the dot. */
  lemma PrecisionTakesFirstUnit(s: string, i: nat, v: char, fill: char, align: char, width: int, k: nat)
    requires At(s, i) == '.' && k < UnitCount
    requires Precision(s, i, v, fill, align, width).Some?
    requires Precision(s, i, v, fill, align, width).value.0.units == UnitName(k)
    ensures NameAt(s, i + 1, UnitName(k))
    ensures forall j :: 0 <= j < k ==> !NameAt(s, i + 1, UnitName(j))
  {
    var m := MatchUnit(s, i + 1, 0).value;
    UnitNamesDistinct(m, k);
    forall j | 0 <= j < k
      ensures !NameAt(s, i + 1, UnitName(j))
    {
      MatchUnitIsFirst(s, i + 1, 0, j);
    }
  }

  lemma UnitNamesDistinct(m: nat, k: nat)
    requires m < UnitCount && k < UnitCount && UnitName(m) == UnitName(k)
    ensures m == k
  {
    assert UnitName(m)[|UnitName(m)| - 1] == UnitName(k)[|UnitName(k)| - 1];
  }

  /** `{t:.unit}`: a precision straight after the colon keeps the default
      fill, alignment and width. */
  lemma BarePrecision(s: string, i: nat)
    requires At(s, i) == 't' && At(s, i + 1) == ':' && At(s, i + 2) == '.'
    requires MatchUnit(s, i + 3, 0).Some?
    ensures ParseReplacement(s, i) == Precision(s, i + 2, 't', ' ', '>', 0)
  {
    var k := MatchUnit(s, i + 3, 0).value;
    assert UnitName(k)[0] == At(s, i + 3);
    assert FillAlign(s, i + 2, 't') == (' ', '>', i + 2);
  }

  /** "ms" resolves to milliseconds, not to minutes followed by a stray "s". */
  lemma MillisecondsBeforeMinutes()
    ensures Parse("{t:.ms}") == Some([Text([]), Replacement('t', ' ', '>', 0, 1_000_000_000_000, "ms"), Text([])])
  {
    var s := "{t:.ms}";
    SpellsSuffix(s, 4);
    assert s[4..] == UnitName(4) + "}";
    FormatRoundTrip.UnitOfPrinted(s, 4, 4);
    BarePrecision(s, 1);
    var rep := Replacement('t', ' ', '>', 0, 1_000_000_000_000, "ms");
    assert Precision(s, 3, 't', ' ', '>', 0) == Some((rep, 7));
    assert TextEnd(s, 0) == 0;
    assert ParseFrom(s, 7) == Some([Text([])]);
    ParseFromStep(s, 0, 0, rep, 7, [Text([])]);
    assert [Text(Copy(s, 0, 0)), rep] + [Text([])] == [Text([]), rep, Text([])];
  }

  /** "min" is shadowed by "m": the scan stops at "m" and then finds "i" where
      the closing brace must be. */
  lemma MinutesAliasShadowed()
    ensures Parse("{t:.min}") == None
  {
    var s := "{t:.min}";
    assert NameAt(s, 4, UnitName(6));
    FormatRoundTrip.MatchUnitFindsFrom(s, 4, 0, 6);
    BarePrecision(s, 1);
  }

  /** A precision whose name is no entry of the unit table is rejected. */
  lemma UnknownUnitRejected(s: string, i: nat, v: char, fill: char, align: char, width: int)
    requires At(s, i) == '.'
    requires forall k :: 0 <= k < UnitCount ==> !NameAt(s, i + 1, UnitName(k))
    ensures Precision(s, i, v, fill, align, width) == None
  {
  }

  /** So `{t:.xs}` is rejected as a whole. */
  lemma UnknownUnitExample()
    ensures Parse("{t:.xs}") == None
  {
    var s := "{t:.xs}";
    assert FillAlign(s, 3, 't') == (' ', '>', 3);
  }

  /** A precision is rejected on any variable other than `t`, whatever unit
      it names. */
  lemma PrecisionOnlyForTime(s: string, i: nat, v: char, fill: char, align: char, width: int)
    requires At(s, i) == '.' && v != 't'
    ensures Precision(s, i, v, fill, align, width) == None
  {
  }

  /** So `{s:.ns}` is rejected although "ns" is a unit. */
  lemma PrecisionOnSeverityExample()
    ensures Parse("{s:.ns}") == None
  {
    var s := "{s:.ns}";
    assert FillAlign(s, 3, 's') == (' ', '<', 3);
    PrecisionOnlyForTime(s, 3, 's', ' ', '<', 0);
  }

  /** Without an opening brace, the literal text runs to the terminator. */
  lemma {:induction false} TextEndWithoutBrace(s: string, i: nat)
    requires i <= |CStr(s)|
    requires forall k :: i <= k < |CStr(s)| ==> CStr(s)[k] != '{'
    ensures TextEnd(s, i) == |CStr(s)|
    decreases |CStr(s)| - i
  {
    var c := CStr(s);
    if i < |c| {
      assert c[i] == s[i] && c[i] in c;
      TextEndWithoutBrace(s, i + 1);
    }
  }

  /** A format without an opening brace is one text part: its C string. */
  lemma NoBraceSingleText(s: string)
    requires '{' !in CStr(s)
    ensures Parse(s) == Some([Text(CStr(s))])
  {
    var c := CStr(s);
    forall k | 0 <= k < |c|
      ensures c[k] != '{'
    {
      assert c[k] in c;
    }
    TextEndWithoutBrace(s, 0);
    SpellsSuffix(s, 0);
    assert s[0..] == c + s[|c|..];
    SpellsConcat(s, 0, c, s[|c|..]);
    CopyOfSpelt(s, 0, c);
  }

  /** Literal text followed by `{r}` parses to the text, a default message
      replacement and an empty tail. */
  lemma MessageAfterText(t: string)
    requires PlainText(t)
    ensures Parse(t + "{r}") == Some([Text(t), Replacement('r', ' ', '<', 0, 0, []), Text([])])
  {
    var s := t + "{r}";
    var rep := Replacement('r', ' ', '<', 0, 0, []);
    SpellsSuffix(s, 0);
    assert s[0..] == t + "{r}";
    SpellsConcat(s, 0, t, "{r}");
    SpellsChar(s, |t|, "{r}", 0);
    FormatRoundTrip.TextEndOfPlain(s, 0, t);
    CopyOfSpelt(s, 0, t);
    assert s[|t| + 1] == 'r' && s[|t| + 2] == '}';
    DefaultsWithoutSpec(s, |t| + 1);
    assert TextEnd(s, |s|) == |s|;
    assert ParseFrom(s, |t| + 3) == Some([Text([])]);
    ParseFromStep(s, 0, |t|, rep, |t| + 3, [Text([])]);
    assert [Text(Copy(s, 0, |t|)), rep] + [Text([])] == [Text(t), rep, Text([])];
  }
}
