/** What a report or a failed assertion prints: the stored format of its
    severity with every replacement substituted and padded (`apply_format`),
    or the default text when no format is set for that severity. */
module Render {
  import opened Wrappers
  import opened FormatParts
  import opened FormatParse
  import opened FormatPrint
  import opened FormatTable
  import opened Padding
  import Decimal
  import FormatRoundTrip
  import FormatProps
  import CStrings

  /** Severity levels, Note (0) to Failure (3). */
  type Severity = l: nat | l < Levels

  /** `get_severity_string`: a capitalised ASCII word. */
  function SeverityName(l: Severity): (r: string)
    ensures |r| > 0 && 'A' <= r[0] <= 'Z'
    ensures forall k :: 1 <= k < |r| ==> 'a' <= r[k] <= 'z'
  {
    ["Note", "Warning", "Error", "Failure"][l]
  }

  /** ASCII `tolower` and `toupper`, as the text buffer applies them. */
  function LowerChar(c: char): char {
    if 'A' <= c <= 'Z' then (c as int + 32) as char else c
  }

  function UpperChar(c: char): char {
    if 'a' <= c <= 'z' then (c as int - 32) as char else c
  }

  function Lower(s: string): (r: string)
    ensures |r| == |s|
    ensures forall k :: 0 <= k < |s| ==> r[k] == LowerChar(s[k])
  {
    if |s| == 0 then [] else [LowerChar(s[0])] + Lower(s[1..])
  }

  function Upper(s: string): (r: string)
    ensures |r| == |s|
    ensures forall k :: 0 <= k < |s| ==> r[k] == UpperChar(s[k])
  {
    if |s| == 0 then [] else [UpperChar(s[0])] + Upper(s[1..])
  }

  /** The simulation time is an unsigned 64-bit count of femtoseconds. */
  type Time = n: nat | n < 0x1_0000_0000_0000_0000

  /** The same bits read as a signed 64-bit integer, as `%PRIi64` prints them. */
  function AsInt64(now: Time): int {
    if now < 0x8000_0000_0000_0000 then now else now - 0x1_0000_0000_0000_0000
  }

  /** `%d` of a signed integer: a minus sign exactly for a negative number,
      then the decimal digits of its magnitude. */
  function SignedText(n: int): (r: string)
    ensures n < 0 ==> |r| > 1 && r[0] == '-' && Decimal.AllDigits(r[1..]) && Decimal.Value(r[1..]) == -n
    ensures n >= 0 ==> |r| > 0 && Decimal.AllDigits(r) && Decimal.Value(r) == n
  {
    if n < 0 then
      Decimal.TextIsNumeral(-n);
      assert ("-" + Decimal.Text(-n))[1..] == Decimal.Text(-n);
      "-" + Decimal.Text(-n)
    else
      Decimal.TextIsNumeral(n);
      Decimal.Text(n)
  }

  /** What the substitutions read from the running simulation: the current
      time, the instance path of the active process if there is one, and the
      `%.15g` rendering of a time divided by a unit, which is computed in
      floating point outside this model. */
  datatype Env = Env(now: Time, instance: Option<string>, scaled: (Time, nat) -> string)

  /** The text one replacement stands for, before padding: the message, the
      severity's name in lower or upper case, the time in femtoseconds (negative
      from 2^63 on, as the signed conversion reads it) or in the precision's
      unit, the instance path, or nothing for any other letter. */
  function Substitution(p: Part, severity: Severity, msg: string, env: Env): (r: string)
    requires p.Replacement?
    ensures p.variable == 'r' ==> r == msg
    ensures p.variable == 's' ==> r == ["note", "warning", "error", "failure"][severity]
    ensures p.variable == 'S' ==> r == ["NOTE", "WARNING", "ERROR", "FAILURE"][severity]
    ensures p.variable == 't' && p.precision == 0 ==> r == SignedText(AsInt64(env.now)) + " fs"
    ensures p.variable == 't' && p.precision == 0 ==>
      && |r| > 3 && r[|r| - 3..] == " fs"
      && (r[0] == '-' <==> env.now >= 0x8000_0000_0000_0000)
    ensures p.variable == 't' && p.precision > 0 ==>
      |r| > |p.units| && r[|r| - |p.units| - 1..] == " " + p.units
    ensures p.variable == 'i' && env.instance.None? ==> r == []
    ensures p.variable == 'i' && env.instance.Some? ==> r == env.instance.value
    ensures !IsVariable(p.variable) ==> r == []
  {
    match p.variable
    case 'r' => msg
    case 's' => SeverityLower(severity); Lower(SeverityName(severity))
    case 'S' => SeverityUpper(severity); Upper(SeverityName(severity))
    case 't' =>
      if p.precision == 0 then
        FemtosecondText(env.now);
        SignedText(AsInt64(env.now)) + " fs"
      else env.scaled(env.now, p.precision) + " " + p.units
    case 'i' => env.instance.GetOr([])
    case _ => []
  }

  /** The femtosecond count is written with its unit after it, and starts
      with a minus sign exactly when the signed conversion reads a time of
      2^63 or more. */
  lemma FemtosecondText(t: Time)
    ensures var r := SignedText(AsInt64(t)) + " fs";
      && |r| > 3 && r[|r| - 3..] == " fs"
      && (r[0] == '-' <==> t >= 0x8000_0000_0000_0000)
  {
    var digits := SignedText(AsInt64(t));
    assert (digits + " fs")[0] == digits[0];
  }

  /** One part as printed: the literal text as the printer writes it, or the
      substitution padded to a field as wide as the larger of the width and
      the substitution. */
  function RenderPart(p: Part, severity: Severity, msg: string, env: Env): (r: string)
    ensures p.Text? ==> r == PrintPart(p)
    ensures p.Replacement? && IsAlign(p.align) ==> |r| == Max(p.width, |Substitution(p, severity, msg, env)|)
  {
    if p.Text? then CStrings.CStr(p.text)
    else Pad(p.fill, p.align, p.width, Substitution(p, severity, msg, env))
  }

  /** `apply_format`: the parts printed one after the other; a list without
      replacements comes out as the printer writes it. */
  function RenderAll(ps: seq<Part>, severity: Severity, msg: string, env: Env): (r: string)
    ensures Replacements(ps) == 0 ==> r == Print(ps)
    decreases |ps|
  {
    if |ps| == 0 then [] else RenderPart(ps[0], severity, msg, env) + RenderAll(ps[1..], severity, msg, env)
  }

  /** `x_report`: the stored format of the severity, else "Report <Severity>: "
      followed by the message. */
  function ReportText(t: Table, severity: Severity, msg: string, env: Env): (r: string)
    ensures t[severity].None? ==> |r| > |msg| && r[|r| - |msg|..] == msg
  {
    match t[severity]
    case Some(ps) => RenderAll(ps, severity, msg, env)
    case None => "Report " + SeverityName(severity) + ": " + msg
  }

  /** `x_assert_fail` without the hint: the stored format of the severity;
      else, when there is no message, the default violation text (or the PSL
      one for a PSL assertion); else "Assertion <Severity>: " and the message. */
  function AssertText(t: Table, severity: Severity, msg: Option<string>, psl: bool, env: Env): (r: string)
    ensures t[severity].Some? ==> r == ReportText(t, severity, msg.GetOr([]), env)
    ensures t[severity].None? && msg.Some? ==> |r| > |msg.value| && r[|r| - |msg.value|..] == msg.value
  {
    match t[severity]
    case Some(ps) => RenderAll(ps, severity, msg.GetOr([]), env)
    case None =>
      match msg
      case None =>
        if psl then "PSL assertion failed"
        else "Assertion " + SeverityName(severity) + ": Assertion violation."
      case Some(m) => "Assertion " + SeverityName(severity) + ": " + m
  }

  /** The severity replacements spell the level's name in lower and upper
      case. */
  lemma SeverityLower(severity: Severity)
    ensures Lower(SeverityName(severity)) == ["note", "warning", "error", "failure"][severity]
  {
    if severity == 0 {
      NoteCase();
    } else if severity == 1 {
      WarningCase();
    } else if severity == 2 {
      ErrorCase();
    } else {
      FailureCase();
    }
  }

  lemma SeverityUpper(severity: Severity)
    ensures Upper(SeverityName(severity)) == ["NOTE", "WARNING", "ERROR", "FAILURE"][severity]
  {
    if severity == 0 {
      NoteCase();
    } else if severity == 1 {
      WarningCase();
    } else if severity == 2 {
      ErrorCase();
    } else {
      FailureCase();
    }
  }

  lemma NoteCase() ensures Lower("Note") == "note" && Upper("Note") == "NOTE" {}
  lemma WarningCase() ensures Lower("Warning") == "warning" && Upper("Warning") == "WARNING" {}
  lemma ErrorCase() ensures Lower("Error") == "error" && Upper("Error") == "ERROR" {}
  lemma FailureCase() ensures Lower("Failure") == "failure" && Upper("Failure") == "FAILURE" {}

  /** Rendering distributes over concatenation of part lists. */
  lemma {:induction false} RenderAppend(a: seq<Part>, b: seq<Part>, severity: Severity, msg: string, env: Env)
    ensures RenderAll(a + b, severity, msg, env) == RenderAll(a, severity, msg, env) + RenderAll(b, severity, msg, env)
    decreases |a|
  {
    if |a| == 0 {
      assert a + b == b;
    } else {
      assert (a + b)[0] == a[0] && (a + b)[1..] == a[1..] + b;
      RenderAppend(a[1..], b, severity, msg, env);
      RenderCons(a + b, severity, msg, env);
      RenderCons(a, severity, msg, env);
      Associative(RenderPart(a[0], severity, msg, env), RenderAll(a[1..], severity, msg, env),
                  RenderAll(b, severity, msg, env));
    }
  }

  /** Regrouping of three strings, stated apart so that the solver does not
      search for it among the rendering definitions. */
  lemma Associative(x: string, y: string, z: string)
    ensures x + (y + z) == (x + y) + z
  {
  }

  lemma RenderCons(ps: seq<Part>, severity: Severity, msg: string, env: Env)
    requires |ps| > 0
    ensures RenderAll(ps, severity, msg, env) == RenderPart(ps[0], severity, msg, env) + RenderAll(ps[1..], severity, msg, env)
  {
  }

  /** A replacement fills a field as wide as the larger of its width and its
      substitution, with the substitution at the aligned offset. */
  lemma FieldShape(p: Part, severity: Severity, msg: string, env: Env)
    requires WellFormedReplacement(p)
    ensures var sub := Substitution(p, severity, msg, env);
      && |RenderPart(p, severity, msg, env)| == Max(p.width, |sub|)
      && Surrounds(RenderPart(p, severity, msg, env), p.fill, sub, TextOffset(p.align, p.width, |sub|))
  {
    PadShape(p.fill, p.align, p.width, Substitution(p, severity, msg, env));
  }

  /** A negative width pads exactly like no width at all. */
  lemma NegativeWidthUnpadded(fill: char, align: char, width: int, text: string)
    requires width < 0
    ensures Pad(fill, align, width, text) == Pad(fill, align, 0, text)
  {
    assert PadCounts(align, width, |text|).0 <= 0 && PadCounts(align, width, |text|).1 <= 0;
    assert PadCounts(align, 0, |text|).0 <= 0 && PadCounts(align, 0, |text|).1 <= 0;
  }

  /** A part whose negative width the printer drops renders as before. */
  lemma RenderPartCanon(p: Part, severity: Severity, msg: string, env: Env)
    ensures RenderPart(CanonPart(p), severity, msg, env) == RenderPart(p, severity, msg, env)
  {
    if p.Replacement? && p.width < 0 {
      var sub := Substitution(p, severity, msg, env);
      assert Substitution(CanonPart(p), severity, msg, env) == sub;
      NegativeWidthUnpadded(p.fill, p.align, p.width, sub);
    }
  }

  /** The widths the printer drops change nothing in the output. */
  lemma {:induction false} RenderCanon(ps: seq<Part>, severity: Severity, msg: string, env: Env)
    ensures RenderAll(Canon(ps), severity, msg, env) == RenderAll(ps, severity, msg, env)
    decreases |ps|
  {
    if |ps| > 0 {
      RenderPartCanon(ps[0], severity, msg, env);
      assert Canon(ps)[1..] == Canon(ps[1..]);
      RenderCanon(ps[1..], severity, msg, env);
    }
  }

  /** Setting a valid format changes what a report of that severity prints to
      the new format's rendering, and nothing at any other severity. */
  lemma ReportAfterSet(t: Table, level: Severity, format: string, severity: Severity, msg: string, env: Env)
    requires Parse(format).Some?
    ensures var t' := SetFormatValid(t, level, format).0;
      ReportText(t', severity, msg, env)
        == if severity == level then RenderAll(Parse(format).value, severity, msg, env)
           else ReportText(t, severity, msg, env)
  {
  }

  /** Writing back the format read from a severity leaves every report of that
      severity exactly as it was. */
  lemma ReportAfterGetSet(t: Table, level: Severity, msg: string, env: Env)
    requires Stored(t) && t[level].Some?
    ensures SetFormatValid(t, level, GetFormat(t, level)).1
    ensures ReportText(SetFormatValid(t, level, GetFormat(t, level)).0, level, msg, env) == ReportText(t, level, msg, env)
  {
    var ps := t[level].value;
    FormatRoundTrip.PrintParseRoundTrip(ps);
    RenderCanon(ps, level, msg, env);
  }

  /** Once a severity has a format, reports and failed assertions of that
      severity both print it, whatever the default texts would have been. */
  lemma FormatOverridesDefaults(t: Table, severity: Severity, msg: string, psl: bool, env: Env)
    requires t[severity].Some?
    ensures AssertText(t, severity, Some(msg), psl, env) == ReportText(t, severity, msg, env)
    ensures AssertText(t, severity, None, psl, env) == ReportText(t, severity, [], env)
  {
  }

  /** A format without an opening brace is printed as it was set, up to its
      first NUL. */
  lemma PlainFormatVerbatim(t: Table, level: Severity, format: string, msg: string, env: Env)
    requires '{' !in CStrings.CStr(format)
    ensures SetFormatValid(t, level, format).1
    ensures ReportText(SetFormatValid(t, level, format).0, level, msg, env) == CStrings.CStr(format)
  {
    FormatProps.NoBraceSingleText(format);
    assert RenderAll([Text(CStrings.CStr(format))], level, msg, env) == CStrings.CStr(format) + [];
  }

  /** The format `{r}` prints the message and nothing else. */
  lemma MessageOnlyFormat(t: Table, level: Severity, msg: string, env: Env)
    ensures SetFormatValid(t, level, "{r}").1
    ensures ReportText(SetFormatValid(t, level, "{r}").0, level, msg, env) == msg
  {
    var s := "{r}";
    var rep := Replacement('r', ' ', '<', 0, 0, []);
    FormatProps.DefaultsWithoutSpec(s, 1);
    assert ParseFrom(s, 3) == Some([Text([])]);
    ParseFromStep(s, 0, 0, rep, 3, [Text([])]);
    assert [Text(CStrings.Copy(s, 0, 0)), rep] + [Text([])] == [Text([]), rep, Text([])];
    NarrowFieldUnpadded(' ', '<', 0, msg);
    assert RenderPart(rep, level, msg, env) == msg;
    var ps := [Text([]), rep, Text([])];
    assert ps[1..][1..] == [Text([])] && [Text([])][1..] == [];
    assert RenderAll(ps[1..][1..], level, msg, env) == [];
    assert RenderAll(ps, level, msg, env) == [] + (msg + []);
  }

  /** Literal text followed by `{r}` prints the text and then the message. */
  lemma MessageFormatRenders(text: string, severity: Severity, msg: string, env: Env)
    requires PlainText(text)
    ensures Parse(text + "{r}").Some?
    ensures RenderAll(Parse(text + "{r}").value, severity, msg, env) == text + msg
  {
    FormatProps.MessageAfterText(text);
    var rep := Replacement('r', ' ', '<', 0, 0, []);
    var ps := [Text(text), rep, Text([])];
    CStrings.CStrOfPlain(text, []);
    assert text + [] == text;
    NarrowFieldUnpadded(' ', '<', 0, msg);
    assert RenderPart(rep, severity, msg, env) == msg;
    assert ps[1..][1..] == [Text([])] && [Text([])][1..] == [];
    assert RenderAll(ps[1..][1..], severity, msg, env) == [];
    assert RenderAll(ps, severity, msg, env) == text + (msg + []);
  }

  /** The prefix before the message in a default text holds no brace or NUL. */
  lemma LabelPlain(word: string, severity: Severity)
    requires word == "Report " || word == "Assertion "
    ensures PlainText(word + SeverityName(severity) + ": ")
  {
    var name := SeverityName(severity);
    assert forall k :: 0 <= k < |name| ==> name[k] != '{' && name[k] != CStrings.NUL;
    assert '{' !in name && CStrings.NUL !in name;
  }

  /** The formats the default texts amount to: a report prints like
      "Report <Severity>: {r}"; a failed assertion with a message like
      "Assertion <Severity>: {r}", and without one like its fixed text. */
  function DefaultReportFormat(severity: Severity): string {
    "Report " + SeverityName(severity) + ": {r}"
  }

  function DefaultAssertFormat(severity: Severity, msg: Option<string>, psl: bool): string {
    if msg.Some? then "Assertion " + SeverityName(severity) + ": {r}"
    else if psl then "PSL assertion failed"
    else "Assertion " + SeverityName(severity) + ": Assertion violation."
  }

  /** A report at a severity without a format prints exactly what it would
      print with the default report format set. */
  lemma DefaultReportAsFormat(t: Table, severity: Severity, msg: string, env: Env)
    requires t[severity].None?
    ensures SetFormatValid(t, severity, DefaultReportFormat(severity)).1
    ensures ReportText(SetFormatValid(t, severity, DefaultReportFormat(severity)).0, severity, msg, env)
         == ReportText(t, severity, msg, env)
  {
    var prefix := "Report " + SeverityName(severity) + ": ";
    LabelPlain("Report ", severity);
    assert DefaultReportFormat(severity) == prefix + "{r}";
    MessageFormatRenders(prefix, severity, msg, env);
  }

  /** Likewise for a failed assertion, with or without a message. */
  lemma DefaultAssertAsFormat(t: Table, severity: Severity, msg: Option<string>, psl: bool, env: Env)
    requires t[severity].None?
    ensures SetFormatValid(t, severity, DefaultAssertFormat(severity, msg, psl)).1
    ensures AssertText(SetFormatValid(t, severity, DefaultAssertFormat(severity, msg, psl)).0, severity, msg, psl, env)
         == AssertText(t, severity, msg, psl, env)
  {
    if msg.Some? {
      DefaultAssertWithMessage(t, severity, msg.value, psl, env);
    } else {
      DefaultAssertWithoutMessage(t, severity, psl, env);
    }
  }

  lemma DefaultAssertWithMessage(t: Table, severity: Severity, msg: string, psl: bool, env: Env)
    requires t[severity].None?
    ensures var t' := SetFormatValid(t, severity, "Assertion " + SeverityName(severity) + ": {r}");
      && t'.1
      && AssertText(t'.0, severity, Some(msg), psl, env) == "Assertion " + SeverityName(severity) + ": " + msg
  {
    var prefix := "Assertion " + SeverityName(severity) + ": ";
    LabelPlain("Assertion ", severity);
    assert "Assertion " + SeverityName(severity) + ": {r}" == prefix + "{r}";
    MessageFormatRenders(prefix, severity, msg, env);
  }

  lemma DefaultAssertWithoutMessage(t: Table, severity: Severity, psl: bool, env: Env)
    requires t[severity].None?
    ensures var f := DefaultAssertFormat(severity, None, psl);
      && SetFormatValid(t, severity, f).1
      && AssertText(SetFormatValid(t, severity, f).0, severity, None, psl, env) == f
  {
    var f := DefaultAssertFormat(severity, None, psl);
    DefaultAssertPlain(severity, psl);
    CStrings.CStrOfPlain(f, []);
    assert f + [] == f;
    PlainFormatVerbatim(t, severity, f, [], env);
  }

  /** The fixed assertion texts hold no brace or NUL. */
  lemma DefaultAssertPlain(severity: Severity, psl: bool)
    ensures PlainText(DefaultAssertFormat(severity, None, psl))
  {
    FixedTextsPlain();
    if !psl {
      var prefix := "Assertion " + SeverityName(severity) + ": ";
      LabelPlain("Assertion ", severity);
      PlainConcat(prefix, "Assertion violation.");
    }
  }

  lemma FixedTextsPlain()
    ensures PlainText("PSL assertion failed") && PlainText("Assertion violation.")
  {
    PlainWords("PSL assertion failed");
    PlainWords("Assertion violation.");
  }

  /** Text made of letters, spaces and full stops is plain. */
  lemma PlainWords(text: string)
    requires forall k :: 0 <= k < |text| ==> 'A' <= text[k] <= 'z' || text[k] == ' ' || text[k] == '.'
    ensures PlainText(text)
  {
    assert forall k :: 0 <= k < |text| ==> text[k] != '{' && text[k] != CStrings.NUL;
  }

  lemma PlainConcat(a: string, b: string)
    requires PlainText(a) && PlainText(b)
    ensures PlainText(a + b)
  {
  }
}
