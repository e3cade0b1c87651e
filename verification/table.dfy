/** The per-severity table of assertion-message formats behind
    `std.env.set_assert_format` and `get_assert_format`: one optional parsed
    format for each severity level, Note to Failure. */
module FormatTable {
  import opened Wrappers
  import opened CStrings
  import opened FormatParts
  import opened FormatParse
  import opened FormatPrint
  import FormatRoundTrip

  /** Number of severity levels (`SEVERITY_FAILURE + 1`). */
  const Levels: nat := 4

  /** One entry per level; `None` is a level with no format of its own. */
  type Table = t: seq<Option<seq<Part>>> | |t| == Levels witness [None, None, None, None]

  /** The table before any format is set. */
  const Unset: Table := [None, None, None, None]

  /** Every stored format is one the parser produced. */
  predicate Stored(t: Table) {
    forall l :: 0 <= l < Levels && t[l].Some? ==> WellFormed(t[l].value)
  }

  /** `_std_env_set_assert_format_valid`: a format that parses replaces the
      level's entry and reports success; one that does not leaves the table as
      it was and reports failure. */
  function SetFormatValid(t: Table, level: nat, format: string): (r: (Table, bool))
    requires level < Levels
    ensures r.1 <==> Parse(format).Some?
    ensures !r.1 ==> r.0 == t
    ensures r.1 ==> r.0[level] == Parse(format)
    ensures forall l :: 0 <= l < Levels && l != level ==> r.0[l] == t[l]
  {
    match Parse(format)
    case None => (t, false)
    case Some(ps) => (t[level := Some(ps)], true)
  }

  /** `_std_env_set_assert_format`: as above, except that a format that does
      not parse is a fatal error naming the format. */
  function SetFormat(t: Table, level: nat, format: string): (r: Result<Table, string>)
    requires level < Levels
    ensures r.Failure? <==> Parse(format).None?
    ensures r.Failure? ==> r.error == "invalid assert format: " + CStr(format)
  {
    match Parse(format)
    case None => Failure("invalid assert format: " + CStr(format))
    case Some(ps) => Success(t[level := Some(ps)])
  }

  /** `_std_env_get_assert_format`: the level's format printed back, or the
      empty string when the level has none. */
  function GetFormat(t: Table, level: nat): (r: string)
    requires level < Levels
    ensures t[level].None? ==> r == []
    ensures t[level].Some? ==> |r| >= 6 * Replacements(t[level].value)
  {
    match t[level]
    case None => []
    case Some(ps) => Print(ps)
  }

  /** A level holding parser output reads back as a text that parses to that
      output, negative widths read as zero. */
  lemma GetFormatRoundTrip(t: Table, level: nat)
    requires level < Levels && t[level].Some? && WellFormed(t[level].value)
    ensures Parse(GetFormat(t, level)) == Some(Canon(t[level].value))
  {
    FormatRoundTrip.PrintParseRoundTrip(t[level].value);
  }

  /** Nothing is read back from a level with no format, in particular from
      any level of the table in which no format was set. */
  lemma UnsetReadsEmpty(t: Table, level: nat)
    requires level < Levels && t[level].None?
    ensures GetFormat(t, level) == []
    ensures GetFormat(Unset, level) == []
  {
  }

  /** The two setters agree whenever the format is accepted. */
  lemma SettersAgree(t: Table, level: nat, format: string)
    requires level < Levels
    ensures SetFormat(t, level, format).Success? <==> SetFormatValid(t, level, format).1
    ensures SetFormat(t, level, format).Success? ==>
              SetFormat(t, level, format).value == SetFormatValid(t, level, format).0
  {
  }

  /** Setting a level keeps every stored format one the parser produced. */
  lemma SetKeepsStored(t: Table, level: nat, format: string)
    requires level < Levels && Stored(t)
    ensures Stored(SetFormatValid(t, level, format).0)
  {
  }

  /** Reading back a level just set gives a format that parses to what was
      stored (up to negative widths, which read back as zero). */
  lemma GetAfterSet(t: Table, level: nat, format: string)
    requires level < Levels && Parse(format).Some?
    ensures GetFormat(SetFormatValid(t, level, format).0, level) == Print(Parse(format).value)
    ensures Parse(GetFormat(SetFormatValid(t, level, format).0, level)) == Some(Canon(Parse(format).value))
  {
    FormatRoundTrip.PrintParseRoundTrip(Parse(format).value);
  }

  /** Setting one level changes what no other level reads back. */
  lemma SetLeavesOtherLevels(t: Table, level: nat, other: nat, format: string)
    requires level < Levels && other < Levels && other != level
    ensures GetFormat(SetFormatValid(t, level, format).0, other) == GetFormat(t, other)
  {
  }

  /** Reading a level of a table of parser output and setting the text read
      back stores the same format again, whenever no width is negative. */
  lemma GetSetStable(t: Table, level: nat)
    requires level < Levels && Stored(t) && t[level].Some?
    requires forall k :: 0 <= k < |t[level].value| && t[level].value[k].Replacement? ==>
               t[level].value[k].width >= 0
    ensures SetFormatValid(t, level, GetFormat(t, level)) == (t, true)
  {
    var ps := t[level].value;
    FormatRoundTrip.PrintParseRoundTrip(ps);
    FormatRoundTrip.CanonFixed(ps);
    assert t[level := Some(ps)] == t;
  }
}
