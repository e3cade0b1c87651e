# Assertion-message formats of the nvc runtime

This project models the small format language that nvc's runtime offers through
VHDL-2019's `std.env.set_assert_format` and `get_assert_format`
(`src/rt/assert.c`). A format such as `{t:*^12.ns} {s}: {r}` mixes literal text
with replacements. Each replacement is a variable letter and an optional
specification of fill character, alignment, width and time unit:

- `r` is the message;
- `s` and `S` are the severity in lower and upper case;
- `t` is the simulation time;
- `i` is the instance path.

The model covers these parts of the file:

- the parser `check_format`, with its table of time units;
- the printer that `_std_env_get_assert_format` uses to write a stored format back;
- the per-severity table of formats and its three entry points;
- `get_severity_string`;
- the substitution and padding of `apply_format`;
- the default texts of `x_report` and `x_assert_fail`.

The model is functional. A parsed format is a `seq<Part>` (the source's linked
list). The table is a four-entry `seq<Option<seq<Part>>>`, and rendering is a
pure function of the table, the severity, the message and an environment value.

The parser reads its input the way the C code reads a pointer. `CStrings.At`
yields NUL past the end, so an embedded NUL ends the format, as
`null_terminate` followed by `while (*p)` does. Every parsing function takes
the index the C pointer would hold.

The C input is a byte string (`const uint8_t *` over a VHDL `string`, whose
characters are Latin-1). Only characters below 256 therefore occur in it, and
one model character stands for one C `char`: a look-ahead such as
`FormatParse.FillAlign` reading the character after the fill (`p[1]` in the
source) reads the same position as the C code.

The width is modelled as the C code stores it on an LP64 target, the only
target modelled. `strtol` saturates at `LONG_MAX`, and the assignment to an
`int` field keeps the low 32 bits (`Decimal.StoreWidth`). A very long width can therefore be stored
as a negative number. The printer omits widths that are not positive, so the
round trip is stated up to `FormatParts.Canon`, which turns negative widths
into zero. `Render.RenderCanon` shows that this changes nothing in the output,
because in the model a negative width pads exactly like none. In the C code
this holds only while `width - tlen` stays within `int`; see "Left out".

The unit table lists "m" (minutes) before the non-standard alias "min". The
parser takes the first name that is a prefix of the input, so it always stops
at "m", and `{t:.min}` is rejected because 'i' stands where the closing brace
must be. The printer likewise never names the alias. The model keeps this
behaviour and proves it (`FormatProps.MinutesAliasShadowed`,
`FormatParse.MatchNeverAlias`).

A brace can be a fill character (`{s:{<}`). A format can therefore hold more
opening braces than replacements. `BraceCount.BracesOfAccepted` gives the
exact count: replacements plus replacements whose fill is a brace.

## Model

| member | source | states |
|---|---|---|
| CStrings.CStr | src/rt/assert.c:195-196 | the text the parser sees is the longest NUL-free prefix of the format, ending at the first NUL or at the end |
| Decimal.TextIsNumeral | src/rt/assert.c:243-244 | `%d` of a number writes digits only, with no leading zero, that denote that number |
| Decimal.DigitEndOfNumeral | src/rt/assert.c:141-142 | `strtol` stops just after a run of digits followed by a non-digit |
| Decimal.StoreWidth | src/rt/assert.c:142 | the stored width is in `int` range, equals the numeral when it fits, and agrees modulo 2^32 with the value saturated at LONG_MAX |
| FormatParse.TextEnd | src/rt/assert.c:99-101 | literal text ends at the first opening brace or NUL at or after the start |
| FormatParse.TextEndIsPlain | src/rt/assert.c:99-105 | the copied literal text holds no opening brace and no NUL |
| FormatParse.FillAlign | src/rt/assert.c:126-139 | the fill and alignment read are a legal pair: the fill is neither NUL nor '}' and the alignment is one of `<`, `>`, `^` |
| FormatParse.Width | src/rt/assert.c:141-142 | the width read is in `int` range and the read index stays in the string |
| FormatParse.MatchUnit | src/rt/assert.c:147-155 | a unit found is a table entry whose name is spelt at the index |
| FormatParse.MatchUnitIsFirst | src/rt/assert.c:147-155 | no table entry before the unit found is spelt at the index |
| FormatParse.ParseReplacement | src/rt/assert.c:169-174 | an accepted replacement ends just after a closing brace within the string |
| FormatParse.ParseFromWellFormed | src/rt/assert.c:99-180 | from any index, an accepted remainder has the shape `(TEXT REPLACEMENT)* TEXT`, with plain texts and well-formed replacements |
| FormatParse.Parse | src/rt/assert.c:87-187 | every accepted format has the shape `(TEXT REPLACEMENT)* TEXT`, its texts hold no brace or NUL, and every replacement has a legal variable, fill, alignment, `int` width and a unit that only `t` carries |
| FormatParse.MatchNeverAlias | src/rt/assert.c:63-73 | the unit scan never stops at "min", because "m" comes first and is a prefix of it |
| FormatParse.UnitsCanonical | src/rt/assert.c:247-252 | every unit the parser can return is the one the printer names for its value |
| FormatParts.UnitFromIsFirst | src/rt/assert.c:247-252 | the printer's unit is the first table entry with the precision's value |
| FormatPrint.PrintPart | src/rt/assert.c:233-256 | a text is printed up to its first NUL, and as it is when it holds none; a replacement is printed as at least six characters |
| FormatPrint.ReplacementBraces | src/rt/assert.c:236-255 | a printed well-formed replacement holds one opening brace of its own, and a second one only when its fill is a brace |
| FormatPrint.Print | src/rt/assert.c:231-258 | the printed list is at least six characters long for each replacement |
| FormatPrint.PrintAppend | src/rt/assert.c:231-258 | the printed form of a concatenation of part lists is the concatenation of their printed forms |
| FormatRoundTrip.ReplacementRoundTrip | src/rt/assert.c:236-255 | a printed well-formed replacement parses back to itself, with a negative width read as zero, and parsing resumes just after its printed form |
| FormatRoundTrip.ParseFromLaid | src/rt/assert.c:99-180 | a part list laid out as the printer writes it parses back to its canonical form |
| FormatRoundTrip.PrintParseRoundTrip | src/rt/assert.c:231-258 | parsing the printed form of any well-formed part list gives that list back, with negative widths read as zero |
| FormatRoundTrip.PrintCanon | src/rt/assert.c:243-244 | zeroing negative widths does not change the printed form |
| FormatRoundTrip.ReprintStable | src/rt/assert.c:223-265 | the format read back from an accepted format is accepted again and prints identically |
| FormatRoundTrip.ParsePrintParse | src/rt/assert.c:223-265 | when no width is negative, an accepted format printed and parsed again is exactly the same list |
| FormatProps.BadVariableRejected | src/rt/assert.c:112-118 | a character other than `s S r t i` right after the brace that ends the literal text at the index rejects the whole remainder; a brace used as a fill inside a specification is not such a brace (`{s:{<}` is accepted) |
| FormatProps.TrailingBraceRejected | src/rt/assert.c:99-118 | any NUL-free format ending in an opening brace is rejected, because NUL is read as the variable of the last replacement |
| FormatProps.TrailingBraceFrom | src/rt/assert.c:99-175 | from any index of a NUL-free string that ends in an opening brace, the parse fails: each replacement closes before that brace |
| FormatProps.TextEndBeforeLast | src/rt/assert.c:99-101 | the literal text stops before a final opening brace |
| FormatProps.DefaultsWithoutSpec | src/rt/assert.c:120-121 | `{v}` gives fill space, alignment `>` for `t` and `<` otherwise, width 0 and precision 0 |
| FormatProps.DefaultsWithEmptySpec | src/rt/assert.c:123-172 | `{v:}` gives the same defaults |
| FormatProps.CloseRequiredAfterVariable | src/rt/assert.c:169-172 | a variable followed by anything but ':' or '}' rejects the replacement |
| FormatProps.CloseRequiredAfterWidth | src/rt/assert.c:169-172 | after fill, alignment and width, anything but '.' or '}' rejects the replacement |
| FormatProps.PrecisionAccepted | src/rt/assert.c:144-172 | a precision is accepted if and only if a unit name is spelt after the dot, the variable is `t`, and '}' follows the first such name |
| FormatProps.PrecisionTakesFirstUnit | src/rt/assert.c:147-155 | the unit recorded is spelt after the dot and no earlier table entry is |
| FormatProps.BarePrecision | src/rt/assert.c:123-144 | `{t:.unit}` keeps the default fill, alignment and width |
| FormatProps.MillisecondsBeforeMinutes | src/rt/assert.c:63-73 | `{t:.ms}` parses to milliseconds, not to minutes |
| FormatProps.MinutesAliasShadowed | src/rt/assert.c:70-71 | `{t:.min}` is rejected |
| FormatProps.UnknownUnitRejected | src/rt/assert.c:144-161 | a precision after which no unit name of the table is spelt is rejected, whatever the variable, fill, alignment and width |
| FormatProps.UnknownUnitExample | src/rt/assert.c:157-161 | `{t:.xs}` is rejected |
| FormatProps.PrecisionOnlyForTime | src/rt/assert.c:144-165 | a precision on any variable other than `t` is rejected, whatever follows the dot |
| FormatProps.PrecisionOnSeverityExample | src/rt/assert.c:162-165 | `{s:.ns}` is rejected although "ns" is a unit |
| FormatProps.MessageAfterText | src/rt/assert.c:99-180 | plain text followed by `{r}` parses to that text, a message replacement with the defaults, and an empty final text |
| FormatProps.NoBraceSingleText | src/rt/assert.c:99-180 | a format without an opening brace parses to one text part equal to its C string |
| BraceCount.BracesFromIsBraces | src/rt/assert.c:99-100 | counting braces index by index up to the terminator counts the braces of the C string |
| BraceCount.TextSpan | src/rt/assert.c:99-101 | literal text adds no opening brace |
| BraceCount.FillAlignSpan | src/rt/assert.c:130-139 | the fill and alignment add one brace exactly when the fill is a brace |
| BraceCount.PrecisionSpan | src/rt/assert.c:144-172 | the precision and closing brace add no brace and leave the fill unchanged |
| BraceCount.ReplacementSpan | src/rt/assert.c:112-175 | a replacement's specification holds a brace exactly when its fill is one |
| BraceCount.ParseFromBraces | src/rt/assert.c:99-180 | the braces from an index to the terminator are the replacements parsed from there plus those filled with a brace |
| BraceCount.BracesOfAccepted | src/rt/assert.c:99-180 | an accepted format's braces are its replacements plus its brace fills |
| BraceCount.OneReplacementPerBrace | src/rt/assert.c:99-180 | with no brace fill, there is exactly one replacement per opening brace |
| BraceCount.PrintedBraces | src/rt/assert.c:231-258 | a printed well-formed list holds one opening brace per replacement plus one per brace fill, the count the parser side gives for accepted formats |
| BraceCount.BraceAsFill | src/rt/assert.c:130-134 | `{s:{<}` is accepted, with two braces and one replacement |
| Padding.CDiv | src/rt/assert.c:343 | C integer division truncates toward zero for either sign |
| Padding.Repeat | src/rt/assert.c:348-354 | the fill loop emits exactly the pad count, or nothing for a count of zero or less |
| Padding.PadCounts | src/rt/assert.c:334-346 | for a known alignment the effective pad counts add up to the gap between width and text, and the left one is the aligned offset; any other alignment pads nothing |
| Padding.Pad | src/rt/assert.c:332-354 | a field with a known alignment is `max(width, tlen)` long; with any other alignment the text is written alone |
| Padding.PadShape | src/rt/assert.c:332-354 | a padded field is `max(width, tlen)` long, with the text at the aligned offset and fill everywhere else |
| Padding.CentreSplit | src/rt/assert.c:342-345 | centring puts half the gap, rounded down, on the left and the odd character on the right |
| Padding.NarrowFieldUnpadded | src/rt/assert.c:334-354 | text at least as wide as the field is written unpadded, whatever the alignment |
| FormatTable.SetFormatValid | src/rt/assert.c:190-204 | `valid` is set if and only if the format parses; an invalid format leaves the table unchanged; a valid one replaces only its level |
| FormatTable.SetFormat | src/rt/assert.c:207-220 | a format that does not parse, and only such a format, is a fatal error naming it |
| FormatTable.UnsetReadsEmpty | src/rt/assert.c:227-228 | any level with no format, and every level of the initial table, reads back as the empty string |
| FormatTable.SettersAgree | src/rt/assert.c:190-220 | both setters accept the same formats and store the same table |
| FormatTable.SetKeepsStored | src/rt/assert.c:196-203 | after any set, every stored format is still a parser result |
| FormatTable.GetAfterSet | src/rt/assert.c:223-265 | reading a level just set prints the stored list, and that text parses back to it with negative widths read as zero |
| FormatTable.GetFormat | src/rt/assert.c:223-265 | an unset level reads back as the empty string; a set level reads back as its printed list, at least six characters per replacement |
| FormatTable.GetFormatRoundTrip | src/rt/assert.c:223-265 | a level holding parser output reads back as a text that parses to that output, negative widths read as zero |
| FormatTable.SetLeavesOtherLevels | src/rt/assert.c:200-201 | setting one level does not change what any other level reads back |
| FormatTable.GetSetStable | src/rt/assert.c:223-265 | setting the text read from a level stores the same format again when no width is negative |
| Render.SeverityName | src/rt/assert.c:267-275 | each level's name is a capitalised ASCII word |
| Render.SignedText | src/rt/assert.c:310-311 | `%PRIi64` writes a minus sign exactly for a negative number, then digits denoting its magnitude |
| Render.FemtosecondText | src/rt/assert.c:308-311 | the time without a unit ends in " fs" and starts with a minus sign exactly when the unsigned count is 2^63 or more, since `%PRIi64` reads the `uint64_t` as signed |
| Render.Substitution | src/rt/assert.c:293-330 | `r` gives the message, `s`/`S` the severity name in lower/upper case, `t` without unit exactly the signed decimal of the time read as a 64-bit signed count followed by " fs" (negative from 2^63 on), `t` with a unit a text ending in a space and the unit name, `i` the instance path of the active process and nothing without one, any other letter nothing |
| Render.RenderPart | src/rt/assert.c:285-355 | a text part comes out as the printer writes it; a replacement with a known alignment fills `max(width, tlen)` characters |
| Render.RenderAll | src/rt/assert.c:277-359 | a list without replacements comes out exactly as the printer writes it |
| Render.ReportText | src/rt/assert.c:361-382 | without a format, a report ends with the message, after a non-empty label |
| Render.AssertText | src/rt/assert.c:384-418 | with a format, a failed assertion prints what a report of the same message prints; without one, a given message ends the text |
| Render.Lower | src/rt/assert.c:297-300 | the lower-case severity has the same length, each character lowered |
| Render.Upper | src/rt/assert.c:301-304 | the upper-case severity has the same length, each character raised |
| Render.SeverityLower | src/rt/assert.c:267-300 | `{s}` spells note, warning, error, failure |
| Render.SeverityUpper | src/rt/assert.c:267-304 | `{S}` spells NOTE, WARNING, ERROR, FAILURE |
| Render.RenderAppend | src/rt/assert.c:285-358 | rendering a concatenation of part lists is the concatenation of their renderings |
| Render.FieldShape | src/rt/assert.c:332-354 | a rendered replacement is `max(width, tlen)` long, with its substitution at the aligned offset |
| Render.RenderCanon | src/rt/assert.c:334-354 | negative widths, dropped by the printer, render exactly as zero widths |
| Render.ReportAfterSet | src/rt/assert.c:370-375 | after a valid set, reports of that severity use the new format and all other severities print as before |
| Render.ReportAfterGetSet | src/rt/assert.c:223-265 | writing back the format read from a level leaves every report of that level unchanged |
| Render.FormatOverridesDefaults | src/rt/assert.c:400-417 | once a severity has a format, assertions print the same as reports, whatever the message and PSL flag |
| Render.PlainFormatVerbatim | src/rt/assert.c:287-289 | a format without braces is accepted and prints as its C string |
| Render.MessageOnlyFormat | src/rt/assert.c:294-296 | the format `{r}` prints exactly the message |
| Render.MessageFormatRenders | src/rt/assert.c:285-296 | plain text followed by `{r}` prints that text and then the message |
| Render.DefaultReportAsFormat | src/rt/assert.c:370-375 | at a severity without a format, a report prints exactly what the format "Report <Severity>: {r}" would print |
| Render.DefaultAssertAsFormat | src/rt/assert.c:401-418 | at a severity without a format, a failed assertion prints exactly what "Assertion <Severity>: {r}" prints with a message, and its fixed text (the PSL one or "Assertion <Severity>: Assertion violation.") without one |

## Left out

- Decimal.StoreWidth: only an LP64 target is modelled (64-bit `long`). Where `long` is 32 bits, as on Windows, which the source also targets (`DLLEXPORT`), `strtol` saturates at INT_MAX, so `{s:2147483648}` stores INT_MAX and no width is ever negative; the model stores -2147483648 there.
- Allocation and freeing of the part lists (`xcalloc`, `xstrndup`, `free_format`) are not modelled; the lists are immutable sequences.
- The diagnostics `check_format` emits on rejection (`errorf`) are not modelled; a rejection is `None` without its message text.
- `jit_msg` with a fatal level and `jit_abort_with_status` are not modelled. The fatal setter returns a `Failure` carrying the message, which assumes that `jit_msg` does not return.
- The diagnostic object (`diag_new`, `diag_printf`, `diag_write`, `diag_emit`, source display) is replaced by the string that would be written into it.
- The `t` substitution with a unit divides in `double` and prints with `%.*g`. Floating point is left out: the rendered number is the `scaled` field of `Render.Env`, supplied by the caller.
- The current time (`model_now`) and the instance path of the active process (the tree lookup for `i`) are also taken from `Render.Env`, not computed.
- The hint that `x_assert_fail` appends (`to_string` of the compared values) is left out, because it depends on type information from the elaborated design.
- Padding.PadShape: the pad counts are computed as unbounded integers. In the C code `width - tlen` is an `int` subtraction, which overflows for widths below INT_MIN + tlen. A width such as 2147483648 is stored as INT_MIN, so `{r:>2147483648}` with a one-character message overflows. The overflowing case is not modelled.
- Padding.PadCounts: the same `int` overflow of `width - tlen` for widths below INT_MIN + tlen is not modelled.
- Padding.Pad: the same `int` overflow of `width - tlen` for widths below INT_MIN + tlen is not modelled.
- Padding.NarrowFieldUnpadded: the same `int` overflow of `width - tlen` for widths below INT_MIN + tlen is not modelled; there the C code may pad instead.
- Render.FieldShape: the `int` overflow of `width - tlen` for widths below INT_MIN + tlen is not modelled.
- Render.RenderCanon: a negative width renders like a zero width only while `width - tlen` does not overflow `int`; widths below INT_MIN + tlen are not modelled.
- Render.ReportAfterGetSet: inherits the unmodelled `int` overflow of `width - tlen` for widths below INT_MIN + tlen.
- Render.RenderPart: the length `max(width, tlen)` holds in the model only; in C, `width - tlen` overflows `int` for widths below INT_MIN + tlen, and `tlen` itself is an `int` that would truncate a substitution longer than INT_MAX. Neither is modelled.
- Render.FieldShape: the substitution length is used as an unbounded natural, while the source stores it in an `int` (`tlen`), which would truncate texts longer than INT_MAX.
- Render.Lower: ASCII case mapping only; the source of `tb_downcase`/`tb_upcase` is not part of this model, and the severity names they map are plain ASCII words.
- The `assert(level <= SEVERITY_FAILURE)` checks become the `Severity` subtype and `level < Levels` preconditions.
- The managed-memory allocator exercised by `test/test_mspace.c` has no implementation among the files available, and the VHPI test `test/vhpi/vhpi6.c` drives a live simulation; neither is part of this model.
