/** The printer behind `_std_env_get_assert_format`: a stored part list written
    back in the canonical `{v:fa[width][.unit]}` form. */
module FormatPrint {
  import opened Wrappers
  import opened CStrings
  import opened FormatParts
  import Decimal

  /** `.unit` for a precision: the name of the first table entry with that
      value, or nothing when the precision is zero or names no entry. */
  function PrecisionText(precision: nat): string {
    if precision == 0 then []
    else
      match UnitFor(precision)
      case None => []
      case Some(k) => "." + UnitName(k)
  }

  /** The width is printed (with `%d`) only when it is positive. */
  function WidthText(width: int): string {
    if width > 0 then Decimal.Text(width) else []
  }

  /** One part as the printer writes it: a text up to its first NUL; a
      replacement as at least `{v:fa}`. */
  function PrintPart(p: Part): (r: string)
    ensures p.Text? ==> r <= p.text && (NUL !in p.text ==> r == p.text)
    ensures p.Replacement? ==> 6 <= |r|
  {
    match p
    case Text(t) => CStr(t)
    case Replacement(v, fill, align, width, precision, _) =>
      ['{', v, ':', fill, align] + WidthText(width) + PrecisionText(precision) + ['}']
  }

  /** Neither a printed width nor a printed precision holds a brace. */
  lemma SuffixBraces(width: int, precision: nat)
    ensures Braces(WidthText(width)) == 0 && Braces(PrecisionText(precision)) == 0
  {
    var w := WidthText(width);
    if width > 0 {
      Decimal.TextIsNumeral(width);
      assert forall k :: 0 <= k < |w| ==> w[k] != '{';
    }
    NoBraces(w);
    NoBraces(PrecisionText(precision));
  }

  /** A printed well-formed replacement holds its own opening brace, and a
      second one only when its fill is a brace. */
  lemma ReplacementBraces(p: Part)
    requires WellFormedReplacement(p)
    ensures Braces(PrintPart(p)) == 1 + (if p.fill == '{' then 1 else 0)
  {
    var w, pr := WidthText(p.width), PrecisionText(p.precision);
    SuffixBraces(p.width, p.precision);
    var letters: string := [p.variable, ':'];
    NoBraces(letters);
    NoBraces([p.align]);
    var head := ['{'] + letters + [p.fill] + [p.align];
    BracesAppend(['{'], letters);
    BracesAppend(['{'] + letters, [p.fill]);
    BracesAppend(['{'] + letters + [p.fill], [p.align]);
    BracesAppend(head, w);
    BracesAppend(head + w, pr);
    BracesAppend(head + w + pr, ['}']);
    assert head == ['{', p.variable, ':', p.fill, p.align];
  }

  /** The printed list: its parts one after the other, at least six
      characters for each replacement. */
  function Print(ps: seq<Part>): (r: string)
    ensures |r| >= 6 * Replacements(ps)
  {
    if |ps| == 0 then [] else PrintPart(ps[0]) + Print(ps[1..])
  }

  /** `ps` is laid out from index `i` of `s` the way the printer writes it:
      each literal text, then each printed replacement, then the terminator. */
  predicate Laid(s: string, i: nat, ps: seq<Part>)
    decreases |ps|
  {
    && |ps| > 0 && ps[0].Text?
    && SpellsAt(s, i, ps[0].text)
    && if |ps| == 1 then At(s, i + |ps[0].text|) == NUL
       else
         && |ps| > 2
         && SpellsAt(s, i + |ps[0].text|, PrintPart(ps[1]))
         && Laid(s, i + |ps[0].text| + |PrintPart(ps[1])|, ps[2..])
  }

  lemma {:induction false} PrintAppend(a: seq<Part>, b: seq<Part>)
    ensures Print(a + b) == Print(a) + Print(b)
    decreases |a|
  {
    if |a| == 0 {
      assert a + b == b;
    } else {
      assert (a + b)[1..] == a[1..] + b;
      PrintAppend(a[1..], b);
    }
  }
}
