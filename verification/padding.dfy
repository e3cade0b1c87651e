/** The padding `apply_format` puts around one substituted field: the fill
    character repeated before and after the text so that the field is at least
    `width` characters wide, placed according to the alignment. */
module Padding {

  function Max(a: int, b: int): int {
    if a >= b then a else b
  }

  /** C's `/` on `int`, which truncates toward zero (Dafny's `/` is Euclidean). */
  function CDiv(a: int, b: int): (q: int)
    requires b > 0
    ensures a >= 0 ==> 0 <= a - q * b < b
    ensures a < 0 ==> -b < a - q * b <= 0
  {
    if a >= 0 then a / b else -((-a) / b)
  }

  /** `n` copies of `c`: what `while (n-- > 0)` emits, so nothing for `n <= 0`. */
  function Repeat(c: char, n: int): (r: string)
    ensures |r| == Max(n, 0)
    decreases Max(n, 0)
  {
    if n <= 0 then [] else [c] + Repeat(c, n - 1)
  }

  lemma {:induction false} RepeatIsFill(c: char, n: int, i: nat)
    requires i < Max(n, 0)
    ensures Repeat(c, n)[i] == c
    decreases Max(n, 0)
  {
    if i > 0 {
      RepeatIsFill(c, n - 1, i - 1);
    }
  }

  /** The left and right pad counts of `apply_format`, as signed `int`s: `>`
      pads on the left, `<` on the right, `^` splits the gap with C division,
      and any other alignment leaves both at zero. Once the loops skip negative
      counts, the left count puts the text at `TextOffset` and the two add up
      to the gap between the width and the text. */
  function PadCounts(align: char, width: int, tlen: nat): (r: (int, int))
    ensures align == '<' || align == '>' || align == '^' ==>
      && Max(r.0, 0) == TextOffset(align, width, tlen)
      && Max(r.0, 0) + Max(r.1, 0) == Max(width - tlen, 0)
    ensures align != '<' && align != '>' && align != '^' ==> r == (0, 0)
  {
    if align == '>' then (width - tlen, 0)
    else if align == '<' then (0, width - tlen)
    else if align == '^' then
      (CDiv(width - tlen, 2), width - tlen - Max(CDiv(width - tlen, 2), 0))
    else (0, 0)
  }

  /** One padded field: left fill, the text, right fill. A known alignment
      widens the text to the field width; any other leaves it as it is. */
  function Pad(fill: char, align: char, width: int, text: string): (r: string)
    ensures align == '<' || align == '>' || align == '^' ==> |r| == Max(width, |text|)
    ensures align != '<' && align != '>' && align != '^' ==> r == text
  {
    Repeat(fill, PadCounts(align, width, |text|).0) + text
      + Repeat(fill, PadCounts(align, width, |text|).1)
  }

  /** Where the text starts in a padded field, stated independently of the
      C pad counts: at the left edge for `<`, flush right for `>`, and for `^`
      half the gap, rounded down, so that an odd extra character goes right. */
  function TextOffset(align: char, width: int, tlen: nat): nat {
    if align == '>' then Max(width - tlen, 0)
    else if align == '^' then Max(width - tlen, 0) / 2
    else 0
  }

  /** `r` is `text` placed at `offset` with every other character `fill`. */
  predicate Surrounds(r: string, fill: char, text: string, offset: nat) {
    && offset + |text| <= |r|
    && (forall i :: 0 <= i < |text| ==> r[offset + i] == text[i])
    && (forall i :: 0 <= i < |r| && (i < offset || offset + |text| <= i) ==> r[i] == fill)
  }

  /** A padded field is exactly as wide as the larger of the width and the
      text, and holds the text at `TextOffset` surrounded by the fill. */
  lemma PadShape(fill: char, align: char, width: int, text: string)
    requires align == '<' || align == '>' || align == '^'
    ensures |Pad(fill, align, width, text)| == Max(width, |text|)
    ensures Surrounds(Pad(fill, align, width, text), fill, text, TextOffset(align, width, |text|))
  {
    var (l, r) := PadCounts(align, width, |text|);
    var left, right := Repeat(fill, l), Repeat(fill, r);
    var out := left + text + right;
    forall i | 0 <= i < |out| && (i < |left| || |left| + |text| <= i)
      ensures out[i] == fill
    {
      if i < |left| {
        RepeatIsFill(fill, l, i);
      } else {
        RepeatIsFill(fill, r, i - |left| - |text|);
      }
    }
  }

  /** With `^` the gap is split evenly, any odd character going to the right. */
  lemma CentreSplit(width: int, tlen: nat)
    requires width > tlen
    ensures PadCounts('^', width, tlen).0 == (width - tlen) / 2
    ensures PadCounts('^', width, tlen).1 - PadCounts('^', width, tlen).0 == (width - tlen) % 2
  {
  }

  /** Text at least as wide as the field is written unpadded, whatever the alignment. */
  lemma NarrowFieldUnpadded(fill: char, align: char, width: int, text: string)
    requires width <= |text|
    ensures Pad(fill, align, width, text) == text
  {
    assert PadCounts(align, width, |text|).0 <= 0 && PadCounts(align, width, |text|).1 <= 0;
    assert text + [] == text;
  }
}
