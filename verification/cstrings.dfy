/** Reading a character sequence the way C reads a string: the terminator,
    reads past the end, and the text a string holds from a given index. */
module CStrings {

  /** The C string terminator; reading past the end of a string yields it. */
  const NUL: char := '\0'

  /** The character at index `i`: NUL past the end. */
  function At(s: string, i: nat): char {
    if i < |s| then s[i] else NUL
  }

  /** The C string a character sequence holds: everything before the first NUL. */
  function CStr(s: string): (r: string)
    ensures r <= s && NUL !in r
    ensures |r| == |s| || s[|r|] == NUL
  {
    if |s| == 0 || s[0] == NUL then [] else [s[0]] + CStr(s[1..])
  }

  lemma {:induction false} CStrOfPlain(s: string, tail: string)
    requires NUL !in s
    requires |tail| == 0 || tail[0] == NUL
    ensures CStr(s + tail) == s
    decreases |s|
  {
    if |s| > 0 {
      assert (s + tail)[1..] == s[1..] + tail;
      CStrOfPlain(s[1..], tail);
    }
  }

  /** The characters from index `i` up to `j`, copied one by one (`strndup`). */
  function Copy(s: string, i: nat, j: nat): (r: string)
    requires i <= j <= |s|
    ensures |r| == j - i
    decreases j - i
  {
    if i == j then [] else [s[i]] + Copy(s, i + 1, j)
  }

  /** `s` holds the characters of `x` from index `i` on. */
  predicate SpellsAt(s: string, i: nat, x: string)
    decreases |x|
  {
    i + |x| <= |s| && (|x| == 0 || (s[i] == x[0] && SpellsAt(s, i + 1, x[1..])))
  }

  /** Every suffix of `s` is spelt where it starts. */
  lemma {:induction false} SpellsSuffix(s: string, i: nat)
    requires i <= |s|
    ensures SpellsAt(s, i, s[i..])
    decreases |s| - i
  {
    if i < |s| {
      assert s[i..][1..] == s[i + 1..];
      SpellsSuffix(s, i + 1);
    }
  }

  /** Text spelt as a concatenation is spelt piece by piece. */
  lemma {:induction false} SpellsConcat(s: string, i: nat, a: string, b: string)
    requires SpellsAt(s, i, a + b)
    ensures SpellsAt(s, i, a) && SpellsAt(s, i + |a|, b)
    decreases |a|
  {
    if |a| > 0 {
      assert (a + b)[1..] == a[1..] + b;
      SpellsConcat(s, i + 1, a[1..], b);
    } else {
      assert a + b == b;
    }
  }

  lemma {:induction false} SpellsChar(s: string, i: nat, x: string, k: nat)
    requires SpellsAt(s, i, x) && k < |x|
    ensures At(s, i + k) == x[k]
    decreases k
  {
    if k > 0 {
      SpellsChar(s, i + 1, x[1..], k - 1);
    }
  }

  /** The copy of a spelt text is that text. */
  lemma {:induction false} CopyOfSpelt(s: string, i: nat, x: string)
    requires SpellsAt(s, i, x)
    ensures Copy(s, i, i + |x|) == x
    decreases |x|
  {
    if |x| > 0 {
      CopyOfSpelt(s, i + 1, x[1..]);
    }
  }
}
