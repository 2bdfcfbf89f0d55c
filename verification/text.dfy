/**
 The string operations the chatbot relies on, written out on `seq<char>`:
 lower-casing (`str.lower`), whitespace stripping (`str.strip()` with no
 argument) and substring membership (`k in s`).
 */
module Text {

  // ---------------------------------------------------------------- lower

  /** Lower-cases one character: ASCII 'A'..'Z' map to 'a'..'z', every other
      character is kept. */
  function LowerChar(c: char): (d: char)
    ensures 'A' <= c <= 'Z' ==> 'a' <= d <= 'z' && d as int - c as int == 32
    ensures !('A' <= c <= 'Z') ==> d == c
    ensures !('A' <= d <= 'Z')
  {
    if 'A' <= c <= 'Z' then (c as int - 'A' as int + 'a' as int) as char else c
  }

  /** `s.lower()`, restricted to the ASCII letters. */
  function Lower(s: string): (r: string)
    ensures |r| == |s|
    ensures forall i :: 0 <= i < |s| ==> r[i] == LowerChar(s[i])
  {
    seq(|s|, i requires 0 <= i < |s| => LowerChar(s[i]))
  }

  /** `d` is `c` or `c` with the case of an ASCII letter changed. */
  predicate CaseVariant(c: char, d: char)
  {
    || c == d
    || ('A' <= c <= 'Z' && d as int == c as int + 32)
    || ('a' <= c <= 'z' && d as int == c as int - 32)
  }

  /** Two strings that differ at most in the case of ASCII letters. */
  ghost predicate SameUpToCase(s: string, t: string)
  {
    |s| == |t| && forall i :: 0 <= i < |s| ==> CaseVariant(s[i], t[i])
  }

  lemma LowerIdempotent(s: string)
    ensures Lower(Lower(s)) == Lower(s)
  {
  }

  lemma LowerConcat(a: string, b: string)
    ensures Lower(a + b) == Lower(a) + Lower(b)
  {
  }

  /** Strings that agree up to case have the same lower-cased form, and
      conversely. */
  lemma {:induction false} SameUpToCaseIffLowerEqual(s: string, t: string)
    ensures SameUpToCase(s, t) <==> Lower(s) == Lower(t)
  {
    if SameUpToCase(s, t) {
      forall i | 0 <= i < |s| ensures Lower(s)[i] == Lower(t)[i] {
        assert CaseVariant(s[i], t[i]);
      }
    }
    if Lower(s) == Lower(t) {
      assert |s| == |Lower(s)| == |Lower(t)| == |t|;
      forall i | 0 <= i < |s| ensures CaseVariant(s[i], t[i]) {
        assert Lower(s)[i] == Lower(t)[i];
      }
    }
  }

  // ---------------------------------------------------------------- strip

  /** Python's whitespace table, one character at a time: the characters
      `str.isspace()` accepts and `str.strip()` removes. */
  const PythonWhitespace: set<char> := {
    '\t', '\n', '\U{0B}', '\U{0C}', '\r', '\U{1C}', '\U{1D}', '\U{1E}', '\U{1F}', ' ',
    '\U{85}', '\U{A0}', '\U{1680}',
    '\U{2000}', '\U{2001}', '\U{2002}', '\U{2003}', '\U{2004}', '\U{2005}',
    '\U{2006}', '\U{2007}', '\U{2008}', '\U{2009}', '\U{200A}',
    '\U{2028}', '\U{2029}', '\U{202F}', '\U{205F}', '\U{3000}'
  }

  /** The whitespace test `str.strip()` applies, by code-point ranges; it
      accepts exactly the characters of the table. */
  predicate IsSpace(c: char): (b: bool)
    ensures b <==> c in PythonWhitespace
  {
    || '\t' <= c <= '\r'
    || '\U{1C}' <= c <= ' '
    || c == '\U{85}' || c == '\U{A0}' || c == '\U{1680}'
    || '\U{2000}' <= c <= '\U{200A}'
    || c == '\U{2028}' || c == '\U{2029}' || c == '\U{202F}' || c == '\U{205F}'
    || c == '\U{3000}'
  }

  ghost predicate AllSpace(s: string)
  {
    forall i :: 0 <= i < |s| ==> IsSpace(s[i])
  }

  /** Neither end of `s` is whitespace. */
  predicate IsStripped(s: string)
  {
    s == [] || (!IsSpace(s[0]) && !IsSpace(s[|s| - 1]))
  }

  /** `r` is `s` with a run of whitespace taken off each end and nothing else:
      `s == lead + r + trail`, with `lead` and `trail` all whitespace. */
  ghost predicate IsTrimOf(r: string, s: string)
  {
    exists i :: TrimAt(r, s, i)
  }

  /** `s` is whitespace before index `i`, then `r`, then whitespace again. */
  ghost predicate TrimAt(r: string, s: string, i: int)
  {
    0 <= i && i + |r| <= |s| && s[i..i + |r|] == r && AllSpace(s[..i]) && AllSpace(s[i + |r|..])
  }

  /** The index of the first non-whitespace character at or after `i`, or
      `|s|` when there is none. */
  function SkipSpaceForward(s: string, i: nat): (k: nat)
    requires i <= |s|
    ensures i <= k <= |s|
    ensures forall m :: i <= m < k ==> IsSpace(s[m])
    ensures k == |s| || !IsSpace(s[k])
    decreases |s| - i
  {
    if i < |s| && IsSpace(s[i]) then SkipSpaceForward(s, i + 1) else i
  }

  /** Moving back from `j`, but not below `lo`, past whitespace: the index
      just after the last non-whitespace character before `j`, or `lo`. */
  function SkipSpaceBackward(s: string, lo: nat, j: nat): (k: nat)
    requires lo <= j <= |s|
    ensures lo <= k <= j
    ensures forall m :: k <= m < j ==> IsSpace(s[m])
    ensures k == lo || !IsSpace(s[k - 1])
  {
    if lo < j && IsSpace(s[j - 1]) then SkipSpaceBackward(s, lo, j - 1) else j
  }

  /** `str.strip()`: drops the whitespace at both ends, scanning forward from
      the start and then backward from the end, as CPython does. The result
      is a trim of `s` and has no whitespace at either end. */
  function Strip(s: string): (r: string)
    ensures IsTrimOf(r, s)
    ensures IsStripped(r)
  {
    var i := SkipSpaceForward(s, 0);
    var j := SkipSpaceBackward(s, i, |s|);
    assert TrimAt(s[i..j], s, i);
    s[i..j]
  }

  /** A string with no whitespace at its ends is its own `strip()`. */
  lemma {:induction false} StripOfStripped(s: string)
    requires IsStripped(s)
    ensures Strip(s) == s
  {
  }

  /** `strip()` is idempotent. */
  lemma StripIdempotent(s: string)
    ensures Strip(Strip(s)) == Strip(s)
  {
    StripOfStripped(Strip(s));
  }

  /** A non-empty trim without whitespace at its ends starts at the first
      non-whitespace character of `s` and ends after the last one. */
  lemma TrimBounds(r: string, s: string, i: int)
    requires TrimAt(r, s, i) && IsStripped(r) && r != []
    ensures i == SkipSpaceForward(s, 0)
    ensures i + |r| == SkipSpaceBackward(s, i, |s|)
  {
    assert s[i] == r[0];
    assert s[i + |r| - 1] == r[|r| - 1];
  }

  /** Only one string is the trim of `s` and has no whitespace at its ends,
      so the properties of `Strip` determine it. */
  lemma {:induction false} TrimUnique(s: string, r1: string, r2: string)
    requires IsTrimOf(r1, s) && IsStripped(r1)
    requires IsTrimOf(r2, s) && IsStripped(r2)
    ensures r1 == r2
  {
    var i1 :| TrimAt(r1, s, i1);
    var i2 :| TrimAt(r2, s, i2);
    if r1 != [] && r2 != [] {
      TrimBounds(r1, s, i1);
      TrimBounds(r2, s, i2);
    }
  }

  /** `s.strip()` is empty exactly when `s` is all whitespace. */
  lemma {:induction false} StripEmptyIffAllSpace(s: string)
    ensures Strip(s) == [] <==> AllSpace(s)
  {
    var r := Strip(s);
    var i :| TrimAt(r, s, i);
  }

  // ------------------------------------------------------------ substring

  /** `pat` occurs in `text` as a contiguous run of characters. */
  ghost predicate IsSubstring(pat: string, text: string)
  {
    exists i :: OccursAt(pat, text, i)
  }

  /** `pat` occurs in `text` starting at index `i`. */
  ghost predicate OccursAt(pat: string, text: string, i: int)
  {
    0 <= i && i + |pat| <= |text| && text[i..i + |pat|] == pat
  }

  /** `pat in text`: tries every starting position from the left. */
  function Contains(text: string, pat: string): (b: bool)
    ensures b <==> IsSubstring(pat, text)
    decreases |text|
  {
    if |text| < |pat| then
      false
    else if pat <= text then
      assert OccursAt(pat, text, 0);
      true
    else
      SubstringOfTail(pat, text);
      Contains(text[1..], pat)
  }

  /** When `pat` does not start `text`, it occurs in `text` exactly when it
      occurs in `text` without its first character. */
  lemma SubstringOfTail(pat: string, text: string)
    requires |text| >= |pat| && !(pat <= text)
    ensures IsSubstring(pat, text) <==> IsSubstring(pat, text[1..])
  {
    if IsSubstring(pat, text[1..]) {
      var i :| OccursAt(pat, text[1..], i);
      assert text[i + 1..i + 1 + |pat|] == pat;
      assert OccursAt(pat, text, i + 1);
    }
    if IsSubstring(pat, text) {
      var i :| OccursAt(pat, text, i);
      assert i != 0 by { assert text[..|pat|] == text[0..|pat|]; }
      assert text[1..][i - 1..i - 1 + |pat|] == pat;
      assert OccursAt(pat, text[1..], i - 1);
    }
  }

  /** Putting text on either side of a string keeps every substring of it. */
  lemma {:induction false} SubstringExtend(pat: string, text: string, a: string, b: string)
    requires IsSubstring(pat, text)
    ensures IsSubstring(pat, a + text + b)
  {
    var i :| OccursAt(pat, text, i);
    var j := |a| + i;
    assert (a + text + b)[j..j + |pat|] == text[i..i + |pat|];
    assert OccursAt(pat, a + text + b, j);
  }
}
