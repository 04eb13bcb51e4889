/**
 * The Python `str` operations the parsers rely on, restricted to ASCII:
 * `isspace`, `isdigit`, `lower`, `strip`, the `in` operator on strings,
 * `split()` with no separator, and decimal digit strings.
 */
module Text {

  /** `c.isspace()` on ASCII: space, the controls \t \n \v \f \r and the separators 0x1C-0x1F. */
  predicate IsSpace(c: char) {
    c == ' ' || ('\t' <= c <= '\r') || ('\U{1C}' <= c <= '\U{1F}')
  }

  /** `c.isdigit()` on ASCII. */
  predicate IsDigit(c: char) {
    '0' <= c <= '9'
  }

  predicate AllDigits(s: string) {
    forall i :: 0 <= i < |s| ==> IsDigit(s[i])
  }

  predicate NoSpaces(s: string) {
    forall i :: 0 <= i < |s| ==> !IsSpace(s[i])
  }

  predicate AllSpaces(s: string) {
    forall i :: 0 <= i < |s| ==> IsSpace(s[i])
  }

  // ---------------------------------------------------------------------------
  // lower()

  function LowerChar(c: char): char {
    if 'A' <= c <= 'Z' then (c as int + 32) as char else c
  }

  /** `s.lower()`: every ASCII capital replaced by its small letter. */
  function Lower(s: string): (r: string)
    ensures |r| == |s|
  {
    if s == [] then [] else [LowerChar(s[0])] + Lower(s[1..])
  }

  lemma {:induction false} LowerAt(s: string)
    ensures |Lower(s)| == |s|
    ensures forall i :: 0 <= i < |s| ==> Lower(s)[i] == LowerChar(s[i])
  {
    if s != [] {
      LowerAt(s[1..]);
    }
  }

  /** Lower-casing keeps every character's class: space, digit, hyphen. */
  lemma LowerCharKeepsClass(c: char)
    ensures IsSpace(LowerChar(c)) == IsSpace(c)
    ensures IsDigit(LowerChar(c)) == IsDigit(c)
    ensures (LowerChar(c) == '-') == (c == '-')
  {
  }

  /** A string without capitals is its own lower-case form. */
  lemma LowerOfLower(s: string)
    requires forall i :: 0 <= i < |s| ==> !('A' <= s[i] <= 'Z')
    ensures Lower(s) == s
  {
    LowerAt(s);
  }

  // ---------------------------------------------------------------------------
  // strip()

  /** Number of whitespace characters at the front of `s`. */
  function LeadingSpaces(s: string): (n: nat)
    ensures n <= |s|
    ensures forall i :: 0 <= i < n ==> IsSpace(s[i])
    ensures n < |s| ==> !IsSpace(s[n])
  {
    if s == [] || !IsSpace(s[0]) then 0 else 1 + LeadingSpaces(s[1..])
  }

  /** Number of whitespace characters at the back of `s`. */
  function TrailingSpaces(s: string): (n: nat)
    ensures n <= |s|
    ensures forall i :: |s| - n <= i < |s| ==> IsSpace(s[i])
    ensures n < |s| ==> !IsSpace(s[|s| - 1 - n])
  {
    if s == [] || !IsSpace(s[|s| - 1]) then 0 else 1 + TrailingSpaces(s[..|s| - 1])
  }

  /**
   * Where `s.strip()` cuts: everything before `lo` and from `hi` on is
   * whitespace, and what is kept starts and ends with a non-space.
   */
  function StripBounds(s: string): (b: (nat, nat))
    ensures b.0 <= b.1 <= |s|
    ensures forall i :: 0 <= i < b.0 ==> IsSpace(s[i])
    ensures forall i :: b.1 <= i < |s| ==> IsSpace(s[i])
    ensures b.0 < b.1 ==> !IsSpace(s[b.0]) && !IsSpace(s[b.1 - 1])
  {
    var lo := LeadingSpaces(s);
    var t := s[lo..];
    var hi := lo + (|t| - TrailingSpaces(t));
    assert forall i :: lo <= i < |s| ==> s[i] == t[i - lo];
    (lo, hi)
  }

  /** `s` without its leading whitespace. */
  function TrimStart(s: string): string {
    if s != [] && IsSpace(s[0]) then TrimStart(s[1..]) else s
  }

  /** `s` without its trailing whitespace. */
  function TrimEnd(s: string): string {
    if s != [] && IsSpace(s[|s| - 1]) then TrimEnd(s[..|s| - 1]) else s
  }

  /** `s.strip()`. */
  function Strip(s: string): string {
    TrimEnd(TrimStart(s))
  }

  lemma {:induction false} TrimStartIsSlice(s: string)
    ensures TrimStart(s) == s[LeadingSpaces(s)..]
  {
    if s != [] && IsSpace(s[0]) {
      TrimStartIsSlice(s[1..]);
      assert s[1..][LeadingSpaces(s[1..])..] == s[LeadingSpaces(s)..];
    }
  }

  lemma {:induction false} TrimEndIsSlice(s: string)
    ensures TrimEnd(s) == s[..|s| - TrailingSpaces(s)]
  {
    if s != [] && IsSpace(s[|s| - 1]) {
      TrimEndIsSlice(s[..|s| - 1]);
      assert s[..|s| - 1][..|s| - 1 - TrailingSpaces(s[..|s| - 1])] == s[..|s| - TrailingSpaces(s)];
    }
  }

  /** `s.strip()` is the slice that StripBounds describes. */
  lemma StripIsSlice(s: string)
    ensures Strip(s) == s[StripBounds(s).0..StripBounds(s).1]
  {
    var lo := LeadingSpaces(s);
    TrimStartIsSlice(s);
    TrimEndIsSlice(s[lo..]);
  }

  /** Strip depends only on which positions hold whitespace. */
  lemma {:induction false} LeadingSpacesByPattern(s: string, t: string)
    requires |s| == |t|
    requires forall i :: 0 <= i < |s| ==> IsSpace(s[i]) == IsSpace(t[i])
    ensures LeadingSpaces(s) == LeadingSpaces(t)
  {
    if s != [] && IsSpace(s[0]) {
      LeadingSpacesByPattern(s[1..], t[1..]);
    }
  }

  lemma {:induction false} TrailingSpacesByPattern(s: string, t: string)
    requires |s| == |t|
    requires forall i :: 0 <= i < |s| ==> IsSpace(s[i]) == IsSpace(t[i])
    ensures TrailingSpaces(s) == TrailingSpaces(t)
  {
    if s != [] && IsSpace(s[|s| - 1]) {
      TrailingSpacesByPattern(s[..|s| - 1], t[..|t| - 1]);
    }
  }

  lemma StripBoundsByPattern(s: string, t: string)
    requires |s| == |t|
    requires forall i :: 0 <= i < |s| ==> IsSpace(s[i]) == IsSpace(t[i])
    ensures StripBounds(s) == StripBounds(t)
  {
    LeadingSpacesByPattern(s, t);
    var lo := LeadingSpaces(s);
    forall i | 0 <= i < |s| - lo ensures IsSpace(s[lo..][i]) == IsSpace(t[lo..][i]) {
      assert s[lo..][i] == s[lo + i] && t[lo..][i] == t[lo + i];
    }
    TrailingSpacesByPattern(s[lo..], t[lo..]);
  }

  /** Stripping and lower-casing commute. */
  lemma LowerStripCommute(s: string)
    ensures Lower(Strip(s)) == Strip(Lower(s))
  {
    StripIsSlice(s);
    StripIsSlice(Lower(s));
    LowerAt(s);
    forall i | 0 <= i < |s| ensures IsSpace(s[i]) == IsSpace(Lower(s)[i]) {
      LowerCharKeepsClass(s[i]);
    }
    StripBoundsByPattern(s, Lower(s));
    var b := StripBounds(s);
    LowerSlice(s, b.0, b.1);
  }

  /** Lower-casing a slice is slicing the lower-cased string. */
  lemma LowerSlice(s: string, lo: nat, hi: nat)
    requires lo <= hi <= |s|
    ensures Lower(s[lo..hi]) == Lower(s)[lo..hi]
  {
    var t := s[lo..hi];
    LowerAt(s);
    LowerAt(t);
    forall p | 0 <= p < hi - lo ensures Lower(t)[p] == Lower(s)[lo..hi][p] {
      calc {
        Lower(t)[p];
        LowerChar(t[p]);
        { assert t[p] == s[lo + p]; }
        LowerChar(s[lo + p]);
        Lower(s)[lo + p];
      }
    }
  }

  /** A string that neither starts nor ends with whitespace is already stripped. */
  lemma StripTrimmed(s: string)
    requires s == [] || (!IsSpace(s[0]) && !IsSpace(s[|s| - 1]))
    ensures Strip(s) == s
  {
    StripIsSlice(s);
    var b := StripBounds(s);
    if s != [] {
      assert b.0 == 0;
      assert b.1 == |s|;
    }
  }

  /** Stripping a string that is all whitespace leaves nothing. */
  lemma StripAllSpaces(s: string)
    requires AllSpaces(s)
    ensures Strip(s) == []
  {
    StripIsSlice(s);
  }

  // ---------------------------------------------------------------------------
  // the `in` operator on strings

  predicate OccursAt(s: string, w: string, i: int) {
    0 <= i && i + |w| <= |s| && s[i..i + |w|] == w
  }

  /** `w in s`. */
  predicate Contains(s: string, w: string) {
    exists i :: 0 <= i <= |s| - |w| && OccursAt(s, w, i)
  }

  /** A string cannot contain a word one of whose characters it lacks. */
  lemma AbsentCharNotContained(s: string, w: string, j: int)
    requires 0 <= j < |w|
    requires forall k :: 0 <= k < |s| ==> s[k] != w[j]
    ensures !Contains(s, w)
  {
    forall i | 0 <= i <= |s| - |w| ensures !OccursAt(s, w, i) {
      assert s[i..i + |w|][j] == s[i + j];
    }
  }

  /** What the stripped string contains, the original contains. */
  lemma StripContains(s: string, w: string)
    requires Contains(Strip(s), w)
    ensures Contains(s, w)
  {
    StripIsSlice(s);
    var b := StripBounds(s);
    var i :| 0 <= i <= |Strip(s)| - |w| && OccursAt(Strip(s), w, i);
    OccursInSlice(s, b.0, b.1, w, i);
  }

  /** An occurrence in a slice is an occurrence in the whole. */
  lemma OccursInSlice(s: string, lo: nat, hi: nat, w: string, i: nat)
    requires lo <= hi <= |s| && OccursAt(s[lo..hi], w, i)
    ensures OccursAt(s, w, lo + i)
  {
    SliceOfSlice(s, lo, hi, i, i + |w|);
  }

  /** An occurrence inside the bounds of a slice is an occurrence in the slice. */
  lemma OccursInSliceBack(s: string, lo: nat, hi: nat, w: string, i: nat)
    requires lo <= i && i + |w| <= hi <= |s| && OccursAt(s, w, i)
    ensures OccursAt(s[lo..hi], w, i - lo)
  {
    SliceOfSlice(s, lo, hi, i - lo, i - lo + |w|);
  }

  /** Stripping cannot cut into an occurrence of a word that starts and ends with a non-space. */
  lemma ContainsStrip(s: string, w: string)
    requires w != [] && !IsSpace(w[0]) && !IsSpace(w[|w| - 1])
    requires Contains(s, w)
    ensures Contains(Strip(s), w)
  {
    StripIsSlice(s);
    var b := StripBounds(s);
    var i :| 0 <= i <= |s| - |w| && OccursAt(s, w, i);
    assert s[i] == s[i..i + |w|][0] == w[0];
    assert s[i + |w| - 1] == s[i..i + |w|][|w| - 1] == w[|w| - 1];
    KeptByStrip(s, i);
    KeptByStrip(s, i + |w| - 1);
    OccursInSliceBack(s, b.0, b.1, w, i);
  }

  /** A non-space character lies within what `strip()` keeps. */
  lemma KeptByStrip(s: string, p: nat)
    requires p < |s| && !IsSpace(s[p])
    ensures StripBounds(s).0 <= p < StripBounds(s).1
  {
  }

  /** A slice of a slice is a slice of the whole. */
  lemma SliceOfSlice(s: string, lo: nat, hi: nat, a: nat, b: nat)
    requires lo <= hi <= |s| && a <= b <= hi - lo
    ensures s[lo..hi][a..b] == s[lo + a..lo + b]
  {
    forall p | 0 <= p < b - a ensures s[lo..hi][a..b][p] == s[lo + a..lo + b][p] {
      assert s[lo..hi][a + p] == s[lo + a + p];
    }
  }

  // ---------------------------------------------------------------------------
  // split()

  /** Length of the run of non-whitespace characters at the front of `s`. */
  function WordLength(s: string): (n: nat)
    ensures n <= |s|
    ensures forall i :: 0 <= i < n ==> !IsSpace(s[i])
    ensures n < |s| ==> IsSpace(s[n])
  {
    if s == [] || IsSpace(s[0]) then 0 else 1 + WordLength(s[1..])
  }

  /**
   * `s.split()`: the maximal runs of non-whitespace characters, in order;
   * every word is non-empty and holds no whitespace.
   */
  function Split(s: string): (words: seq<string>)
    decreases |s|
  {
    if s == [] then []
    else if IsSpace(s[0]) then Split(s[1..])
    else
      var n := WordLength(s);
      [s[..n]] + Split(s[n..])
  }

  /**
   * Every word is non-empty, holds no whitespace, and is made of characters
   * of the split string.
   */
  lemma {:induction false} SplitChars(s: string)
    ensures forall k :: 0 <= k < |Split(s)| ==> Split(s)[k] != [] && NoSpaces(Split(s)[k])
    ensures forall k, i :: 0 <= k < |Split(s)| && 0 <= i < |Split(s)[k]| ==> Split(s)[k][i] in s
    decreases |s|
  {
    if s == [] {
    } else if IsSpace(s[0]) {
      SplitChars(s[1..]);
      assert forall c :: c in s[1..] ==> c in s;
    } else {
      var n := WordLength(s);
      SplitChars(s[n..]);
      assert forall c :: c in s[n..] ==> c in s;
      assert forall c :: c in s[..n] ==> c in s;
    }
  }

  /** Leading whitespace produces no words. */
  lemma {:induction false} SplitSpacesPrefix(p: string, s: string)
    requires AllSpaces(p)
    ensures Split(p + s) == Split(s)
  {
    if p != [] {
      assert (p + s)[0] == p[0] && IsSpace(p[0]);
      assert Split(p + s) == Split((p + s)[1..]);
      assert (p + s)[1..] == p[1..] + s;
      SplitSpacesPrefix(p[1..], s);
    } else {
      assert p + s == s;
    }
  }

  /** A string of whitespace only splits into no words at all. */
  lemma SplitAllSpaces(s: string)
    requires AllSpaces(s)
    ensures Split(s) == []
  {
    SplitSpacesPrefix(s, []);
    assert s + [] == s;
  }

  /** A word followed by whitespace (or the end) is the first word. */
  lemma SplitWord(w: string, s: string)
    requires w != [] && NoSpaces(w)
    requires s == [] || IsSpace(s[0])
    ensures Split(w + s) == [w] + Split(s)
  {
    var ws := w + s;
    var n := WordLength(ws);
    assert forall k :: 0 <= k < |w| ==> ws[k] == w[k];
    assert s != [] ==> ws[|w|] == s[0];
    assert ws[..n] == w;
    assert ws[n..] == s;
  }

  /** One word between runs of whitespace. */
  lemma SplitOneWord(lead: string, w: string, tail: string)
    requires AllSpaces(lead) && AllSpaces(tail)
    requires w != [] && NoSpaces(w)
    ensures Split(lead + (w + tail)) == [w]
  {
    SplitSpacesPrefix(lead, w + tail);
    SplitWord(w, tail);
    SplitAllSpaces(tail);
    assert [w] + [] == [w];
  }

  /** Two words separated by whitespace. */
  lemma SplitTwoWords(w1: string, gap: string, w2: string, tail: string)
    requires gap != [] && AllSpaces(gap) && AllSpaces(tail)
    requires w1 != [] && NoSpaces(w1) && w2 != [] && NoSpaces(w2)
    ensures Split(w1 + (gap + (w2 + tail))) == [w1, w2]
  {
    SplitWord(w1, gap + (w2 + tail));
    SplitOneWord(gap, w2, tail);
    assert [w1] + [w2] == [w1, w2];
  }

  // ---------------------------------------------------------------------------
  // decimal digits

  function DigitValue(c: char): nat
    requires IsDigit(c)
  {
    c as int - '0' as int
  }

  function DigitChar(d: nat): (c: char)
    requires d < 10
    ensures IsDigit(c) && DigitValue(c) == d
  {
    ('0' as int + d) as char
  }

  /** The value of a string of decimal digits, most significant first. */
  function DigitsValue(s: string): nat
    requires AllDigits(s)
    decreases |s|
  {
    if s == [] then 0 else DigitsValue(s[..|s| - 1]) * 10 + DigitValue(s[|s| - 1])
  }

  /** The decimal representation of `n`, without leading zeros. */
  function NatToString(n: nat): (r: string)
    ensures r != [] && AllDigits(r)
    decreases n
  {
    if n < 10 then [DigitChar(n)] else NatToString(n / 10) + [DigitChar(n % 10)]
  }

  /** Reading back a number's decimal representation gives the number. */
  lemma {:induction false} NatToStringRoundTrip(n: nat)
    ensures DigitsValue(NatToString(n)) == n
  {
    if n >= 10 {
      var r := NatToString(n);
      assert r[..|r| - 1] == NatToString(n / 10);
      NatToStringRoundTrip(n / 10);
    }
  }
}
