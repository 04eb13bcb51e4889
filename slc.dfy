/**
 * The Salt Lake City adapter: `parse_slc_wait_text`, which reads a duration
 * such as "6 minutes and 18 seconds" as whole minutes rounded up, and the
 * single canonical row the adapter builds from the page's time element.
 */
module Slc {
  import opened Wrappers
  import opened Text
  import opened Canonical

  const AirportCode := "SLC"
  /** The airport reports one main checkpoint. */
  const CheckpointName := "main"
  /** One combined wait for all lanes. */
  const LaneType := "overall"

  // ---------------------------------------------------------------------------
  // re.search(r"(\d+)\s*unit", s)

  /** End of the longest run of digits starting at `i`. */
  function DigitRunEnd(s: string, i: nat): (j: nat)
    requires i <= |s|
    ensures i <= j <= |s|
    ensures forall p :: i <= p < j ==> IsDigit(s[p])
    ensures j < |s| ==> !IsDigit(s[j])
    decreases |s| - i
  {
    if i < |s| && IsDigit(s[i]) then DigitRunEnd(s, i + 1) else i
  }

  /** End of the longest run of whitespace starting at `i`. */
  function SpaceRunEnd(s: string, i: nat): (k: nat)
    requires i <= |s|
    ensures i <= k <= |s|
    ensures forall p :: i <= p < k ==> IsSpace(s[p])
    ensures k < |s| ==> !IsSpace(s[k])
    decreases |s| - i
  {
    if i < |s| && IsSpace(s[i]) then SpaceRunEnd(s, i + 1) else i
  }

  /**
   * The pattern `(\d+)\s*unit` matches at `i` as the engine tries it first:
   * the greedy digit run, the greedy whitespace run, then the literal.
   */
  predicate MatchAt(s: string, unit: string, i: nat) {
    i < |s| && IsDigit(s[i]) && OccursAt(s, unit, SpaceRunEnd(s, DigitRunEnd(s, i)))
  }

  /**
   * The pattern's own meaning: digits `s[i..j]`, at least one, then
   * whitespace `s[j..k]`, then `unit` at `k`.
   */
  predicate PatternAt(s: string, unit: string, i: int, j: int, k: int) {
    0 <= i < j <= k <= |s|
    && (forall p :: i <= p < j ==> IsDigit(s[p]))
    && (forall p :: j <= p < k ==> IsSpace(s[p]))
    && OccursAt(s, unit, k)
  }

  /** A unit word that starts with a letter, as "minute" and "second" do. */
  predicate UnitWord(unit: string) {
    unit != [] && !IsDigit(unit[0]) && !IsSpace(unit[0])
  }

  /**
   * No backtracking can help: the pattern matches at `i` exactly when the
   * greedy attempt does, and every match at `i` captures the same digits.
   */
  lemma MatchAtIff(s: string, unit: string, i: nat)
    requires UnitWord(unit)
    ensures MatchAt(s, unit, i) <==> exists j, k :: PatternAt(s, unit, i, j, k)
    ensures forall j, k :: PatternAt(s, unit, i, j, k) ==> j == DigitRunEnd(s, i) && k == SpaceRunEnd(s, j)
  {
    forall j, k | PatternAt(s, unit, i, j, k) ensures j == DigitRunEnd(s, i) && k == SpaceRunEnd(s, j) {
      assert s[k] == s[k..k + |unit|][0] == unit[0];
      assert j < |s| && !IsDigit(s[j]);
      assert !IsSpace(s[k]);
    }
    if MatchAt(s, unit, i) {
      var j := DigitRunEnd(s, i);
      assert PatternAt(s, unit, i, j, SpaceRunEnd(s, j));
    }
  }

  /** `re.search`: the leftmost position from `i` on where the pattern matches. */
  function FirstMatch(s: string, unit: string, i: nat): (p: Option<nat>)
    requires i <= |s|
    ensures p.Some? ==> i <= p.value < |s| && MatchAt(s, unit, p.value)
    ensures forall q :: i <= q < (if p.Some? then p.value else |s|) ==> !MatchAt(s, unit, q)
    decreases |s| - i
  {
    if i == |s| then None
    else if MatchAt(s, unit, i) then Some(i)
    else FirstMatch(s, unit, i + 1)
  }

  /** `int(m.group(1))` for a match at `p`. */
  function Group(s: string, p: nat): nat
    requires p <= |s|
  {
    var j := DigitRunEnd(s, p);
    assert AllDigits(s[p..j]);
    DigitsValue(s[p..j])
  }

  /** `int(m.group(1)) if m else 0`. */
  function UnitValue(s: string, unit: string): nat {
    match FirstMatch(s, unit, 0)
    case None => 0
    case Some(p) => Group(s, p)
  }

  /**
   * `re.search` finds a match exactly when the pattern occurs somewhere, the
   * match it finds starts no later than any other, and it captures that
   * occurrence's digits.
   */
  lemma SearchIsLeftmost(s: string, unit: string)
    requires UnitWord(unit)
    ensures FirstMatch(s, unit, 0).Some? <==> exists i, j, k :: PatternAt(s, unit, i, j, k)
    ensures forall i, j, k :: PatternAt(s, unit, i, j, k) ==> FirstMatch(s, unit, 0).Some? && FirstMatch(s, unit, 0).value <= i
    ensures FirstMatch(s, unit, 0).Some? ==>
      var p := FirstMatch(s, unit, 0).value;
      exists k :: PatternAt(s, unit, p, DigitRunEnd(s, p), k)
  {
    forall i, j, k | PatternAt(s, unit, i, j, k) ensures FirstMatch(s, unit, 0).Some? && FirstMatch(s, unit, 0).value <= i {
      MatchAtIff(s, unit, i);
    }
    if FirstMatch(s, unit, 0).Some? {
      var p := FirstMatch(s, unit, 0).value;
      MatchAtIff(s, unit, p);
      assert PatternAt(s, unit, p, DigitRunEnd(s, p), SpaceRunEnd(s, DigitRunEnd(s, p)));
    }
  }

  // ---------------------------------------------------------------------------
  // parse_slc_wait_text

  /** `minutes * 60 + seconds` of the normalised text. */
  function TotalSeconds(s: string): nat {
    UnitValue(s, "minute") * 60 + UnitValue(s, "second")
  }

  /**
   * Minutes rounded up, or None for empty text. A non-empty text always
   * yields a number: the digit groups are never negative, so the guard on a
   * negative total never fires.
   */
  function ParseSlcWaitText(text: string): (r: Option<int>)
    ensures r.None? <==> text == []
    ensures r.Some? ==> r.value >= 0
    ensures r.Some? && !Contains(Lower(Strip(text)), "no wait") ==>
      var total := TotalSeconds(Lower(Strip(text)));
      (total == 0 ==> r.value == 0) && (total > 0 ==> (r.value - 1) * 60 < total <= r.value * 60)
  {
    if text == [] then None
    else
      var s := Lower(Strip(text));
      if Contains(s, "no wait") then Some(0)
      else
        var total := TotalSeconds(s);
        if total < 0 then None
        else Some(if total > 0 then (total + 59) / 60 else 0)
  }

  /** "no wait" anywhere, in any letter case, means zero minutes. */
  lemma NoWaitIsZero(text: string)
    requires Contains(Lower(text), "no wait")
    ensures ParseSlcWaitText(text) == Some(0)
  {
    LowerStripCommute(text);
    ContainsStrip(Lower(text), "no wait");
  }

  /** A text without any digit names no unit: zero minutes, e.g. "Closed". */
  lemma NoDigitsIsZero(text: string)
    requires text != []
    requires forall i :: 0 <= i < |text| ==> !IsDigit(text[i])
    ensures ParseSlcWaitText(text) == Some(0)
  {
    var s := Lower(Strip(text));
    StripIsSlice(text);
    var b := StripBounds(text);
    LowerAt(Strip(text));
    forall i | 0 <= i < |s| ensures !IsDigit(s[i]) {
      LowerCharKeepsClass(Strip(text)[i]);
      assert Strip(text)[i] == text[b.0 + i];
    }
    assert FirstMatch(s, "minute", 0).None?;
    assert FirstMatch(s, "second", 0).None?;
  }

  // ---------------------------------------------------------------------------
  // the documented shapes

  /** Helper: the end of a digit run that is followed by a non-digit. */
  lemma {:induction false} DigitRunEndAt(s: string, i: nat, j: nat)
    requires i <= j <= |s|
    requires forall p :: i <= p < j ==> IsDigit(s[p])
    requires j < |s| ==> !IsDigit(s[j])
    ensures DigitRunEnd(s, i) == j
    decreases j - i
  {
    if i < j {
      DigitRunEndAt(s, i + 1, j);
    }
  }

  /** Helper: a word does not occur where its first character is missing. */
  lemma NotOccursAt(s: string, w: string, k: nat)
    requires k < |s| && w != [] && s[k] != w[0]
    ensures !OccursAt(s, w, k)
  {
    if k + |w| <= |s| {
      assert s[k..k + |w|][0] == s[k];
    }
  }

  /** Helper: FirstMatch finds the first position that matches. */
  lemma FirstMatchIs(s: string, unit: string, p: nat)
    requires MatchAt(s, unit, p)
    requires forall q :: 0 <= q < p ==> !MatchAt(s, unit, q)
    ensures FirstMatch(s, unit, 0) == Some(p)
  {
  }

  /**
   * Helper: in `d + rest`, with `d` a digit string and `rest` starting with
   * a space and then a unit word, the pattern for that unit matches at 0.
   */
  lemma MatchAfterDigits(d: string, unit: string, rest: string)
    requires d != [] && AllDigits(d)
    requires UnitWord(unit)
    requires |rest| >= 1 + |unit| && rest[0] == ' ' && !IsSpace(rest[1]) && rest[1..1 + |unit|] == unit
    ensures MatchAt(d + rest, unit, 0)
    ensures Group(d + rest, 0) == DigitsValue(d)
    ensures forall q :: 0 <= q < |d| ==> DigitRunEnd(d + rest, q) == |d|
  {
    var s := d + rest;
    assert !IsDigit(s[|d|]);
    forall q | 0 <= q < |d| ensures DigitRunEnd(s, q) == |d| {
      DigitRunEndAt(s, q, |d|);
    }
    assert !IsSpace(s[|d| + 1]);
    assert SpaceRunEnd(s, |d| + 1) == |d| + 1;
    assert s[|d| + 1..|d| + 1 + |unit|] == rest[1..1 + |unit|];
    assert s[0..|d|] == d;
  }

  /** Helper: a unit text built from digits and lower-case letters is its own normal form. */
  lemma Normalised(text: string)
    requires text != [] && !IsSpace(text[0]) && !IsSpace(text[|text| - 1])
    requires forall i :: 0 <= i < |text| ==> !('A' <= text[i] <= 'Z') && text[i] != 'w'
    ensures Lower(Strip(text)) == text
    ensures !Contains(Lower(Strip(text)), "no wait")
  {
    StripTrimmed(text);
    LowerOfLower(text);
    AbsentCharNotContained(text, "no wait", 3);
  }

  /** Helper: on a normalised text without "no wait", the parser rounds the total up. */
  lemma ParseNormalised(text: string)
    requires text != [] && Lower(Strip(text)) == text && !Contains(text, "no wait")
    ensures var total := TotalSeconds(text);
      ParseSlcWaitText(text) == Some(if total > 0 then (total + 59) / 60 else 0)
  {
  }

  /** Helper: digit runs do not see what precedes them. */
  lemma {:induction false} DigitRunEndShift(pre: string, s: string, q: nat)
    requires q <= |s|
    ensures DigitRunEnd(pre + s, |pre| + q) == |pre| + DigitRunEnd(s, q)
    decreases |s| - q
  {
    if q < |s| {
      assert (pre + s)[|pre| + q] == s[q];
      DigitRunEndShift(pre, s, q + 1);
    }
  }

  /** Helper: whitespace runs do not see what precedes them. */
  lemma {:induction false} SpaceRunEndShift(pre: string, s: string, q: nat)
    requires q <= |s|
    ensures SpaceRunEnd(pre + s, |pre| + q) == |pre| + SpaceRunEnd(s, q)
    decreases |s| - q
  {
    if q < |s| {
      assert (pre + s)[|pre| + q] == s[q];
      SpaceRunEndShift(pre, s, q + 1);
    }
  }

  /** Helper: a match in `s` is a match, with the same digits, in `pre + s`. */
  lemma MatchShift(pre: string, s: string, unit: string, q: nat)
    requires MatchAt(s, unit, q)
    ensures MatchAt(pre + s, unit, |pre| + q)
    ensures Group(pre + s, |pre| + q) == Group(s, q)
  {
    var t := pre + s;
    var j := DigitRunEnd(s, q);
    var k := SpaceRunEnd(s, j);
    assert DigitRunEnd(t, |pre| + q) == |pre| + j by {
      DigitRunEndShift(pre, s, q);
    }
    assert SpaceRunEnd(t, |pre| + j) == |pre| + k by {
      SpaceRunEndShift(pre, s, j);
    }
    assert OccursAt(t, unit, |pre| + k) by {
      SliceShift(pre, s, k, k + |unit|);
    }
    assert t[|pre| + q..|pre| + j] == s[q..j] by {
      SliceShift(pre, s, q, j);
    }
    assert t[|pre| + q] == s[q];
    assert |pre| + q < |t| && IsDigit(t[|pre| + q]);
    assert OccursAt(t, unit, SpaceRunEnd(t, DigitRunEnd(t, |pre| + q)));
  }

  /** Helper: a slice of `s` is the same slice, shifted, of `pre + s`. */
  lemma SliceShift(pre: string, s: string, a: nat, b: nat)
    requires a <= b <= |s|
    ensures (pre + s)[|pre| + a..|pre| + b] == s[a..b]
  {
    var t := pre + s;
    forall p | 0 <= p < b - a ensures t[|pre| + a..|pre| + b][p] == s[a..b][p] {
      assert t[|pre| + a + p] == s[a + p];
    }
  }

  /** The text "<dm> minutes and <ds> seconds". */
  function MinSecText(dm: string, ds: string): string {
    (dm + " minutes and ") + (ds + " seconds")
  }

  /** Helper: the text as written is MinSecText. */
  lemma MinSecTextIs(dm: string, ds: string)
    ensures dm + " minutes and " + ds + " seconds" == MinSecText(dm, ds)
  {
    var pre := dm + " minutes and ";
    assert pre + ds + " seconds" == pre + (ds + " seconds");
  }

  /** Helper: the minutes of "<dm> minutes and <ds> seconds" are the value of dm. */
  lemma MinSecMinutes(dm: string, ds: string)
    requires dm != [] && AllDigits(dm)
    ensures UnitValue(MinSecText(dm, ds), "minute") == DigitsValue(dm)
  {
    var rest := " minutes and " + ds + " seconds";
    assert MinSecText(dm, ds) == dm + rest;
    MatchAfterDigits(dm, "minute", rest);
    FirstMatchIs(MinSecText(dm, ds), "minute", 0);
  }

  /**
   * Helper: no match starts before `e` when `s` opens with the digits
   * `s[..d]`, then a space and a non-space other than the unit's first
   * character, and has no digit in `s[d..e]`.
   */
  lemma NoMatchBefore(s: string, unit: string, d: nat, e: nat)
    requires UnitWord(unit)
    requires 0 < d && d + 1 < |s| && e <= |s|
    requires forall q :: 0 <= q < d ==> IsDigit(s[q])
    requires forall q :: d <= q < e ==> !IsDigit(s[q])
    requires s[d] == ' ' && !IsSpace(s[d + 1]) && s[d + 1] != unit[0]
    ensures forall q :: 0 <= q < e ==> !MatchAt(s, unit, q)
  {
    assert SpaceRunEnd(s, d) == d + 1;
    NotOccursAt(s, unit, d + 1);
    forall q | 0 <= q < d ensures DigitRunEnd(s, q) == d {
      DigitRunEndAt(s, q, d);
    }
  }

  /** Helper: "second" matches nowhere in front of the seconds digits. */
  lemma MinSecNoEarlySecond(dm: string, ds: string)
    requires dm != [] && AllDigits(dm)
    ensures forall q :: 0 <= q < |dm| + 13 ==> !MatchAt(MinSecText(dm, ds), "second", q)
  {
    var text := MinSecText(dm, ds);
    var rest := " minutes and " + ds + " seconds";
    assert text == dm + rest;
    forall q | 0 <= q < |dm| + 13 ensures (q < |dm| ==> IsDigit(text[q])) && (q >= |dm| ==> !IsDigit(text[q])) {
      if q < |dm| {
        assert text[q] == dm[q];
      } else {
        assert text[q] == rest[q - |dm|];
      }
    }
    assert text[|dm|] == rest[0] && text[|dm| + 1] == rest[1];
    NoMatchBefore(text, "second", |dm|, |dm| + 13);
  }

  /** Helper: "second" matches right after "minutes and ", capturing ds. */
  lemma MinSecSecondsMatch(dm: string, ds: string)
    requires ds != [] && AllDigits(ds)
    ensures MatchAt(MinSecText(dm, ds), "second", |dm| + 13)
    ensures Group(MinSecText(dm, ds), |dm| + 13) == DigitsValue(ds)
  {
    var pre := dm + " minutes and ";
    var tail := ds + " seconds";
    assert MinSecText(dm, ds) == pre + tail;
    MatchAfterDigits(ds, "second", " seconds");
    MatchShift(pre, tail, "second", 0);
  }

  /** Helper: the seconds of "<dm> minutes and <ds> seconds" are the value of ds. */
  lemma MinSecSeconds(dm: string, ds: string)
    requires dm != [] && AllDigits(dm) && ds != [] && AllDigits(ds)
    ensures UnitValue(MinSecText(dm, ds), "second") == DigitsValue(ds)
  {
    MinSecSecondsMatch(dm, ds);
    MinSecNoEarlySecond(dm, ds);
    FirstMatchIs(MinSecText(dm, ds), "second", |dm| + 13);
  }

  /** Helper: "<dm> minutes and <ds> seconds" is already stripped, lower-case and without "no wait". */
  lemma MinSecNormalised(dm: string, ds: string)
    requires dm != [] && AllDigits(dm) && ds != [] && AllDigits(ds)
    ensures Lower(Strip(MinSecText(dm, ds))) == MinSecText(dm, ds)
    ensures !Contains(MinSecText(dm, ds), "no wait")
  {
    var text := MinSecText(dm, ds);
    forall i | 0 <= i < |text| ensures !('A' <= text[i] <= 'Z') && text[i] != 'w' {
      if i < |dm| {
        assert text[i] == dm[i];
      } else if i < |dm| + 13 {
        assert text[i] == " minutes and "[i - |dm|];
      } else if i < |dm| + 13 + |ds| {
        assert text[i] == ds[i - |dm| - 13];
      } else {
        assert text[i] == " seconds"[i - |dm| - 13 - |ds|];
      }
    }
    Normalised(text);
  }

  /** "<m> minutes and <s> seconds" is read as the minutes plus the seconds, rounded up. */
  lemma MinutesAndSeconds(m: nat, sec: nat)
    ensures var total := m * 60 + sec;
      ParseSlcWaitText(NatToString(m) + " minutes and " + NatToString(sec) + " seconds")
      == Some(if total > 0 then (total + 59) / 60 else 0)
  {
    var dm, ds := NatToString(m), NatToString(sec);
    MinSecTextIs(dm, ds);
    MinSecNormalised(dm, ds);
    ParseNormalised(MinSecText(dm, ds));
    MinSecMinutes(dm, ds);
    MinSecSeconds(dm, ds);
    NatToStringRoundTrip(m);
    NatToStringRoundTrip(sec);
    assert TotalSeconds(MinSecText(dm, ds)) == m * 60 + sec;
  }

  /** Helper: "<d> <word>" for a digit string d and a lower-case word without 'w' is in normal form. */
  lemma UnitTextNormalised(d: string, word: string)
    requires d != [] && AllDigits(d) && word != []
    requires forall i :: 0 <= i < |word| ==> 'a' <= word[i] <= 'z' && word[i] != 'w'
    ensures Lower(Strip(d + " " + word)) == d + " " + word
    ensures !Contains(d + " " + word, "no wait")
  {
    var text := d + " " + word;
    forall i | 0 <= i < |text| ensures !('A' <= text[i] <= 'Z') && text[i] != 'w' {
      if i < |d| {
        assert text[i] == d[i];
      } else if i > |d| {
        assert text[i] == word[i - |d| - 1];
      }
    }
    assert text[|text| - 1] == word[|word| - 1];
    Normalised(text);
  }

  /**
   * Helper: in "<d> <word>", where the word starts with `unit`, that unit
   * captures d and a unit with another first letter matches nowhere.
   */
  lemma SingleUnitText(d: string, word: string, unit: string, other: string)
    requires d != [] && AllDigits(d)
    requires UnitWord(unit) && UnitWord(other) && other[0] != unit[0]
    requires |word| >= |unit| && word[..|unit|] == unit
    requires forall i :: 0 <= i < |word| ==> !IsDigit(word[i])
    ensures UnitValue(d + " " + word, unit) == DigitsValue(d)
    ensures UnitValue(d + " " + word, other) == 0
  {
    var text := d + " " + word;
    var rest := " " + word;
    assert text == d + rest;
    assert rest[1..1 + |unit|] == word[..|unit|];
    MatchAfterDigits(d, unit, rest);
    FirstMatchIs(text, unit, 0);
    forall q | 0 <= q < |text| ensures (q < |d| ==> IsDigit(text[q])) && (q >= |d| ==> !IsDigit(text[q])) {
      if q < |d| {
        assert text[q] == d[q];
      } else {
        assert text[q] == rest[q - |d|];
      }
    }
    assert text[|d|] == ' ' && text[|d| + 1] == word[0] == unit[0];
    NoMatchBefore(text, other, |d|, |text|);
  }

  /** "<s> seconds" alone: the seconds rounded up to minutes, e.g. "45 seconds" is 1. */
  lemma SecondsOnly(sec: nat)
    ensures ParseSlcWaitText(NatToString(sec) + " seconds") == Some(if sec > 0 then (sec + 59) / 60 else 0)
  {
    var ds := NatToString(sec);
    var text := ds + " " + "seconds";
    assert ds + " seconds" == text;
    SingleUnitText(ds, "seconds", "second", "minute");
    UnitTextNormalised(ds, "seconds");
    ParseNormalised(text);
    NatToStringRoundTrip(sec);
  }

  /** Helper: whole minutes need no rounding. */
  lemma WholeMinutes(m: nat)
    ensures (m * 60 + 59) / 60 == m
  {
  }

  /** "<m> minutes" alone: exactly m. */
  lemma MinutesOnly(m: nat)
    ensures ParseSlcWaitText(NatToString(m) + " minutes") == Some(m)
  {
    var dm := NatToString(m);
    var text := dm + " " + "minutes";
    assert dm + " minutes" == text;
    SingleUnitText(dm, "minutes", "minute", "second");
    UnitTextNormalised(dm, "minutes");
    ParseNormalised(text);
    NatToStringRoundTrip(m);
    WholeMinutes(m);
  }

  // ---------------------------------------------------------------------------
  // the adapter's row

  /**
   * The row built at lines 112-121 from the stripped element text: a point
   * estimate when the text parses, Unknown with no bounds otherwise.
   */
  function WaitRow(waitText: string, collectedAt: Timestamp): (row: Row)
    ensures KeyOf(row) == Key(AirportCode, CheckpointName, LaneType, collectedAt)
    ensures row.sourceRaw == Some(waitText)
    ensures row.status == Open <==> ParseSlcWaitText(waitText).Some?
    ensures row.status == Open ==> row.waitMin == row.waitMax == ParseSlcWaitText(waitText)
    ensures row.status != Open ==> row.status == Unknown && row.waitMin.None? && row.waitMax.None?
  {
    var parsed := ParseSlcWaitText(waitText);
    var status := if parsed.None? then Unknown else Open;
    Row(AirportCode, CheckpointName, LaneType, status, parsed, parsed, Some(waitText), collectedAt)
  }

  /**
   * `scrape_slc_wait` given what the page yielded: the element's text, or
   * None when waiting for the element timed out and the exception escaped.
   */
  function Scrape(element: Option<string>, collectedAt: Timestamp): (r: Result<seq<Row>, Failure>)
    ensures r.Failure? <==> element.None?
    ensures r.Failure? ==> r.error == RetrievalTimeout
    ensures r.Success? ==> |r.value| == 1 && r.value[0].sourceRaw == Some(Strip(element.value))
    ensures r.Success? ==> r.value == [WaitRow(Strip(element.value), collectedAt)]
  {
    match element
    case None => Failure(RetrievalTimeout)
    case Some(t) => Success([WaitRow(Strip(t), collectedAt)])
  }

  /** The single row is Unknown exactly when the element held only whitespace. */
  lemma ScrapeUnknownIff(t: string, collectedAt: Timestamp)
    ensures Scrape(Some(t), collectedAt).value[0].status == Unknown <==> AllSpaces(t)
    ensures Scrape(Some(t), collectedAt).value[0].status == Open <==> !AllSpaces(t)
  {
    StripIsSlice(t);
    if AllSpaces(t) {
      StripAllSpaces(t);
    }
  }

  /** Text saying "no wait" anywhere, in any case, gives the point estimate Open 0 to 0. */
  lemma ScrapeNoWait(t: string, collectedAt: Timestamp)
    requires Contains(Lower(t), "no wait")
    ensures var row := Scrape(Some(t), collectedAt).value[0];
      row.status == Open && row.waitMin == Some(0) && row.waitMax == Some(0)
  {
    LowerStripCommute(t);
    ContainsStrip(Lower(t), "no wait");
    NoWaitIsZero(Strip(t));
  }
}
