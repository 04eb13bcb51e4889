/**
 * The DCA adapter: the wait-cell parser `parse_wait` and the loop of
 * `scrape_dca_wait` that turns the rows of the security table into records.
 */
module Dca {
  import opened Wrappers
  import opened Text
  import opened Canonical

  const AirportCode := "DCA"

  const ClosedReading := Reading(Closed, None, None)
  const UnknownReading := Reading(Unknown, None, None)

  // ---------------------------------------------------------------------------
  // int() on a token

  /**
   * `int(tok)` on a token of digits and hyphens; `None` stands for the
   * `ValueError` it raises.
   */
  function ParseInt(tok: string): Option<int> {
    if tok != [] && tok[0] == '-' then
      if |tok| > 1 && AllDigits(tok[1..]) then Some(0 - DigitsValue(tok[1..])) else None
    else if tok != [] && AllDigits(tok) then Some(DigitsValue(tok))
    else None
  }

  /** `str(i)`. */
  function IntToString(i: int): string {
    if i < 0 then "-" + NatToString(-i) else NatToString(i)
  }

  /** `int(str(i)) == i`. */
  lemma ParseIntRoundTrip(i: int)
    ensures ParseInt(IntToString(i)) == Some(i)
  {
    if i < 0 {
      var s := IntToString(i);
      assert s[1..] == NatToString(-i);
      NatToStringRoundTrip(-i);
    } else {
      NatToStringRoundTrip(i);
    }
  }

  /** A digit string, with or without a leading `-`, is read as its value. */
  lemma ParseIntDigits(d: string)
    requires d != [] && AllDigits(d)
    ensures ParseInt(d) == Some(DigitsValue(d))
    ensures ParseInt("-" + d) == Some(0 - DigitsValue(d))
  {
    assert d[0] != '-';
    assert ("-" + d)[1..] == d;
  }

  /**
   * On a token of digits and hyphens, `int()` raises exactly when the token
   * is a lone `-` or has a `-` after its first character.
   */
  lemma ParseIntRaisesIff(tok: string)
    requires tok != []
    requires forall i :: 0 <= i < |tok| ==> IsDigit(tok[i]) || tok[i] == '-'
    ensures ParseInt(tok).None? <==> tok == "-" || exists i :: 0 < i < |tok| && tok[i] == '-'
  {
    if ParseInt(tok).None? && tok != "-" {
      if tok[0] == '-' {
        var i :| 0 <= i < |tok| - 1 && !IsDigit(tok[1..][i]);
        assert tok[i + 1] == '-';
      } else {
        var i :| 0 <= i < |tok| && !IsDigit(tok[i]);
        assert tok[i] == '-';
      }
    }
    if exists i :: 0 < i < |tok| && tok[i] == '-' {
      var i :| 0 < i < |tok| && tok[i] == '-';
      assert tok[1..][i - 1] == '-';
    }
  }

  // ---------------------------------------------------------------------------
  // parse_wait

  /** `cell_text.strip().lower()`. */
  function Normalize(cell: string): string {
    Lower(Strip(cell))
  }

  /** The markers that make a cell read as closed, tested on the normalized text. */
  predicate ClosedMarker(t: string) {
    Contains(t, "closed") || t == "--" || Contains(t, "opens")
  }

  /** Every character that is neither a digit nor `-` replaced by a space. */
  function Mask(t: string): string {
    if t == [] then [] else [MaskChar(t[0])] + Mask(t[1..])
  }

  function MaskChar(c: char): char {
    if IsDigit(c) || c == '-' then c else ' '
  }

  lemma {:induction false} MaskAt(t: string)
    ensures |Mask(t)| == |t|
    ensures forall i :: 0 <= i < |t| ==> Mask(t)[i] == MaskChar(t[i])
  {
    if t != [] {
      MaskAt(t[1..]);
    }
  }

  /** The tokens `parts` that `parse_wait` counts. */
  function Tokens(cell: string): seq<string> {
    Split(Mask(Normalize(cell)))
  }

  /**
   * `parse_wait(cell_text)`. A successful result is Open exactly when both
   * bounds are present, and Closed or Unknown exactly when both are absent;
   * the only exception is `int()`'s `ValueError`.
   */
  function ParseWait(cell: string): (r: Result<Reading, Failure>)
    ensures cell == [] ==> r == Success(ClosedReading)
    ensures r.Failure? ==> r.error == ValueError
    ensures r.Success? ==> (r.value.status == Open <==> r.value.waitMin.Some?)
    ensures r.Success? ==> (r.value.waitMin.Some? <==> r.value.waitMax.Some?)
  {
    if cell == [] then Success(ClosedReading)
    else
      var t := Normalize(cell);
      if Contains(t, "closed") || t == "--" then Success(ClosedReading)
      else if Contains(t, "opens") then Success(ClosedReading)
      else ReadTokens(Split(Mask(t)))
  }

  /**
   * The token-count cascade at the end of `parse_wait`: one token is an upper
   * bound over 0, two tokens are the bounds in textual order, and any other
   * count is Unknown.
   */
  function ReadTokens(parts: seq<string>): (r: Result<Reading, Failure>)
    ensures r.Failure? ==> r.error == ValueError
    ensures r.Success? ==> (r.value.status == Open <==> r.value.waitMin.Some?)
    ensures r.Success? ==> (r.value.waitMin.Some? <==> r.value.waitMax.Some?)
  {
    if |parts| == 1 then
      match ParseInt(parts[0])
      case Some(n) => Success(Reading(Open, Some(0), Some(n)))
      case None => Failure(ValueError)
    else if |parts| == 2 then
      match (ParseInt(parts[0]), ParseInt(parts[1]))
      case (Some(lo), Some(hi)) => Success(Reading(Open, Some(lo), Some(hi)))
      case _ => Failure(ValueError)
    else Success(UnknownReading)
  }

  // ---------------------------------------------------------------------------
  // properties of parse_wait

  /** A closed marker in the raw cell, in any letter case and wherever it stands. */
  predicate HasClosedMarker(cell: string) {
    Contains(Lower(cell), "closed") || Contains(Lower(cell), "opens") || Strip(cell) == "--"
  }

  lemma LowerIsDashes(s: string)
    ensures Lower(s) == "--" <==> s == "--"
  {
    LowerAt(s);
    if Lower(s) == "--" {
      LowerCharKeepsClass(s[0]);
      LowerCharKeepsClass(s[1]);
    }
  }

  /** The markers on the normalized text are exactly the markers on the raw cell. */
  lemma ClosedMarkerNormalized(cell: string)
    ensures ClosedMarker(Normalize(cell)) <==> HasClosedMarker(cell)
  {
    LowerStripCommute(cell);
    LowerIsDashes(Strip(cell));
    if Contains(Lower(cell), "closed") { ContainsStrip(Lower(cell), "closed"); }
    if Contains(Lower(cell), "opens") { ContainsStrip(Lower(cell), "opens"); }
    if Contains(Normalize(cell), "closed") { StripContains(Lower(cell), "closed"); }
    if Contains(Normalize(cell), "opens") { StripContains(Lower(cell), "opens"); }
  }

  /**
   * Closed comes from the empty cell and the markers alone, and the markers
   * win over any digits in the cell.
   */
  lemma ClosedIff(cell: string)
    ensures ParseWait(cell) == Success(ClosedReading) <==> cell == [] || HasClosedMarker(cell)
    ensures ParseWait(cell).Success? && ParseWait(cell).value.status == Closed <==> cell == [] || HasClosedMarker(cell)
  {
    ClosedMarkerNormalized(cell);
  }

  /** Every token is non-empty and made of digits and hyphens only. */
  lemma TokensShape(cell: string)
    ensures forall k :: 0 <= k < |Tokens(cell)| ==> Tokens(cell)[k] != []
    ensures forall k, i :: 0 <= k < |Tokens(cell)| && 0 <= i < |Tokens(cell)[k]| ==>
      IsDigit(Tokens(cell)[k][i]) || Tokens(cell)[k][i] == '-'
  {
    var m := Mask(Normalize(cell));
    MaskAt(Normalize(cell));
    SplitChars(m);
    forall k, i | 0 <= k < |Tokens(cell)| && 0 <= i < |Tokens(cell)[k]|
      ensures IsDigit(Tokens(cell)[k][i]) || Tokens(cell)[k][i] == '-'
    {
      var c := Tokens(cell)[k][i];
      assert !IsSpace(c);
      var j :| 0 <= j < |m| && m[j] == c;
    }
  }

  /**
   * A cell that carries no marker and neither a digit nor a hyphen (such as
   * "no wait" or "   ") has no tokens and reads as Unknown.
   */
  lemma NoNumeralIsUnknown(cell: string)
    requires cell != [] && !HasClosedMarker(cell)
    requires forall i :: 0 <= i < |cell| ==> !IsDigit(cell[i]) && cell[i] != '-'
    ensures Tokens(cell) == []
    ensures ParseWait(cell) == Success(UnknownReading)
  {
    ClosedMarkerNormalized(cell);
    StripIsSlice(cell);
    var b := StripBounds(cell);
    var t := Normalize(cell);
    LowerAt(Strip(cell));
    MaskAt(t);
    forall i | 0 <= i < |t| ensures !IsDigit(t[i]) && t[i] != '-' {
      assert Strip(cell)[i] == cell[b.0 + i];
      LowerCharKeepsClass(cell[b.0 + i]);
    }
    SplitAllSpaces(Mask(t));
  }

  /**
   * `parse_wait` raises exactly when an unmarked cell has one or two tokens
   * and one of them is a lone `-` or has a `-` after its first character.
   */
  lemma RaisesIff(cell: string)
    ensures ParseWait(cell).Failure? <==>
      cell != [] && !HasClosedMarker(cell) && 1 <= |Tokens(cell)| <= 2 &&
      exists k :: 0 <= k < |Tokens(cell)| && (Tokens(cell)[k] == "-" || exists i :: 0 < i < |Tokens(cell)[k]| && Tokens(cell)[k][i] == '-')
  {
    ClosedMarkerNormalized(cell);
    TokensShape(cell);
    var toks := Tokens(cell);
    forall k | 0 <= k < |toks|
      ensures ParseInt(toks[k]).None? <==> toks[k] == "-" || exists i :: 0 < i < |toks[k]| && toks[k][i] == '-'
    {
      ParseIntRaisesIff(toks[k]);
    }
  }

  /**
   * On an unmarked cell the number of tokens decides: none or three and more
   * give Unknown, one token `n` gives Open 0 to n, and two tokens give Open
   * from the first to the second, in textual order and without a swap.
   */
  lemma TokenCascade(cell: string)
    requires cell != [] && !HasClosedMarker(cell)
    ensures var toks := Tokens(cell);
      (|toks| != 1 && |toks| != 2 ==> ParseWait(cell) == Success(UnknownReading))
      && (|toks| == 1 && ParseInt(toks[0]).Some? ==>
            ParseWait(cell) == Success(Reading(Open, Some(0), ParseInt(toks[0]))))
      && (|toks| == 2 && ParseInt(toks[0]).Some? && ParseInt(toks[1]).Some? ==>
            ParseWait(cell) == Success(Reading(Open, ParseInt(toks[0]), ParseInt(toks[1]))))
  {
    ClosedMarkerNormalized(cell);
  }

  // ---------------------------------------------------------------------------
  // the documented cell shapes

  /** A plain cell: no capitals, no whitespace at its ends, no `c` and no `o`. */
  predicate Plain(cell: string) {
    && cell != []
    && !IsSpace(cell[0]) && !IsSpace(cell[|cell| - 1])
    && cell != "--"
    && forall i :: 0 <= i < |cell| ==> !('A' <= cell[i] <= 'Z') && cell[i] != 'c' && cell[i] != 'o'
  }

  /** A plain cell goes straight to the token cascade. */
  lemma ParseWaitPlain(cell: string)
    requires Plain(cell)
    ensures ParseWait(cell) == ReadTokens(Split(Mask(cell)))
  {
    StripTrimmed(cell);
    LowerOfLower(cell);
    AbsentCharNotContained(cell, "closed", 0);
    AbsentCharNotContained(cell, "opens", 0);
  }

  lemma LessThanShape(d: string)
    requires d != [] && AllDigits(d)
    ensures Plain("< " + d + " mins") && Split(Mask("< " + d + " mins")) == [d]
  {
    var cell := "< " + d + " mins";
    MaskAt(cell);
    assert Mask(cell) == "  " + (d + "     ");
    SplitOneWord("  ", d, "     ");
  }

  /** "< n mins" reads as Open from 0 to n. */
  lemma LessThanMinutes(n: nat)
    ensures ParseWait("< " + NatToString(n) + " mins") == Success(Reading(Open, Some(0), Some(n)))
  {
    var d := NatToString(n);
    LessThanReading(d);
    NatToStringRoundTrip(n);
  }

  lemma LessThanReading(d: string)
    requires d != [] && AllDigits(d)
    ensures ParseWait("< " + d + " mins") == Success(Reading(Open, Some(0), Some(DigitsValue(d))))
  {
    LessThanShape(d);
    ParseWaitPlain("< " + d + " mins");
    ParseIntDigits(d);
  }

  lemma EnDashShape(da: string, db: string)
    requires da != [] && AllDigits(da) && db != [] && AllDigits(db)
    ensures var cell := da + "\U{2013}" + db + " mins";
      Plain(cell) && Split(Mask(cell)) == [da, db]
  {
    var cell := da + "\U{2013}" + db + " mins";
    var m := da + (" " + (db + "     "));
    MaskAt(cell);
    forall i | 0 <= i < |cell|
      ensures !('A' <= cell[i] <= 'Z') && cell[i] != 'c' && cell[i] != 'o'
      ensures Mask(cell)[i] == m[i]
    {
      if i < |da| {
        assert cell[i] == da[i] == m[i];
      } else if i == |da| {
        assert cell[i] == '\U{2013}' && m[i] == ' ';
      } else if i <= |da| + |db| {
        assert cell[i] == db[i - |da| - 1] == m[i];
      } else {
        assert cell[i] == " mins"[i - |da| - |db| - 1];
        assert m[i] == "     "[i - |da| - |db| - 1];
      }
    }
    assert Mask(cell) == m;
    SplitTwoWords(da, " ", db, "     ");
  }

  /**
   * "a–b mins" with an en-dash reads as Open from a to b in textual order:
   * the bounds are never swapped, so a > b gives a reversed range.
   */
  lemma EnDashRange(a: nat, b: nat)
    ensures ParseWait(NatToString(a) + "\U{2013}" + NatToString(b) + " mins") == Success(Reading(Open, Some(a), Some(b)))
  {
    var da, db := NatToString(a), NatToString(b);
    EnDashReading(da, db);
    NatToStringRoundTrip(a);
    NatToStringRoundTrip(b);
  }

  lemma EnDashReading(da: string, db: string)
    requires da != [] && AllDigits(da) && db != [] && AllDigits(db)
    ensures ParseWait(da + "\U{2013}" + db + " mins") == Success(Reading(Open, Some(DigitsValue(da)), Some(DigitsValue(db))))
  {
    EnDashShape(da, db);
    ParseWaitPlain(da + "\U{2013}" + db + " mins");
    ParseIntDigits(da);
    ParseIntDigits(db);
  }

  /** Helper: the characters of "a-b mins" and their masked form. */
  lemma HyphenMask(da: string, db: string)
    requires da != [] && AllDigits(da) && db != [] && AllDigits(db)
    ensures var cell := da + "-" + db + " mins";
      (forall i :: 0 <= i < |cell| ==> !('A' <= cell[i] <= 'Z') && cell[i] != 'c' && cell[i] != 'o')
      && Mask(cell) == (da + "-" + db) + "     "
  {
    var cell := da + "-" + db + " mins";
    var tok := da + "-" + db;
    var m := tok + "     ";
    MaskAt(cell);
    forall i | 0 <= i < |cell|
      ensures !('A' <= cell[i] <= 'Z') && cell[i] != 'c' && cell[i] != 'o'
      ensures Mask(cell)[i] == m[i]
    {
      if i < |da| {
        assert cell[i] == da[i] == m[i];
      } else if i == |da| {
        assert cell[i] == '-' == m[i];
      } else if i < |tok| {
        assert cell[i] == db[i - |da| - 1] == m[i];
      } else {
        assert cell[i] == " mins"[i - |tok|];
        assert m[i] == "     "[i - |tok|];
      }
    }
  }

  lemma HyphenShape(da: string, db: string)
    requires da != [] && AllDigits(da) && db != [] && AllDigits(db)
    ensures var cell := da + "-" + db + " mins";
      Plain(cell) && Split(Mask(cell)) == [da + "-" + db]
  {
    var cell := da + "-" + db + " mins";
    var tok := da + "-" + db;
    HyphenMask(da, db);
    assert cell[0] == da[0] && cell[|cell| - 1] == 's';
    assert NoSpaces(tok) by {
      forall i | 0 <= i < |tok| ensures !IsSpace(tok[i]) {
        assert tok[i] == cell[i];
      }
    }
    assert Mask(cell) == [] + (tok + "     ");
    SplitOneWord([], tok, "     ");
  }

  /** "a-b mins" with a plain hyphen is the single token "a-b", and `int()` raises on it. */
  lemma HyphenRangeRaises(a: nat, b: nat)
    ensures ParseWait(NatToString(a) + "-" + NatToString(b) + " mins") == Failure(ValueError)
  {
    var da, db := NatToString(a), NatToString(b);
    var tok := da + "-" + db;
    HyphenShape(da, db);
    ParseWaitPlain(da + "-" + db + " mins");
    assert !AllDigits(tok) by { assert tok[|da|] == '-'; }
  }

  lemma SignShape(d: string)
    requires d != [] && AllDigits(d)
    ensures Plain("-" + d) && Split(Mask("-" + d)) == ["-" + d]
  {
    var cell := "-" + d;
    MaskAt(cell);
    assert Mask(cell) == [] + (cell + []);
    SplitOneWord([], cell, []);
  }

  /** A leading hyphen is a sign: "-n" reads as Open from 0 to -n. */
  lemma LeadingHyphenIsSign(n: nat)
    ensures ParseWait("-" + NatToString(n)) == Success(Reading(Open, Some(0), Some(0 - n)))
  {
    var d := NatToString(n);
    SignReading(d);
    NatToStringRoundTrip(n);
  }

  lemma SignReading(d: string)
    requires d != [] && AllDigits(d)
    ensures ParseWait("-" + d) == Success(Reading(Open, Some(0), Some(0 - DigitsValue(d))))
  {
    SignShape(d);
    ParseWaitPlain("-" + d);
    ParseIntDigits(d);
  }

  // ---------------------------------------------------------------------------
  // the row loop of scrape_dca_wait

  /** One appended result: a checkpoint with its general and PreCheck readings. */
  datatype DcaRecord = DcaRecord(airport: string, checkpoint: string, general: Reading, pre: Reading, timestamp: Timestamp)

  /** A table row is data when it has at least three cells; shorter rows are skipped. */
  predicate IsDataRow(cells: seq<string>) {
    |cells| >= 3
  }

  /** The data rows, in their order. */
  function DataRows(rows: seq<seq<string>>): (d: seq<seq<string>>)
    ensures forall k :: 0 <= k < |d| ==> IsDataRow(d[k])
  {
    if rows == [] then []
    else (if IsDataRow(rows[0]) then [rows[0]] else []) + DataRows(rows[1..])
  }

  /** `xs` placed in front of a result's records; an exception stays as it is. */
  function PrependAll(xs: seq<DcaRecord>, r: Result<seq<DcaRecord>, Failure>): Result<seq<DcaRecord>, Failure> {
    match r
    case Success(ys) => Success(xs + ys)
    case Failure(e) => Failure(e)
  }

  lemma PrependNothing(r: Result<seq<DcaRecord>, Failure>)
    ensures PrependAll([], r) == r
  {
    if r.Success? {
      assert [] + r.value == r.value;
    }
  }

  lemma PrependTwice(xs: seq<DcaRecord>, ys: seq<DcaRecord>, r: Result<seq<DcaRecord>, Failure>)
    ensures PrependAll(xs, PrependAll(ys, r)) == PrependAll(xs + ys, r)
  {
    if r.Success? {
      assert xs + (ys + r.value) == (xs + ys) + r.value;
    }
  }

  /** A cell parser: `parse_wait` itself, or any other function of that shape. */
  type CellParser = string -> Result<Reading, Failure>

  /**
   * `cell.get_text(strip=True)`: the cell's text with its surrounding
   * whitespace removed, so a blank cell gives the empty string.
   */
  function CellText(cell: string): string {
    Strip(cell)
  }

  /** The record one data row yields, or the exception its cells raise. */
  function RecordOf(parse: CellParser, cells: seq<string>, now: Timestamp): Result<DcaRecord, Failure>
    requires IsDataRow(cells)
  {
    match parse(CellText(cells[1]))
    case Failure(e) => Failure(e)
    case Success(general) =>
      match parse(CellText(cells[2]))
      case Failure(e) => Failure(e)
      case Success(pre) => Success(DcaRecord(AirportCode, CellText(cells[0]), general, pre, now))
  }

  /**
   * What the loop returns for a given cell parser: the records of the data
   * rows in order, or the first exception.
   */
  function Records(parse: CellParser, rows: seq<seq<string>>, now: Timestamp): Result<seq<DcaRecord>, Failure> {
    if rows == [] then Success([])
    else if !IsDataRow(rows[0]) then Records(parse, rows[1..], now)
    else
      match RecordOf(parse, rows[0], now)
      case Failure(e) => Failure(e)
      case Success(rec) => PrependAll([rec], Records(parse, rows[1..], now))
  }

  /** The loop at lines 65-90, with `datetime.utcnow()` supplied as `now`. */
  method ScrapeRows(rows: seq<seq<string>>, now: Timestamp) returns (result: Result<seq<DcaRecord>, Failure>)
    ensures result == Records(ParseWait, rows, now)
  {
    var results: seq<DcaRecord> := [];
    assert rows[0..] == rows;
    PrependNothing(Records(ParseWait, rows, now));
    for i := 0 to |rows|
      invariant Records(ParseWait, rows, now) == PrependAll(results, Records(ParseWait, rows[i..], now))
    {
      assert rows[i..][0] == rows[i] && rows[i..][1..] == rows[i + 1..];
      var cells := rows[i];
      if |cells| < 3 {
        continue;
      }
      var checkpoint := CellText(cells[0]);
      var general := ParseWait(CellText(cells[1]));
      if general.Failure? {
        return Failure(general.error);
      }
      var pre := ParseWait(CellText(cells[2]));
      if pre.Failure? {
        return Failure(pre.error);
      }
      var rec := DcaRecord(AirportCode, checkpoint, general.value, pre.value, now);
      assert RecordOf(ParseWait, cells, now) == Success(rec);
      PrependTwice(results, [rec], Records(ParseWait, rows[i + 1..], now));
      results := results + [rec];
    }
    assert rows[|rows|..] == [];
    assert results + [] == results;
    return Success(results);
  }

  /** Skipping short rows keeps the order: filtering distributes over concatenation. */
  lemma {:induction false} DataRowsAppend(a: seq<seq<string>>, b: seq<seq<string>>)
    ensures DataRows(a + b) == DataRows(a) + DataRows(b)
  {
    if a == [] {
      assert a + b == b;
    } else {
      assert (a + b)[1..] == a[1..] + b;
      DataRowsAppend(a[1..], b);
    }
  }

  /** A data row yields a record exactly when both wait cells parse, and the record holds their readings. */
  lemma RecordOfIff(parse: CellParser, cells: seq<string>, now: Timestamp)
    requires IsDataRow(cells)
    ensures RecordOf(parse, cells, now).Success? <==>
      parse(CellText(cells[1])).Success? && parse(CellText(cells[2])).Success?
    ensures RecordOf(parse, cells, now).Success? ==>
      RecordOf(parse, cells, now).value ==
        DcaRecord(AirportCode, CellText(cells[0]), parse(CellText(cells[1])).value, parse(CellText(cells[2])).value, now)
  {
  }

  /**
   * A blank table cell reaches `parse_wait` as the empty string and reads as
   * Closed; a cell with text reaches it stripped, with the same text inside.
   */
  lemma CellTextIff(cell: string)
    ensures CellText(cell) == [] <==> AllSpaces(cell)
    ensures AllSpaces(cell) ==> ParseWait(CellText(cell)) == Success(ClosedReading)
    ensures CellText(cell) != [] ==> !IsSpace(CellText(cell)[0]) && !IsSpace(CellText(cell)[|CellText(cell)| - 1])
  {
    StripIsSlice(cell);
    if AllSpaces(cell) {
      StripAllSpaces(cell);
    } else {
      var i :| 0 <= i < |cell| && !IsSpace(cell[i]);
      KeptByStrip(cell, i);
    }
  }

  /** The loop returns exactly when every data row yields a record. */
  lemma {:induction false} RecordsSucceedIff(parse: CellParser, rows: seq<seq<string>>, now: Timestamp)
    ensures Records(parse, rows, now).Success? <==>
      forall k :: 0 <= k < |DataRows(rows)| ==> RecordOf(parse, DataRows(rows)[k], now).Success?
  {
    if rows != [] {
      var tail := Records(parse, rows[1..], now);
      var d := DataRows(rows);
      RecordsSucceedIff(parse, rows[1..], now);
      if IsDataRow(rows[0]) {
        assert d == [rows[0]] + DataRows(rows[1..]);
        assert forall k :: 1 <= k < |d| ==> d[k] == DataRows(rows[1..])[k - 1];
        assert d[0] == rows[0];
        if RecordOf(parse, rows[0], now).Success? {
          assert Records(parse, rows, now).Success? == tail.Success?;
          if tail.Success? {
            forall k | 0 <= k < |d| ensures RecordOf(parse, d[k], now).Success? {
              if k > 0 {
                assert d[k] == DataRows(rows[1..])[k - 1];
              }
            }
          } else {
            var j :| 0 <= j < |DataRows(rows[1..])| && !RecordOf(parse, DataRows(rows[1..])[j], now).Success?;
            assert d[j + 1] == DataRows(rows[1..])[j];
          }
        } else {
          assert !Records(parse, rows, now).Success?;
          assert !RecordOf(parse, d[0], now).Success?;
        }
      } else {
        assert Records(parse, rows, now) == tail;
        assert d == DataRows(rows[1..]);
      }
    }
  }

  /**
   * On success there is one record per data row, in the order of the rows:
   * the record of the k-th data row is at position k.
   */
  lemma {:induction false} RecordsShape(parse: CellParser, rows: seq<seq<string>>, now: Timestamp)
    requires Records(parse, rows, now).Success?
    ensures |Records(parse, rows, now).value| == |DataRows(rows)|
    ensures forall k :: 0 <= k < |DataRows(rows)| ==>
      RecordOf(parse, DataRows(rows)[k], now) == Success(Records(parse, rows, now).value[k])
  {
    if rows != [] {
      var tail := Records(parse, rows[1..], now);
      if IsDataRow(rows[0]) {
        var rec := RecordOf(parse, rows[0], now).value;
        assert tail.Success? && Records(parse, rows, now).value == [rec] + tail.value;
        RecordsShape(parse, rows[1..], now);
        var d := DataRows(rows);
        assert d == [rows[0]] + DataRows(rows[1..]);
        forall k | 0 <= k < |d| ensures RecordOf(parse, d[k], now) == Success(Records(parse, rows, now).value[k]) {
          if k > 0 {
            assert d[k] == DataRows(rows[1..])[k - 1];
          }
        }
      } else {
        assert Records(parse, rows, now) == tail;
        RecordsShape(parse, rows[1..], now);
      }
    }
  }
}
