# TSA checkpoint wait scraper: the parsing and persistence core

The scraper reads published security-checkpoint wait times from two airport
web sites and stores them as canonical rows in one PostgreSQL table,
`tsa_waits`. This project models the three pieces of logic between the
browser and the database, and proves what they promise:

- **DCA (Reagan National).** `parse_wait` turns one free-text table cell
  ("< 5 mins", "4–7 mins", "Closed", "Opens at 5am") into a status (`Open`,
  `Closed`, `Unknown`) and an optional wait range in minutes. It runs through a
  fixed cascade: empty cell, then the `closed` / `--` / `opens` markers, then
  the count of numeric tokens. `int()` can raise on a token. The loop of
  `scrape_dca_wait` skips table rows with fewer than three cells and turns
  every other row into one record holding two parsed readings.
- **SLC (Salt Lake City).** `parse_slc_wait_text` reads a duration such as
  "6 minutes and 18 seconds" as whole minutes, rounded up. The adapter builds
  exactly one canonical row from the page's time element.
- **Persistence.** `save_rows` upserts a batch into `tsa_waits`, keyed by
  `(airport_code, checkpoint, lane_type, collected_at)`, and commits once.

Files and modules:

- `wrappers.dfy` (`Wrappers`): `Option` and `Result`.
- `text.dfy` (`Text`): the Python `str` operations the parsers use, on ASCII.
  These are `isspace`, `isdigit`, `lower()`, `strip()`, `in`, `split()` with
  no separator, and decimal digit strings.
- `canonical.dfy` (`Canonical`): status, reading, canonical row, its logical
  key and its four mutable columns.
- `dca.dfy` (`Dca`): `int()` on a token, `parse_wait` and the row loop. The
  loop is an imperative method proved equal to a filter-map function. Its
  properties are proved for any cell parser.
- `slc.dfy` (`Slc`): `re.search(r"(\d+)\s*unit")`, `parse_slc_wait_text`,
  the row and the adapter's result.
- `save.dfy` (`Store`): the table as a class with a `map` field and a `Save`
  method that writes the batch into a pending copy in a loop and commits it
  at the end.

Where the code's own comments and the code disagree, the model follows the
code. The comments at scrapers/dca.py:34 and scrapers/dca.py:42 name
"4-7 mins" as a two-bound range. At scrapers/dca.py:35, though, the hyphen is
kept, so the single token "4-7" reaches `int()`, which raises `ValueError`
(`Dca.HyphenRangeRaises`). Any character other than a digit or `-` separates
two bounds ("4 7", "4 to 7 mins", the en dash in "4–7 mins",
`Dca.EnDashRange`); the plain hyphen does not.

Two more consequences of the code, stated by the lemmas:

- `parse_wait` on its own reads a whitespace-only string as Unknown: the
  string is not empty, so it passes the test at scrapers/dca.py:21 and yields
  no tokens (`Dca.NoNumeralIsUnknown`). The DCA loop never passes it such a
  string: `get_text(strip=True)` at scrapers/dca.py:71-73 turns a blank table
  cell into the empty string, which reads as Closed (`Dca.CellTextIff`).
- Bounds are never reordered, so a reading may have min > max
  (`Dca.TokenCascade`, `Dca.EnDashRange`).

## Model

| member | source | states |
|---|---|---|
| `Dca.ParseIntRoundTrip` | scrapers/dca.py:40 | the model's `int()` reads back the decimal form of every integer, negative ones included (Python's digit limit is not modelled, see below) |
| `Dca.ParseIntDigits` | scrapers/dca.py:40-44 | a digit string is read as its decimal value, and the same string with a leading `-` as its negation |
| `Dca.ParseIntRaisesIff` | scrapers/dca.py:40-44 | on a token of digits and hyphens, `int()` raises exactly when the token is a lone `-` or has a `-` after its first character |
| `Dca.ParseWait` | scrapers/dca.py:12-46 | the empty cell is Closed with no bounds; the only exception is `ValueError`; a returned reading is Open exactly when its bounds are present, and the two bounds are present or absent together |
| `Dca.ReadTokens` | scrapers/dca.py:38-46 | the token-count step raises only `ValueError`; Open exactly when bounds are present; both bounds or neither |
| `Dca.ClosedMarkerNormalized` | scrapers/dca.py:24-32 | the tests on the stripped, lower-cased text hold exactly when the raw cell contains "closed" or "opens" in any letter case, or strips to "--" |
| `Dca.ClosedIff` | scrapers/dca.py:21-32 | the result is Closed (always with no bounds) exactly when the cell is empty or carries a marker; a marker wins over any digits |
| `Dca.TokensShape` | scrapers/dca.py:35-36 | every token is non-empty and consists of digits and hyphens only |
| `Dca.NoNumeralIsUnknown` | scrapers/dca.py:35-46 | an unmarked non-empty cell with no digit and no hyphen, such as "no wait" or "   ", has no tokens and reads as Unknown |
| `Dca.RaisesIff` | scrapers/dca.py:35-44 | the parser raises exactly when an unmarked non-empty cell has one or two tokens and some token is a lone `-` or holds an inner `-` |
| `Dca.TokenCascade` | scrapers/dca.py:38-46 | on an unmarked cell: zero or three and more tokens give Unknown; one token n gives Open 0 to n; two tokens give Open from the first to the second, in textual order |
| `Dca.ParseWaitPlain` | scrapers/dca.py:21-36 | a non-empty cell other than `--`, without capitals, end whitespace, `c` or `o`, goes straight to the token step |
| `Dca.LessThanMinutes` | scrapers/dca.py:38-40 | "< n mins" reads as Open 0 to n for every n |
| `Dca.EnDashRange` | scrapers/dca.py:35-44 | "a–b mins" with an en dash reads as Open a to b for every a and b, with no swap |
| `Dca.HyphenRangeRaises` | scrapers/dca.py:35-40 | "a-b mins" with a plain hyphen is one token, and `int()` raises `ValueError` on it |
| `Dca.LeadingHyphenIsSign` | scrapers/dca.py:38-40 | "-n" is one signed token and reads as Open 0 to -n |
| `Dca.ScrapeRows` | scrapers/dca.py:65-90 | the loop (skip rows under three cells, strip cells 0-2, parse cells 1 and 2, append) returns exactly the filter-map `Records(ParseWait, rows, now)`, including the first exception |
| `Dca.DataRowsAppend` | scrapers/dca.py:66-69 | skipping short rows distributes over concatenation, so the row order is kept |
| `Dca.RecordOfIff` | scrapers/dca.py:71-88 | a data row yields a record exactly when both stripped wait cells parse; the record holds "DCA", the stripped cell 0, both readings and the timestamp |
| `Dca.CellTextIff` | scrapers/dca.py:71-73 | `get_text(strip=True)` gives the empty string exactly for a blank cell, which `parse_wait` then reads as Closed; otherwise its text has no whitespace at either end |
| `Dca.RecordsSucceedIff` | scrapers/dca.py:66-90 | the loop returns records exactly when every row with at least three cells yields a record |
| `Dca.RecordsShape` | scrapers/dca.py:66-90 | on success there is one record per data row, in row order: record k comes from the k-th data row |
| `Text.LowerStripCommute` | scrapers/dca.py:24 | `s.strip().lower() == s.lower().strip()` |
| `Text.SplitChars` | scrapers/dca.py:36 | `split()` yields only non-empty words without whitespace, made of characters of the input |
| `Slc.MatchAtIff` | scrapers/slc.py:62-63 | the greedy reading of `(\d+)\s*unit` at a position matches exactly when some split into digits, whitespace and the unit does, and every such split captures the same digits |
| `Slc.FirstMatch` | scrapers/slc.py:62-63 | `re.search` returns the first position from which the pattern matches, and none before it matches |
| `Slc.SearchIsLeftmost` | scrapers/slc.py:62-66 | the search finds something exactly when the pattern occurs; the match starts no later than any occurrence and captures its maximal digit run |
| `Slc.ParseSlcWaitText` | scrapers/slc.py:40-73 | None exactly for the empty text, so the negative-total branch is unreachable; otherwise a natural number; without "no wait" it is the total seconds rounded up: `(r-1)*60 < total <= r*60`, and 0 for a zero total |
| `Slc.NoWaitIsZero` | scrapers/slc.py:56-59 | "no wait" anywhere, in any letter case, gives 0 |
| `Slc.NoDigitsIsZero` | scrapers/slc.py:61-73 | a non-empty text with no digit, such as "Closed" or "No wait", gives 0 |
| `Slc.MinutesAndSeconds` | scrapers/slc.py:40-73 | "m minutes and s seconds" gives the ceiling of (60m+s)/60 for all m and s, so 6 minutes 18 seconds gives 7 |
| `Slc.SecondsOnly` | scrapers/slc.py:40-73 | "s seconds" gives the ceiling of s/60, so "45 seconds" gives 1 |
| `Slc.MinutesOnly` | scrapers/slc.py:40-73 | "m minutes" gives exactly m |
| `Slc.WaitRow` | scrapers/slc.py:96-121 | the row has the key ("SLC", "main", "overall", collected_at) and the text as `source_raw`; it is Open with min = max = the parsed value when the text parses, else Unknown with no bounds |
| `Slc.Scrape` | scrapers/slc.py:83-123 | a timed-out element raises and yields no row; otherwise exactly one row, the `Slc.WaitRow` of the stripped element text, so its key and status are the ones `Slc.WaitRow` states |
| `Slc.ScrapeUnknownIff` | scrapers/slc.py:96-106 | the row is Unknown exactly when the element text is all whitespace, and Open otherwise |
| `Slc.ScrapeNoWait` | scrapers/slc.py:96-106 | an element saying "no wait" gives the row Open 0 to 0 |
| `Store.WaitTable.Save` | db/save.py:6-33 | an empty batch returns at once and changes nothing; otherwise the call succeeds exactly when no fault strikes, and the table becomes the upsert of the batch on success and stays as it was on failure |
| `Store.UpsertAt` | db/save.py:11-27 | after the upsert, every row's key maps to that row's status, bounds and source text |
| `Store.UpsertFrame` | db/save.py:22-27 | a key outside the batch keeps its entry, or stays absent |
| `Store.UpsertKeys` | db/save.py:22-23 | the keys afterwards are the old keys together with the batch's keys; identity columns are never rewritten |
| `Store.Determined` | db/save.py:22-27 | any table with those keys, the batch's columns under its keys and the old entries elsewhere is the upsert |
| `Store.UpsertIdempotent` | db/save.py:22-27 | saving the same batch twice gives the table that saving it once gives |
| `Store.ResaveReplacesText` | db/save.py:23-27 | re-saving a batch with one row's source text changed keeps the same keys, and the single entry for that row holds the new text |

## Left out

- Browser retrieval is not modelled: Chrome, `driver.get`, `WebDriverWait`, `time.sleep`, `driver.quit` and the BeautifulSoup selectors are I/O. A DCA page enters as the list of its rows' cell texts. An SLC page enters as its element text, or None when waiting for the element timed out.
- `get_text(strip=True)` on the DCA cells is modelled as `strip()` of the cell's whole text (`Dca.CellText`). BeautifulSoup also strips each inner text fragment before joining the fragments, so `<span>4</span> <span>7</span>` gives "47"; the model's cells are the joined texts, and this inner stripping is not modelled.
- Dca.ScrapeRows: every record carries the same `now`, while the source reads `datetime.utcnow()` once per row. Timestamps are opaque integers.
- A Python `None` cell is identified with the empty string. Both are falsy, and the row loop only passes strings.
- `int()` is modelled only on the tokens it can receive, which are strings of digits and hyphens. Its acceptance of whitespace, `+`, `_` and non-ASCII digits never arises.
- Unicode is not modelled: `isspace`, `isdigit`, `lower`, `\d` and `\s` are the ASCII versions. A no-break space, superscript digits and non-ASCII capitals therefore behave differently from CPython. The en dash is modelled as the ordinary non-digit it is.
- Floating point is not modelled: `math.ceil(total_seconds / 60)` is integer ceiling division, which is exact for totals below 2^53. Beyond float range, `/` raises `OverflowError` in Python; in the model it never overflows.
- Python's limit on `int()` of decimal strings is not modelled: since CPython 3.10.7 and 3.11, a string of more than 4300 digits raises `ValueError`. Above that length, `parse_wait` raises at scrapers/dca.py:40 and :44, and `parse_slc_wait_text` raises at scrapers/slc.py:65-66. The model's `int()` (`Dca.ParseInt`, `Slc.Group`) has no digit limit, so there it returns a reading or a number of minutes.
- Database behaviour is not modelled: the psycopg2 connection, the paging of `execute_values` into statements of 100 rows, and PostgreSQL's error when one statement updates the same key twice. Instead, a batch must have distinct keys. Connection, statement and commit failures enter as a `Fault` parameter, and `Save` returning false stands for the exception.
- Store.WaitTable.Save: requires distinct keys within the batch, while the source accepts any batch and leaves duplicates to the database.
- The orchestration scripts `run_all_scrapers.py` and `run_dca_scraper.py` are not modelled: they handle environment, printing, exit codes and the wiring between adapters and `save_rows`.
