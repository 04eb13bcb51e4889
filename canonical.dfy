/**
 * The canonical shapes shared by the adapters and the store: the status of a
 * lane, one parsed reading, the canonical row and its logical identity.
 */
module Canonical {
  import opened Wrappers

  datatype Status = Open | Closed | Unknown

  /** When a source was read. The core only copies and compares it. */
  type Timestamp = int

  /** What one text cell says: a status and an optional wait range in minutes. */
  datatype Reading = Reading(status: Status, waitMin: Option<int>, waitMax: Option<int>)

  /** The exceptions that end an adapter run without rows. */
  datatype Failure =
    | ValueError        // `int()` refused a token
    | RetrievalTimeout  // the page element never appeared

  /** One row of the `tsa_waits` table, in the column order of the INSERT. */
  datatype Row = Row(
    airportCode: string,
    checkpoint: string,
    laneType: string,
    status: Status,
    waitMin: Option<int>,
    waitMax: Option<int>,
    sourceRaw: Option<string>,
    collectedAt: Timestamp)

  /** The conflict target `(airport_code, checkpoint, lane_type, collected_at)`. */
  datatype Key = Key(airportCode: string, checkpoint: string, laneType: string, collectedAt: Timestamp)

  /** The four columns an upsert overwrites. */
  datatype Fields = Fields(status: Status, waitMin: Option<int>, waitMax: Option<int>, sourceRaw: Option<string>)

  function KeyOf(r: Row): Key {
    Key(r.airportCode, r.checkpoint, r.laneType, r.collectedAt)
  }

  function FieldsOf(r: Row): Fields {
    Fields(r.status, r.waitMin, r.waitMax, r.sourceRaw)
  }

  /** No two rows of a batch share a logical identity. */
  predicate DistinctKeys(rows: seq<Row>) {
    forall i, j :: 0 <= i < j < |rows| ==> KeyOf(rows[i]) != KeyOf(rows[j])
  }
}
