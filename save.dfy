/**
 * `save_rows`: one `INSERT ... ON CONFLICT (airport_code, checkpoint,
 * lane_type, collected_at) DO UPDATE` over the whole batch, committed once.
 * The `tsa_waits` table is a map from a row's logical identity to its four
 * mutable columns.
 */
module Store {
  import opened Wrappers
  import opened Canonical

  /**
   * Where the database can refuse a save: opening the connection, the
   * statement at a given row of the batch, or the final commit.
   */
  datatype Fault = NoFault | ConnectFails | StatementFails(row: nat) | CommitFails

  /** Whether the fault is hit while saving a non-empty batch of `n` rows. */
  predicate Strikes(fault: Fault, n: nat) {
    match fault
    case NoFault => false
    case ConnectFails => true
    case StatementFails(i) => i < n
    case CommitFails => true
  }

  /** The table after inserting or updating the rows of `batch`, in order. */
  function Upsert(m: map<Key, Fields>, batch: seq<Row>): map<Key, Fields>
    decreases |batch|
  {
    if batch == [] then m
    else
      var last := batch[|batch| - 1];
      Upsert(m, batch[..|batch| - 1])[KeyOf(last) := FieldsOf(last)]
  }

  /** The identities a batch writes. */
  function BatchKeys(batch: seq<Row>): set<Key> {
    set i | 0 <= i < |batch| :: KeyOf(batch[i])
  }

  class WaitTable {
    /** The committed rows of `tsa_waits`. */
    var records: map<Key, Fields>

    constructor (initial: map<Key, Fields>)
      ensures records == initial
    {
      records := initial;
    }

    /**
     * `save_rows(rows, conn_str)`. An empty batch returns at once. Otherwise
     * every row is written to the open transaction and the transaction is
     * committed; `ok` is false when the call raises, and then nothing of the
     * batch is visible.
     */
    method Save(batch: seq<Row>, fault: Fault) returns (ok: bool)
      requires DistinctKeys(batch)
      modifies this
      ensures ok <==> batch == [] || !Strikes(fault, |batch|)
      ensures records == if ok then Upsert(old(records), batch) else old(records)
    {
      if batch == [] {
        return true;
      }
      if fault == ConnectFails {
        return false;
      }
      var pending := records;
      for i := 0 to |batch|
        invariant pending == Upsert(records, batch[..i])
        invariant !(fault.StatementFails? && fault.row < i)
      {
        if fault == StatementFails(i) {
          return false;
        }
        assert batch[..i + 1][..i] == batch[..i];
        pending := pending[KeyOf(batch[i]) := FieldsOf(batch[i])];
      }
      assert batch[..|batch|] == batch;
      if fault == CommitFails {
        return false;
      }
      records := pending;
      return true;
    }
  }

  // ---------------------------------------------------------------------------
  // properties of the upsert

  /** After the upsert every row of the batch is stored under its identity, holding its own columns. */
  lemma {:induction false} UpsertAt(m: map<Key, Fields>, batch: seq<Row>)
    requires DistinctKeys(batch)
    ensures forall i :: 0 <= i < |batch| ==>
      KeyOf(batch[i]) in Upsert(m, batch) && Upsert(m, batch)[KeyOf(batch[i])] == FieldsOf(batch[i])
    decreases |batch|
  {
    if batch != [] {
      var init := batch[..|batch| - 1];
      assert DistinctKeys(init);
      UpsertAt(m, init);
      forall i | 0 <= i < |batch| - 1 ensures KeyOf(batch[i]) != KeyOf(batch[|batch| - 1]) && batch[i] == init[i] {
      }
    }
  }

  /** Identities outside the batch keep their entry, or their absence. */
  lemma {:induction false} UpsertFrame(m: map<Key, Fields>, batch: seq<Row>, k: Key)
    requires k !in BatchKeys(batch)
    ensures k in Upsert(m, batch) <==> k in m
    ensures k in m ==> Upsert(m, batch)[k] == m[k]
    decreases |batch|
  {
    if batch != [] {
      var init := batch[..|batch| - 1];
      assert KeyOf(batch[|batch| - 1]) in BatchKeys(batch);
      assert BatchKeys(init) <= BatchKeys(batch) by {
        forall i | 0 <= i < |init| ensures KeyOf(init[i]) in BatchKeys(batch) {
          assert init[i] == batch[i];
        }
      }
      UpsertFrame(m, init, k);
    }
  }

  /** The identities after the upsert are the old ones and the batch's; none is lost or duplicated. */
  lemma {:induction false} UpsertKeys(m: map<Key, Fields>, batch: seq<Row>)
    ensures Upsert(m, batch).Keys == m.Keys + BatchKeys(batch)
    decreases |batch|
  {
    if batch != [] {
      var init := batch[..|batch| - 1];
      UpsertKeys(m, init);
      assert BatchKeys(batch) == BatchKeys(init) + {KeyOf(batch[|batch| - 1])} by {
        forall i | 0 <= i < |init| ensures init[i] == batch[i] {
        }
        forall k | k in BatchKeys(batch) ensures k in BatchKeys(init) + {KeyOf(batch[|batch| - 1])} {
          var i :| 0 <= i < |batch| && KeyOf(batch[i]) == k;
          if i < |init| {
            assert KeyOf(init[i]) == k;
          }
        }
      }
    }
  }

  /** The upsert is determined by the old table and the batch's own columns. */
  lemma Determined(m: map<Key, Fields>, batch: seq<Row>, r: map<Key, Fields>)
    requires DistinctKeys(batch)
    requires r.Keys == m.Keys + BatchKeys(batch)
    requires forall i :: 0 <= i < |batch| ==> KeyOf(batch[i]) in r && r[KeyOf(batch[i])] == FieldsOf(batch[i])
    requires forall k :: k in m && k !in BatchKeys(batch) ==> r[k] == m[k]
    ensures r == Upsert(m, batch)
  {
    var u := Upsert(m, batch);
    UpsertKeys(m, batch);
    UpsertAt(m, batch);
    forall k | k in r ensures r[k] == u[k] {
      if k in BatchKeys(batch) {
        var i :| 0 <= i < |batch| && KeyOf(batch[i]) == k;
      } else {
        UpsertFrame(m, batch, k);
      }
    }
  }

  /** Saving the same batch a second time changes nothing. */
  lemma UpsertIdempotent(m: map<Key, Fields>, batch: seq<Row>)
    requires DistinctKeys(batch)
    ensures Upsert(Upsert(m, batch), batch) == Upsert(m, batch)
  {
    var once := Upsert(m, batch);
    UpsertKeys(m, batch);
    UpsertAt(m, batch);
    assert once.Keys + BatchKeys(batch) == once.Keys;
    Determined(once, batch, once);
  }

  /**
   * Re-saving a batch in which one row carries a new source text keeps the
   * same identities, and the single entry for that row's identity holds the
   * new text and the row's other columns.
   */
  lemma ResaveReplacesText(m: map<Key, Fields>, batch: seq<Row>, i: nat, text: string)
    requires DistinctKeys(batch) && i < |batch|
    ensures var again := batch[i := batch[i].(sourceRaw := Some(text))];
      var once := Upsert(m, batch);
      var twice := Upsert(once, again);
      twice.Keys == once.Keys
      && KeyOf(batch[i]) in twice
      && twice[KeyOf(batch[i])] == FieldsOf(batch[i]).(sourceRaw := Some(text))
  {
    var again := batch[i := batch[i].(sourceRaw := Some(text))];
    var once := Upsert(m, batch);
    assert forall j :: 0 <= j < |batch| ==> KeyOf(again[j]) == KeyOf(batch[j]);
    assert DistinctKeys(again);
    assert BatchKeys(again) == BatchKeys(batch);
    UpsertKeys(m, batch);
    UpsertKeys(once, again);
    UpsertAt(once, again);
  }
}
