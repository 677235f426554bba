/** The `health_dumps` table and `upsert_health_dump`: one row per calendar date,
    replaced only by a dump recorded strictly later than the stored one. */
module HealthDumpStore {

  import opened Wrappers
  import opened Calendar

  /** One row of the table; the `date` primary key is the key of the map that holds it. */
  datatype Row = Row(steps: int, kcals: real, km: real, recordedAt: Timestamp)

  /** A record as the date-range query of the dashboard API returns it, most recent date first;
      flights and weight are nullable. */
  datatype HealthRecord = HealthRecord(
    date: string,
    steps: int,
    kcals: real,
    km: real,
    flightsClimbed: Option<int>,
    weight: Option<real>)

  /** A `HealthDump` as the handlers build it. Steps, kcals and km can be `None` after a
      PATCH that sent `null`; flights and weight are carried but not stored. */
  datatype HealthDump = HealthDump(
    date: string,
    steps: Option<int>,
    kcals: Option<real>,
    km: Option<real>,
    flightsClimbed: Option<int>,
    weight: Option<real>,
    recordedAt: Timestamp)

  /** What `upsert_health_dump` returns, or the `RuntimeError` it raises when the insert fails:
      the `NOT NULL` constraint of steps, kcals or km aborts it, or `sqlite3` cannot bind a
      steps value outside SQLite's 64-bit `INTEGER`. */
  datatype UpsertOutcome = RowCount(count: nat) | UpsertFailed

  /** The range of SQLite's 64-bit signed `INTEGER`. */
  const MinInteger := -0x8000_0000_0000_0000
  const MaxInteger := 0x7FFF_FFFF_FFFF_FFFF

  /** A dump that the insert accepts: the `NOT NULL` columns are set and steps fits 64 bits. */
  predicate Storable(dump: HealthDump) {
    && dump.steps.Some? && dump.kcals.Some? && dump.km.Some?
    && MinInteger <= dump.steps.value <= MaxInteger
  }

  /** The row `INSERT OR REPLACE` writes for a dump. */
  function RowOf(dump: HealthDump): (row: Row)
    requires Storable(dump)
    ensures row.steps == dump.steps.value && row.kcals == dump.kcals.value && row.km == dump.km.value
    ensures row.recordedAt == dump.recordedAt
  {
    Row(dump.steps.value, dump.kcals.value, dump.km.value, dump.recordedAt)
  }

  /** The `should_update` flag: no row for the date yet, or the dump is strictly newer. */
  predicate ShouldUpdate(table: map<string, Row>, dump: HealthDump)
    ensures dump.date in table && table[dump.date].recordedAt == dump.recordedAt ==> !ShouldUpdate(table, dump)
    ensures dump.date in table && ShouldUpdate(table, dump) ==>
              AtOrBefore(table[dump.date].recordedAt, dump.recordedAt) && table[dump.date].recordedAt != dump.recordedAt
  {
    dump.date !in table || !AtOrBefore(dump.recordedAt, table[dump.date].recordedAt)
  }

  /** The table after the upsert (when it does not fail). */
  function Upserted(table: map<string, Row>, dump: HealthDump): (after: map<string, Row>)
    requires ShouldUpdate(table, dump) ==> Storable(dump)
    ensures after.Keys == table.Keys + {dump.date} || after == table
    ensures dump.date !in table ==> dump.date in after && after[dump.date] == RowOf(dump)
    ensures forall date :: date in table && date != dump.date ==> date in after && after[date] == table[date]
  {
    if ShouldUpdate(table, dump) then table[dump.date := RowOf(dump)] else table
  }

  /** The outcome of the upsert on a given table. */
  function UpsertResult(table: map<string, Row>, dump: HealthDump): (outcome: UpsertOutcome)
    ensures outcome.UpsertFailed? <==> ShouldUpdate(table, dump) && !Storable(dump)
    ensures outcome.UpsertFailed? ==> dump.date !in table || !AtOrBefore(dump.recordedAt, table[dump.date].recordedAt)
    ensures outcome.RowCount? ==> outcome.count == |Upserted(table, dump)|
  {
    if ShouldUpdate(table, dump) && !Storable(dump) then UpsertFailed
    else RowCount(|Upserted(table, dump)|)
  }

  class HealthDumpTable {
    var rows: map<string, Row>

    constructor ()
      ensures rows == map[]
    {
      rows := map[];
    }

    /** `upsert_health_dump`: look up the stored `recorded_at`, clear `should_update` when
        the dump is not newer, write the row, then count the rows. */
    method Upsert(dump: HealthDump) returns (outcome: UpsertOutcome)
      modifies this
      ensures outcome == UpsertResult(old(rows), dump)
      ensures outcome.UpsertFailed? ==> rows == old(rows)
      ensures outcome.RowCount? ==> rows == Upserted(old(rows), dump) && outcome.count == |rows|
    {
      var shouldUpdate := true;
      if dump.date in rows {
        var existingRecordedAt := rows[dump.date].recordedAt;
        if AtOrBefore(dump.recordedAt, existingRecordedAt) {
          shouldUpdate := false;
        }
      }
      if shouldUpdate {
        if !Storable(dump) {
          return UpsertFailed;
        }
        rows := rows[dump.date := RowOf(dump)];
      }
      return RowCount(|rows|);
    }
  }

  // Properties of the upsert

  /** A date not yet in the table ends up holding exactly the dump's stored fields. */
  lemma InsertWhenAbsent(table: map<string, Row>, dump: HealthDump)
    requires dump.date !in table && Storable(dump)
    ensures UpsertResult(table, dump).RowCount?
    ensures dump.date in Upserted(table, dump)
    ensures Upserted(table, dump)[dump.date]
            == Row(dump.steps.value, dump.kcals.value, dump.km.value, dump.recordedAt)
  {
  }

  /** A steps value outside 64 bits fails wherever the dump would be written, and only there. */
  lemma OversizedStepsFail(table: map<string, Row>, dump: HealthDump)
    requires dump.steps.Some? && !(MinInteger <= dump.steps.value <= MaxInteger)
    ensures UpsertResult(table, dump).UpsertFailed? <==> ShouldUpdate(table, dump)
  {
  }

  /** A dump recorded at or before the stored row changes nothing, equal timestamps included. */
  lemma SkipWhenNotNewer(table: map<string, Row>, dump: HealthDump)
    requires dump.date in table && AtOrBefore(dump.recordedAt, table[dump.date].recordedAt)
    ensures Upserted(table, dump) == table
    ensures UpsertResult(table, dump) == RowCount(|table|)
  {
  }

  /** A strictly newer dump replaces the row of its date. */
  lemma ReplaceWhenNewer(table: map<string, Row>, dump: HealthDump)
    requires dump.date in table && !AtOrBefore(dump.recordedAt, table[dump.date].recordedAt)
    requires Storable(dump)
    ensures Upserted(table, dump)[dump.date] == RowOf(dump)
    ensures Upserted(table, dump).Keys == table.Keys
  {
  }

  /** The update is keyed by date alone: every other date keeps its row, and no date appears or vanishes but the dump's. */
  lemma OtherDatesUnchanged(table: map<string, Row>, dump: HealthDump, date: string)
    requires ShouldUpdate(table, dump) ==> Storable(dump)
    requires date != dump.date
    ensures date in Upserted(table, dump) <==> date in table
    ensures date in table ==> Upserted(table, dump)[date] == table[date]
  {
  }

  /** The row count grows by one exactly when the date was absent, and by nothing otherwise. */
  lemma CountGrowth(table: map<string, Row>, dump: HealthDump)
    requires ShouldUpdate(table, dump) ==> Storable(dump)
    ensures UpsertResult(table, dump).RowCount?
    ensures UpsertResult(table, dump).count == if dump.date in table then |table| else |table| + 1
  {
    var after := Upserted(table, dump);
    if dump.date in table {
      assert after.Keys == table.Keys;
    } else {
      assert after.Keys == table.Keys + {dump.date};
    }
  }

  /** Applying the same dump a second time changes nothing: its timestamp is not newer than itself. */
  lemma UpsertIdempotent(table: map<string, Row>, dump: HealthDump)
    requires ShouldUpdate(table, dump) ==> Storable(dump)
    ensures !ShouldUpdate(Upserted(table, dump), dump)
    ensures Upserted(Upserted(table, dump), dump) == Upserted(table, dump)
  {
  }

  /** Flights and weight never reach the table. */
  lemma UnstoredFieldsIgnored(table: map<string, Row>, dump: HealthDump, flights: Option<int>, weight: Option<real>)
    requires ShouldUpdate(table, dump) ==> Storable(dump)
    ensures UpsertResult(table, dump.(flightsClimbed := flights, weight := weight)) == UpsertResult(table, dump)
    ensures Upserted(table, dump.(flightsClimbed := flights, weight := weight)) == Upserted(table, dump)
  {
  }

  /** Once a date holds a row, it keeps the latest `recorded_at` seen: the stored timestamp never decreases. */
  lemma StoredTimestampMonotone(table: map<string, Row>, dump: HealthDump, date: string)
    requires ShouldUpdate(table, dump) ==> Storable(dump)
    requires date in table
    ensures date in Upserted(table, dump)
    ensures AtOrBefore(table[date].recordedAt, Upserted(table, dump)[date].recordedAt)
  {
    AtOrBeforeTotal(dump.recordedAt, table[date].recordedAt);
  }
}
