/** How the two historical variants of `ingest_csv()` relate: the newer one
    is stricter, never writes where the older one would not, writes the same
    table with the timestamp column assigned, and never picks the same file
    name. */
module Variants {
  import opened Clock
  import opened Frame
  import opened Pipeline
  import IngestCsv
  import LoadCsv

  /** Whatever the newer variant accepts, the older one accepts too, and the
      newer one writes the older one's table with `ingestion_timestamp` set. */
  lemma NewerIsStricter(load: LoadResult, utcNow: DateTime, now: DateTime, now': DateTime)
    requires load.Loaded? ==> WellFormed(load.table)
    requires IngestCsv.Ingested(load, utcNow, now).Written?
    ensures LoadCsv.IngestCsv(load, now').Written?
    ensures IngestCsv.Ingested(load, utcNow, now).table ==
              AssignColumn(LoadCsv.IngestCsv(load, now').table, IngestCsv.TimestampColumn, Timestamp(utcNow))
  {
    IngestCsv.WrittenIff(load, utcNow, now);
    assert IngestCsv.RequiredColumns[0] in load.table.columns;
  }

  /** Once the schema is satisfied the two emptiness checks agree, because a
      header holding the required columns is never empty: the variants then
      differ only in the error message. */
  lemma EmptinessChecksAgree(t: Table, utcNow: DateTime, now: DateTime, now': DateTime)
    requires WellFormed(t) && IngestCsv.HasRequired(t)
    ensures IngestCsv.Ingested(Loaded(t), utcNow, now).EmptyFailed? <==>
              LoadCsv.IngestCsv(Loaded(t), now').EmptyFailed?
  {
    IngestCsv.EmptyFailure(t, utcNow, now);
    assert IngestCsv.RequiredColumns[0] in t.columns;
  }

  /** The two prefixes differ right after `warehouse_retail_`, so the files
      of the two variants never collide, whatever the clocks read. */
  lemma OutputNamesDisjoint(a: DateTime, b: DateTime)
    ensures OutputPath(IngestCsv.OutputPrefix, a) != OutputPath(LoadCsv.OutputPrefix, b)
  {
    var n := |ProcessedDataDir| + 1 + |"warehouse_retail_"|;
    assert OutputPath(IngestCsv.OutputPrefix, a)[n] == 'i';
    assert OutputPath(LoadCsv.OutputPrefix, b)[n] == 'l';
  }
}
