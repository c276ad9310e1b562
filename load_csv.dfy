/** `ingest_csv()` of src/ingestion/load_csv.py, the older variant: the only
    check is `df.empty`, nothing is added to the table, and the table is
    written as it was read under the `warehouse_retail_loaded_` prefix. Every
    exception in the block is logged and re-raised unchanged. */
module LoadCsv {
  import opened Clock
  import opened Frame
  import opened Pipeline

  const OutputPrefix: string := "warehouse_retail_loaded_"
  const EmptyMessage: string := "Dataset is empty"

  /** The run as a value, given what the read produced and the
      `datetime.now()` used for the file name. */
  function IngestCsv(load: LoadResult, now: DateTime): (r: Run)
    ensures !r.SchemaFailed?
    ensures r.Written? ==> load.Loaded? && r.table == load.table
  {
    match load
    case LoadError(cause) => LoadFailed(cause)
    case Loaded(t) =>
      if IsEmpty(t) then EmptyFailed(EmptyMessage)
      else Written(OutputPath(OutputPrefix, now), t)
  }

  /** Failures leave the block as they were raised: a failed read as its own
      error, an empty table as `ValueError("Dataset is empty")`. No schema
      error exists in this variant. */
  lemma FailuresReraised(load: LoadResult, now: DateTime)
    ensures !IngestCsv(load, now).SchemaFailed?
    ensures load.LoadError? ==> IngestCsv(load, now) == LoadFailed(load.cause)
    ensures IngestCsv(load, now).EmptyFailed? ==> IngestCsv(load, now).message == EmptyMessage
  {
  }

  /** A file is written exactly when the read succeeded and the table has at
      least one row and at least one column, whatever its header says; an
      empty table (on either axis) is rejected and nothing is written. */
  lemma WrittenIff(load: LoadResult, now: DateTime)
    ensures IngestCsv(load, now).Written? <==>
              load.Loaded? && |load.table.rows| > 0 && |load.table.columns| > 0
    ensures IngestCsv(load, now).EmptyFailed? <==>
              load.Loaded? && (|load.table.rows| == 0 || |load.table.columns| == 0)
  {
  }

  /** What is written is the loaded table itself, under the time-stamped name. */
  lemma WrittenUnchanged(t: Table, now: DateTime)
    requires IngestCsv(Loaded(t), now).Written?
    ensures IngestCsv(Loaded(t), now).table == t
    ensures IngestCsv(Loaded(t), now).path ==
              ProcessedDataDir + "/" + OutputPrefix + Strftime(now) + ".csv"
  {
  }
}
