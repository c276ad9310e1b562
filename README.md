# Retail sales ingestion: a Dafny model of the validate-then-enrich step

The retail data platform ingests the warehouse-and-retail sales CSV in one
step, `ingest_csv()`. It reads the raw file into a pandas DataFrame. It then
rejects the table if any of the nine required columns is missing, and after
that if the table is empty. Otherwise it adds an `ingestion_timestamp`
column, holding one UTC reading on every row, and writes the table to
`data/processed/warehouse_retail_ingested_YYYYMMDD_HHMMSS.csv`. An older
script, `src/ingestion/load_csv.py`, has a weaker version of the same step.
It checks only `df.empty`, adds no column, and writes the table unchanged
under the `warehouse_retail_loaded_` prefix.

The model has one module per concern:

- `Clock` (clock.dfy): the `datetime` fields, and `strftime('%Y%m%d_%H%M%S')`
  with zero-padded fields. A lemma shows every field can be read back from
  the stamp.
- `Frame` (frame.dfy): the table (a header plus rectangular rows of opaque
  cells). It defines `df.empty` (either axis of length zero), exact-name
  column lookup, and the broadcast assignment `df[name] = value` as a
  function. The `DataFrame` class updates its rows in place and is proved
  equal to that function.
- `Pipeline` (pipeline.dfy): the read outcome, the run outcome and the
  output path that both scripts share.
- `IngestCsv` (ingest_csv.dfy): `REQUIRED_COLUMNS`, the missing-column list
  comprehension, and the run as a specification function, `Ingested`. The
  method `IngestCsv` checks and enriches a `DataFrame` object and is proved
  equal to `Ingested`.
- `LoadCsv` (load_csv.dfy): the older variant, which is pure.
- `Variants` (variants.dfy): how the two variants relate.

The read `pd.read_csv(RAW_DATA_PATH)` is a parameter: a table or a load
error. The two clock readings are parameters too: `datetime.utcnow()` for
the column and `datetime.now()` for the file name. The write
`df.to_csv(output_file, index=False)` is the `Written(path, table)` outcome.
It is the only outcome that carries a file, so "nothing is written on
failure" becomes a statement about which outcome a run ends in.

Three points of the code shape the model:

- The two scripts are separate, each with its own `ingest_csv()`. Both are
  modelled as they are, and `Variants` proves that `ingest_csv.py` is the
  stricter one.
- Both scripts test emptiness with `df.empty`. It is true for a table with
  no rows and also for a table with no columns. In `ingest_csv.py` the two
  cases coincide, because a table that passed the schema check has at least
  nine columns (`Variants.EmptinessChecksAgree`).
- The clock for the file name (`datetime.now()`) is read only after both
  checks have passed, after the `datetime.utcnow()` reading stored in the
  column. The model takes both as parameters and does not relate them.

## Model

| member | source | states |
|---|---|---|
| `Clock.Digits` | src/ingestion/ingest_csv.py:81 | a `strftime` numeric field is exactly `width` characters, all decimal digits |
| `Clock.DigitsRoundTrip` | src/ingestion/ingest_csv.py:81 | zero padding is lossless: reading the padded digits back gives the number whenever it fits the width |
| `Clock.Strftime` | src/ingestion/ingest_csv.py:81 | `%Y%m%d_%H%M%S` is 15 characters: 8 date digits, `_` at position 8, then 6 time digits |
| `Clock.StrftimeFields` | src/ingestion/ingest_csv.py:81 | year, month, day, hour, minute and second can each be read back from their fixed positions in the stamp |
| `Clock.StrftimeInjective` | src/ingestion/ingest_csv.py:81 | two stamps are equal if and only if the readings agree down to the second |
| `Frame.IsEmpty` | src/ingestion/load_csv.py:44 | pandas' `df.empty`, used at ingest_csv.py:69 and load_csv.py:44: true exactly when the table holds no cell, that is, when it has no rows or no columns |
| `Frame.IndexOf` | src/ingestion/ingest_csv.py:76 | the lookup behind `df["ingestion_timestamp"] = ...` (and the exact-name `in` test of line 64): a column is found if and only if its exact name is in the header; the position found is its first occurrence |
| `Frame.AssignColumn` | src/ingestion/ingest_csv.py:76 | `df[name] = v` keeps the row count and the table well formed; an existing column keeps the header, a new one is appended last |
| `Frame.AssignColumnSets` | src/ingestion/ingest_csv.py:76 | after the assignment every row holds `v` under `name` |
| `Frame.AssignColumnKeeps` | src/ingestion/ingest_csv.py:76 | every cell under any other column, in every row, is what it was, so every input column survives |
| `Frame.AssignColumnWidth` | src/ingestion/ingest_csv.py:76 | the column count grows by one for a new name and is unchanged when the column already existed |
| `Frame.DataFrame.constructor` | src/ingestion/ingest_csv.py:57 | the frame holds exactly the table the read produced |
| `Frame.DataFrame.SetColumn` | src/ingestion/ingest_csv.py:76 | the in-place, row-by-row update leaves the frame equal to `AssignColumn` of its old contents |
| `Pipeline.OutputPath` | src/ingestion/ingest_csv.py:79-82 | the path is the directory, `/`, the prefix, the 15-character stamp and `.csv`, so its length is fixed by the prefix |
| `Pipeline.OutputPathStamp` | src/ingestion/load_csv.py:49-52 | the stamp of `now` sits right after the directory and the prefix |
| `Pipeline.OutputPathInjective` | src/ingestion/ingest_csv.py:79-82 | one script writes the same path twice if and only if its clock reads the same second |
| `IngestCsv.RequiredColumnsDistinct` | src/ingestion/ingest_csv.py:14-24 | the nine required names are pairwise different |
| `IngestCsv.MissingColumns` | src/ingestion/ingest_csv.py:64 | a name is in the result if and only if it is required and absent from the header; the result keeps the order of the required list; it is empty if and only if every required name is present |
| `IngestCsv.MissingColumnsDistinct` | src/ingestion/ingest_csv.py:64 | the missing list repeats no name |
| `IngestCsv.MissingColumnsUnique` | src/ingestion/ingest_csv.py:64 | any list that holds exactly the absent required names, in required order, equals the computed list |
| `IngestCsv.Ingested` | src/ingestion/ingest_csv.py:52-87 | the run as a value: it ends in a load failure exactly when the read failed, and a written table has the input's row count, which is positive; the lemmas `LoadFailurePropagates`, `SchemaFailure`, `EmptyFailure`, `WrittenIff`, `WrittenShape`, `WrittenCells` and `RepeatedRuns` state the rest of its behaviour |
| `IngestCsv.IngestCsv` | src/ingestion/ingest_csv.py:52-87 | building the frame, checking it, enriching it in place and naming the file gives exactly the run `Ingested` describes |
| `IngestCsv.LoadFailurePropagates` | src/ingestion/ingest_csv.py:56-61 | a failed read is re-raised unchanged, before any check |
| `IngestCsv.SchemaFailure` | src/ingestion/ingest_csv.py:63-67 | the run fails with "Schema validation failed" if and only if a required column is absent, whatever the row count; the raised exception carries only that message, and the `missing` list recorded beside it (the list logged at line 66) holds exactly the absent names, once each, in required order |
| `IngestCsv.EmptyFailure` | src/ingestion/ingest_csv.py:69-71 | the run fails with "Empty dataset" if and only if every required column is present and there are no rows |
| `IngestCsv.WrittenIff` | src/ingestion/ingest_csv.py:63-84 | a file is written if and only if the read succeeded, every required column is present and there is at least one row |
| `IngestCsv.WrittenShape` | src/ingestion/ingest_csv.py:76-84 | on success the path is `data/processed/warehouse_retail_ingested_` + stamp + `.csv`; the row count is kept; the input header is a prefix of the output header; the column count grows by one unless `ingestion_timestamp` already existed |
| `IngestCsv.WrittenCells` | src/ingestion/ingest_csv.py:76 | every written row carries the single captured UTC reading under `ingestion_timestamp`, and every other cell is the input's |
| `IngestCsv.RepeatedRuns` | src/ingestion/ingest_csv.py:76-82 | two runs on the same input both succeed; their paths differ unless the clocks read the same second; headers, row counts and all non-timestamp cells agree |
| `LoadCsv.IngestCsv` | src/ingestion/load_csv.py:35-61 | the older run as a value: it never fails on the schema, and a written table is the loaded table itself; the lemmas `FailuresReraised`, `WrittenIff` and `WrittenUnchanged` state the rest of its behaviour |
| `LoadCsv.FailuresReraised` | src/ingestion/load_csv.py:38-61 | there is no schema error; a failed read is re-raised unchanged; an empty table raises "Dataset is empty" |
| `LoadCsv.WrittenIff` | src/ingestion/load_csv.py:44-54 | a file is written if and only if the read succeeded and the table has at least one row and at least one column, whatever its header; otherwise the run fails as empty |
| `LoadCsv.WrittenUnchanged` | src/ingestion/load_csv.py:39-54 | the written table is the loaded table itself, and the path is `data/processed/warehouse_retail_loaded_` + stamp + `.csv` |
| `Variants.NewerIsStricter` | src/ingestion/ingest_csv.py:63-84 | whenever the newer script writes, the older one writes too, and the newer table is the older one with `ingestion_timestamp` assigned |
| `Variants.EmptinessChecksAgree` | src/ingestion/load_csv.py:44-45 | once the required columns are present, the two variants' emptiness checks reject the same tables |
| `Variants.OutputNamesDisjoint` | src/ingestion/load_csv.py:49-52 | the two variants never produce the same output path, whatever their clocks read |

## Left out

- CSV parsing and serialisation (`pd.read_csv`, `df.to_csv`). These are pandas calls. The read is a parameter and the write is the `Written` outcome.
- A failure inside `df.to_csv` (for example a full disk). It would propagate as an exception, and the model has no outcome for it.
- Cell type inference, NaN handling and the text form of the stored `datetime`. Cells are opaque values compared only for equality.
- The guarantees of `read_csv`: distinct column names and rows as wide as the header. These are a precondition (`WellFormed`) on the loaded table rather than something the model derives.
- Logging configuration, the log-file name (`logs/ingestion_<stamp>.log`) and every log message except one. These are process-wide side effects with no result to check. The exception is the list of missing columns logged at ingest_csv.py:66, which the model keeps in the `SchemaFailed` outcome.
- POSIX path separator assumed: `os.path.join` is modelled as joining with `/`, which is what it does on POSIX systems.
- `os.makedirs` for the output and log directories. This is filesystem plumbing.
- The clocks and time zones. `datetime.utcnow()` and `datetime.now()` are parameters, so the model does not relate the two readings.
- `Clock.DateTime`: the day is bounded by 31 for every month. The calendar's month lengths are not modelled, and no lemma depends on them.
- `Clock.Strftime`: `%Y` is modelled as four zero-padded digits. For years below 1000 some C libraries print fewer digits. `datetime.now()` never returns such a year in practice.
- The `__main__` entry points and the process exit status.
