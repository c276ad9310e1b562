/** `ingest_csv()` of src/ingestion/ingest_csv.py: read the raw table, reject
    it when a required column is missing, then when it is empty, otherwise
    stamp every row with one `ingestion_timestamp` and write the processed
    copy under a time-stamped name. */
module IngestCsv {
  import opened Clock
  import opened Frame
  import opened Pipeline

  /** `REQUIRED_COLUMNS`, in the order the script lists them. */
  const RequiredColumns: seq<string> := [
    "YEAR", "MONTH", "SUPPLIER", "ITEM CODE", "ITEM DESCRIPTION",
    "ITEM TYPE", "RETAIL SALES", "RETAIL TRANSFERS", "WAREHOUSE SALES"
  ]

  const TimestampColumn: string := "ingestion_timestamp"
  const OutputPrefix: string := "warehouse_retail_ingested_"
  const SchemaMessage: string := "Schema validation failed"
  const EmptyMessage: string := "Empty dataset"

  /** `s` is `t` with some elements left out, the rest kept in order. */
  predicate IsSubsequence(s: seq<string>, t: seq<string>)
    decreases |t|
  {
    if s == [] then true
    else if t == [] then false
    else if s[0] == t[0] then IsSubsequence(s[1..], t[1..])
    else IsSubsequence(s, t[1..])
  }

  lemma {:induction false} SubsequenceMembers(s: seq<string>, t: seq<string>, x: string)
    requires IsSubsequence(s, t) && x in s
    ensures x in t
    decreases |t|
  {
    if s[0] == t[0] {
      if x != s[0] {
        assert x in s[1..];
        SubsequenceMembers(s[1..], t[1..], x);
      }
    } else {
      SubsequenceMembers(s, t[1..], x);
    }
  }

  /** A subsequence of a list without repeats has no repeats. */
  lemma {:induction false} SubsequenceDistinct(s: seq<string>, t: seq<string>)
    requires IsSubsequence(s, t) && Distinct(t)
    ensures Distinct(s)
    decreases |t|
  {
    if s != [] {
      if s[0] == t[0] {
        SubsequenceDistinct(s[1..], t[1..]);
        forall x | x in s[1..] ensures x != s[0] {
          SubsequenceMembers(s[1..], t[1..], x);
        }
        assert forall j :: 0 < j < |s| ==> s[j] in s[1..];
      } else {
        SubsequenceDistinct(s, t[1..]);
      }
    }
  }

  /** `[col for col in required if col not in header]`: the required names
      absent from the header (exact string match), in the order of
      `required`, and nothing else. */
  function MissingColumns(required: seq<string>, header: seq<string>): (r: seq<string>)
    ensures forall c :: c in r <==> c in required && c !in header
    ensures IsSubsequence(r, required)
    ensures r == [] <==> forall c :: c in required ==> c in header
  {
    if required == [] then []
    else
      var rest := MissingColumns(required[1..], header);
      if required[0] in header then
        assert rest == [] || rest[0] != required[0];
        rest
      else
        assert ([required[0]] + rest)[1..] == rest;
        [required[0]] + rest
  }

  /** The list names each missing column once when `required` repeats none. */
  lemma MissingColumnsDistinct(required: seq<string>, header: seq<string>)
    requires Distinct(required)
    ensures Distinct(MissingColumns(required, header))
  {
    SubsequenceDistinct(MissingColumns(required, header), required);
  }

  /** Membership and order pin the list down: any list of exactly the absent
      required names, in the order of `required`, is the one computed. */
  lemma {:induction false} MissingColumnsUnique(required: seq<string>, header: seq<string>, s: seq<string>)
    requires Distinct(required)
    requires IsSubsequence(s, required)
    requires forall c :: c in s <==> c in required && c !in header
    ensures s == MissingColumns(required, header)
    decreases |required|
  {
    if required != [] {
      var t := required;
      assert forall c :: c in t[1..] ==> c != t[0];
      if t[0] in header {
        assert s == [] || s[0] != t[0];
        forall c ensures c in s <==> c in t[1..] && c !in header {
          if c in s { SubsequenceMembers(s, t[1..], c); }
        }
        MissingColumnsUnique(t[1..], header, s);
      } else {
        assert t[0] in s;
        if s[0] != t[0] {
          SubsequenceMembers(s, t[1..], t[0]);
          assert false;
        }
        forall c ensures c in s[1..] <==> c in t[1..] && c !in header {
          if c in s[1..] { SubsequenceMembers(s[1..], t[1..], c); }
          if c in t[1..] && c !in header {
            assert c in s && c != s[0];
            assert c in s[1..];
          }
        }
        MissingColumnsUnique(t[1..], header, s[1..]);
        assert s == [t[0]] + s[1..];
      }
    }
  }

  /** The run as a value: what `ingest_csv()` ends with, given what the read
      produced, the `datetime.utcnow()` stored in the new column and the
      `datetime.now()` used for the file name. */
  function Ingested(load: LoadResult, utcNow: DateTime, now: DateTime): (r: Run)
    requires load.Loaded? ==> WellFormed(load.table)
    ensures r.LoadFailed? <==> load.LoadError?
    ensures r.Written? ==> load.Loaded? && |r.table.rows| == |load.table.rows| > 0
  {
    match load
    case LoadError(cause) => LoadFailed(cause)
    case Loaded(t) =>
      var missing := MissingColumns(RequiredColumns, t.columns);
      if missing != [] then SchemaFailed(SchemaMessage, missing)
      else if IsEmpty(t) then EmptyFailed(EmptyMessage)
      else Written(OutputPath(OutputPrefix, now), AssignColumn(t, TimestampColumn, Timestamp(utcNow)))
  }

  /** `ingest_csv()` step by step: the frame is built from the read, checked,
      enriched in place and then handed to the writer. */
  method IngestCsv(load: LoadResult, utcNow: DateTime, now: DateTime) returns (run: Run)
    requires load.Loaded? ==> WellFormed(load.table)
    ensures run == Ingested(load, utcNow, now)
  {
    if load.LoadError? {
      return LoadFailed(load.cause);
    }
    var df := new DataFrame(load.table);
    var missing := MissingColumns(RequiredColumns, df.columns);
    if missing != [] {
      return SchemaFailed(SchemaMessage, missing);
    }
    if IsEmpty(df.View()) {
      return EmptyFailed(EmptyMessage);
    }
    df.SetColumn(TimestampColumn, Timestamp(utcNow));
    var outputFile := OutputPath(OutputPrefix, now);
    run := Written(outputFile, df.View());
  }

  predicate HasRequired(t: Table) {
    forall c :: c in RequiredColumns ==> c in t.columns
  }

  lemma RequiredColumnsDistinct()
    ensures Distinct(RequiredColumns)
  {
  }

  /** A read that failed is re-raised unchanged, before any check. */
  lemma LoadFailurePropagates(cause: string, utcNow: DateTime, now: DateTime)
    ensures Ingested(LoadError(cause), utcNow, now) == LoadFailed(cause)
  {
  }

  /** The schema check comes first: the run fails with the schema error
      exactly when a required column is absent, whatever the row count. The
      raised `ValueError` carries only the message; the list recorded beside
      it is the one the script logs just before raising, and it names each
      absent required column once, in the order of `REQUIRED_COLUMNS`, and
      nothing else. */
  lemma SchemaFailure(t: Table, utcNow: DateTime, now: DateTime)
    requires WellFormed(t)
    ensures Ingested(Loaded(t), utcNow, now).SchemaFailed? <==> !HasRequired(t)
    ensures var r := Ingested(Loaded(t), utcNow, now);
            r.SchemaFailed? ==>
              && r.message == SchemaMessage
              && (forall c :: c in r.missing <==> c in RequiredColumns && c !in t.columns)
              && IsSubsequence(r.missing, RequiredColumns)
              && Distinct(r.missing)
  {
    RequiredColumnsDistinct();
    MissingColumnsDistinct(RequiredColumns, t.columns);
  }

  /** With every required column present, the run fails with "Empty dataset"
      exactly when the table has no rows. */
  lemma EmptyFailure(t: Table, utcNow: DateTime, now: DateTime)
    requires WellFormed(t)
    ensures Ingested(Loaded(t), utcNow, now).EmptyFailed? <==> HasRequired(t) && |t.rows| == 0
    ensures Ingested(Loaded(t), utcNow, now).EmptyFailed? ==>
              Ingested(Loaded(t), utcNow, now).message == EmptyMessage
  {
    if HasRequired(t) {
      assert RequiredColumns[0] in t.columns;
    }
  }

  /** The writer is reached, and so a file is written, exactly when the read
      succeeded and both checks passed; no failure writes anything. */
  lemma WrittenIff(load: LoadResult, utcNow: DateTime, now: DateTime)
    requires load.Loaded? ==> WellFormed(load.table)
    ensures Ingested(load, utcNow, now).Written? <==>
              load.Loaded? && HasRequired(load.table) && |load.table.rows| > 0
  {
    if load.Loaded? {
      SchemaFailure(load.table, utcNow, now);
      EmptyFailure(load.table, utcNow, now);
    }
  }

  /** The written file: its path is the time-stamped name, it has as many rows
      as the input, it keeps every input column in place (extra ones
      included), and its header is the input's plus `ingestion_timestamp`,
      unless that column was already there, in which case the header is
      unchanged. */
  lemma WrittenShape(t: Table, utcNow: DateTime, now: DateTime)
    requires WellFormed(t) && Ingested(Loaded(t), utcNow, now).Written?
    ensures var r := Ingested(Loaded(t), utcNow, now);
            && r.path == ProcessedDataDir + "/" + OutputPrefix + Strftime(now) + ".csv"
            && |r.table.rows| == |t.rows|
            && r.table.columns[..|t.columns|] == t.columns
            && |r.table.columns| == |t.columns| + (if TimestampColumn in t.columns then 0 else 1)
            && TimestampColumn in r.table.columns
  {
    AssignColumnWidth(t, TimestampColumn, Timestamp(utcNow));
  }

  /** Every written row carries the single timestamp captured for the run,
      and every other cell is the input's. */
  lemma WrittenCells(t: Table, utcNow: DateTime, now: DateTime, i: nat, c: string)
    requires WellFormed(t) && Ingested(Loaded(t), utcNow, now).Written? && i < |t.rows|
    ensures Get(Ingested(Loaded(t), utcNow, now).table, i, TimestampColumn) == Some(Timestamp(utcNow))
    ensures c != TimestampColumn ==>
              Get(Ingested(Loaded(t), utcNow, now).table, i, c) == Get(t, i, c)
  {
    AssignColumnSets(t, TimestampColumn, Timestamp(utcNow), i);
    if c != TimestampColumn {
      AssignColumnKeeps(t, TimestampColumn, Timestamp(utcNow), i, c);
    }
  }

  /** Two runs on the same input write two different files unless their
      clocks read the same second, and the two files hold the same header,
      the same number of rows and the same cells outside the timestamp
      column. */
  lemma RepeatedRuns(t: Table, u1: DateTime, n1: DateTime, u2: DateTime, n2: DateTime, i: nat, c: string)
    requires WellFormed(t) && Ingested(Loaded(t), u1, n1).Written? && i < |t.rows|
    ensures Ingested(Loaded(t), u2, n2).Written?
    ensures var r1, r2 := Ingested(Loaded(t), u1, n1), Ingested(Loaded(t), u2, n2);
            && (r1.path == r2.path <==> SameSecond(n1, n2))
            && r1.table.columns == r2.table.columns
            && |r1.table.rows| == |r2.table.rows|
            && (c != TimestampColumn ==> Get(r1.table, i, c) == Get(r2.table, i, c))
  {
    OutputPathInjective(OutputPrefix, n1, n2);
    if c != TimestampColumn {
      WrittenCells(t, u1, n1, i, c);
      WrittenCells(t, u2, n2, i, c);
    }
  }
}
