/** What the two ingestion scripts share: the outcome of the read, the
    outcome of a run, and the construction of the output path
    `os.path.join(PROCESSED_DATA_DIR, prefix + stamp + ".csv")`. */
module Pipeline {
  import opened Clock
  import opened Frame

  /** The output directory both scripts write into. */
  const ProcessedDataDir: string := "data/processed"

  /** What `pd.read_csv(RAW_DATA_PATH)` produced: a table, or the exception
      it raised (a missing, unreadable or unparseable file), named by `cause`. */
  datatype LoadResult = Loaded(table: Table) | LoadError(cause: string)

  /** How one run ends. A failure raises: the load error is re-raised as it
      was, a failed check raises `ValueError(message)`. The exception of a
      failed schema check carries only its message; `missing` records the
      list of absent columns that the script logs just before raising it.
      `Written` is the only outcome in which `df.to_csv` is reached, so it
      carries the one file the run writes: its path and the table serialised
      into it. */
  datatype Run =
    | LoadFailed(cause: string)
    | SchemaFailed(message: string, missing: seq<string>)
    | EmptyFailed(message: string)
    | Written(path: string, table: Table)

  /** The path of the processed copy: the directory, a separator, the script's
      fixed prefix, the `%Y%m%d_%H%M%S` stamp of `now` and the extension. */
  function OutputPath(prefix: string, now: DateTime): (r: string)
    ensures |r| == |ProcessedDataDir| + 1 + |prefix| + 15 + 4
  {
    ProcessedDataDir + "/" + prefix + Strftime(now) + ".csv"
  }

  /** The stamp sits at a fixed place in the path, after the prefix. */
  lemma OutputPathStamp(prefix: string, now: DateTime)
    ensures var n := |ProcessedDataDir| + 1 + |prefix|;
            OutputPath(prefix, now)[n..n + 15] == Strftime(now)
  {
  }

  /** Two runs of one script write to the same path exactly when their
      clocks read the same second. */
  lemma OutputPathInjective(prefix: string, a: DateTime, b: DateTime)
    ensures OutputPath(prefix, a) == OutputPath(prefix, b) <==> SameSecond(a, b)
  {
    StrftimeInjective(a, b);
    if OutputPath(prefix, a) == OutputPath(prefix, b) {
      OutputPathStamp(prefix, a);
      OutputPathStamp(prefix, b);
    }
  }
}
