/** The in-memory table both ingestion scripts load with `pd.read_csv` and
    write with `df.to_csv`: an ordered header of column names and rows of
    opaque cells. Only what the scripts use of a pandas DataFrame is modelled:
    its shape, `df.empty`, looking a column up by exact name, and the
    broadcast assignment `df[name] = value`. */
module Frame {
  import opened Clock

  datatype Option<T> = None | Some(value: T)

  /** A cell as the loader produces it, or the `datetime` the enrichment
      step stores. Type inference and NaN handling are not modelled: cells are
      compared only for equality. */
  datatype Cell = Text(s: string) | Number(n: int) | Null | Timestamp(t: DateTime)

  datatype Table = Table(columns: seq<string>, rows: seq<seq<Cell>>)

  predicate Distinct<T(==)>(s: seq<T>) {
    forall i, j :: 0 <= i < j < |s| ==> s[i] != s[j]
  }

  /** What a table returned by the loader always satisfies: the column names
      are distinct (`read_csv` renames repeated header names) and every row
      has one cell per column. */
  predicate WellFormed(t: Table) {
    && Distinct(t.columns)
    && forall i :: 0 <= i < |t.rows| ==> |t.rows[i]| == |t.columns|
  }

  /** pandas' `df.empty`: true when either axis has length zero, that is,
      when the frame holds no cell at all (`df.size == 0`). */
  predicate IsEmpty(t: Table)
    ensures IsEmpty(t) <==> |t.rows| * |t.columns| == 0
  {
    |t.rows| == 0 || |t.columns| == 0
  }

  /** The position of the first column named exactly `name` (case- and
      spacing-sensitive), if any. */
  function IndexOf(columns: seq<string>, name: string): (r: Option<nat>)
    ensures r.None? <==> name !in columns
    ensures r.Some? ==> r.value < |columns| && columns[r.value] == name && name !in columns[..r.value]
  {
    if columns == [] then None
    else if columns[0] == name then Some(0)
    else match IndexOf(columns[1..], name)
      case None => None
      case Some(k) =>
        assert columns[1..][..k] == columns[1..k + 1];
        Some(k + 1)
  }

  /** In a header without repeats, a column's position is the one it is found at. */
  lemma IndexOfDistinct(columns: seq<string>, k: nat)
    requires Distinct(columns) && k < |columns|
    ensures IndexOf(columns, columns[k]) == Some(k)
  {
  }

  /** The cell of row `i` under column `name`, or None when there is no such column. */
  function Get(t: Table, i: nat, name: string): (r: Option<Cell>)
    requires WellFormed(t) && i < |t.rows|
    ensures r.Some? <==> name in t.columns
  {
    match IndexOf(t.columns, name)
    case None => None
    case Some(k) => Some(t.rows[i][k])
  }

  /** One row after `df[name] = v`: the cell at the column's position is
      replaced, or, when the column is new (`k` is None), `v` is appended. */
  function AssignCell(row: seq<Cell>, k: Option<nat>, v: Cell): (r: seq<Cell>)
  {
    match k
    case None => row + [v]
    case Some(j) => if j < |row| then row[j := v] else row
  }

  /** `df[name] = v` with a scalar `v`: the value is broadcast to every row.
      An existing column of that name is overwritten in place, not duplicated;
      otherwise the column is appended after all the others. */
  function AssignColumn(t: Table, name: string, v: Cell): (r: Table)
    requires WellFormed(t)
    ensures WellFormed(r)
    ensures |r.rows| == |t.rows|
    ensures name in t.columns ==> r.columns == t.columns
    ensures name !in t.columns ==> r.columns == t.columns + [name]
  {
    var k := IndexOf(t.columns, name);
    var columns := if k.None? then t.columns + [name] else t.columns;
    assert Distinct(columns);
    Table(columns, seq(|t.rows|, i requires 0 <= i < |t.rows| => AssignCell(t.rows[i], k, v)))
  }

  /** After the assignment every row holds `v` under `name`. */
  lemma {:induction false} AssignColumnSets(t: Table, name: string, v: Cell, i: nat)
    requires WellFormed(t) && i < |t.rows|
    ensures Get(AssignColumn(t, name, v), i, name) == Some(v)
  {
    var r := AssignColumn(t, name, v);
    if name !in t.columns {
      IndexOfDistinct(r.columns, |t.columns|);
    }
  }

  /** Every other cell of every row is left as it was; in particular every
      column of the input, extra columns included, is still there. */
  lemma {:induction false} AssignColumnKeeps(t: Table, name: string, v: Cell, i: nat, c: string)
    requires WellFormed(t) && i < |t.rows| && c != name
    ensures Get(AssignColumn(t, name, v), i, c) == Get(t, i, c)
  {
    var r := AssignColumn(t, name, v);
    if c in t.columns {
      var k := IndexOf(t.columns, c).value;
      IndexOfDistinct(r.columns, k);
    }
  }

  /** Assigning a column that is already there keeps the header and so the
      column count; assigning a new one adds exactly one column. */
  lemma AssignColumnWidth(t: Table, name: string, v: Cell)
    requires WellFormed(t)
    ensures |AssignColumn(t, name, v).columns| == |t.columns| + (if name in t.columns then 0 else 1)
  {
  }

  /** A pandas DataFrame as the scripts hold it: an object whose header and
      rows the assignment `df[name] = value` updates in place. */
  class DataFrame {
    var columns: seq<string>
    var rows: seq<seq<Cell>>

    /** The table the frame currently holds. */
    function View(): (t: Table)
      reads this
    {
      Table(columns, rows)
    }

    /** The frame `pd.read_csv` returns for a loaded table. */
    constructor (t: Table)
      ensures View() == t
    {
      columns := t.columns;
      rows := t.rows;
    }

    /** `df[name] = v`: broadcast the scalar `v` over every row, row by row. */
    method SetColumn(name: string, v: Cell)
      requires WellFormed(View())
      modifies this
      ensures View() == AssignColumn(old(View()), name, v)
    {
      ghost var before := View();
      var k := IndexOf(columns, name);
      if k.None? {
        columns := columns + [name];
      }
      var i := 0;
      while i < |rows|
        invariant 0 <= i <= |rows| == |old(rows)|
        invariant columns == AssignColumn(before, name, v).columns
        invariant forall j :: 0 <= j < i ==> rows[j] == AssignCell(old(rows)[j], k, v)
        invariant forall j :: i <= j < |rows| ==> rows[j] == old(rows)[j]
      {
        rows := rows[i := AssignCell(rows[i], k, v)];
        i := i + 1;
      }
      assert rows == AssignColumn(before, name, v).rows;
    }
  }
}
