/** The tabular data model: a cell is one of the variants a pandas object
    column can hold in this program, a row maps column names to cells, and a
    table is an ordered list of column names plus its rows. */
module Tables {
  import opened Seqs

  /** A calendar date as produced by `pd.to_datetime`; only the year is inspected. */
  datatype CalendarDate = CalendarDate(year: int, month: int, day: int)

  /** `Absent` is pandas' missing value (`NaN`, `NA`, `NaT`), distinct from the empty text. */
  datatype Cell =
    | Absent
    | Text(text: string)
    | Int(number: int)
    | Bool(flag: bool)
    | Date(date: CalendarDate)

  type Row = map<string, Cell>

  datatype Table = Table(columns: seq<string>, rows: seq<Row>)

  const EmptyTable := Table([], [])

  /** The cell of `row` in column `c`; a column the row lacks reads as absent. */
  function Get(row: Row, c: string): Cell
  {
    if c in row then row[c] else Absent
  }

  /** The invariant the model's tables keep: column names are unique and
      every row has exactly the table's columns. pandas itself allows
      duplicate column labels. */
  ghost predicate Valid(t: Table)
  {
    && Distinct(t.columns)
    && forall i, c :: 0 <= i < |t.rows| ==> (c in t.rows[i] <==> c in t.columns)
  }

  /** `df[name] = values`: overwrite column `name` in place, or append it as the
      last column, with `f(row)` in every row. */
  function SetColumn(t: Table, name: string, f: Row -> Cell): (r: Table)
    ensures r.columns == if name in t.columns then t.columns else t.columns + [name]
    ensures |r.rows| == |t.rows|
    ensures forall i :: 0 <= i < |r.rows| ==> Get(r.rows[i], name) == f(t.rows[i])
    ensures forall i, c :: 0 <= i < |r.rows| && c != name ==> Get(r.rows[i], c) == Get(t.rows[i], c)
    ensures Valid(t) ==> Valid(r)
  {
    var cols := if name in t.columns then t.columns else t.columns + [name];
    var r := Table(cols, seq(|t.rows|, i requires 0 <= i < |t.rows| => t.rows[i][name := f(t.rows[i])]));
    assert Valid(t) ==> Distinct(cols) by {
      if Valid(t) && name !in t.columns {
        forall i, j | 0 <= i < j < |cols| ensures cols[i] != cols[j] {
          if j == |t.columns| {
            assert cols[i] in t.columns;
          }
        }
      }
    }
    r
  }

  /** `df[name] = df[source].apply(f)`: column `name` computed cell by cell
      from column `source`. */
  function DeriveColumn(t: Table, name: string, source: string, f: Cell -> Cell): (r: Table)
    requires name != source
    ensures r.columns == if name in t.columns then t.columns else t.columns + [name]
    ensures forall c :: c in r.columns <==> c in t.columns || c == name
    ensures |r.rows| == |t.rows|
    ensures forall i :: 0 <= i < |r.rows| ==> Get(r.rows[i], name) == f(Get(t.rows[i], source))
    ensures forall i, c :: 0 <= i < |r.rows| && c != name ==> Get(r.rows[i], c) == Get(t.rows[i], c)
    ensures Valid(t) ==> Valid(r)
  {
    SetColumn(t, name, row => f(Get(row, source)))
  }

  /** Keep the rows satisfying `keep`, in order (boolean-mask indexing `df[mask]`). */
  function FilterRows(t: Table, keep: Row -> bool): (r: Table)
    ensures r.columns == t.columns
    ensures r.rows == Filter(t.rows, keep)
    ensures Valid(t) ==> Valid(r)
  {
    Table(t.columns, Filter(t.rows, keep))
  }

  /** Select the given columns, in the given order (`df[cols]`). */
  function Select(t: Table, cols: seq<string>): (r: Table)
    requires Distinct(cols)
    ensures r.columns == cols && |r.rows| == |t.rows|
    ensures Valid(r)
    ensures forall i, c :: 0 <= i < |r.rows| && c in cols ==> Get(r.rows[i], c) == Get(t.rows[i], c)
  {
    var rows := seq(|t.rows|, i requires 0 <= i < |t.rows| => map c | c in cols :: Get(t.rows[i], c));
    assert forall i, c :: 0 <= i < |rows| ==> (c in rows[i] <==> c in cols);
    Table(cols, rows)
  }
}
