/** The per-table part of `create_cabinet_csv` (scrape_data.py:38-95): flatten
    the header, drop placeholder columns, stamp `Position` and
    `Administration`, drop header-like rows and clean the names. */
module Normalizer {
  import opened Seqs
  import opened Text
  import opened Tables
  import opened Headers
  import opened NameCleaning

  /** The header shapes `pd.read_html` hands over: one level of names, or a
      two-level index. Only the first two levels of a deeper index matter. */
  datatype Header = SingleLevel(names: seq<string>) | TwoLevel(labels: seq<HeaderPair>)

  /** A table as fetched: a header and positional rows. */
  datatype RawTable = RawTable(header: Header, rows: seq<seq<Cell>>)

  /** Why a table contributed no records: it has no two-level header
      (scrape_data.py:40-42), or reading its first header label fails
      because it has no columns (the `IndexError` caught at :94-95). */
  datatype SkipReason = NotMultiLevel | NoColumns

  datatype TableResult = Processed(table: Table) | Skipped(reason: SkipReason)

  /** Cell `i` of a positional row; a short row reads as missing. */
  function CellAt(row: seq<Cell>, i: nat): Cell
  {
    if i < |row| then row[i] else Absent
  }

  /** Matches `Unnamed|^$` under `re.search`: `Unnamed` anywhere, or the empty
      name; `$` also matches before a final newline, so a lone "\n" matches too. */
  predicate IsPlaceholder(name: string)
  {
    Contains(name, "Unnamed") || name == "" || name == "\n"
  }

  predicate NotPlaceholder(name: string)
  {
    !IsPlaceholder(name)
  }

  /** The surviving column names, first occurrence of each, in order. */
  function KeptColumns(names: seq<string>): (r: seq<string>)
    ensures Distinct(r)
    ensures forall c :: c in r <==> c in names && !IsPlaceholder(c)
    ensures Distinct(names) ==> r == Filter(names, NotPlaceholder)
    decreases |names|
  {
    if names == [] then []
    else
      var init := names[..|names| - 1];
      var last := names[|names| - 1];
      var rest := KeptColumns(init);
      assert names == init + [last];
      FilterConcat(init, [last], NotPlaceholder);
      assert Distinct(names) ==> Distinct(init) && last !in init;
      if IsPlaceholder(last) || last in rest then rest
      else
        DistinctConcat(rest, [last]);
        rest + [last]
  }

  /** Name the positional cells and drop the placeholder columns
      (scrape_data.py:70-74). Should suffixing have left two columns with one
      name, the first of them is the one kept. */
  function BuildTable(names: seq<string>, rows: seq<seq<Cell>>): (r: Table)
    ensures Valid(r)
    ensures r.columns == KeptColumns(names)
    ensures |r.rows| == |rows|
    ensures forall i, c :: 0 <= i < |rows| && c in r.columns ==>
      Get(r.rows[i], c) == CellAt(rows[i], IndexOf(names, c))
  {
    var cols := KeptColumns(names);
    Table(cols, seq(|rows|, i requires 0 <= i < |rows| =>
      map c | c in cols :: CellAt(rows[i], IndexOf(names, c))))
  }

  /** The row filter of scrape_data.py:83: a missing name, or the literal
      header text "Name" leaking into the body, drops the row. */
  predicate HasName(row: Row)
  {
    Get(row, "Name") != Absent && Get(row, "Name") != Text("Name")
  }

  function FilterNameRows(t: Table): (r: Table)
    ensures r.columns == t.columns
    ensures "Name" in t.columns ==> forall i :: 0 <= i < |r.rows| ==> HasName(r.rows[i])
    ensures "Name" in t.columns ==> forall row :: row in r.rows <==> row in t.rows && HasName(row)
    ensures forall i :: 0 <= i < |r.rows| ==> r.rows[i] in t.rows
    ensures |r.rows| <= |t.rows|
    ensures "Name" !in t.columns ==> r == t
    ensures Valid(t) ==> Valid(r)
  {
    if "Name" in t.columns then FilterRows(t, HasName) else t
  }

  /** The row filter works row by row and keeps the survivors in order: a
      table split into two blocks of rows filters to the two filtered blocks,
      one after the other, and a single row survives exactly when it has a
      name. */
  lemma FilterNameRowsInOrder(cols: seq<string>, a: seq<Row>, b: seq<Row>, row: Row)
    requires "Name" in cols
    ensures FilterNameRows(Table(cols, a + b)).rows == FilterNameRows(Table(cols, a)).rows + FilterNameRows(Table(cols, b)).rows
    ensures FilterNameRows(Table(cols, [row])).rows == if HasName(row) then [row] else []
  {
    FilterConcat(a, b, HasName);
    assert [row][1..] == [];
  }

  /** The cleaned `Name` cell. `.str.replace` turns a cell that is not text
      into a missing value. */
  function CleanedName(row: Row): (r: Cell)
    ensures Get(row, "Name").Text? ==> r == Text(CleanName(Get(row, "Name").text))
    ensures !Get(row, "Name").Text? ==> r == Absent
    ensures CleanCell(r)
  {
    match Get(row, "Name")
    case Text(s) => CleanNameIsClean(s); Text(CleanName(s))
    case _ => Absent
  }

  /** A textual cell holds a clean name. */
  ghost predicate CleanCell(c: Cell)
  {
    c.Text? ==> Clean(c.text)
  }

  /** Every textual `Name` cell is clean. */
  ghost predicate NamesClean(t: Table)
  {
    forall i :: 0 <= i < |t.rows| ==> CleanCell(Get(t.rows[i], "Name"))
  }

  /** The column holds strings, which makes pandas give it the object dtype. */
  predicate NamesAreText(t: Table)
  {
    exists i :: 0 <= i < |t.rows| && Get(t.rows[i], "Name").Text?
  }

  /** scrape_data.py:86-90 */
  function CleanNames(t: Table): (r: Table)
    ensures r.columns == t.columns && |r.rows| == |t.rows|
    ensures "Name" in t.columns && NamesAreText(t) ==>
      forall i :: 0 <= i < |r.rows| ==> Get(r.rows[i], "Name") == CleanedName(t.rows[i])
    ensures !("Name" in t.columns && NamesAreText(t)) ==> r == t
    ensures forall i, c :: 0 <= i < |r.rows| && c != "Name" ==> Get(r.rows[i], c) == Get(t.rows[i], c)
    ensures Valid(t) ==> NamesClean(r)
    ensures Valid(t) ==> Valid(r)
  {
    if "Name" in t.columns && NamesAreText(t) then CleanEveryName(t)
    else
      assert Valid(t) ==> NamesClean(t) by {
        if Valid(t) {
          NoTextNames(t);
        }
      }
      t
  }

  /** Every `Name` cell replaced by its cleaned form. */
  function CleanEveryName(t: Table): (r: Table)
    requires "Name" in t.columns
    ensures r.columns == t.columns && |r.rows| == |t.rows|
    ensures forall i, c :: 0 <= i < |r.rows| && c != "Name" ==> Get(r.rows[i], c) == Get(t.rows[i], c)
    ensures forall i :: 0 <= i < |r.rows| ==> Get(r.rows[i], "Name") == CleanedName(t.rows[i])
    ensures NamesClean(r)
    ensures Valid(t) ==> Valid(r)
  {
    SetColumn(t, "Name", CleanedName)
  }

  /** Cleaning the names of a table twice is cleaning them once. */
  lemma CleanNamesIdempotent(t: Table)
    ensures |CleanNames(CleanNames(t)).rows| == |t.rows|
    ensures forall i, c :: 0 <= i < |t.rows| ==> Get(CleanNames(CleanNames(t)).rows[i], c) == Get(CleanNames(t).rows[i], c)
  {
    var r := CleanNames(t);
    var r2 := CleanNames(r);
    if "Name" in t.columns && NamesAreText(t) {
      var i0 :| 0 <= i0 < |t.rows| && Get(t.rows[i0], "Name").Text?;
      assert Get(r.rows[i0], "Name") == CleanedName(t.rows[i0]);
      assert NamesAreText(r);
      forall i, c | 0 <= i < |t.rows|
        ensures Get(r2.rows[i], c) == Get(r.rows[i], c)
      {
        if c == "Name" {
          CleanedNameStable(t.rows[i], r.rows[i]);
        }
      }
    }
  }

  /** The cleaned name of a row whose name is already cleaned stays the same. */
  lemma CleanedNameStable(row: Row, cleaned: Row)
    requires Get(cleaned, "Name") == CleanedName(row)
    ensures CleanedName(cleaned) == Get(cleaned, "Name")
  {
    var n := Get(row, "Name");
    if n.Text? {
      CleanNameIdempotent(n.text);
    }
  }

  /** When cleaning is skipped, no row holds a textual name. */
  lemma NoTextNames(t: Table)
    requires Valid(t) && !("Name" in t.columns && NamesAreText(t))
    ensures forall i :: 0 <= i < |t.rows| ==> !Get(t.rows[i], "Name").Text?
    ensures NamesClean(t)
  {
    if "Name" !in t.columns {
      assert forall i :: 0 <= i < |t.rows| ==> "Name" !in t.rows[i];
    }
  }

  /** One fetched table through scrape_data.py:38-95. */
  function ProcessTable(raw: RawTable, administration: string): (r: TableResult)
    ensures raw.header.SingleLevel? ==> r == Skipped(NotMultiLevel)
    ensures raw.header.TwoLevel? && |raw.header.labels| == 0 ==> r == Skipped(NoColumns)
    ensures raw.header.TwoLevel? && |raw.header.labels| > 0 ==> r.Processed?
  {
    match raw.header
    case SingleLevel(_) => Skipped(NotMultiLevel)
    case TwoLevel(labels) =>
      if |labels| == 0 then Skipped(NoColumns)
      else
        var t := BuildTable(Dedupe(Flatten(labels)), raw.rows);
        Processed(CleanNames(FilterNameRows(StampTable(t, labels[0].top, administration))))
  }

  /** scrape_data.py:77-79: the position and the administration in every
      row, as columns appended after the others unless already present. */
  function StampTable(t: Table, position: string, administration: string): (r: Table)
    ensures |r.rows| == |t.rows| && t.columns <= r.columns
    ensures forall c :: c in r.columns <==> c in t.columns || c == "Position" || c == "Administration"
    ensures "Position" in r.columns && "Administration" in r.columns
    ensures forall i :: 0 <= i < |r.rows| ==> Get(r.rows[i], "Position") == Text(position)
    ensures forall i :: 0 <= i < |r.rows| ==> Get(r.rows[i], "Administration") == Text(administration)
    ensures forall i, c :: 0 <= i < |r.rows| && c != "Position" && c != "Administration" ==>
      Get(r.rows[i], c) == Get(t.rows[i], c)
    ensures Valid(t) ==> Valid(r)
  {
    var t1 := SetColumn(t, "Position", _ => Text(position));
    SetColumn(t1, "Administration", _ => Text(administration))
  }

  /** What every processed table satisfies: it is a well-formed table, it has
      at most the fetched rows, every row carries the table's position and the
      administration, every text name is clean, and every other column is a
      flattened, suffixed name that is no placeholder. */
  lemma ProcessedTable(raw: RawTable, administration: string)
    requires raw.header.TwoLevel? && |raw.header.labels| > 0
    ensures ProcessTable(raw, administration).Processed?
    ensures var t := ProcessTable(raw, administration).table;
      && Valid(t)
      && |t.rows| <= |raw.rows|
      && "Position" in t.columns && "Administration" in t.columns
      && (forall i :: 0 <= i < |t.rows| ==> Get(t.rows[i], "Position") == Text(raw.header.labels[0].top))
      && (forall i :: 0 <= i < |t.rows| ==> Get(t.rows[i], "Administration") == Text(administration))
      && NamesClean(t)
      && (forall c :: c in t.columns && c != "Position" && c != "Administration" ==>
            c in Dedupe(Flatten(raw.header.labels)) && !IsPlaceholder(c))
  {
    var labels := raw.header.labels;
    var names := Dedupe(Flatten(labels));
    var t0 := BuildTable(names, raw.rows);
    assert forall c :: c in t0.columns ==> c in names && !IsPlaceholder(c);
    var t2 := StampTable(t0, labels[0].top, administration);
    var t := CleanNames(FilterNameRows(t2));
    assert ProcessTable(raw, administration) == Processed(t);
    FilteredStamps(t2, labels[0].top, administration);
  }

  /** Filtering rows and cleaning names keep the columns, the validity and
      the two stamps on every row, and leave every text name clean. */
  lemma FilteredStamps(t: Table, position: string, administration: string)
    requires Valid(t)
    requires forall i :: 0 <= i < |t.rows| ==> Get(t.rows[i], "Position") == Text(position)
    requires forall i :: 0 <= i < |t.rows| ==> Get(t.rows[i], "Administration") == Text(administration)
    ensures var r := CleanNames(FilterNameRows(t));
      && r.columns == t.columns && |r.rows| <= |t.rows| && Valid(r) && NamesClean(r)
      && (forall i :: 0 <= i < |r.rows| ==> Get(r.rows[i], "Position") == Text(position))
      && (forall i :: 0 <= i < |r.rows| ==> Get(r.rows[i], "Administration") == Text(administration))
  {
    FilterKeeps(t, "Position", Text(position));
    FilterKeeps(t, "Administration", Text(administration));
  }

  /** A column holding the same value in every row still does after the row
      filter. */
  lemma FilterKeeps(t: Table, c: string, v: Cell)
    requires forall i :: 0 <= i < |t.rows| ==> Get(t.rows[i], c) == v
    ensures var f := FilterNameRows(t);
      forall i :: 0 <= i < |f.rows| ==> Get(f.rows[i], c) == v
  {
    var f := FilterNameRows(t);
    forall i | 0 <= i < |f.rows|
      ensures Get(f.rows[i], c) == v
    {
      var k :| 0 <= k < |t.rows| && t.rows[k] == f.rows[i];
    }
  }
}
