/** `create_cabinet_csv` (scrape_data.py:8-205) without its I/O: the fetched
    tables go through the per-table normalisation, are stacked, and the
    combined table gets its null markers, derived fields and column order. */
module Pipeline {
  import opened Optional
  import opened Seqs
  import opened Tables
  import opened NameCleaning
  import opened Normalizer
  import opened Deriver
  import opened Merger

  /** Every row carries `administration` in column `Administration`, and every
      textual name is clean: what each processed table guarantees. */
  ghost predicate Stamp(t: Table, administration: string)
  {
    && Valid(t)
    && "Administration" in t.columns
    && (forall i :: 0 <= i < |t.rows| ==> Get(t.rows[i], "Administration") == Text(administration))
    && NamesClean(t)
  }

  /** The tables that were processed, in the order fetched; skipped tables
      leave no trace (scrape_data.py:36-95). */
  function ProcessedTables(raws: seq<RawTable>, administration: string): (r: seq<Table>)
    ensures |r| <= |raws|
    ensures |r| == |Filter(raws, Processes)|
    ensures forall k :: 0 <= k < |r| ==> r[k] == ProcessedOf(Filter(raws, Processes)[k], administration)
    ensures forall k :: 0 <= k < |r| ==> Stamp(r[k], administration)
    ensures r == [] <==> forall k :: 0 <= k < |raws| ==> Skips(raws[k])
  {
    var kept := Filter(raws, Processes);
    var r := MapKept(raws, Processes, Process(administration));
    assert forall k :: 0 <= k < |r| ==> r[k] == ProcessedOf(kept[k], administration);
    FilterEmpty(raws, Processes);
    r
  }

  /** `ProcessedOf` as a function of the fetched table alone. */
  function Process(administration: string): RawTable --> Table
  {
    raw requires Processes(raw) => ProcessedOf(raw, administration)
  }

  /** The loop of scrape_data.py:36-95 one table at a time: a further fetched
      table adds its processed form at the end, or nothing when it is skipped. */
  lemma ProcessedTablesAppend(raws: seq<RawTable>, raw: RawTable, administration: string)
    ensures ProcessedTables(raws + [raw], administration) ==
      ProcessedTables(raws, administration) + if Processes(raw) then [ProcessedOf(raw, administration)] else []
  {
    MapKeptAppend(raws, raw, Processes, Process(administration));
  }

  /** The fetched tables `ProcessTable` skips: those without a two-level
      header, and those with no columns at all. */
  predicate Skips(raw: RawTable)
  {
    raw.header.SingleLevel? || |raw.header.labels| == 0
  }

  predicate Processes(raw: RawTable)
  {
    !Skips(raw)
  }

  lemma SkipsIsSkipped(raw: RawTable, administration: string)
    ensures Skips(raw) <==> ProcessTable(raw, administration).Skipped?
  {
  }

  /** The table `ProcessTable` yields for a fetched table it does not skip. */
  function ProcessedOf(raw: RawTable, administration: string): (r: Table)
    requires Processes(raw)
    ensures ProcessTable(raw, administration) == Processed(r)
    ensures Stamp(r, administration)
  {
    ProcessedTable(raw, administration);
    ProcessTable(raw, administration).table
  }

  /** scrape_data.py:8-195: with no processed table the result is the empty
      table; otherwise one row per kept row of every processed table. */
  function CreateCabinet(raws: seq<RawTable>, administration: string, codec: DateCodec): (r: Table)
    ensures Valid(r)
    ensures ProcessedTables(raws, administration) == [] ==> r == EmptyTable
    ensures |r.rows| == |Rows(ProcessedTables(raws, administration))|
    ensures forall c :: c in r.columns ==> c !in Redundant
  {
    var tables := ProcessedTables(raws, administration);
    if tables == [] then EmptyTable
    else
      Finish(Derived(Concat(tables), codec.parse), codec.format)
  }

  /** Pruning, reordering and date formatting (scrape_data.py:160-190). */
  function Finish(t: Table, format: CalendarDate -> string): (r: Table)
    ensures Valid(r) && |r.rows| == |t.rows|
    ensures r.columns == OrderColumns(Surviving(t))
    ensures forall c :: c in r.columns <==> c in t.columns && c !in Redundant && HasValue(t, c)
    ensures forall i, c :: 0 <= i < |r.rows| && c in r.columns && c != "Birth Date" ==> Get(r.rows[i], c) == Get(t.rows[i], c)
  {
    FormatBirthDate(PruneAndOrder(t), format)
  }

  /** The combined table before pruning: nulls normalised and the three
      derivations applied (scrape_data.py:105-158). */
  function Derived(t: Table, parse: string -> Option<CalendarDate>): (r: Table)
    ensures |r.rows| == |t.rows|
    ensures Valid(t) ==> Valid(r)
    ensures forall i :: 0 <= i < |r.rows| ==>
      Get(r.rows[i], "Administration") == NormalizeCell(Get(t.rows[i], "Administration"), DerivationNullTokens)
    ensures forall i :: 0 <= i < |r.rows| ==>
      Get(r.rows[i], "Name") == NormalizeCell(Get(t.rows[i], "Name"), DerivationNullTokens)
    ensures forall c :: c in t.columns ==> c in r.columns
  {
    DeriveFields(NormalizeNulls(t, DerivationNullTokens), parse)
  }

  /** The three derivations, in the order the source applies them. */
  function DeriveFields(t: Table, parse: string -> Option<CalendarDate>): (r: Table)
    ensures Keeps(t, r)
  {
    var t2 := BirthStep(t, parse);
    var t3 := TenureStep(t2);
    KeepsTransitive(t, t2, t3);
    var t4 := StateStep(t3);
    KeepsTransitive(t, t3, t4);
    t4
  }

  /** What each derivation step leaves alone: the rows, validity, every
      existing column, and the `Name` and `Administration` cells. */
  ghost predicate Keeps(t: Table, r: Table)
  {
    && |r.rows| == |t.rows|
    && (Valid(t) ==> Valid(r))
    && (forall c :: c in t.columns ==> c in r.columns)
    && (forall i :: 0 <= i < |r.rows| ==> Get(r.rows[i], "Name") == Get(t.rows[i], "Name"))
    && (forall i :: 0 <= i < |r.rows| ==> Get(r.rows[i], "Administration") == Get(t.rows[i], "Administration"))
  }

  lemma KeepsTransitive(a: Table, b: Table, c: Table)
    requires Keeps(a, b) && Keeps(b, c)
    ensures Keeps(a, c)
  {
  }

  /** A step that only writes the columns in `derived` keeps the name and
      the administration. */
  lemma KeepsBeside(t: Table, r: Table, derived: set<string>)
    requires |r.rows| == |t.rows| && (Valid(t) ==> Valid(r))
    requires forall c :: c in t.columns ==> c in r.columns
    requires forall i, c :: 0 <= i < |r.rows| && c !in derived ==> Get(r.rows[i], c) == Get(t.rows[i], c)
    requires forall c :: c in derived ==> |c| != |"Name"| && |c| != |"Administration"|
    ensures Keeps(t, r)
  {
  }

  function BirthStep(t: Table, parse: string -> Option<CalendarDate>): (r: Table)
    ensures Keeps(t, r)
  {
    var r := DeriveBirth(t, parse);
    KeepsBeside(t, r, {"Birth Date", "Birth Year", "Age"});
    r
  }

  function TenureStep(t: Table): (r: Table)
    ensures Keeps(t, r)
  {
    var r := DeriveTenure(t);
    KeepsBeside(t, r, {"Start year", "End year", "Current"});
    r
  }

  function StateStep(t: Table): (r: Table)
    ensures Keeps(t, r)
  {
    DeriveState(t)
  }

  /** The stacked processed tables keep the administration stamp and the
      clean names on every row. */
  lemma ConcatStamp(ts: seq<Table>, administration: string)
    requires |ts| > 0
    requires forall k :: 0 <= k < |ts| ==> Stamp(ts[k], administration)
    ensures Stamp(Concat(ts), administration)
  {
    var r := Concat(ts);
    assert "Administration" in ts[0].columns;
    forall i | 0 <= i < |r.rows|
      ensures Get(r.rows[i], "Administration") == Text(administration)
      ensures CleanCell(Get(r.rows[i], "Name"))
    {
      var k, j := RowOrigin(ts, i);
    }
  }

  /** Normalising nulls and deriving fields keep the names clean, and keep
      the administration on every row unless it is a null marker itself. */
  lemma DerivedStamp(t: Table, administration: string, parse: string -> Option<CalendarDate>)
    requires Stamp(t, administration)
    ensures var r := Derived(t, parse);
      && NamesClean(r)
      && (administration !in DerivationNullTokens ==> forall i :: 0 <= i < |r.rows| ==> Get(r.rows[i], "Administration") == Text(administration))
  {
  }

  /** Every textual name in the cabinet table is clean. */
  lemma CabinetNames(raws: seq<RawTable>, administration: string, codec: DateCodec)
    ensures var r := CreateCabinet(raws, administration, codec);
      NamesClean(r)
  {
    var tables := ProcessedTables(raws, administration);
    if tables != [] {
      ConcatStamp(tables, administration);
      DerivedStamp(Concat(tables), administration, codec.parse);
      var t := Derived(Concat(tables), codec.parse);
      FinishNames(t, codec.format);
    }
  }

  lemma FinishNames(t: Table, format: CalendarDate -> string)
    requires NamesClean(t)
    ensures var r := Finish(t, format);
      NamesClean(r)
  {
    var r := Finish(t, format);
    forall i | 0 <= i < |r.rows|
      ensures CleanCell(Get(r.rows[i], "Name"))
    {
      if Get(r.rows[i], "Name").Text? {
        assert "Name" in r.rows[i];
        assert Get(r.rows[i], "Name") == Get(t.rows[i], "Name");
      }
    }
  }

  /** Unless the administration is itself a null marker or there are no rows,
      every row names the administration and `Administration` is the first
      column. */
  lemma CabinetAdministration(raws: seq<RawTable>, administration: string, codec: DateCodec)
    requires administration !in DerivationNullTokens
    ensures var r := CreateCabinet(raws, administration, codec);
      |r.rows| > 0 ==>
        && |r.columns| > 0 && r.columns[0] == "Administration"
        && forall i :: 0 <= i < |r.rows| ==> Get(r.rows[i], "Administration") == Text(administration)
  {
    var tables := ProcessedTables(raws, administration);
    if tables != [] {
      ConcatStamp(tables, administration);
      DerivedStamp(Concat(tables), administration, codec.parse);
      var t := Derived(Concat(tables), codec.parse);
      FinishAdministration(t, administration, codec.format);
    }
  }

  lemma FinishAdministration(t: Table, administration: string, format: CalendarDate -> string)
    requires Valid(t)
    requires forall i :: 0 <= i < |t.rows| ==> Get(t.rows[i], "Administration") == Text(administration)
    ensures var r := Finish(t, format);
      |r.rows| > 0 ==>
        && |r.columns| > 0 && r.columns[0] == "Administration"
        && forall i :: 0 <= i < |r.rows| ==> Get(r.rows[i], "Administration") == Text(administration)
  {
    if |t.rows| > 0 {
      PriorityNotRedundant();
      assert "Administration" == Priority[0];
      Survives(t, "Administration", 0);
      AdministrationLeads(Surviving(t));
      FinishKeeps(t, format, "Administration");
    }
  }

  /** A surviving column other than `Birth Date` reads the same after finishing. */
  lemma FinishKeeps(t: Table, format: CalendarDate -> string, c: string)
    requires c in Surviving(t) && c != "Birth Date"
    ensures var r := Finish(t, format);
      c in r.columns && forall i :: 0 <= i < |r.rows| ==> Get(r.rows[i], c) == Get(t.rows[i], c)
  {
  }

  /** A column that is not redundant and has a value in some row survives
      pruning. */
  lemma Survives(t: Table, c: string, i: nat)
    requires Valid(t) && c !in Redundant
    requires i < |t.rows| && Get(t.rows[i], c) != Absent
    ensures c in Surviving(t)
  {
    assert c in t.rows[i];
  }

  /** When `Administration` survives, it is the first output column. */
  lemma AdministrationLeads(cols: seq<string>)
    requires "Administration" in cols
    ensures |OrderColumns(cols)| > 0 && OrderColumns(cols)[0] == "Administration"
  {
    OrderColumnsShape(cols);
    var front := PresentPriority(cols);
    assert Priority[0] == "Administration";
    assert front == Filter(Priority, p => p in cols);
    assert front[0] == "Administration";
  }
}
