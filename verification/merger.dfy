/** Stacking tables (`pd.concat(..., ignore_index=True)`, scrape_data.py:102
    and 237) and combining saved cabinet files (`combine_cabinets`,
    scrape_data.py:208-259). */
module Merger {
  import opened Optional
  import opened Seqs
  import opened Tables
  import opened Deriver

  /** Append to `acc` the members of `more` it lacks, in the order they first
      appear in `more`: the outer join of column labels that concatenation
      performs without sorting. */
  function Union(acc: seq<string>, more: seq<string>): (r: seq<string>)
    requires Distinct(acc)
    ensures Distinct(r)
    ensures |acc| <= |r| && r[..|acc|] == acc
    ensures forall c :: c in r <==> c in acc || c in more
    ensures Distinct(more) ==> InOrderOf(r[|acc|..], more)
    decreases |more|
  {
    if more == [] then acc
    else if more[0] in acc then
      var r := Union(acc, more[1..]);
      UnionOrderSkip(acc, more, r);
      r
    else
      var acc' := acc + [more[0]];
      assert Distinct(acc');
      var r := Union(acc', more[1..]);
      assert r[..|acc|] == acc'[..|acc|] == acc;
      UnionOrderAppend(acc, more, r);
      r
  }

  lemma UnionOrderSkip(acc: seq<string>, more: seq<string>, r: seq<string>)
    requires |more| > 0 && |acc| <= |r|
    requires forall i :: |acc| <= i < |r| ==> r[i] !in acc
    requires more[0] in acc
    requires Distinct(more[1..]) ==> InOrderOf(r[|acc|..], more[1..])
    ensures Distinct(more) ==> InOrderOf(r[|acc|..], more)
  {
    if Distinct(more) {
      assert more[0] !in more[1..];
      InOrderOfTail(r[|acc|..], more);
    }
  }

  lemma UnionOrderAppend(acc: seq<string>, more: seq<string>, r: seq<string>)
    requires |more| > 0 && |acc| < |r| && r[|acc|] == more[0]
    requires Distinct(more[1..]) ==> InOrderOf(r[|acc| + 1..], more[1..])
    ensures Distinct(more) ==> InOrderOf(r[|acc|..], more)
  {
    if Distinct(more) {
      assert more[0] !in more[1..];
      InOrderOfTail(r[|acc| + 1..], more);
      InOrderOfCons(r[|acc| + 1..], more);
      assert r[|acc|..] == [more[0]] + r[|acc| + 1..];
    }
  }

  /** Some table in `ts` has column `c`. */
  predicate SomeHas(ts: seq<Table>, c: string)
  {
    exists k :: 0 <= k < |ts| && c in ts[k].columns
  }

  /** The columns of the stacked table: those of the first table, then each
      later table's new ones. */
  function AllColumns(ts: seq<Table>): (r: seq<string>)
    ensures Distinct(r)
    ensures forall c :: c in r <==> SomeHas(ts, c)
    decreases |ts|
  {
    if ts == [] then []
    else
      var front := ts[..|ts| - 1];
      var r := Union(AllColumns(front), ts[|ts| - 1].columns);
      forall c | SomeHas(ts, c)
        ensures c in r
      {
        var k :| 0 <= k < |ts| && c in ts[k].columns;
        if k < |ts| - 1 {
          assert front[k] == ts[k];
        }
      }
      forall c | c in r
        ensures SomeHas(ts, c)
      {
        if c in AllColumns(front) {
          var k :| 0 <= k < |front| && c in front[k].columns;
          assert ts[k] == front[k];
        }
      }
      r
  }

  /** The columns of the earlier tables keep their order: the stacked
      table's columns extend those of any prefix of the list. */
  lemma {:induction false} AllColumnsPrefix(ts: seq<Table>, k: nat)
    requires k <= |ts|
    ensures var a, b := AllColumns(ts[..k]), AllColumns(ts);
      |a| <= |b| && b[..|a|] == a
    decreases |ts| - k
  {
    if k < |ts| {
      AllColumnsPrefix(ts, k + 1);
      var front := ts[..k + 1];
      assert front[..|front| - 1] == ts[..k];
    } else {
      assert ts[..k] == ts;
    }
  }

  /** The first table's columns lead, in their own order. */
  lemma FirstColumnsLead(ts: seq<Table>)
    requires |ts| > 0 && Distinct(ts[0].columns)
    ensures var r := AllColumns(ts);
      |ts[0].columns| <= |r| && r[..|ts[0].columns|] == ts[0].columns
  {
    AllColumnsPrefix(ts, 1);
    var one := ts[..1];
    assert one[..0] == [];
    assert AllColumns(one[..0]) == [];
    assert Union([], ts[0].columns)[..0] == [];
    UnionOfDistinct(ts[0].columns);
  }

  /** The union of nothing with a list of distinct labels is that list. */
  lemma {:induction false} UnionOfDistinct(cols: seq<string>)
    requires Distinct(cols)
    ensures Union([], cols) == cols
  {
    var r := Union([], cols);
    assert InOrderOf(r, cols);
    forall c | c in cols
      ensures c in r
    {
    }
    SameMembersInOrder(r, cols);
  }

  /** All rows of the tables, one table after another. */
  function Rows(ts: seq<Table>): (r: seq<Row>)
    ensures |ts| > 0 ==> ts[0].rows <= r
  {
    if ts == [] then [] else ts[0].rows + Rows(ts[1..])
  }

  /** The number of rows of all the tables together. */
  function RowCount(ts: seq<Table>): nat
  {
    if ts == [] then 0 else |ts[0].rows| + RowCount(ts[1..])
  }

  /** The stack has as many rows as the tables together. */
  lemma {:induction false} RowsLength(ts: seq<Table>)
    ensures |Rows(ts)| == RowCount(ts)
    decreases |ts|
  {
    if ts != [] {
      RowsLength(ts[1..]);
    }
  }

  /** Every row of the stack is row `j` of some table `k`. */
  lemma {:induction false} RowOrigin(ts: seq<Table>, i: nat) returns (k: nat, j: nat)
    requires i < |Rows(ts)|
    ensures k < |ts| && j < |ts[k].rows| && Rows(ts)[i] == ts[k].rows[j]
    decreases |ts|
  {
    assert ts != [];
    if i < |ts[0].rows| {
      k, j := 0, i;
    } else {
      var k', j' := RowOrigin(ts[1..], i - |ts[0].rows|);
      k, j := k' + 1, j';
      assert ts[1..][k'] == ts[k];
    }
  }

  /** Row `i` of table `k` is row `Offset(ts, k) + i` of the stack. */
  function Offset(ts: seq<Table>, k: nat): nat
    requires k <= |ts|
  {
    |Rows(ts[..k])|
  }

  lemma {:induction false} RowsSplit(ts: seq<Table>, k: nat)
    requires k <= |ts|
    ensures Rows(ts) == Rows(ts[..k]) + Rows(ts[k..])
    decreases k
  {
    if k > 0 {
      RowsSplit(ts[1..], k - 1);
      assert ts[1..][..k - 1] == ts[..k][1..];
      assert ts[1..][k - 1..] == ts[k..];
    } else {
      assert ts[..0] == [] && ts[0..] == ts;
    }
  }

  /** Row `i` of table `k` lands at `Offset(ts, k) + i` of the stack. */
  lemma RowsPlacement(ts: seq<Table>, k: nat, i: nat)
    requires k < |ts| && i < |ts[k].rows|
    ensures Offset(ts, k) + i < |Rows(ts)|
    ensures Rows(ts)[Offset(ts, k) + i] == ts[k].rows[i]
  {
    RowsSplit(ts, k);
    assert ts[k..][0] == ts[k];
    StackedIndex(Rows(ts[..k]), Rows(ts[k..]), ts[k].rows, i);
  }

  lemma StackedIndex<T>(a: seq<T>, b: seq<T>, p: seq<T>, i: nat)
    requires p <= b && i < |p|
    ensures |a| + i < |a + b| && (a + b)[|a| + i] == p[i]
  {
  }

  /** A row widened or narrowed to exactly `cols`; a column the row lacks
      becomes missing. */
  function Align(row: Row, cols: seq<string>): (r: Row)
    ensures forall c :: c in r <==> c in cols
    ensures forall c :: c in cols ==> Get(r, c) == Get(row, c)
  {
    map c | c in cols :: Get(row, c)
  }

  /** `pd.concat(ts, ignore_index=True)`: the rows of every table in turn,
      over the union of their columns. */
  function Concat(ts: seq<Table>): (r: Table)
    ensures Valid(r)
    ensures forall c :: c in r.columns <==> SomeHas(ts, c)
    ensures |r.rows| == |Rows(ts)|
    ensures forall i, c :: 0 <= i < |r.rows| && c in r.columns ==> Get(r.rows[i], c) == Get(Rows(ts)[i], c)
  {
    var cols := AllColumns(ts);
    var all := Rows(ts);
    Table(cols, seq(|all|, i requires 0 <= i < |all| => Align(all[i], cols)))
  }

  /** Every cell of every input reappears at its offset in the stack; a
      column its table lacked reads as missing there. */
  lemma ConcatPlacement(ts: seq<Table>, k: nat, i: nat, c: string)
    requires k < |ts| && i < |ts[k].rows| && Valid(ts[k])
    ensures Offset(ts, k) + i < |Concat(ts).rows|
    ensures Get(Concat(ts).rows[Offset(ts, k) + i], c) == Get(ts[k].rows[i], c)
    ensures c in Concat(ts).columns && c !in ts[k].columns ==> Get(Concat(ts).rows[Offset(ts, k) + i], c) == Absent
  {
    RowsPlacement(ts, k, i);
    var r := Concat(ts);
    var n := Offset(ts, k) + i;
    if c !in r.columns {
      assert !SomeHas(ts, c);
      assert c !in ts[k].columns;
      assert c !in ts[k].rows[i];
    }
  }

  /** Missing-value markers of `pd.read_csv` with `keep_default_na=True`
      (pandas' default list) plus the explicit `na_values`, scrape_data.py:226-229. */
  const ReaderNullTokens: set<string> := {
    "", "#N/A", "#N/A N/A", "#NA", "-1.#IND", "-1.#QNAN", "-NaN", "-nan",
    "1.#IND", "1.#QNAN", "<NA>", "N/A", "NA", "NULL", "NaN", "None", "n/a",
    "nan", "null"
  }

  /** The files that could be read, in the order given; a failed read is skipped. */
  function Loaded(attempts: seq<Option<Table>>): (r: seq<Table>)
    ensures |r| <= |attempts|
    ensures forall k :: 0 <= k < |r| ==> Some(r[k]) in attempts
    ensures forall k :: 0 <= k < |attempts| && attempts[k].Some? ==> attempts[k].value in r
  {
    if attempts == [] then []
    else
      var rest := Loaded(attempts[1..]);
      if attempts[0].Some? then
        [attempts[0].value] + rest
      else
        assert forall k :: 1 <= k < |attempts| ==> attempts[k] == attempts[1..][k - 1];
        rest
  }

  /** Reading keeps the files in the order given: one more attempt adds its
      table at the end when the read succeeded and nothing otherwise. */
  lemma {:induction false} LoadedAppend(a: seq<Option<Table>>, x: Option<Table>)
    ensures Loaded(a + [x]) == Loaded(a) + (if x.Some? then [x.value] else [])
    decreases |a|
  {
    if a == [] {
      assert [] + [x] == [x];
      assert [x][1..] == [];
    } else {
      assert (a + [x])[1..] == a[1..] + [x];
      LoadedAppend(a[1..], x);
    }
  }

  /** Every read file with its null markers made missing. */
  function Cleaned(files: seq<Table>, tokens: set<string>): (r: seq<Table>)
    ensures |r| == |files|
    ensures forall k :: 0 <= k < |r| ==> r[k] == NormalizeNulls(files[k], tokens)
  {
    seq(|files|, k requires 0 <= k < |files| => NormalizeNulls(files[k], tokens))
  }

  lemma CleanedShape(files: seq<Table>, cleaned: seq<Table>)
    requires |cleaned| == |files|
    requires forall k :: 0 <= k < |files| ==> |cleaned[k].rows| == |files[k].rows|
    ensures |Rows(cleaned)| == |Rows(files)|
    decreases |files|
  {
    if files != [] {
      CleanedShape(files[1..], cleaned[1..]);
    }
  }

  lemma LoadedColumns(attempts: seq<Option<Table>>, files: seq<Table>, cleaned: seq<Table>)
    requires files == Loaded(attempts) && |cleaned| == |files|
    requires forall k :: 0 <= k < |files| ==> cleaned[k].columns == files[k].columns
    ensures forall c :: SomeHas(cleaned, c) <==> exists k :: 0 <= k < |attempts| && attempts[k].Some? && c in attempts[k].value.columns
  {
    forall c | SomeHas(cleaned, c)
      ensures exists k :: 0 <= k < |attempts| && attempts[k].Some? && c in attempts[k].value.columns
    {
      var k :| 0 <= k < |cleaned| && c in cleaned[k].columns;
      assert Some(files[k]) in attempts;
      var m :| 0 <= m < |attempts| && attempts[m] == Some(files[k]);
      assert c in attempts[m].value.columns;
    }
    forall c | exists k :: 0 <= k < |attempts| && attempts[k].Some? && c in attempts[k].value.columns
      ensures SomeHas(cleaned, c)
    {
      var k :| 0 <= k < |attempts| && attempts[k].Some? && c in attempts[k].value.columns;
      var m :| 0 <= m < |files| && files[m] == attempts[k].value;
      assert c in cleaned[m].columns;
    }
  }

  /** `combine_cabinets` (scrape_data.py:208-259): each read file's null
      markers become missing values, then the files are stacked; with no
      readable file the result is the empty table. */
  function CombineCabinets(attempts: seq<Option<Table>>): (r: Table)
    ensures Valid(r)
    ensures (forall k :: 0 <= k < |attempts| ==> attempts[k].None?) ==> r == EmptyTable
    ensures forall c :: c in r.columns <==> exists k :: 0 <= k < |attempts| && attempts[k].Some? && c in attempts[k].value.columns
    ensures |r.rows| == |Rows(Loaded(attempts))|
    ensures forall i, c :: 0 <= i < |r.rows| && Get(r.rows[i], c).Text? ==> Get(r.rows[i], c).text !in ReaderNullTokens
  {
    CombineWith(attempts, ReaderNullTokens)
  }

  /** The merge with the set of null markers as a parameter. */
  function CombineWith(attempts: seq<Option<Table>>, tokens: set<string>): (r: Table)
    ensures Valid(r)
    ensures (forall k :: 0 <= k < |attempts| ==> attempts[k].None?) ==> r == EmptyTable
    ensures forall c :: c in r.columns <==> exists k :: 0 <= k < |attempts| && attempts[k].Some? && c in attempts[k].value.columns
    ensures |r.rows| == |Rows(Loaded(attempts))|
    ensures forall i, c :: 0 <= i < |r.rows| && Get(r.rows[i], c).Text? ==> Get(r.rows[i], c).text !in tokens
  {
    var files := Loaded(attempts);
    if files == [] then
      EmptyTable
    else
      var cleaned := Cleaned(files, tokens);
      CleanedShape(files, cleaned);
      LoadedColumns(attempts, files, cleaned);
      var r := Concat(cleaned);
      forall i, c | 0 <= i < |r.rows| && Get(r.rows[i], c).Text?
        ensures Get(r.rows[i], c).text !in tokens
      {
        var k, j := RowOrigin(cleaned, i);
        NormalizeNullsIdempotent(files[k], tokens);
      }
      r
  }

  /** Cleaning keeps every file's row count, so the offsets agree. */
  lemma CleanedOffset(files: seq<Table>, tokens: set<string>, k: nat)
    requires k <= |files|
    ensures Offset(Cleaned(files, tokens), k) == Offset(files, k)
  {
    var cleaned := Cleaned(files, tokens);
    CleanedShape(files[..k], cleaned[..k]);
  }

  /** Row `i` of file `k` is row `Offset(files, k) + i` of the stack of
      the cleaned files, every cell with its null markers made missing. */
  lemma CleanedPlacement(files: seq<Table>, tokens: set<string>, k: nat, i: nat, c: string)
    requires k < |files| && i < |files[k].rows|
    ensures Offset(files, k) + i < |Concat(Cleaned(files, tokens)).rows|
    ensures c in Concat(Cleaned(files, tokens)).columns || Valid(files[k]) ==>
      Get(Concat(Cleaned(files, tokens)).rows[Offset(files, k) + i], c) == NormalizeCell(Get(files[k].rows[i], c), tokens)
  {
    var cleaned := Cleaned(files, tokens);
    var r := Concat(cleaned);
    CleanedOffset(files, tokens, k);
    var n := Offset(files, k) + i;
    RowsPlacement(cleaned, k, i);
    var row := cleaned[k].rows[i];
    assert Rows(cleaned)[n] == row;
    assert Get(row, c) == NormalizeCell(Get(files[k].rows[i], c), tokens);
    if c in r.columns {
      assert Get(r.rows[n], c) == Get(row, c);
    } else if Valid(files[k]) {
      assert !SomeHas(cleaned, c);
      assert c !in cleaned[k].columns;
      assert c !in files[k].rows[i];
    }
  }

  /** A table known to be the stack of the cleaned files places their rows
      as `CleanedPlacement` says. */
  lemma PlacementIn(r: Table, files: seq<Table>, tokens: set<string>, k: nat, i: nat, c: string)
    requires r == Concat(Cleaned(files, tokens))
    requires k < |files| && i < |files[k].rows|
    ensures Offset(files, k) + i < |r.rows|
    ensures c in r.columns || Valid(files[k]) ==>
      Get(r.rows[Offset(files, k) + i], c) == NormalizeCell(Get(files[k].rows[i], c), tokens)
  {
    CleanedPlacement(files, tokens, k, i, c);
  }

  /** Row `i` of the `k`-th file read is row `Offset(files, k) + i` of the
      merged table, every cell with the null markers made missing: the files
      are stacked whole and in the order they were read. */
  lemma CombinedPlacement(attempts: seq<Option<Table>>, tokens: set<string>, files: seq<Table>, k: nat, i: nat, c: string)
    requires files == Loaded(attempts)
    requires k < |files| && i < |files[k].rows|
    ensures Offset(files, k) + i < |CombineWith(attempts, tokens).rows|
    ensures c in CombineWith(attempts, tokens).columns || Valid(files[k]) ==>
      Get(CombineWith(attempts, tokens).rows[Offset(files, k) + i], c) == NormalizeCell(Get(files[k].rows[i], c), tokens)
  {
    StackOfCleaned(attempts, tokens);
    PlacementIn(CombineWith(attempts, tokens), files, tokens, k, i, c);
  }

  /** Row i of the k-th file read is the merged row at that file's offset plus
      i, with the reader's null markers made missing. */
  lemma CabinetPlacement(attempts: seq<Option<Table>>, files: seq<Table>, k: nat, i: nat, c: string)
    requires files == Loaded(attempts)
    requires k < |files| && i < |files[k].rows|
    ensures Offset(files, k) + i < |CombineCabinets(attempts).rows|
    ensures c in CombineCabinets(attempts).columns || Valid(files[k]) ==>
      Get(CombineCabinets(attempts).rows[Offset(files, k) + i], c) == NormalizeCell(Get(files[k].rows[i], c), ReaderNullTokens)
  {
    CombinedPlacement(attempts, ReaderNullTokens, files, k, i, c);
  }

  lemma StackOfCleaned(attempts: seq<Option<Table>>, tokens: set<string>)
    requires Loaded(attempts) != []
    ensures CombineWith(attempts, tokens) == Concat(Cleaned(Loaded(attempts), tokens))
  {
  }
}
