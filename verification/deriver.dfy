/** The combined-table part of `create_cabinet_csv` (scrape_data.py:104-195):
    null tokens, the derived columns, pruning and ordering of columns, and the
    date formatting for output. */
module Deriver {
  import opened Optional
  import opened Seqs
  import opened Text
  import opened StringOrder
  import opened Tables
  import opened Scanners

  /** The tokens `replace(["", "N/A"], pd.NA)` turns into missing values. */
  const DerivationNullTokens: set<string> := {"", "N/A"}

  function NormalizeCell(c: Cell, tokens: set<string>): (r: Cell)
    ensures r == Absent <==> c == Absent || (c.Text? && c.text in tokens)
    ensures r != Absent ==> r == c
  {
    if c.Text? && c.text in tokens then Absent else c
  }

  /** Every cell that is exactly one of the tokens becomes missing; nothing
      else changes (scrape_data.py:105). */
  function NormalizeNulls(t: Table, tokens: set<string>): (r: Table)
    ensures r.columns == t.columns && |r.rows| == |t.rows|
    ensures forall i, c :: 0 <= i < |r.rows| ==> Get(r.rows[i], c) == NormalizeCell(Get(t.rows[i], c), tokens)
    ensures Valid(t) ==> Valid(r)
  {
    Table(t.columns, seq(|t.rows|, i requires 0 <= i < |t.rows| =>
      map c | c in t.rows[i] :: NormalizeCell(t.rows[i][c], tokens)))
  }

  /** Normalising twice is normalising once, and no token is left behind. */
  lemma NormalizeNullsIdempotent(t: Table, tokens: set<string>)
    ensures NormalizeNulls(NormalizeNulls(t, tokens), tokens) == NormalizeNulls(t, tokens)
    ensures var r := NormalizeNulls(t, tokens);
      forall i, c :: 0 <= i < |r.rows| && Get(r.rows[i], c).Text? ==> Get(r.rows[i], c).text !in tokens
  {
    var r := NormalizeNulls(t, tokens);
    var rr := NormalizeNulls(r, tokens);
    forall i | 0 <= i < |r.rows|
      ensures rr.rows[i] == r.rows[i]
    {
      assert rr.rows[i].Keys == r.rows[i].Keys;
      forall c | c in r.rows[i]
        ensures rr.rows[i][c] == r.rows[i][c]
      {
        assert Get(r.rows[i], c) == r.rows[i][c];
      }
    }
  }

  /** `pd.to_datetime` and `strftime("%Y-%m-%d")`, which the model leaves
      abstract: a parse that may fail, and a rendering. */
  datatype DateCodec = DateCodec(parse: string -> Option<CalendarDate>, format: CalendarDate -> string)

  /** `Birth Date` from the `Date of birth` cell (scrape_data.py:112-114). */
  function BirthDateOf(dob: Cell, parse: string -> Option<CalendarDate>): (r: Cell)
    ensures r.Date? <==> dob.Text? && parse(DatePart(dob.text)).Some?
    ensures r.Date? ==> r.date == parse(DatePart(dob.text)).value
    ensures !r.Date? ==> r == Absent
  {
    match dob
    case Text(s) =>
      (match parse(DatePart(s))
       case Some(d) => Date(d)
       case None => Absent)
    case _ => Absent
  }

  /** `Birth Year`: the parsed year, else the first 4-digit run of the
      original text, else missing (scrape_data.py:117-127). */
  function BirthYearOf(dob: Cell, parse: string -> Option<CalendarDate>): (r: Cell)
    ensures BirthDateOf(dob, parse).Date? ==> r == Int(BirthDateOf(dob, parse).date.year)
    ensures !BirthDateOf(dob, parse).Date? && dob.Text? && FirstFourDigits(dob.text).Some? ==>
      r == Int(FirstFourDigits(dob.text).value)
    ensures r == Absent <==> !BirthDateOf(dob, parse).Date? && !(dob.Text? && FirstFourDigits(dob.text).Some?)
  {
    var date := BirthDateOf(dob, parse);
    if date.Date? then Int(date.date.year)
    else if dob.Text? && FirstFourDigits(dob.text).Some? then Int(FirstFourDigits(dob.text).value)
    else Absent
  }

  /** `Age` (scrape_data.py:130-133). */
  function AgeOf(dob: Cell): (r: Cell)
    ensures r != Absent <==> dob.Text? && FindAge(dob.text).Some?
    ensures r != Absent ==> r == Int(FindAge(dob.text).value)
  {
    if dob.Text? && FindAge(dob.text).Some? then Int(FindAge(dob.text).value) else Absent
  }

  /** scrape_data.py:108-133: with a `Date of birth` column, three columns are
      (re)computed from it; every other column is untouched. */
  function DeriveBirth(t: Table, parse: string -> Option<CalendarDate>): (r: Table)
    ensures |r.rows| == |t.rows|
    ensures "Date of birth" !in t.columns ==> r == t
    ensures "Date of birth" in t.columns ==>
      && (forall c :: c in t.columns ==> c in r.columns)
      && (forall c :: c in r.columns <==> c in t.columns || c in {"Birth Date", "Birth Year", "Age"})
      && forall i :: 0 <= i < |r.rows| ==>
        var dob := Get(t.rows[i], "Date of birth");
        && Get(r.rows[i], "Birth Date") == BirthDateOf(dob, parse)
        && Get(r.rows[i], "Birth Year") == BirthYearOf(dob, parse)
        && Get(r.rows[i], "Age") == AgeOf(dob)
    ensures forall i, c :: 0 <= i < |r.rows| && c !in {"Birth Date", "Birth Year", "Age"} ==>
      Get(r.rows[i], c) == Get(t.rows[i], c)
    ensures Valid(t) ==> Valid(r)
  {
    if "Date of birth" in t.columns then
      assert "Birth Date"[6] != "Birth Year"[6];
      var t1 := DeriveColumn(t, "Birth Date", "Date of birth", dob => BirthDateOf(dob, parse));
      var t2 := DeriveColumn(t1, "Birth Year", "Date of birth", dob => BirthYearOf(dob, parse));
      DeriveColumn(t2, "Age", "Date of birth", AgeOf)
    else t
  }

  function StartYearOf(years: Cell): (r: Cell)
    ensures r != Absent <==> years.Text? && FirstFourDigits(years.text).Some?
    ensures r != Absent ==> r == Int(FirstFourDigits(years.text).value)
  {
    match years
    case Text(s) =>
      TenureStartIsFirstYear(s);
      if FindTenure(s).Some? then Int(FindTenure(s).value.start) else Absent
    case _ => Absent
  }

  function EndYearOf(years: Cell): (r: Cell)
    ensures r != Absent <==> years.Text? && FindTenure(years.text).Some? && FindTenure(years.text).value.end.Some?
    ensures r != Absent ==> r == Int(FindTenure(years.text).value.end.value)
  {
    if years.Text? && FindTenure(years.text).Some? && FindTenure(years.text).value.end.Some? then
      Int(FindTenure(years.text).value.end.value)
    else Absent
  }

  /** `Current`, never missing: true exactly when the text mentions "present"
      in any case; a missing `Years` reads as false (scrape_data.py:146-148). */
  function CurrentOf(years: Cell): (r: Cell)
    ensures r.Bool?
    ensures r.flag <==> years.Text? && MentionsPresent(years.text)
  {
    Bool(years.Text? && MentionsPresent(years.text))
  }

  /** scrape_data.py:136-148 */
  function DeriveTenure(t: Table): (r: Table)
    ensures |r.rows| == |t.rows|
    ensures "Years" !in t.columns ==> r == t
    ensures "Years" in t.columns ==>
      && (forall c :: c in r.columns <==> c in t.columns || c in {"Start year", "End year", "Current"})
      && forall i :: 0 <= i < |r.rows| ==>
        var years := Get(t.rows[i], "Years");
        && Get(r.rows[i], "Start year") == StartYearOf(years)
        && Get(r.rows[i], "End year") == EndYearOf(years)
        && Get(r.rows[i], "Current") == CurrentOf(years)
    ensures forall i, c :: 0 <= i < |r.rows| && c !in {"Start year", "End year", "Current"} ==>
      Get(r.rows[i], c) == Get(t.rows[i], c)
    ensures Valid(t) ==> Valid(r)
  {
    if "Years" in t.columns then
      var t1 := DeriveColumn(t, "Start year", "Years", StartYearOf);
      var t2 := DeriveColumn(t1, "End year", "Years", EndYearOf);
      DeriveColumn(t2, "Current", "Years", CurrentOf)
    else t
  }

  function StateOf(background: Cell): (r: Cell)
    ensures r != Absent <==> background.Text? && FindState(background.text).Some?
    ensures r != Absent ==> r == Text(FindState(background.text).value) && |r.text| > 0
  {
    if background.Text? && FindState(background.text).Some? then Text(FindState(background.text).value) else Absent
  }

  /** scrape_data.py:151-158: only a table without `State` but with
      `Background` gets the column. */
  function DeriveState(t: Table): (r: Table)
    ensures |r.rows| == |t.rows|
    ensures !("State" !in t.columns && "Background" in t.columns) ==> r == t
    ensures "State" !in t.columns && "Background" in t.columns ==>
      && r.columns == t.columns + ["State"]
      && forall i :: 0 <= i < |r.rows| ==> Get(r.rows[i], "State") == StateOf(Get(t.rows[i], "Background"))
    ensures forall i, c :: 0 <= i < |r.rows| && c != "State" ==> Get(r.rows[i], c) == Get(t.rows[i], c)
    ensures Valid(t) ==> Valid(r)
  {
    if "State" !in t.columns && "Background" in t.columns then
      SetColumn(t, "State", row => StateOf(Get(row, "Background")))
    else t
  }

  /** scrape_data.py:164 */
  const Redundant: seq<string> := ["Reference", "Refs", "Notes"]

  /** scrape_data.py:170-179 */
  const Priority: seq<string> := ["Administration", "Position", "Name", "Age", "State", "Date of birth", "Birth Year", "Background"]

  /** Some row has a value in column `c`: what `dropna(axis=1, how="all")` keeps. */
  predicate HasValue(t: Table, c: string)
  {
    exists i :: 0 <= i < |t.rows| && Get(t.rows[i], c) != Absent
  }

  /** The columns that survive scrape_data.py:161-167, in their old order. */
  function Surviving(t: Table): (r: seq<string>)
    ensures forall c :: c in r <==> c in t.columns && c !in Redundant && HasValue(t, c)
    ensures Distinct(t.columns) ==> Distinct(r)
  {
    FilterDistinct(t.columns, c => c !in Redundant && HasValue(t, c));
    Filter(t.columns, c => c !in Redundant && HasValue(t, c))
  }

  predicate InPriority(c: string)
  {
    c in Priority
  }

  predicate NotInPriority(c: string)
  {
    c !in Priority
  }

  /** The priority columns that are present, in priority order (scrape_data.py:183-185). */
  function PresentPriority(cols: seq<string>): (r: seq<string>)
    ensures Distinct(r) && InOrderOf(r, Priority)
    ensures forall c :: c in r <==> c in Priority && c in cols
  {
    PriorityDistinct();
    FilterDistinct(Priority, p => p in cols);
    FilterOrder(Priority, p => p in cols);
    Filter(Priority, p => p in cols)
  }

  /** The other columns, sorted (`Index.difference` sorts its result, scrape_data.py:181). */
  function SortedRest(cols: seq<string>): (r: seq<string>)
    ensures StrictlySorted(r) && Distinct(r)
    ensures forall c :: c in r <==> c in cols && c !in Priority
  {
    SortDistinct(Filter(cols, NotInPriority))
  }

  /** scrape_data.py:180-186 */
  function OrderColumns(cols: seq<string>): (r: seq<string>)
    ensures Distinct(r)
    ensures forall c :: c in r <==> c in cols
  {
    var front, back := PresentPriority(cols), SortedRest(cols);
    DistinctConcat(front, back);
    front + back
  }

  /** The order of the output columns: the priority columns present come first,
      in the order of the priority list, and all others follow sorted. */
  lemma OrderColumnsShape(cols: seq<string>)
    ensures var r := OrderColumns(cols);
      var k := |PresentPriority(cols)|;
      && k <= |r|
      && (forall i :: 0 <= i < |r| ==> (r[i] in Priority <==> i < k))
      && InOrderOf(r[..k], Priority)
      && StrictlySorted(r[k..])
  {
    var front, back := PresentPriority(cols), SortedRest(cols);
    var r := front + back;
    assert r[..|front|] == front && r[|front|..] == back;
    forall i | 0 <= i < |r|
      ensures r[i] in Priority <==> i < |front|
    {
      if i >= |front| {
        assert r[i] == back[i - |front|];
      }
    }
  }

  lemma PriorityDistinct()
    ensures Distinct(Priority)
  {
  }

  /** No priority column is ever dropped as redundant. */
  lemma PriorityNotRedundant()
    ensures forall c :: c in Priority ==> c !in Redundant
  {
  }

  /** Column pruning and ordering (scrape_data.py:160-186). */
  function PruneAndOrder(t: Table): (r: Table)
    ensures r.columns == OrderColumns(Surviving(t))
    ensures forall c :: c in r.columns <==> c in t.columns && c !in Redundant && HasValue(t, c)
    ensures Valid(r)
    ensures |r.rows| == |t.rows|
    ensures forall i, c :: 0 <= i < |r.rows| && c in r.columns ==> Get(r.rows[i], c) == Get(t.rows[i], c)
  {
    Select(t, OrderColumns(Surviving(t)))
  }

  /** Pruning loses nothing but the redundant columns: in a well-formed table
      every other cell reads the same afterwards. */
  lemma PruneKeepsValues(t: Table)
    requires Valid(t)
    ensures var r := PruneAndOrder(t);
      forall i, c :: 0 <= i < |t.rows| && c !in Redundant ==> Get(r.rows[i], c) == Get(t.rows[i], c)
  {
    var r := PruneAndOrder(t);
    forall i, c | 0 <= i < |t.rows| && c !in Redundant
      ensures Get(r.rows[i], c) == Get(t.rows[i], c)
    {
      if c !in r.columns && Get(t.rows[i], c) != Absent {
        assert c in t.rows[i];
        assert HasValue(t, c);
      }
    }
  }

  /** scrape_data.py:189-190: dates become text, a missing date stays missing. */
  function FormatBirthDate(t: Table, format: CalendarDate -> string): (r: Table)
    ensures r.columns == t.columns && |r.rows| == |t.rows|
    ensures "Birth Date" in t.columns ==> forall i :: 0 <= i < |r.rows| ==>
      Get(r.rows[i], "Birth Date") == (if Get(t.rows[i], "Birth Date").Date? then Text(format(Get(t.rows[i], "Birth Date").date)) else Absent)
    ensures forall i, c :: 0 <= i < |r.rows| && c != "Birth Date" ==> Get(r.rows[i], c) == Get(t.rows[i], c)
    ensures Valid(t) ==> Valid(r)
  {
    if "Birth Date" in t.columns then
      SetColumn(t, "Birth Date", row => if Get(row, "Birth Date").Date? then Text(format(Get(row, "Birth Date").date)) else Absent)
    else t
  }
}
