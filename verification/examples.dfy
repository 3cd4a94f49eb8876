/** The worked examples of the cabinet data: concrete inputs and what the
    model computes for them. */
module Examples {
  import opened Optional
  import opened Text
  import opened Tables
  import opened Scanners
  import opened Deriver
  import opened Merger

  const Dob: string := "January 1, 1950 (age 74)"
  const DobDate: string := "January 1, 1950"

  lemma DobShape()
    ensures Dob == DobDate + " " + "(age 74)"
    ensures '\n' !in Dob
  {
  }

  lemma DobFirstParen()
    ensures First(Dob, '(') == 16
  {
    DobShape();
    assert '(' !in Dob[..16];
    FirstIs(Dob, '(', 16);
  }

  lemma DobTrim()
    ensures TrimEnd(Dob[..16]) == DobDate
  {
    DobShape();
    var before := Dob[..16];
    assert before == DobDate + " ";
    TrimEndIs(before, 15);
    assert before[..15] == DobDate;
  }

  /** The date part of the example is the text before the parenthesis. */
  lemma DobDatePart()
    ensures DatePart(Dob) == DobDate
  {
    DobShape();
    DobFirstParen();
    DobTrim();
  }

  lemma DobAgeAt()
    ensures AgeAt(Dob, 17) == Some(74)
  {
    var tail := Dob[20..];
    assert tail == " 74)";
    SpaceRunIs(tail, 1);
    var digits := Dob[21..];
    assert digits == "74)";
    DigitRunIs(digits, 2);
    assert digits[..2] == "74";
    assert DigitsValue("74") == 74 by {
      assert "74"[..1] == "7";
      assert "7"[..0] == "";
    }
    assert WordAt(Dob, 17, "age");
  }

  lemma DobNoAgeBefore()
    ensures forall q :: 0 <= q < 17 ==> AgeAt(Dob, q).None?
  {
    forall q | 0 <= q < 17
      ensures AgeAt(Dob, q).None?
    {
      DobNoAgeWordAt(q);
    }
  }

  lemma DobNoAgeWordAt(q: nat)
    requires q < 17
    ensures !WordAt(Dob, q, "age") && !WordAt(Dob, q, "Age") && !WordAt(Dob, q, "AGE")
  {
    assert 'g' !in Dob[..18] && 'G' !in Dob;
    assert Dob[q..q + 3][1] == Dob[..18][q + 1];
  }

  /** The age is the number after the first `age`. */
  lemma DobAge()
    ensures FindAge(Dob) == Some(74)
  {
    DobAgeAt();
    DobNoAgeBefore();
    FirstMatchIs(Dob, AgeAt, 17);
  }

  /** Birth date, year and age of the example, for a date parser that reads
      its date part as 1 January 1950. */
  lemma DobDerivation(parse: string -> Option<CalendarDate>)
    requires parse(DobDate) == Some(CalendarDate(1950, 1, 1))
    ensures BirthDateOf(Text(Dob), parse) == Date(CalendarDate(1950, 1, 1))
    ensures BirthYearOf(Text(Dob), parse) == Int(1950)
    ensures AgeOf(Text(Dob)) == Int(74)
  {
    DobDatePart();
    DobAge();
  }

  const Circa: string := "c. 1950"

  lemma CircaYear()
    ensures FirstFourDigits(Circa) == Some(1950)
  {
    assert Circa[3..7] == "1950";
    assert DigitsValue("1950") == 1950 by {
      assert "1950"[..3] == "195" && "195"[..2] == "19" && "19"[..1] == "1" && "1"[..0] == "";
    }
    assert FourDigitsAt(Circa, 3) == Some(1950);
    forall q | 0 <= q < 3
      ensures FourDigitsAt(Circa, q).None?
    {
      assert Circa[q..q + 4][2 - q] == Circa[2];
    }
    FirstMatchIs(Circa, FourDigitsAt, 3);
  }

  /** An unparseable date still yields the birth year from its first 4-digit run. */
  lemma CircaDerivation(parse: string -> Option<CalendarDate>)
    requires parse(Circa).None?
    ensures BirthDateOf(Text(Circa), parse) == Absent
    ensures BirthYearOf(Text(Circa), parse) == Int(1950)
  {
    assert '(' !in Circa;
    CircaYear();
  }

  const Ongoing: string := "2021\U{2013}present"
  const Finished: string := "2017\U{2013}2019"

  lemma Value2021()
    ensures AllDigits("2021") && DigitsValue("2021") == 2021
  {
    assert "2021"[..3] == "202" && "202"[..2] == "20" && "20"[..1] == "2" && "2"[..0] == "";
  }

  lemma Value2017()
    ensures AllDigits("2017") && DigitsValue("2017") == 2017
  {
    assert "2017"[..3] == "201" && "201"[..2] == "20" && "20"[..1] == "2" && "2"[..0] == "";
  }

  lemma Value2019()
    ensures AllDigits("2019") && DigitsValue("2019") == 2019
  {
    assert "2019"[..3] == "201" && "201"[..2] == "20" && "20"[..1] == "2" && "2"[..0] == "";
  }

  lemma OngoingTenure()
    ensures FindTenure(Ongoing) == Some(Tenure(2021, None))
  {
    Value2021();
    assert Ongoing[0..4] == "2021";
    assert Ongoing[4..] == "\U{2013}present";
    SpaceRunIs(Ongoing[4..], 0);
    assert Ongoing[5..] == "present";
    SpaceRunIs(Ongoing[5..], 0);
    assert AfterDash(Ongoing, 0) == 5;
    assert WordAt(Ongoing, 5, "present");
    assert TenureAt(Ongoing, 0) == Some(Tenure(2021, None));
    FirstMatchIs(Ongoing, TenureAt, 0);
  }

  lemma OngoingMentionsPresent()
    ensures MentionsPresent(Ongoing)
  {
    assert Ongoing[5..] == "present";
    assert WordAtIgnoreCase(Ongoing, 5, "present");
  }

  /** An open-ended tenure starts in 2021, has no end year and is current. */
  lemma OngoingDerivation()
    ensures StartYearOf(Text(Ongoing)) == Int(2021)
    ensures EndYearOf(Text(Ongoing)) == Absent
    ensures CurrentOf(Text(Ongoing)) == Bool(true)
  {
    OngoingTenure();
    TenureStartIsFirstYear(Ongoing);
    OngoingMentionsPresent();
  }

  lemma FinishedTenure()
    ensures FindTenure(Finished) == Some(Tenure(2017, Some(2019)))
  {
    Value2017();
    Value2019();
    assert Finished[0..4] == "2017";
    assert Finished[5..9] == "2019";
    assert Finished[4..] == "\U{2013}2019";
    SpaceRunIs(Finished[4..], 0);
    assert Finished[5..] == "2019";
    SpaceRunIs(Finished[5..], 0);
    assert AfterDash(Finished, 0) == 5;
    assert !WordAt(Finished, 5, "present");
    assert FourDigitsAt(Finished, 5) == Some(2019);
    assert TenureAt(Finished, 0) == Some(Tenure(2017, Some(2019)));
    FirstMatchIs(Finished, TenureAt, 0);
  }

  lemma FinishedNotPresent()
    ensures !MentionsPresent(Finished)
  {
    forall p | 0 <= p <= |Finished|
      ensures !WordAtIgnoreCase(Finished, p, "present")
    {
      if p + 7 <= |Finished| {
        assert Finished[..3] == "201" && Finished[p] == Finished[..3][p];
        assert "present"[0] == 'p' && !LetterFolds(Finished[p + 0], "present"[0]);
      }
    }
  }

  /** A closed tenure gives both years and is not current. */
  lemma FinishedDerivation()
    ensures StartYearOf(Text(Finished)) == Int(2017)
    ensures EndYearOf(Text(Finished)) == Int(2019)
    ensures CurrentOf(Text(Finished)) == Bool(false)
  {
    FinishedTenure();
    TenureStartIsFirstYear(Finished);
    FinishedNotPresent();
  }

  const Capitalised: string := "2021\U{2013}Present"

  lemma CapitalisedTenure()
    ensures FindTenure(Capitalised) == Some(Tenure(2021, None))
  {
    Value2021();
    assert Capitalised[0..4] == "2021";
    assert Capitalised[4..] == "\U{2013}Present";
    SpaceRunIs(Capitalised[4..], 0);
    assert Capitalised[5..] == "Present";
    SpaceRunIs(Capitalised[5..], 0);
    assert AfterDash(Capitalised, 0) == 5;
    assert Capitalised[5] == 'P' && !IsDigit(Capitalised[5 + 0]);
    assert FourDigitsAt(Capitalised, 5).None? by {
      assert Capitalised[5..9][0] == 'P';
    }
    assert TenureAt(Capitalised, 0) == Some(Tenure(2021, None));
    FirstMatchIs(Capitalised, TenureAt, 0);
  }

  lemma CapitalisedMentionsPresent()
    ensures MentionsPresent(Capitalised)
  {
    var w := Capitalised[5..];
    assert w == "Present";
    forall i | 0 <= i < 7
      ensures LetterFolds(Capitalised[5 + i], "present"[i])
    {
      assert Capitalised[5 + i] == w[i];
    }
    assert WordAtIgnoreCase(Capitalised, 5, "present");
  }

  /** A capitalised `Present` is current, while the year pattern's lower-case
      alternative does not see it; either way the tail yields no end year. */
  lemma CapitalisedDerivation()
    ensures StartYearOf(Text(Capitalised)) == Int(2021)
    ensures EndYearOf(Text(Capitalised)) == Absent
    ensures CurrentOf(Text(Capitalised)) == Bool(true)
  {
    CapitalisedTenure();
    TenureStartIsFirstYear(Capitalised);
    CapitalisedMentionsPresent();
  }

  const Background: string := "Senator from Ohio (2010)"

  lemma BackgroundRole()
    ensures RoleEnd(Background, 0) == Some(7)
  {
    var w := Background[..7];
    assert w == "Senator";
    forall i | 0 <= i < 7
      ensures LetterFolds(Background[0 + i], "senator"[i])
    {
      assert Background[0 + i] == w[i];
    }
  }

  lemma BackgroundPreposition()
    ensures PrepositionEnd(Background, 7) == Some(12)
  {
    var w := Background[8..12];
    assert Background[7] == ' ' && Background[8] == 'f' && w == "from";
    forall i | 0 <= i < 4
      ensures LetterFolds(Background[8 + i], "from"[i])
    {
      assert Background[8 + i] == w[i];
    }
    FromAfterOneSpace(Background, 7);
  }

  /** One whitespace character and then "from" in any case. */
  lemma FromAfterOneSpace(s: string, k: nat)
    requires k + 1 < |s| && IsSpace(s[k]) && !IsSpace(s[k + 1])
    requires WordAtIgnoreCase(s, k + 1, "from")
    ensures PrepositionEnd(s, k) == Some(k + 5)
  {
    SpaceRunIs(s[k..], 1);
  }

  lemma BackgroundGroup()
    ensures StateGroupAt(Background, 12) == Some("Ohio ")
  {
    BackgroundSlices();
    GroupAfterOneSpace(Background, 12);
    OhioRun();
  }

  lemma BackgroundSlices()
    ensures Background[12] == ' ' && Background[13] == 'O'
    ensures Background[13..] == "Ohio (2010)" && Background[13..18] == "Ohio "
  {
  }

  /** After exactly one whitespace character and a letter, the group is the
      run of letters and whitespace from that letter on. */
  lemma GroupAfterOneSpace(s: string, e: nat)
    requires e + 1 < |s| && IsSpace(s[e]) && !IsSpace(s[e + 1]) && IsStateChar(s[e + 1])
    ensures StateGroupAt(s, e) == Some(s[e + 1..e + 1 + StateRun(s[e + 1..])])
  {
    var t := s[e..];
    SpaceRunIs(t, 1);
    assert t[1..] == s[e + 1..];
    var k := StateRun(s[e + 1..]);
    assert s[e + 1..][..k] == s[e + 1..e + 1 + k];
  }

  lemma OhioRun()
    ensures StateRun("Ohio (2010)") == 5
  {
    var rest := "Ohio (2010)";
    forall i | 0 <= i < 5
      ensures IsStateChar(rest[i])
    {
      assert rest[..5] == "Ohio " && rest[i] == rest[..5][i];
    }
    assert rest[5] == '(' && !IsStateChar(rest[5]);
    StateRunIs(rest, 5);
  }

  /** The state is what follows the role and its preposition, up to the
      first character outside letters and whitespace: here with the space
      before the parenthesis. */
  lemma BackgroundState()
    ensures FindState(Background) == Some("Ohio ")
  {
    BackgroundMatch();
    FirstMatchIs(Background, StateAt, 0);
  }

  lemma BackgroundMatch()
    ensures StateAt(Background, 0) == Some("Ohio ")
  {
    BackgroundRole();
    BackgroundPreposition();
    BackgroundGroup();
    StateAtIs(Background, 0, 7, 12);
  }

  /** The pattern at `p` is the group after the role and the preposition. */
  lemma StateAtIs(s: string, p: nat, k: nat, e: nat)
    requires RoleEnd(s, p) == Some(k) && k <= |s|
    requires PrepositionEnd(s, k) == Some(e) && e <= |s|
    ensures StateAt(s, p) == StateGroupAt(s, e)
  {
  }

  const Left: Table := Table(["A", "B"], [map["A" := Text("a"), "B" := Text("b")]])
  const Right: Table := Table(["B", "C"], [map["B" := Text("x"), "C" := Text("y")]])

  lemma UnionLast()
    ensures Union(["A", "B"], ["C"]) == ["A", "B", "C"]
  {
    assert ["C"][1..] == [];
    assert ["A", "B"] + ["C"] == ["A", "B", "C"];
  }

  lemma UnionSkipsShared()
    ensures Union(["A", "B"], ["B", "C"]) == Union(["A", "B"], ["C"])
  {
    assert ["B", "C"][1..] == ["C"];
  }

  lemma LeftColumns()
    ensures AllColumns([Left]) == ["A", "B"]
  {
    assert [Left][..0] == [];
    UnionOfDistinct(["A", "B"]);
  }

  lemma MergedColumns()
    ensures AllColumns([Left, Right]) == ["A", "B", "C"]
  {
    assert [Left, Right][..1] == [Left];
    LeftColumns();
    UnionSkipsShared();
    UnionLast();
  }

  lemma MergedRows()
    ensures Rows([Left, Right]) == [Left.rows[0], Right.rows[0]]
  {
    var ts := [Left, Right];
    assert ts[1..] == [Right] && [Right][1..] == [];
    assert Rows([Right]) == Right.rows + Rows([]);
    assert Rows(ts) == Left.rows + Rows([Right]);
    assert |Left.rows| == 1 && |Right.rows| == 1;
  }

  /** Stacking {A, B} on {B, C}: the union of the columns in order of first
      appearance, the rows in order, and a missing cell wherever a row's table
      lacked the column. */
  lemma MergeExample()
    ensures var r := Concat([Left, Right]);
      && r.columns == ["A", "B", "C"]
      && |r.rows| == 2
      && Get(r.rows[0], "A") == Text("a") && Get(r.rows[0], "B") == Text("b") && Get(r.rows[0], "C") == Absent
      && Get(r.rows[1], "A") == Absent && Get(r.rows[1], "B") == Text("x") && Get(r.rows[1], "C") == Text("y")
  {
    MergedColumns();
    MergedRows();
    var r := Concat([Left, Right]);
    assert "A" in r.columns && "B" in r.columns && "C" in r.columns;
    assert Get(r.rows[0], "C") == Get(Left.rows[0], "C");
    assert "C" !in Left.rows[0];
    assert Get(r.rows[1], "A") == Get(Right.rows[0], "A");
    assert "A" !in Right.rows[0];
  }
}
