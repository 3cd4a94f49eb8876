/** Flattening of a two-level column header and the duplicate-name suffixing
    of scrape_data.py:50-70. */
module Headers {
  import opened Seqs
  import opened Text

  /** One column of a two-level header: its top label and its second label. */
  datatype HeaderPair = HeaderPair(top: string, sub: string)

  /** A column's flat name: the second label unless it is blank after stripping,
      in which case the top label. */
  function FlatName(h: HeaderPair): (r: string)
    ensures (exists i :: 0 <= i < |h.sub| && !IsSpace(h.sub[i])) ==> r == h.sub
    ensures (forall i :: 0 <= i < |h.sub| ==> IsSpace(h.sub[i])) ==> r == h.top
  {
    StripEmpty(h.sub);
    if Strip(h.sub) != [] then h.sub else h.top
  }

  function Flatten(labels: seq<HeaderPair>): (r: seq<string>)
    ensures |r| == |labels|
    ensures forall i :: 0 <= i < |r| ==> r[i] == FlatName(labels[i])
  {
    seq(|labels|, i requires 0 <= i < |labels| => FlatName(labels[i]))
  }

  /** `f"{name}_{k}"` */
  function Suffixed(name: string, k: nat): string
  {
    name + "_" + NatToString(k)
  }

  lemma SuffixedShape(a: string, k: nat)
    ensures Suffixed(a, k)[|a|] == '_'
    ensures forall i :: |a| < i < |Suffixed(a, k)| ==> IsDigit(Suffixed(a, k)[i])
  {
  }

  /** Suffixes never collide with one another: the part after the last `_` is
      all digits, so both the name and the number can be read back. */
  lemma SuffixedInjective(a: string, k: nat, b: string, m: nat)
    requires Suffixed(a, k) == Suffixed(b, m)
    ensures a == b && k == m
  {
    var x, y := NatToString(k), NatToString(m);
    var s := Suffixed(a, k);
    SuffixedShape(a, k);
    SuffixedShape(b, m);
    if |x| != |y| {
      // The shorter number would put its `_` where the other has a digit.
      assert false;
    }
    assert a == s[..|a|] == b;
    assert x == s[|a| + 1..] == y;
    NatToStringInjective(k, m);
  }

  /** One pass of the loop at scrape_data.py:64-68 for the repeated name `col`:
      the occurrences of `col` in the current names are found, the first keeps
      the name and the k-th later one (k >= 1) becomes `col_k`. */
  function RenameStep(cur: seq<string>, col: string): (r: seq<string>)
    ensures |r| == |cur|
  {
    seq(|cur|, i requires 0 <= i < |cur| =>
      var k := Occ(cur[..i], col);
      if cur[i] == col && k > 0 then Suffixed(col, k) else cur[i])
  }

  /** The names occurring at least twice in `names[..n]`'s counts over all of
      `names`, each once, in order of first appearance (`Series.unique` on the
      `duplicated(keep=False)` selection). */
  function RepeatedIn(names: seq<string>, n: nat): (r: seq<string>)
    requires n <= |names|
    ensures Distinct(r)
    ensures forall x :: x in r <==> x in names[..n] && Occ(names, x) >= 2
    ensures InOrderOf(r, names[..n])
  {
    if n == 0 then []
    else
      var rest := RepeatedIn(names, n - 1);
      var x := names[n - 1];
      assert names[..n] == names[..n - 1] + [x];
      OccPositive(names[..n - 1], x);
      InOrderOfSnoc(rest, names[..n - 1], x);
      if Occ(names, x) >= 2 && Occ(names[..n - 1], x) == 0 then rest + [x] else rest
  }

  /** The repeated names, each once, in order of first appearance. */
  function Repeated(names: seq<string>): (r: seq<string>)
    ensures Distinct(r)
    ensures forall x :: x in r <==> Occ(names, x) >= 2
    ensures InOrderOf(r, names)
  {
    assert names[..|names|] == names;
    forall x | Occ(names, x) >= 2 ensures x in names {
      OccPositive(names, x);
    }
    RepeatedIn(names, |names|)
  }

  /** The loop over the repeated names, each pass seeing the previous passes'
      renamings, as the in-place assignment to `new_cols` does. */
  function ApplyRenames(cur: seq<string>, cols: seq<string>): (r: seq<string>)
    ensures |r| == |cur|
    decreases |cols|
  {
    if cols == [] then cur else ApplyRenames(RenameStep(cur, cols[0]), cols[1..])
  }

  /** Duplicate resolution of scrape_data.py:63-68. */
  function Dedupe(names: seq<string>): (r: seq<string>)
    ensures |r| == |names|
  {
    ApplyRenames(names, Repeated(names))
  }

  /** The intended outcome, stated on the original names alone: an occurrence
      preceded by k >= 1 equal names becomes `name_k`. */
  function Expected(names: seq<string>): (r: seq<string>)
    ensures |r| == |names|
  {
    seq(|names|, i requires 0 <= i < |names| =>
      var k := Occ(names[..i], names[i]);
      if k == 0 then names[i] else Suffixed(names[i], k))
  }

  /** No suffixed form of a name is itself among the names. This is the side
      condition under which the in-place renaming cannot collide. */
  ghost predicate NoSuffixClash(names: seq<string>)
  {
    forall j, k :: 0 <= j < |names| && k >= 1 ==> Suffixed(names[j], k) !in names
  }

  /** A name that occurs once keeps its name, whatever the other names are. */
  lemma {:induction false} DedupeKeepsSingletons(names: seq<string>, i: nat)
    requires i < |names| && Occ(names, names[i]) == 1
    ensures Dedupe(names)[i] == names[i]
  {
    ApplyKeeps(names, Repeated(names), i);
  }

  lemma {:induction false} ApplyKeeps(cur: seq<string>, cols: seq<string>, i: nat)
    requires i < |cur| && cur[i] !in cols
    ensures ApplyRenames(cur, cols)[i] == cur[i]
    decreases |cols|
  {
    if cols != [] {
      var next := RenameStep(cur, cols[0]);
      assert next[i] == cur[i];
      ApplyKeeps(next, cols[1..], i);
    }
  }

  /** The names after the repeated names in `done` have been renamed. */
  function Partial(names: seq<string>, done: set<string>): (r: seq<string>)
    ensures |r| == |names|
  {
    seq(|names|, i requires 0 <= i < |names| =>
      var k := Occ(names[..i], names[i]);
      if names[i] in done && k > 0 then Suffixed(names[i], k) else names[i])
  }

  lemma StepExtendsPartial(names: seq<string>, done: set<string>, c: string)
    requires NoSuffixClash(names)
    requires c in names && c !in done
    ensures RenameStep(Partial(names, done), c) == Partial(names, done + {c})
  {
    var cur := Partial(names, done);
    forall j | 0 <= j < |names|
      ensures cur[j] == c <==> names[j] == c
    {
      var k := Occ(names[..j], names[j]);
      if names[j] in done && k > 0 {
        var ic := IndexOf(names, c);
        assert Suffixed(names[j], k) !in names;
        assert cur[j] != c;
      }
    }
    var lhs := RenameStep(cur, c);
    var rhs := Partial(names, done + {c});
    forall i | 0 <= i < |names|
      ensures lhs[i] == rhs[i]
    {
      OccAgree(cur[..i], names[..i], c);
    }
  }

  lemma {:induction false} ApplyExtendsPartial(names: seq<string>, done: set<string>, cols: seq<string>)
    requires NoSuffixClash(names)
    requires Distinct(cols)
    requires forall x :: x in cols ==> x in names && x !in done
    ensures ApplyRenames(Partial(names, done), cols) == Partial(names, done + (set x | x in cols))
    decreases |cols|
  {
    if cols == [] {
      assert (done + set x | x in cols) == done;
    } else {
      StepExtendsPartial(names, done, cols[0]);
      assert forall x :: x in cols[1..] ==> x != cols[0];
      ApplyExtendsPartial(names, done + {cols[0]}, cols[1..]);
      assert done + {cols[0]} + (set x | x in cols[1..]) == done + (set x | x in cols);
    }
  }

  /** Under the side condition, the in-place loop computes `Expected`: the first
      occurrence keeps its name and the k-th later one becomes `name_k`. */
  lemma DedupeIsExpected(names: seq<string>)
    requires NoSuffixClash(names)
    ensures Dedupe(names) == Expected(names)
  {
    var reps := Repeated(names);
    forall x | x in reps ensures x in names {
      OccPositive(names, x);
    }
    assert Partial(names, {}) == names;
    ApplyExtendsPartial(names, {}, reps);
    AllRenamedIsExpected(names, {} + (set x | x in reps));
  }

  /** Once every repeated name is renamed, the partial result is `Expected`. */
  lemma AllRenamedIsExpected(names: seq<string>, done: set<string>)
    requires forall x :: Occ(names, x) >= 2 ==> x in done
    ensures Partial(names, done) == Expected(names)
  {
    forall i | 0 <= i < |names|
      ensures Partial(names, done)[i] == Expected(names)[i]
    {
      if Occ(names[..i], names[i]) > 0 {
        OccBeforeMeansRepeated(names, i);
      }
    }
  }

  lemma OccGrows(names: seq<string>, i: nat, j: nat)
    requires i < j < |names| && names[i] == names[j]
    ensures Occ(names[..j], names[j]) > Occ(names[..i], names[i])
  {
    var x := names[i];
    assert names[..j] == names[..i] + names[i..j];
    OccConcat(names[..i], names[i..j], x);
    assert names[i..j][0] == x;
    OccPositive(names[i..j], x);
  }

  lemma ExpectedDistinct(names: seq<string>)
    requires NoSuffixClash(names)
    ensures Distinct(Expected(names))
  {
    var e := Expected(names);
    forall i, j | 0 <= i < j < |names|
      ensures e[i] != e[j]
    {
      var ki, kj := Occ(names[..i], names[i]), Occ(names[..j], names[j]);
      if e[i] == e[j] {
        if ki == 0 && kj == 0 {
          OccGrows(names, i, j);
        } else if ki > 0 && kj > 0 {
          SuffixedInjective(names[i], ki, names[j], kj);
          OccGrows(names, i, j);
        }
      }
    }
  }

  /** Under the side condition, suffixing leaves no two columns with one name. */
  lemma DedupeDistinct(names: seq<string>)
    requires NoSuffixClash(names)
    ensures Distinct(Dedupe(names))
  {
    DedupeIsExpected(names);
    ExpectedDistinct(names);
  }

  /** Without the side condition the suffixes can collide: a pre-existing
      `A_1` before two `A` columns leaves two columns named `A_1`. */
  lemma DedupeCanCollide()
    ensures Dedupe(["A_1", "A", "A"]) == ["A_1", "A", "A_1"]
    ensures !Distinct(Dedupe(["A_1", "A", "A"]))
  {
    var names := ["A_1", "A", "A"];
    RepeatedOfCollision();
    PassOfCollision();
    var r := ["A_1", "A", "A_1"];
    assert ["A"][1..] == [];
    assert ApplyRenames(names, ["A"]) == ApplyRenames(r, []);
    assert r[0] == r[2];
  }

  lemma RepeatedOfCollision()
    ensures Repeated(["A_1", "A", "A"]) == ["A"]
  {
    var names := ["A_1", "A", "A"];
    assert "A" != "A_1";
    assert names[..0] == [] && names[..1] == ["A_1"] && names[..2] == ["A_1", "A"] && names[..3] == names;
    assert names[..2][..1] == names[..1] && names[..1][..0] == [];
    assert Occ(names[..1], "A") == 0 && Occ(names[..1], "A_1") == 1;
    assert Occ(names[..2], "A") == 1 && Occ(names[..2], "A_1") == 1;
    assert Occ(names, "A_1") == 1 && Occ(names, "A") == 2;
  }

  lemma PassOfCollision()
    ensures RenameStep(["A_1", "A", "A"], "A") == ["A_1", "A", "A_1"]
  {
    var names := ["A_1", "A", "A"];
    assert Suffixed("A", 1) == "A_1" by {
      assert NatToString(1) == "1";
    }
    assert "A" != "A_1";
    assert names[..0] == [] && names[..1] == ["A_1"] && names[..2] == ["A_1", "A"];
    assert names[..2][..1] == names[..1] && names[..1][..0] == [];
    assert Occ(names[..1], "A") == 0 && Occ(names[..2], "A") == 1;
    var r := RenameStep(names, "A");
    assert r[0] == "A_1" && r[1] == "A" && r[2] == "A_1";
  }

  /** Each pass sees the earlier passes' renamings: after `A, A` becomes
      `A, A_1`, the pass for the repeated `A_1` renames three columns. */
  lemma DedupeSeesEarlierPasses()
    ensures Dedupe(["A", "A", "A_1", "A_1"]) == ["A", "A_1", "A_1_1", "A_1_2"]
  {
    var names := ["A", "A", "A_1", "A_1"];
    RepeatedOfExample();
    var step1 := ["A", "A_1", "A_1", "A_1"];
    FirstPassOfExample();
    SecondPassOfExample();
    assert ["A", "A_1"][1..] == ["A_1"] && ["A_1"][1..] == [];
    assert ApplyRenames(names, ["A", "A_1"]) == ApplyRenames(step1, ["A_1"]);
  }

  lemma RepeatedOfExample()
    ensures Repeated(["A", "A", "A_1", "A_1"]) == ["A", "A_1"]
  {
    var names := ["A", "A", "A_1", "A_1"];
    assert "A" != "A_1";
    assert names[..0] == [] && names[..1] == ["A"] && names[..2] == ["A", "A"] && names[..3] == ["A", "A", "A_1"] && names[..4] == names;
    assert names[..3][..2] == names[..2] && names[..2][..1] == names[..1] && names[..1][..0] == [];
    assert Occ(names[..1], "A") == 1 && Occ(names[..1], "A_1") == 0;
    assert Occ(names[..2], "A") == 2 && Occ(names[..2], "A_1") == 0;
    assert Occ(names[..3], "A") == 2 && Occ(names[..3], "A_1") == 1;
    assert Occ(names, "A") == 2 && Occ(names, "A_1") == 2;
  }

  lemma FirstPassOfExample()
    ensures RenameStep(["A", "A", "A_1", "A_1"], "A") == ["A", "A_1", "A_1", "A_1"]
  {
    var names := ["A", "A", "A_1", "A_1"];
    assert Suffixed("A", 1) == "A_1" by {
      assert NatToString(1) == "1";
    }
    assert "A" != "A_1";
    assert names[..1] == ["A"] && names[..2] == ["A", "A"] && names[..3] == ["A", "A", "A_1"];
    assert names[..2][..1] == names[..1] && names[..1][..0] == [];
    assert Occ(names[..1], "A") == 1;
    var r := RenameStep(names, "A");
    assert r[0] == "A" && r[1] == "A_1" && r[2] == "A_1" && r[3] == "A_1";
  }

  lemma SecondPassOfExample()
    ensures RenameStep(["A", "A_1", "A_1", "A_1"], "A_1") == ["A", "A_1", "A_1_1", "A_1_2"]
  {
    var step1 := ["A", "A_1", "A_1", "A_1"];
    assert Suffixed("A_1", 1) == "A_1_1" && Suffixed("A_1", 2) == "A_1_2" by {
      assert NatToString(1) == "1" && NatToString(2) == "2";
    }
    assert "A" != "A_1";
    assert step1[..0] == [] && step1[..1] == ["A"] && step1[..2] == ["A", "A_1"] && step1[..3] == ["A", "A_1", "A_1"];
    assert step1[..3][..2] == step1[..2] && step1[..2][..1] == step1[..1] && step1[..1][..0] == [];
    assert Occ(step1[..1], "A_1") == 0 && Occ(step1[..2], "A_1") == 1 && Occ(step1[..3], "A_1") == 2;
    var r := RenameStep(step1, "A_1");
    assert r[0] == "A" && r[1] == "A_1" && r[2] == "A_1_1" && r[3] == "A_1_2";
  }
}
