/** Cleaning of the `Name` column (scrape_data.py:86-90): HTML tags are removed
    with `<[^>]+>`, runs of `\s` become one space, and the result is stripped. */
module NameCleaning {
  import opened Seqs
  import opened Text

  /** No match of `<[^>]+>`: a `<` with some `>` after it is directly followed by `>`. */
  ghost predicate NoTag(s: string)
  {
    forall i, k, j :: 0 <= i < k <= j < |s| && k == i + 1 && s[i] == '<' && s[j] == '>' ==> s[k] == '>'
  }

  /** Every whitespace character is a plain space and is not followed by another. */
  ghost predicate SingleSpaced(s: string)
  {
    && (forall i :: 0 <= i < |s| && IsSpace(s[i]) ==> s[i] == ' ')
    && (forall i, j :: 0 <= i < j < |s| && j == i + 1 ==> !IsSpace(s[i]) || !IsSpace(s[j]))
  }

  ghost predicate Trimmed(s: string)
  {
    s == [] || (!IsSpace(s[0]) && !IsSpace(s[|s| - 1]))
  }

  /** The shape of a cleaned name. */
  ghost predicate Clean(s: string)
  {
    NoTag(s) && SingleSpaced(s) && Trimmed(s)
  }

  /** `re.sub(r"<[^>]+>", "", s)`: at a `<` whose first following `>` is not
      the next character, everything up to and including that `>` goes. */
  function StripTags(s: string): (r: string)
    ensures forall c :: c in r ==> c in s
    decreases |s|
  {
    if s == [] then []
    else
      var e := 1 + First(s[1..], '>');
      if s[0] == '<' && 2 <= e < |s| then StripTags(s[e + 1..])
      else [s[0]] + StripTags(s[1..])
  }

  /** `re.sub(r"\s+", " ", s)` */
  function Collapse(s: string): (r: string)
    ensures |r| == 0 <==> |s| == 0
    ensures |s| > 0 ==> r[0] == (if IsSpace(s[0]) then ' ' else s[0])
    ensures forall c :: c in r ==> c == ' ' || c in s
    decreases |s|
  {
    if s == [] then []
    else if IsSpace(s[0]) then
      var rest := TrimStart(s);
      assert forall c :: c in rest ==> c in s;
      [' '] + Collapse(rest)
    else [s[0]] + Collapse(s[1..])
  }

  /** The three equations that define tag removal. A character other than
      `<` stays. */
  lemma StripTagsKeep(s: string)
    requires s != [] && s[0] != '<'
    ensures StripTags(s) == [s[0]] + StripTags(s[1..])
  {
  }

  /** A tag `s[..j + 1]`: a `<`, at least one character other than `>`, and
      the first `>` after it. The whole tag goes. */
  lemma StripTagsTag(s: string, j: nat)
    requires 2 <= j < |s| && s[0] == '<' && s[j] == '>'
    requires forall i :: 1 <= i < j ==> s[i] != '>'
    ensures StripTags(s) == StripTags(s[j + 1..])
  {
    var t := s[1..];
    assert t[j - 1] == '>';
    assert First(t, '>') == j - 1;
  }

  /** A `<` that starts no tag, because `>` follows at once (`[^>]+` needs
      a character) or never follows, stays. */
  lemma StripTagsOpenStays(s: string)
    requires s != [] && s[0] == '<'
    requires |s| == 1 || s[1] == '>' || '>' !in s[1..]
    ensures StripTags(s) == [s[0]] + StripTags(s[1..])
  {
  }

  predicate NonSpace(c: char)
  {
    !IsSpace(c)
  }

  /** The characters of `s` other than whitespace, in order. */
  function Visible(s: string): (r: string)
    ensures forall c :: c in r ==> c in s && !IsSpace(c)
  {
    Filter(s, NonSpace)
  }

  lemma {:induction false} AllSpaceInvisible(s: string)
    requires forall i :: 0 <= i < |s| ==> IsSpace(s[i])
    ensures Visible(s) == []
    decreases |s|
  {
    if s != [] {
      AllSpaceInvisible(s[1..]);
    }
  }

  /** Whitespace ahead of or after `t` is invisible. */
  lemma SpaceAround(a: string, t: string, z: string)
    requires forall i :: 0 <= i < |a| ==> IsSpace(a[i])
    requires forall i :: 0 <= i < |z| ==> IsSpace(z[i])
    ensures Visible(a + t + z) == Visible(t)
  {
    FilterConcat(a + t, z, NonSpace);
    FilterConcat(a, t, NonSpace);
    AllSpaceInvisible(a);
    AllSpaceInvisible(z);
  }

  /** Collapsing whitespace keeps every other character, in order. */
  lemma {:induction false} CollapseKeepsVisible(s: string)
    ensures Visible(Collapse(s)) == Visible(s)
    decreases |s|
  {
    if s != [] {
      if IsSpace(s[0]) {
        var rest := TrimStart(s);
        var k := |s| - |rest|;
        assert s == s[..k] + rest;
        FilterConcat(s[..k], rest, NonSpace);
        AllSpaceInvisible(s[..k]);
        FilterConcat([' '], Collapse(rest), NonSpace);
        AllSpaceInvisible([' ']);
        CollapseKeepsVisible(rest);
      } else {
        assert s == [s[0]] + s[1..];
        FilterConcat([s[0]], s[1..], NonSpace);
        FilterConcat([s[0]], Collapse(s[1..]), NonSpace);
        CollapseKeepsVisible(s[1..]);
      }
    }
  }

  /** Stripping removes whitespace only. */
  lemma StripKeepsVisible(s: string)
    ensures Visible(Strip(s)) == Visible(s)
  {
    var t := TrimStart(s);
    var r := TrimEnd(t);
    var k := |s| - |t|;
    assert s == s[..k] + r + t[|r|..];
    SpaceAround(s[..k], r, t[|r|..]);
  }

  /** Cleaning a name keeps every character outside tags and whitespace,
      in order. */
  lemma CleanNameKeepsVisible(s: string)
    ensures Visible(CleanName(s)) == Visible(StripTags(s))
  {
    CollapseKeepsVisible(StripTags(s));
    StripKeepsVisible(Collapse(StripTags(s)));
  }

  /** The value the source stores for a text name. */
  function CleanName(s: string): (r: string)
  {
    Strip(Collapse(StripTags(s)))
  }

  lemma NoTagCons(c: char, s: string)
    requires NoTag(s)
    requires c == '<' && '>' in s ==> s[0] == '>'
    ensures NoTag([c] + s)
  {
    var t := [c] + s;
    forall i, j | 0 <= i < j < |t| && t[i] == '<' && t[j] == '>'
      ensures t[i + 1] == '>'
    {
      if i == 0 {
        assert s[j - 1] == '>';
      } else {
        assert s[i - 1] == '<' && s[j - 1] == '>';
      }
    }
  }

  lemma SliceKeepsShape(s: string, a: nat, b: nat)
    requires a <= b <= |s|
    ensures NoTag(s) ==> NoTag(s[a..b])
    ensures SingleSpaced(s) ==> SingleSpaced(s[a..b])
  {
    var t := s[a..b];
    if NoTag(s) {
      forall i, j | 0 <= i < j < |t| && t[i] == '<' && t[j] == '>'
        ensures t[i + 1] == '>'
      {
        assert s[a + i] == '<' && s[a + j] == '>';
      }
    }
  }

  lemma {:induction false} StripTagsNoTag(s: string)
    ensures NoTag(StripTags(s))
    decreases |s|
  {
    if s != [] {
      var e := 1 + First(s[1..], '>');
      if s[0] == '<' && 2 <= e < |s| {
        StripTagsNoTag(s[e + 1..]);
      } else {
        var rest := StripTags(s[1..]);
        StripTagsNoTag(s[1..]);
        if s[0] == '<' && '>' in rest {
          assert '>' in s[1..];
          assert e == 1;
          assert s[1] == '>';
          assert rest == [s[1]] + StripTags(s[2..]);
        }
        NoTagCons(s[0], rest);
      }
    }
  }

  lemma {:induction false} StripTagsUnchanged(s: string)
    requires NoTag(s)
    ensures StripTags(s) == s
    decreases |s|
  {
    if s != [] {
      var e := 1 + First(s[1..], '>');
      if s[0] == '<' && 2 <= e < |s| {
        assert false;
      }
      SliceKeepsShape(s, 1, |s|);
      StripTagsUnchanged(s[1..]);
    }
  }

  lemma {:induction false} CollapseShape(s: string)
    ensures SingleSpaced(Collapse(s))
    ensures NoTag(s) ==> NoTag(Collapse(s))
    decreases |s|
  {
    if s != [] {
      var r := Collapse(s);
      if IsSpace(s[0]) {
        var rest := TrimStart(s);
        SliceKeepsShape(s, |s| - |rest|, |s|);
        CollapseShape(rest);
        var cr := Collapse(rest);
        assert r == [' '] + cr;
        forall i | 0 <= i < |r| && IsSpace(r[i])
          ensures r[i] == ' ' && (i + 1 < |r| ==> !IsSpace(r[i + 1]))
        {
          if i > 0 {
            assert r[i] == cr[i - 1];
          } else if |r| > 1 {
            assert r[1] == cr[0];
          }
        }
        if NoTag(s) {
          NoTagCons(' ', cr);
        }
      } else {
        var cr := Collapse(s[1..]);
        SliceKeepsShape(s, 1, |s|);
        CollapseShape(s[1..]);
        assert r == [s[0]] + cr;
        forall i | 0 <= i < |r| && IsSpace(r[i])
          ensures r[i] == ' ' && (i + 1 < |r| ==> !IsSpace(r[i + 1]))
        {
          assert i > 0;
          assert r[i] == cr[i - 1];
          if i + 1 < |r| {
            assert r[i + 1] == cr[i];
          }
        }
        if NoTag(s) {
          if s[0] == '<' && '>' in cr {
            assert '>' in s[1..];
            var j := First(s[1..], '>') + 1;
            assert s[j] == '>';
            assert s[1] == '>';
          }
          NoTagCons(s[0], cr);
        }
      }
    }
  }

  /** A lone space before a non-space collapses to itself. */
  lemma CollapseLoneSpace(s: string)
    requires |s| > 0 && IsSpace(s[0])
    requires |s| == 1 || !IsSpace(s[1])
    ensures Collapse(s) == [' '] + Collapse(s[1..])
  {
    var tail := s[1..];
    assert tail == [] || !IsSpace(tail[0]);
    assert TrimStart(s) == tail;
  }

  /** A whitespace run, however long, becomes one space in its place, and
      collapsing carries on after the run. */
  lemma CollapseRun(s: string)
    requires |s| > 0 && IsSpace(s[0])
    ensures Collapse(s) == [' '] + Collapse(TrimStart(s))
  {
  }

  /** The run equation in terms of the pieces: a non-empty block of
      whitespace before text that does not start with whitespace collapses
      to a single space. */
  lemma CollapseSpaces(a: string, b: string)
    requires |a| > 0 && forall i :: 0 <= i < |a| ==> IsSpace(a[i])
    requires b == [] || !IsSpace(b[0])
    ensures Collapse(a + b) == [' '] + Collapse(b)
  {
    var s := a + b;
    RunIs(s, IsSpace, |a|);
    assert s[|a|..] == b;
    CollapseRun(s);
  }

  /** Each whitespace run becomes one space in place, so the words keep
      their own separation. */
  lemma CollapseWords()
    ensures Collapse("  b c") == " b c"
  {
    CollapseSpaces("  ", "b c");
    CollapseNonSpace("b c");
    assert "b c"[1..] == " c";
    CollapseSpaces(" ", "c");
    CollapseNonSpace("c");
    assert "c"[1..] == [];
  }

  lemma CollapseNonSpace(s: string)
    requires |s| > 0 && !IsSpace(s[0])
    ensures Collapse(s) == [s[0]] + Collapse(s[1..])
  {
  }

  lemma SingleSpacedTail(s: string)
    requires |s| > 0 && SingleSpaced(s)
    ensures SingleSpaced(s[1..])
  {
    var t := s[1..];
    forall i, j | 0 <= i < j < |t| && j == i + 1
      ensures !IsSpace(t[i]) || !IsSpace(t[j])
    {
      assert t[i] == s[i + 1] && t[j] == s[j + 1];
    }
  }

  lemma {:induction false} CollapseUnchanged(s: string)
    requires SingleSpaced(s)
    ensures Collapse(s) == s
    decreases |s|
  {
    if s != [] {
      var tail := s[1..];
      SingleSpacedTail(s);
      CollapseUnchanged(tail);
      var head := if IsSpace(s[0]) then ' ' else s[0];
      if IsSpace(s[0]) {
        assert |s| == 1 || !IsSpace(s[1]);
        CollapseLoneSpace(s);
      } else {
        CollapseNonSpace(s);
      }
      assert head == s[0];
      assert Collapse(s) == [head] + tail;
      assert s == [s[0]] + tail;
    }
  }

  lemma TrimKeepsShape(c: string)
    requires NoTag(c) && SingleSpaced(c)
    ensures NoTag(Strip(c)) && SingleSpaced(Strip(c))
  {
    TrimStartKeepsShape(c);
    TrimEndKeepsShape(TrimStart(c));
  }

  lemma TrimStartKeepsShape(c: string)
    requires NoTag(c) && SingleSpaced(c)
    ensures NoTag(TrimStart(c)) && SingleSpaced(TrimStart(c))
  {
    var t := TrimStart(c);
    var a := |c| - |t|;
    assert c[a..|c|] == t;
    SliceKeepsShape(c, a, |c|);
  }

  lemma TrimEndKeepsShape(t: string)
    requires NoTag(t) && SingleSpaced(t)
    ensures NoTag(TrimEnd(t)) && SingleSpaced(TrimEnd(t))
  {
    var r := TrimEnd(t);
    SliceKeepsShape(t, 0, |r|);
    assert r == t[0..|r|];
  }

  /** What a cleaned name looks like: no tag left, no whitespace other than
      single spaces between words, none at either end. */
  lemma CleanNameIsClean(s: string)
    ensures Clean(CleanName(s))
  {
    StripTagsNoTag(s);
    CollapseShape(StripTags(s));
    TrimKeepsShape(Collapse(StripTags(s)));
  }

  /** Cleaning leaves a clean string as it is. */
  lemma CleanUnchanged(s: string)
    requires Clean(s)
    ensures CleanName(s) == s
  {
    StripTagsUnchanged(s);
    CollapseUnchanged(s);
    StripUnchanged(s);
  }

  /** Cleaning twice is cleaning once. */
  lemma CleanNameIdempotent(s: string)
    ensures CleanName(CleanName(s)) == CleanName(s)
  {
    CleanNameIsClean(s);
    CleanUnchanged(CleanName(s));
  }
}
