/** Hand-written scanners for the regular expressions of the field
    derivation (scrape_data.py:112-158). Each pattern is a matcher that says
    whether the pattern matches at one position; `FirstMatch` supplies the
    leftmost-match search of `str.extract` and `str.contains`. */
module Scanners {
  import opened Optional
  import opened Text
  import opened Seqs

  /** The part of `s` after its last newline (all of `s` when it has none). */
  function AfterLastNewline(s: string): (r: string)
    ensures |r| <= |s| && r == s[|s| - |r|..]
    ensures '\n' !in r
    ensures |r| < |s| ==> s[|s| - |r| - 1] == '\n'
  {
    if s == [] then []
    else if s[|s| - 1] == '\n' then []
    else
      var p := s[..|s| - 1];
      var q := AfterLastNewline(p);
      assert s[|s| - |q| - 1..] == p[|p| - |q|..] + [s[|s| - 1]];
      q + [s[|s| - 1]]
  }

  /** What `(.*?)\s*\(` captures, falling back to the whole text when there is
      no `(` (the `fillna(dob_col)` of scrape_data.py:112). The lazy group ends
      where the whitespace before the first `(` begins, and since `.` does not
      match a newline the leftmost match starts after the last newline before
      that point. */
  function DatePart(s: string): (r: string)
    ensures '(' !in s ==> r == s
    ensures '(' in s ==> '(' !in r && '\n' !in r && (r == [] || !IsSpace(r[|r| - 1]))
    ensures '(' in s && '\n' !in s ==> r == TrimEnd(s[..First(s, '(')])
    ensures '(' in s ==> var b := TrimEnd(s[..First(s, '(')]);
      && |r| <= |b| && r == b[|b| - |r|..]
      && (|r| < |b| ==> b[|b| - |r| - 1] == '\n')
  {
    if '(' !in s then s
    else
      DateGroupChars(s);
      AfterLastNewline(TrimEnd(s[..First(s, '(')]))
  }

  /** The text before the first `(`, trimmed at its end, holds no `(`; the
      part after its last newline therefore holds none either and ends in a
      non-space; without a newline in `s` that part is all of it. */
  lemma DateGroupChars(s: string)
    requires '(' in s
    ensures var b := TrimEnd(s[..First(s, '(')]); var r := AfterLastNewline(b);
      && '(' !in r && '\n' !in r && (r == [] || !IsSpace(r[|r| - 1]))
      && ('\n' !in s ==> r == b)
      && |r| <= |b| && r == b[|b| - |r|..]
      && (|r| < |b| ==> b[|b| - |r| - 1] == '\n')
  {
    var pre := s[..First(s, '(')];
    var before := TrimEnd(pre);
    var r := AfterLastNewline(before);
    assert '(' !in before by {
      SliceChars(pre, 0, |before|);
    }
    SliceChars(before, |before| - |r|, |before|);
    if '\n' !in s {
      SliceChars(s, 0, |pre|);
      SliceChars(pre, 0, |before|);
    }
  }

  /** `\d{4}` at position `p`, with the number it denotes. */
  function FourDigitsAt(s: string, p: nat): (r: Option<nat>)
    ensures r.Some? <==> p + 4 <= |s| && AllDigits(s[p..p + 4])
    ensures r.Some? ==> r.value == DigitsValue(s[p..p + 4])
  {
    if p + 4 <= |s| && AllDigits(s[p..p + 4]) then Some(DigitsValue(s[p..p + 4])) else None
  }

  /** The first 4-digit run of `s`, as `str.extract(r"(\d{4})")` finds it. */
  function FirstFourDigits(s: string): (r: Option<nat>)
    ensures r.Some? ==> exists p :: 0 <= p <= |s| && FourDigitsAt(s, p) == r && forall q :: 0 <= q < p ==> FourDigitsAt(s, q).None?
    ensures r.None? <==> forall p :: 0 <= p <= |s| ==> FourDigitsAt(s, p).None?
  {
    match FirstMatch(s, FourDigitsAt, 0)
    case Some((p, v)) => Some(v)
    case None => None
  }

  /** `(?:age|Age|AGE)\s*(\d+)` at position `p`, with the number of the digits. */
  function AgeAt(s: string, p: nat): (r: Option<nat>)
    ensures r.Some? ==> (WordAt(s, p, "age") || WordAt(s, p, "Age") || WordAt(s, p, "AGE"))
  {
    if WordAt(s, p, "age") || WordAt(s, p, "Age") || WordAt(s, p, "AGE") then
      var q := p + 3 + SpaceRun(s[p + 3..]);
      var digits := DigitRun(s[q..]);
      if |digits| > 0 then Some(DigitsValue(digits)) else None
    else None
  }

  /** The first `age`, `Age` or `AGE` followed by optional whitespace and digits. */
  function FindAge(s: string): (r: Option<nat>)
    ensures r.Some? ==> exists p :: 0 <= p <= |s| && AgeAt(s, p) == Some(r.value) && forall q :: 0 <= q < p ==> AgeAt(s, q).None?
    ensures r.None? <==> forall p :: 0 <= p <= |s| ==> AgeAt(s, p).None?
  {
    match FirstMatch(s, AgeAt, 0)
    case Some((p, v)) => Some(v)
    case None => None
  }

  predicate IsDash(c: char)
  {
    c == '\U{2013}' || c == '\U{2014}' || c == '-'
  }

  /** A tenure as `(\d{4})(?:\s*[–—-]\s*(?:present|(\d{4})))?` captures it. */
  datatype Tenure = Tenure(start: nat, end: Option<nat>)

  /** Where the second year would start: after the first year, whitespace, a
      dash and whitespace; `|s| + 1` when no dash follows. */
  function AfterDash(s: string, p: nat): (q: nat)
    requires p + 4 <= |s|
    ensures q <= |s| ==> p + 4 < q
  {
    var d := p + 4 + SpaceRun(s[p + 4..]);
    if d < |s| && IsDash(s[d]) then d + 1 + SpaceRun(s[d + 1..]) else |s| + 1
  }

  /** The tenure pattern at `p`. The optional tail only yields an end year when
      it ends in four digits; `present` is matched case-sensitively and gives no
      end year, and so does a tail that does not match at all. */
  function TenureAt(s: string, p: nat): (r: Option<Tenure>)
    ensures r.Some? <==> FourDigitsAt(s, p).Some?
    ensures r.Some? ==> r.value.start == FourDigitsAt(s, p).value
    ensures r.Some? ==>
      var q := AfterDash(s, p);
      r.value.end.Some? <==> q <= |s| && !WordAt(s, q, "present") && FourDigitsAt(s, q).Some?
    ensures r.Some? && r.value.end.Some? ==> FourDigitsAt(s, AfterDash(s, p)) == r.value.end
  {
    match FourDigitsAt(s, p)
    case None => None
    case Some(start) =>
      var q := AfterDash(s, p);
      var end := if q <= |s| && !WordAt(s, q, "present") then FourDigitsAt(s, q) else None;
      Some(Tenure(start, end))
  }

  /** `str.extract` of the tenure pattern: the leftmost match. */
  function FindTenure(s: string): (r: Option<Tenure>)
    ensures r.Some? ==> exists p :: 0 <= p <= |s| && TenureAt(s, p) == r && forall q :: 0 <= q < p ==> TenureAt(s, q).None?
    ensures r.None? <==> forall p :: 0 <= p <= |s| ==> TenureAt(s, p).None?
  {
    match FirstMatch(s, TenureAt, 0)
    case Some((p, v)) => Some(v)
    case None => None
  }

  /** The start year is the first 4-digit run of the text, the same number the
      birth-year fallback would take from it. */
  lemma TenureStartIsFirstYear(s: string)
    ensures FindTenure(s).Some? <==> FirstFourDigits(s).Some?
    ensures FindTenure(s).Some? ==> FindTenure(s).value.start == FirstFourDigits(s).value
  {
    FirstMatchAgree(s, TenureAt, FourDigitsAt, 0);
  }

  /** `str.contains("present", case=False)` */
  predicate MentionsPresent(s: string)
  {
    exists p :: 0 <= p <= |s| && WordAtIgnoreCase(s, p, "present")
  }

  const Roles: seq<string> := ["senator", "representative", "governor"]

  /** Letters of `[A-Za-z]` under IGNORECASE, or `\s`. */
  predicate IsStateChar(c: char)
  {
    || ('a' <= c <= 'z') || ('A' <= c <= 'Z')
    || c == '\U{130}' || c == '\U{131}' || c == '\U{17F}' || c == '\U{212A}'
    || IsSpace(c)
  }

  /** Every character of `t` is in `[A-Za-z\s]`. */
  predicate StateText(t: string)
  {
    forall i :: 0 <= i < |t| ==> IsStateChar(t[i])
  }

  /** Length of the run of `[A-Za-z\s]` characters at the front of `s`. */
  function StateRun(s: string): (n: nat)
    ensures n <= |s|
    ensures StateText(s[..n])
    ensures n < |s| ==> !IsStateChar(s[n])
  {
    Run(s, IsStateChar)
  }

  /** End of the role keyword at `p`, ignoring case; the three keywords start
      with different letters, so at most one applies. */
  function RoleEnd(s: string, p: nat): Option<nat>
  {
    if WordAtIgnoreCase(s, p, "senator") then Some(p + 7)
    else if WordAtIgnoreCase(s, p, "representative") then Some(p + 14)
    else if WordAtIgnoreCase(s, p, "governor") then Some(p + 8)
    else None
  }

  /** `(?:\s+from|\s+of)` at `k`: at least one whitespace character, then the
      preposition, ignoring case; the position after it. */
  function PrepositionEnd(s: string, k: nat): Option<nat>
    requires k <= |s|
  {
    var n := SpaceRun(s[k..]);
    if n == 0 then None
    else if WordAtIgnoreCase(s, k + n, "from") then Some(k + n + 4)
    else if WordAtIgnoreCase(s, k + n, "of") then Some(k + n + 2)
    else None
  }

  /** `\s+([A-Za-z\s]+)` at `e`. The greedy `\s+` takes the whole whitespace
      run and the group continues with letters; when no letter follows, the
      engine hands the last whitespace character back to the group, which
      then needs a run of at least two. */
  function StateGroupAt(s: string, e: nat): (r: Option<string>)
    requires e <= |s|
    ensures r.Some? ==> |r.value| > 0 && StateText(r.value)
  {
    GroupAfterSpaces(s[e..])
  }

  /** The same pattern at the front of `t`. It matches exactly when a
      whitespace character is followed by a letter or more whitespace, and
      the group always ends where the leading run of letters and whitespace
      ends, leaving at least one whitespace character to `\s+`. */
  function GroupAfterSpaces(t: string): (r: Option<string>)
    ensures r.Some? <==> |t| >= 2 && IsSpace(t[0]) && IsStateChar(t[1])
    ensures r.Some? ==> |r.value| > 0 && StateText(r.value)
    ensures r.Some? ==> var m := StateRun(t); |r.value| < m && r.value == t[m - |r.value|..m]
  {
    var n := SpaceRun(t);
    if n == 0 then
      assert !(|t| >= 2 && IsSpace(t[0]));
      None
    else if n < |t| && IsStateChar(t[n]) then
      LetterGroup(t, n);
      Some(LetterRun(t[n..]))
    else if n >= 2 then
      HandedBackGroup(t, n);
      Some(HandedBack(t[n - 1]))
    else
      assert !(|t| >= 2 && IsStateChar(t[1]));
      None
  }

  /** When a letter follows the whitespace, the group is the rest of the run. */
  lemma LetterGroup(t: string, n: nat)
    requires n == SpaceRun(t) && 0 < n < |t| && IsStateChar(t[n])
    ensures |t| >= 2 && IsSpace(t[0]) && IsStateChar(t[1])
    ensures var g, m := LetterRun(t[n..]), StateRun(t);
      |g| < m && g == t[m - |g|..m]
  {
    var g := LetterRun(t[n..]);
    StateRunSplit(t, n);
    SliceOfSlice(t, n, |g|);
  }

  /** When only whitespace follows, the group is its last character. */
  lemma HandedBackGroup(t: string, n: nat)
    requires n == SpaceRun(t) && n >= 2 && !(n < |t| && IsStateChar(t[n]))
    ensures IsSpace(t[0]) && IsStateChar(t[1])
    ensures var m := StateRun(t);
      1 < m && HandedBack(t[n - 1]) == t[m - 1..m]
  {
    assert forall i :: 0 <= i < n ==> IsStateChar(t[i]);
    StateRunIs(t, n);
    assert t[n - 1..n] == [t[n - 1]];
  }

  /** A leading run of letters and whitespace continues into the rest. */
  lemma StateRunSplit(t: string, n: nat)
    requires n <= |t| && forall i :: 0 <= i < n ==> IsStateChar(t[i])
    ensures StateRun(t) == n + StateRun(t[n..])
  {
    RunSplit(t, IsStateChar, n);
  }

  /** The one whitespace character the engine hands back to the group. */
  function HandedBack(c: char): (r: string)
    requires IsSpace(c)
    ensures |r| == 1 && StateText(r)
  {
    [c]
  }

  /** The group when a letter follows the whitespace: the whole run of
      letters and whitespace from there. */
  function LetterRun(u: string): (r: string)
    requires |u| > 0 && IsStateChar(u[0])
    ensures 0 < |r| <= |u| && StateText(r) && r == u[..|r|]
    ensures |r| < |u| ==> !IsStateChar(u[|r|])
  {
    u[..StateRun(u)]
  }

  /** The whole state pattern at `p`. */
  function StateAt(s: string, p: nat): (r: Option<string>)
  {
    match RoleEnd(s, p)
    case None => None
    case Some(k) =>
      if k > |s| then None
      else match PrepositionEnd(s, k)
        case None => None
        case Some(e) => if e > |s| then None else StateGroupAt(s, e)
  }

  /** `str.extract(state_pattern, flags=re.IGNORECASE)`: the first match wins. */
  function FindState(s: string): (r: Option<string>)
    ensures r.Some? ==> |r.value| > 0 && StateText(r.value)
    ensures r.Some? ==> exists p :: 0 <= p <= |s| && StateAt(s, p) == r && forall q :: 0 <= q < p ==> StateAt(s, q).None?
    ensures r.None? <==> forall p :: 0 <= p <= |s| ==> StateAt(s, p).None?
  {
    match FirstMatch(s, StateAt, 0)
    case Some((p, v)) => Some(v)
    case None => None
  }

  /** `StateRun` is the leading run of letters and whitespace. */
  lemma StateRunIs(s: string, n: nat)
    requires n <= |s| && (n < |s| ==> !IsStateChar(s[n]))
    requires forall i :: 0 <= i < n ==> IsStateChar(s[i])
    ensures StateRun(s) == n
  {
    RunIs(s, IsStateChar, n);
  }
}
