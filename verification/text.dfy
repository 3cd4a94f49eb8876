/** Character classes and small string scanners that stand in for the
    regular-expression and `str` methods the scraper relies on. */
module Text {
  import opened Optional

  /** Python's `str.isspace`, which is also what the `re` class `\s` matches on
      `str` patterns: the ASCII controls 9-13 and 28-31, the space, and the
      Unicode separators. */
  predicate IsSpace(c: char)
  {
    || c == ' '
    || ('\t' <= c <= '\r')
    || ('\U{1C}' <= c <= '\U{1F}')
    || c == '\U{85}' || c == '\U{A0}' || c == '\U{1680}'
    || ('\U{2000}' <= c <= '\U{200A}')
    || c == '\U{2028}' || c == '\U{2029}' || c == '\U{202F}'
    || c == '\U{205F}' || c == '\U{3000}'
  }

  predicate IsDigit(c: char)
  {
    '0' <= c <= '9'
  }

  predicate AllDigits(s: string)
  {
    forall i :: 0 <= i < |s| ==> IsDigit(s[i])
  }

  /** The number a run of decimal digits denotes (what `pd.to_numeric` makes of it). */
  function DigitsValue(s: string): nat
    requires AllDigits(s)
  {
    if s == [] then 0
    else DigitsValue(s[..|s| - 1]) * 10 + (s[|s| - 1] as int - '0' as int)
  }

  /** Decimal rendering of a natural number, as Python's f-string writes it. */
  function NatToString(n: nat): (r: string)
    ensures |r| >= 1 && AllDigits(r)
    ensures DigitsValue(r) == n
  {
    var last := ['0' + (n % 10) as char];
    if n < 10 then last
    else
      var r := NatToString(n / 10) + last;
      assert r[..|r| - 1] == NatToString(n / 10);
      r
  }

  lemma NatToStringInjective(a: nat, b: nat)
    requires NatToString(a) == NatToString(b)
    ensures a == b
  {
  }

  /** Python `re` with IGNORECASE: `c` matches the lower-case ASCII letter `l`.
      Besides the two ASCII cases, U+0130 and U+0131 fold to `i`, U+017F to `s`
      and U+212A (Kelvin sign) to `k`. */
  predicate LetterFolds(c: char, l: char)
    requires 'a' <= l <= 'z'
  {
    || c == l
    || c as int == l as int - 32
    || (l == 'i' && (c == '\U{130}' || c == '\U{131}'))
    || (l == 's' && c == '\U{17F}')
    || (l == 'k' && c == '\U{212A}')
  }

  predicate IsLowerWord(w: string)
  {
    forall i :: 0 <= i < |w| ==> 'a' <= w[i] <= 'z'
  }

  /** The lower-case word `w` occurs in `s` at `p`, ignoring case. */
  predicate WordAtIgnoreCase(s: string, p: nat, w: string)
    requires IsLowerWord(w)
  {
    p + |w| <= |s| && forall i :: 0 <= i < |w| ==> LetterFolds(s[p + i], w[i])
  }

  /** The word `w` occurs in `s` at `p`, case-sensitively. */
  predicate WordAt(s: string, p: nat, w: string)
  {
    p + |w| <= |s| && s[p..p + |w|] == w
  }

  /** `pat` occurs somewhere in `s` (Python's `pat in s`). */
  predicate Contains(s: string, pat: string)
  {
    exists p :: 0 <= p <= |s| - |pat| && WordAt(s, p, pat)
  }

  /** Index of the first `c` in `s`, or `|s|` when there is none. */
  function First(s: string, c: char): (r: nat)
    ensures r <= |s|
    ensures r < |s| ==> s[r] == c
    ensures forall i :: 0 <= i < r ==> s[i] != c
    ensures r == |s| <==> c !in s
  {
    if s == [] then 0
    else if s[0] == c then 0
    else 1 + First(s[1..], c)
  }

  /** `s` without its leading whitespace (`str.lstrip()`). */
  function TrimStart(s: string): (r: string)
    ensures |r| <= |s| && r == s[|s| - |r|..]
    ensures forall i :: 0 <= i < |s| - |r| ==> IsSpace(s[i])
    ensures r == [] || !IsSpace(r[0])
  {
    s[Run(s, IsSpace)..]
  }

  /** `s` without its trailing whitespace (`str.rstrip()`). */
  function TrimEnd(s: string): (r: string)
    ensures |r| <= |s| && r == s[..|r|]
    ensures forall i :: |r| <= i < |s| ==> IsSpace(s[i])
    ensures r == [] || !IsSpace(r[|r| - 1])
  {
    if s != [] && IsSpace(s[|s| - 1]) then TrimEnd(s[..|s| - 1]) else s
  }

  /** Python's `str.strip()`. */
  function Strip(s: string): (r: string)
    ensures r == [] || (!IsSpace(r[0]) && !IsSpace(r[|r| - 1]))
  {
    TrimEnd(TrimStart(s))
  }

  /** A string strips to nothing exactly when it is all whitespace. */
  lemma StripEmpty(s: string)
    ensures Strip(s) == [] <==> forall i :: 0 <= i < |s| ==> IsSpace(s[i])
  {
    var t := TrimStart(s);
    if Strip(s) == [] {
      assert TrimEnd(t) == [];
      assert |t| == 0;
    } else {
      var r := Strip(s);
      assert r[0] == t[0] == s[|s| - |t|];
    }
  }

  /** Stripping leaves a string alone when it has no whitespace at either end. */
  lemma StripUnchanged(s: string)
    requires s == [] || (!IsSpace(s[0]) && !IsSpace(s[|s| - 1]))
    ensures Strip(s) == s
  {
  }

  /** Length of the run of whitespace at the front of `s`. */
  function SpaceRun(s: string): (n: nat)
    ensures n <= |s|
    ensures forall i :: 0 <= i < n ==> IsSpace(s[i])
    ensures n < |s| ==> !IsSpace(s[n])
  {
    Run(s, IsSpace)
  }

  /** Length of the longest prefix of `s` whose characters all satisfy `keep`
      (what a greedy `[...]*` takes). */
  function Run(s: string, keep: char -> bool): (n: nat)
    ensures n <= |s|
    ensures forall i :: 0 <= i < n ==> keep(s[i])
    ensures n < |s| ==> !keep(s[n])
  {
    if s != [] && keep(s[0]) then 1 + Run(s[1..], keep) else 0
  }

  /** `Run` is pinned down by where the first rejected character stands. */
  lemma {:induction false} RunIs(s: string, keep: char -> bool, n: nat)
    requires n <= |s| && (n < |s| ==> !keep(s[n]))
    requires forall i :: 0 <= i < n ==> keep(s[i])
    ensures Run(s, keep) == n
    decreases n
  {
    if n > 0 {
      var t := s[1..];
      assert forall i :: 0 <= i < n - 1 ==> t[i] == s[i + 1];
      RunIs(t, keep, n - 1);
    }
  }

  /** A run that is known to reach `n` continues with the run from `n`. */
  lemma RunSplit(s: string, keep: char -> bool, n: nat)
    requires n <= |s| && forall i :: 0 <= i < n ==> keep(s[i])
    ensures Run(s, keep) == n + Run(s[n..], keep)
  {
    var k := Run(s[n..], keep);
    assert forall i :: n <= i < n + k ==> s[i] == s[n..][i - n];
    RunIs(s, keep, n + k);
  }

  /** The longest run of digits at the front of `s` (what a greedy `\d+` takes). */
  function DigitRun(s: string): (r: string)
    ensures |r| <= |s| && r == s[..|r|] && AllDigits(r)
    ensures |r| < |s| ==> !IsDigit(s[|r|])
  {
    if s != [] && IsDigit(s[0]) then [s[0]] + DigitRun(s[1..]) else []
  }

  /** Leftmost-match search: the first position at or after `from` (up to and
      including `|s|`, as `re.search` tries) where the matcher `at` succeeds. */
  function FirstMatch<T>(s: string, at: (string, nat) -> Option<T>, from: nat): (r: Option<(nat, T)>)
    ensures r.Some? ==> from <= r.value.0 <= |s| && at(s, r.value.0) == Some(r.value.1)
    ensures r.Some? ==> forall q :: from <= q < r.value.0 ==> at(s, q).None?
    ensures r.None? ==> forall q :: from <= q <= |s| ==> at(s, q).None?
    decreases |s| + 1 - from
  {
    if from > |s| then None
    else match at(s, from)
      case Some(v) => Some((from, v))
      case None => FirstMatch(s, at, from + 1)
  }

  /** Two matchers that succeed at the same positions are found at the same place. */
  lemma {:induction false} FirstMatchAgree<T, U>(s: string, at: (string, nat) -> Option<T>, at': (string, nat) -> Option<U>, from: nat)
    requires forall q :: from <= q <= |s| ==> (at(s, q).Some? <==> at'(s, q).Some?)
    ensures FirstMatch(s, at, from).Some? <==> FirstMatch(s, at', from).Some?
    ensures FirstMatch(s, at, from).Some? ==> FirstMatch(s, at, from).value.0 == FirstMatch(s, at', from).value.0
    decreases |s| + 1 - from
  {
    if from <= |s| && at(s, from).None? {
      FirstMatchAgree(s, at, at', from + 1);
    }
  }

  /** The search result is pinned down by the first position that matches. */
  lemma FirstMatchIs<T>(s: string, at: (string, nat) -> Option<T>, p: nat)
    requires p <= |s| && at(s, p).Some?
    requires forall q :: 0 <= q < p ==> at(s, q).None?
    ensures FirstMatch(s, at, 0) == Some((p, at(s, p).value))
  {
    var r := FirstMatch(s, at, 0);
    assert r.Some?;
    assert r.value.0 == p;
  }

  /** `First` is determined by the first position holding `c`. */
  lemma FirstIs(s: string, c: char, n: nat)
    requires n <= |s| && (n < |s| ==> s[n] == c)
    requires forall i :: 0 <= i < n ==> s[i] != c
    ensures First(s, c) == n
  {
  }

  /** `TrimEnd` keeps exactly the prefix before a final whitespace run. */
  lemma TrimEndIs(s: string, n: nat)
    requires n <= |s| && (n == 0 || !IsSpace(s[n - 1]))
    requires forall i :: n <= i < |s| ==> IsSpace(s[i])
    ensures TrimEnd(s) == s[..n]
  {
  }

  /** `SpaceRun` is the length of the leading whitespace run. */
  lemma SpaceRunIs(s: string, n: nat)
    requires n <= |s| && (n < |s| ==> !IsSpace(s[n]))
    requires forall i :: 0 <= i < n ==> IsSpace(s[i])
    ensures SpaceRun(s) == n
  {
    RunIs(s, IsSpace, n);
  }

  /** `DigitRun` is the leading digit run. */
  lemma DigitRunIs(s: string, n: nat)
    requires n <= |s| && (n < |s| ==> !IsDigit(s[n]))
    requires forall i :: 0 <= i < n ==> IsDigit(s[i])
    ensures DigitRun(s) == s[..n]
  {
  }

  /** A slice holds no character its sequence lacks. */
  lemma SliceChars(s: string, a: nat, b: nat)
    requires a <= b <= |s|
    ensures forall c :: c in s[a..b] ==> c in s
  {
    forall c | c in s[a..b]
      ensures c in s
    {
      var k :| 0 <= k < b - a && s[a..b][k] == c;
      assert s[a + k] == c;
    }
  }
}
