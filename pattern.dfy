/**
 * The three regular expressions the summary searches for, `SF:(.+)`,
 * `LF:(\d+)` and `LH:(\d+)`, each a fixed prefix followed by a greedy,
 * non-empty run of one character class, together with `int()` on the digits
 * that `\d+` captures.  `re.search` returns the leftmost position at which the
 * whole pattern matches; the captured group is the longest run of accepted
 * characters after the prefix.
 */
module Pattern {
  import opened Wrappers
  import opened PyStr

  /** The character class repeated by `+`: `.` (anything but a newline) or `\d`. */
  datatype CharClass = AnyButNewline | Digit

  predicate IsDigit(c: char) {
    '0' <= c <= '9'
  }

  predicate Accepts(cc: CharClass, c: char) {
    match cc
    case AnyButNewline => c != '\n'
    case Digit => IsDigit(c)
  }

  /** What `re.search` returns: where the match starts and the text of group 1. */
  datatype Match = Match(start: nat, group: string)

  /** The pattern `prefix` + `cc+` matches `s` at index `i`. */
  predicate MatchesAt(s: string, prefix: string, cc: CharClass, i: nat) {
    i + |prefix| < |s| && s[i..i + |prefix|] == prefix && Accepts(cc, s[i + |prefix|])
  }

  /** Every character of `g` is in class `cc`. */
  predicate AllIn(cc: CharClass, g: string) {
    forall k :: 0 <= k < |g| ==> Accepts(cc, g[k])
  }

  /** The greedy run `cc*` that starts at index `j` of `s`. */
  function Run(s: string, cc: CharClass, j: nat): (g: string)
    requires j <= |s|
    ensures j + |g| <= |s| && g == s[j..j + |g|]
    ensures AllIn(cc, g)
    ensures j + |g| == |s| || !Accepts(cc, s[j + |g|])
    decreases |s| - j
  {
    if j < |s| && Accepts(cc, s[j]) then
      var g := [s[j]] + Run(s, cc, j + 1);
      assert s[j..j + |g|] == [s[j]] + s[j + 1..j + |g|];
      g
    else []
  }

  /** Where `re.search(prefix + cc + '+', s)` matches, looking only at positions at or after `from`. */
  function SearchFrom(s: string, prefix: string, cc: CharClass, from: nat): (r: Option<nat>)
    requires from <= |s|
    ensures r.Some? ==> from <= r.value && MatchesAt(s, prefix, cc, r.value)
    decreases |s| - from
  {
    if MatchesAt(s, prefix, cc, from) then Some(from)
    else if from == |s| then None
    else SearchFrom(s, prefix, cc, from + 1)
  }

  /** SearchFrom finds the first match at or after `from`, and none only when there is none. */
  lemma {:induction false} SearchFromLeftmost(s: string, prefix: string, cc: CharClass, from: nat)
    requires from <= |s|
    ensures SearchFrom(s, prefix, cc, from).None? ==> forall i: nat :: from <= i ==> !MatchesAt(s, prefix, cc, i)
    ensures SearchFrom(s, prefix, cc, from).Some? ==>
      forall i: nat :: from <= i < SearchFrom(s, prefix, cc, from).value ==> !MatchesAt(s, prefix, cc, i)
    decreases |s| - from
  {
    if !MatchesAt(s, prefix, cc, from) && from < |s| {
      SearchFromLeftmost(s, prefix, cc, from + 1);
    }
  }

  /**
   * `re.search(prefix + cc + '+', s)`: group 1 of the match is a non-empty,
   * maximal run of class `cc` right after the prefix; SearchLeftmost states
   * that the match is the leftmost one.
   */
  function Search(s: string, prefix: string, cc: CharClass): (r: Option<Match>)
    ensures r.Some? ==> var j := r.value.start + |prefix|; var g := r.value.group;
      && |g| >= 1 && j + |g| <= |s| && g == s[j..j + |g|] && AllIn(cc, g)
      && (j + |g| == |s| || !Accepts(cc, s[j + |g|]))
  {
    match SearchFrom(s, prefix, cc, 0)
    case None => None
    case Some(i) => Some(Match(i, Run(s, cc, i + |prefix|)))
  }

  /** Search fails exactly when the pattern matches nowhere, and otherwise finds the leftmost match. */
  lemma SearchLeftmost(s: string, prefix: string, cc: CharClass)
    ensures Search(s, prefix, cc).None? <==> forall i: nat :: !MatchesAt(s, prefix, cc, i)
    ensures Search(s, prefix, cc).Some? ==> MatchesAt(s, prefix, cc, Search(s, prefix, cc).value.start)
    ensures Search(s, prefix, cc).Some? ==>
      forall i: nat :: i < Search(s, prefix, cc).value.start ==> !MatchesAt(s, prefix, cc, i)
  {
    SearchFromLeftmost(s, prefix, cc, 0);
  }

  /** A maximal run of class `cc` starting at `j` is the run Run computes. */
  lemma {:induction false} RunIs(s: string, cc: CharClass, j: nat, g: string)
    requires j + |g| <= |s| && s[j..j + |g|] == g && AllIn(cc, g)
    requires j + |g| == |s| || !Accepts(cc, s[j + |g|])
    ensures Run(s, cc, j) == g
    decreases |g|
  {
    if g != [] {
      assert s[j] == g[0];
      assert s[j + 1..j + |g|] == g[1..];
      RunIs(s, cc, j + 1, g[1..]);
      assert g == [g[0]] + g[1..];
    }
  }

  /** A match at `m` with none before it is the match Search returns. */
  lemma SearchAt(s: string, prefix: string, cc: CharClass, m: nat)
    requires MatchesAt(s, prefix, cc, m)
    requires forall i: nat :: i < m ==> !MatchesAt(s, prefix, cc, i)
    ensures Search(s, prefix, cc) == Some(Match(m, Run(s, cc, m + |prefix|)))
  {
    SearchFromLeftmost(s, prefix, cc, 0);
  }

  /**
   * A prefix without newlines that does not occur in a text `a` that is empty
   * or ends with a newline matches at no position inside `a`, whatever follows.
   */
  lemma NoMatchBeforeLine(a: string, b: string, prefix: string, cc: CharClass)
    requires |prefix| > 0 && forall k :: 0 <= k < |prefix| ==> prefix[k] != '\n'
    requires a == [] || a[|a| - 1] == '\n'
    requires Free(a, prefix)
    ensures forall i: nat :: i < |a| ==> !MatchesAt(a + b, prefix, cc, i)
  {
    var s := a + b;
    forall i: nat | i < |a| ensures !MatchesAt(s, prefix, cc, i) {
      if i + |prefix| <= |a| {
        assert !OccursAt(a, prefix, i);
        assert s[i..i + |prefix|] == a[i..i + |prefix|];
      } else if i + |prefix| <= |s| {
        assert s[i..i + |prefix|][|a| - 1 - i] == a[|a| - 1];
      }
    }
  }

  /**
   * When `prefix` stands at `m`, followed by the non-empty run `v` of class
   * `cc` and then a character outside it, and the pattern matches nowhere
   * before `m`, Search finds that match with group `v`.
   */
  lemma FieldAt(s: string, prefix: string, cc: CharClass, m: nat, v: string)
    requires m + |prefix| + |v| < |s|
    requires s[m..m + |prefix|] == prefix && s[m + |prefix|..m + |prefix| + |v|] == v
    requires v != [] && AllIn(cc, v) && !Accepts(cc, s[m + |prefix| + |v|])
    requires forall i: nat :: i < m ==> !MatchesAt(s, prefix, cc, i)
    ensures Search(s, prefix, cc) == Some(Match(m, v))
  {
    var j := m + |prefix|;
    assert s[j] == s[j..j + |v|][0];
    SearchAt(s, prefix, cc, m);
    RunIs(s, cc, j, v);
  }

  /**
   * A field `prefix` + `v` at the start of a line, after text `a` in which
   * the prefix does not occur, is found with group `v` when `v` is a
   * non-empty run of class `cc` and what follows it is not in the class.
   */
  lemma FieldAfterLine(a: string, prefix: string, v: string, rest: string, cc: CharClass)
    requires |prefix| > 0 && forall k :: 0 <= k < |prefix| ==> prefix[k] != '\n'
    requires a == [] || a[|a| - 1] == '\n'
    requires Free(a, prefix)
    requires v != [] && AllIn(cc, v) && rest != [] && !Accepts(cc, rest[0])
    ensures Search(a + prefix + v + rest, prefix, cc) == Some(Match(|a|, v))
  {
    var b := prefix + v + rest;
    var s := a + b;
    var m, j := |a|, |a| + |prefix|;
    assert s == a + prefix + v + rest;
    assert s[m..m + |prefix|] == prefix;
    assert s[j..j + |v|] == v;
    assert s[j + |v|] == rest[0];
    NoMatchBeforeLine(a, b, prefix, cc);
    FieldAt(s, prefix, cc, m, v);
  }

  function DigitValue(c: char): (d: nat)
    requires IsDigit(c)
    ensures d < 10
  {
    c as int - '0' as int
  }

  /** Python's `int(ds)` for a non-empty string of ASCII digits. */
  function DecimalValue(ds: string): (n: nat)
    requires AllIn(Digit, ds)
    decreases |ds|
  {
    if ds == [] then 0
    else DecimalValue(ds[..|ds| - 1]) * 10 + DigitValue(ds[|ds| - 1])
  }

  function DigitChar(d: nat): (c: char)
    requires d < 10
    ensures IsDigit(c) && DigitValue(c) == d
  {
    ('0' as int + d) as char
  }

  /** `str(n)`: the decimal numeral of `n`, without leading zeros. */
  function Decimal(n: nat): (ds: string)
    ensures |ds| >= 1 && AllIn(Digit, ds)
    ensures |ds| > 1 ==> ds[0] != '0'
  {
    if n < 10 then [DigitChar(n)] else Decimal(n / 10) + [DigitChar(n % 10)]
  }

  /** `int(str(n)) == n`. */
  lemma {:induction false} DecimalRoundTrip(n: nat)
    ensures DecimalValue(Decimal(n)) == n
  {
    var ds := Decimal(n);
    if n >= 10 {
      assert ds[..|ds| - 1] == Decimal(n / 10);
      DecimalRoundTrip(n / 10);
    }
  }

  /** `int()` ignores leading zeros: `int('0' + ds) == int(ds)`. */
  lemma {:induction false} LeadingZeroIgnored(ds: string)
    requires AllIn(Digit, ds)
    ensures DecimalValue("0" + ds) == DecimalValue(ds)
    decreases |ds|
  {
    if ds != [] {
      assert ("0" + ds)[..|ds|] == "0" + ds[..|ds| - 1];
      LeadingZeroIgnored(ds[..|ds| - 1]);
    }
  }
}
