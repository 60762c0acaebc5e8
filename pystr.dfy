/**
 * The pieces of Python's `str` that the coverage summary relies on:
 * `isspace` (what `strip()` removes), `strip()`, `sep.join(...)` and
 * `split(sep)` with a non-empty separator.
 */
module PyStr {
  import opened Wrappers

  /** Python's `str.isspace` on one character: the set `strip()` removes. */
  predicate IsSpace(c: char) {
    || ('\t' <= c <= '\r')
    || ('\U{1c}' <= c <= '\U{1f}')
    || c == ' ' || c == '\U{85}' || c == '\U{a0}' || c == '\U{1680}'
    || ('\U{2000}' <= c <= '\U{200a}')
    || c == '\U{2028}' || c == '\U{2029}' || c == '\U{202f}' || c == '\U{205f}'
    || c == '\U{3000}'
  }

  /** A string whose `strip()` is empty (`not s.strip()` in Python). */
  predicate IsBlank(s: string) {
    forall i :: 0 <= i < |s| ==> IsSpace(s[i])
  }

  /** The number of whitespace characters `s` starts with. */
  function LeadingSpaces(s: string): (n: nat)
    ensures n <= |s|
    ensures forall i :: 0 <= i < n ==> IsSpace(s[i])
    ensures n == |s| || !IsSpace(s[n])
  {
    if s != [] && IsSpace(s[0]) then
      var n := 1 + LeadingSpaces(s[1..]);
      assert forall i :: 0 < i < n ==> s[i] == s[1..][i - 1];
      n
    else 0
  }

  /** The number of whitespace characters `s` ends with. */
  function TrailingSpaces(s: string): (n: nat)
    ensures n <= |s|
    ensures forall i :: |s| - n <= i < |s| ==> IsSpace(s[i])
    ensures n == |s| || !IsSpace(s[|s| - 1 - n])
  {
    if s != [] && IsSpace(s[|s| - 1]) then
      var init := s[..|s| - 1];
      var n := 1 + TrailingSpaces(init);
      assert forall i :: |s| - n <= i < |s| - 1 ==> s[i] == init[i];
      n
    else 0
  }

  /**
   * Python's `s.strip()`: `s` without its leading and trailing whitespace.
   * What is removed on either side is whitespace, and what is kept, unless
   * empty, starts and ends with a non-space character.
   */
  function Strip(s: string): (r: string)
    ensures LeadingSpaces(s) + |r| <= |s|
    ensures r == s[LeadingSpaces(s)..LeadingSpaces(s) + |r|]
    ensures forall i :: LeadingSpaces(s) + |r| <= i < |s| ==> IsSpace(s[i])
    ensures r == [] <==> IsBlank(s)
    ensures r != [] ==> !IsSpace(r[0]) && !IsSpace(r[|r| - 1])
  {
    var lo := LeadingSpaces(s);
    if lo == |s| then
      []
    else
      var hi := |s| - TrailingSpaces(s);
      assert lo < hi;
      assert !IsBlank(s) by {
        assert !IsSpace(s[lo]);
      }
      s[lo..hi]
  }

  /** Stripping twice is the same as stripping once. */
  lemma StripIdempotent(s: string)
    ensures Strip(Strip(s)) == Strip(s)
  {
    var r := Strip(s);
    if r != [] {
      StripKeepsTrimmed(r);
    }
  }

  /** A string that starts and ends with a non-space character is its own `strip()`. */
  lemma StripKeepsTrimmed(s: string)
    requires s != [] && !IsSpace(s[0]) && !IsSpace(s[|s| - 1])
    ensures Strip(s) == s
  {
    assert LeadingSpaces(s) == 0;
  }

  /** `sep` occurs in `s` starting at index `i`. */
  predicate OccursAt(s: string, sep: string, i: nat) {
    i + |sep| <= |s| && s[i..i + |sep|] == sep
  }

  /** `sep` occurs nowhere in `s`. */
  predicate Free(s: string, sep: string) {
    forall i: nat :: i <= |s| ==> !OccursAt(s, sep, i)
  }

  /**
   * The first index at or after `from` where `sep` occurs in `s`
   * (`s.find(sep, from)`); FindFromLeftmost states that it is the first.
   */
  function FindFrom(s: string, sep: string, from: nat): (r: Option<nat>)
    requires from <= |s|
    ensures r.Some? ==> from <= r.value && r.value + |sep| <= |s|
    decreases |s| - from
  {
    if OccursAt(s, sep, from) then Some(from)
    else if from == |s| then None
    else FindFrom(s, sep, from + 1)
  }

  /** What FindFrom finds is an occurrence. */
  lemma FoundOccurs(s: string, sep: string, from: nat)
    requires from <= |s| && FindFrom(s, sep, from).Some?
    ensures OccursAt(s, sep, FindFrom(s, sep, from).value)
  {
    FindFromLeftmost(s, sep, from);
  }

  /** FindFrom finds an occurrence, the first at or after `from`, and finds none only when there is none. */
  lemma {:induction false} FindFromLeftmost(s: string, sep: string, from: nat)
    requires from <= |s|
    ensures FindFrom(s, sep, from).Some? ==> OccursAt(s, sep, FindFrom(s, sep, from).value)
    ensures FindFrom(s, sep, from).Some? ==>
      forall k: nat :: from <= k < FindFrom(s, sep, from).value ==> !OccursAt(s, sep, k)
    ensures FindFrom(s, sep, from).None? ==> forall k: nat :: from <= k ==> !OccursAt(s, sep, k)
    decreases |s| - from
  {
    if !OccursAt(s, sep, from) && from < |s| {
      FindFromLeftmost(s, sep, from + 1);
    }
  }

  /** A separator whose first character never occurs in `x` does not occur in `x`. */
  lemma FreeOfFirst(x: string, sep: string)
    requires |sep| > 0 && forall k :: 0 <= k < |x| ==> x[k] != sep[0]
    ensures Free(x, sep)
  {
    forall i: nat | i <= |x| ensures !OccursAt(x, sep, i) {
      if i + |sep| <= |x| {
        assert x[i..i + |sep|][0] == x[i];
      }
    }
  }

  /**
   * A separator without newlines that occurs in neither `a` nor `b` does not
   * occur in `a + b` when a newline ends `a` or starts `b`.
   */
  lemma FreeJoin(a: string, b: string, sep: string)
    requires |sep| > 0 && forall k :: 0 <= k < |sep| ==> sep[k] != '\n'
    requires Free(a, sep) && Free(b, sep)
    requires a == [] || b == [] || a[|a| - 1] == '\n' || b[0] == '\n'
    ensures Free(a + b, sep)
  {
    var s := a + b;
    forall i: nat | i <= |s| ensures !OccursAt(s, sep, i) {
      if i + |sep| > |s| {
      } else if i + |sep| <= |a| {
        assert !OccursAt(a, sep, i);
        assert s[i..i + |sep|] == a[i..i + |sep|];
      } else if i < |a| {
        assert s[i..i + |sep|][|a| - 1 - i] == a[|a| - 1];
        assert s[i..i + |sep|][|a| - i] == b[0];
      } else {
        assert !OccursAt(b, sep, i - |a|);
        assert s[i..i + |sep|] == b[i - |a|..i - |a| + |sep|];
      }
    }
  }

  /**
   * A separator that does not occur in `x` does not occur in `tag + x` when
   * no suffix of the (short) tag starts the separator.
   */
  lemma FreeAfterTag(tag: string, x: string, sep: string)
    requires |tag| <= |sep| && forall i :: 0 <= i < |tag| ==> !(tag[i..] <= sep)
    requires Free(x, sep)
    ensures Free(tag + x, sep)
  {
    var s := tag + x;
    forall i: nat | i <= |s| ensures !OccursAt(s, sep, i) {
      if i + |sep| > |s| {
      } else if i < |tag| {
        assert s[..|tag|] == tag;
        assert s[i..i + |sep|][..|tag| - i] == s[i..|tag|] == tag[i..];
      } else {
        assert !OccursAt(x, sep, i - |tag|);
        assert s[i..i + |sep|] == x[i - |tag|..i - |tag| + |sep|];
      }
    }
  }

  /** Python's `sep.join(pieces)`. */
  function Join(pieces: seq<string>, sep: string): string {
    if pieces == [] then []
    else if |pieces| == 1 then pieces[0]
    else pieces[0] + sep + Join(pieces[1..], sep)
  }

  /**
   * Python's `s.split(sep)` for a non-empty separator: the pieces between the
   * non-overlapping occurrences of `sep`, found from left to right.  There is
   * always at least one piece; JoinSplit and SplitPiecesFree state what the
   * pieces are.
   */
  function SplitOn(s: string, sep: string): (r: seq<string>)
    requires |sep| > 0
    ensures |r| >= 1
    decreases |s|
  {
    match FindFrom(s, sep, 0)
    case None => [s]
    case Some(i) => [s[..i]] + SplitOn(s[i + |sep|..], sep)
  }

  /** Joining a piece in front of at least one more puts the separator after it. */
  lemma JoinCons(x: string, r: seq<string>, sep: string)
    requires |r| >= 1
    ensures Join([x] + r, sep) == x + sep + Join(r, sep)
  {
    assert ([x] + r)[1..] == r;
  }

  /** Joining the pieces of a split with the separator gives the text back. */
  lemma {:induction false} JoinSplit(s: string, sep: string)
    requires |sep| > 0
    ensures Join(SplitOn(s, sep), sep) == s
    decreases |s|
  {
    match FindFrom(s, sep, 0)
    case None =>
      SplitNone(s, sep);
    case Some(i) =>
      var rest := s[i + |sep|..];
      assert s == s[..i] + sep + rest by {
        FoundOccurs(s, sep, 0);
        assert s[i..i + |sep|] == sep;
      }
      calc {
        Join(SplitOn(s, sep), sep);
        { SplitAt(s, sep, i); }
        Join([s[..i]] + SplitOn(rest, sep), sep);
        { JoinCons(s[..i], SplitOn(rest, sep), sep); }
        s[..i] + sep + Join(SplitOn(rest, sep), sep);
        { JoinSplit(rest, sep); }
        s[..i] + sep + rest;
      }
  }

  /** The text before the first occurrence of a separator does not contain it. */
  lemma FreeBeforeFirst(s: string, sep: string, i: nat)
    requires |sep| > 0 && i <= |s|
    requires forall k: nat :: k < i ==> !OccursAt(s, sep, k)
    ensures Free(s[..i], sep)
  {
    forall k: nat | k <= i ensures !OccursAt(s[..i], sep, k) {
      if k + |sep| <= i {
        assert s[..i][k..k + |sep|] == s[k..k + |sep|];
        assert !OccursAt(s, sep, k);
      }
    }
  }

  /** No piece of a split contains the separator. */
  lemma {:induction false} SplitPiecesFree(s: string, sep: string)
    requires |sep| > 0
    ensures forall k :: 0 <= k < |SplitOn(s, sep)| ==> Free(SplitOn(s, sep)[k], sep)
    decreases |s|
  {
    FindFromLeftmost(s, sep, 0);
    match FindFrom(s, sep, 0)
    case None =>
      assert SplitOn(s, sep) == [s];
    case Some(i) =>
      var rest := s[i + |sep|..];
      SplitPiecesFree(rest, sep);
      var r := SplitOn(rest, sep);
      assert SplitOn(s, sep) == [s[..i]] + r;
      FreeBeforeFirst(s, sep, i);
      forall k | 0 <= k < |SplitOn(s, sep)| ensures Free(SplitOn(s, sep)[k], sep) {
        if k > 0 {
          assert SplitOn(s, sep)[k] == r[k - 1];
        }
      }
  }

  /** A copy of `sep` shifted right by `d` agrees with `sep` where the two overlap. */
  predicate OverlapsAt(sep: string, d: nat)
    requires d <= |sep|
  {
    sep[d..] == sep[..|sep| - d]
  }

  /** `sep` cannot overlap a copy of itself: no proper suffix of it is also a prefix. */
  predicate NoSelfOverlap(sep: string) {
    forall d: nat :: 0 < d < |sep| ==> !OverlapsAt(sep, d)
  }

  /** Two occurrences closer than `|sep|` overlap each other. */
  lemma OverlappingOccurrences(s: string, sep: string, i: nat, j: nat)
    requires OccursAt(s, sep, i) && OccursAt(s, sep, j) && i < j < i + |sep|
    ensures OverlapsAt(sep, j - i)
  {
    var d := j - i;
    forall k | 0 <= k < |sep| - d ensures sep[d..][k] == sep[..|sep| - d][k] {
      assert sep[d + k] == s[i..i + |sep|][d + k] == s[j + k];
      assert sep[k] == s[j..j + |sep|][k] == s[j + k];
    }
  }

  /** Two occurrences of a separator that cannot overlap itself are `|sep|` apart or more. */
  lemma OccurrencesApart(s: string, sep: string, i: nat, j: nat)
    requires NoSelfOverlap(sep)
    requires OccursAt(s, sep, i) && OccursAt(s, sep, j) && i < j
    ensures i + |sep| <= j
  {
    if j < i + |sep| {
      OverlappingOccurrences(s, sep, i, j);
      assert false;
    }
  }

  /** An occurrence inside `t` is still one when more text follows `t`. */
  lemma OccursInPrefix(t: string, u: string, sep: string, k: nat)
    ensures OccursAt(t, sep, k) ==> OccursAt(t + u, sep, k)
  {
    if OccursAt(t, sep, k) {
      assert (t + u)[k..k + |sep|] == t[k..k + |sep|];
    }
  }

  /** An index where `sep` occurs, with no occurrence before it, is what FindFrom finds. */
  lemma FindFromIs(s: string, sep: string, m: nat)
    requires OccursAt(s, sep, m)
    requires forall k: nat :: k < m ==> !OccursAt(s, sep, k)
    ensures FindFrom(s, sep, 0) == Some(m)
  {
    FindFromLeftmost(s, sep, 0);
  }

  /** An occurrence that starts inside `t` in `t + sep + y` lies wholly inside `t`. */
  lemma OccurrenceInsideLeft(t: string, sep: string, y: string, k: nat)
    requires NoSelfOverlap(sep)
    requires k < |t| && OccursAt(t + sep + y, sep, k)
    ensures OccursAt(t, sep, k)
  {
    var s := t + sep + y;
    assert OccursAt(s, sep, |t|) by {
      assert s[|t|..|t| + |sep|] == sep;
    }
    OccurrencesApart(s, sep, k, |t|);
    assert t[k..k + |sep|] == s[k..k + |sep|];
  }

  /**
   * The first separator in `t + sep + y` is the first one in `t`, or, when `t`
   * has none, the one that follows `t`.
   */
  lemma FindConcat(t: string, sep: string, y: string)
    requires |sep| > 0 && NoSelfOverlap(sep)
    ensures FindFrom(t + sep + y, sep, 0) ==
      match FindFrom(t, sep, 0)
      case None => Some(|t|)
      case Some(j) => Some(j)
  {
    var s := t + sep + y;
    FindFromLeftmost(t, sep, 0);
    match FindFrom(t, sep, 0)
    case None =>
      assert OccursAt(s, sep, |t|) by {
        assert s[|t|..|t| + |sep|] == sep;
      }
      forall k: nat | k < |t| ensures !OccursAt(s, sep, k) {
        if OccursAt(s, sep, k) {
          OccurrenceInsideLeft(t, sep, y, k);
        }
      }
      FindFromIs(s, sep, |t|);
    case Some(j) =>
      OccursInPrefix(t, sep + y, sep, j);
      assert t + (sep + y) == s;
      forall k: nat | k < j ensures !OccursAt(s, sep, k) {
        if OccursAt(s, sep, k) {
          OccurrenceInsideLeft(t, sep, y, k);
        }
      }
      FindFromIs(s, sep, j);
  }

  /** Splitting where the first separator is at `i`: the piece before it, then the rest split. */
  lemma SplitAt(s: string, sep: string, i: nat)
    requires |sep| > 0 && FindFrom(s, sep, 0) == Some(i)
    ensures SplitOn(s, sep) == [s[..i]] + SplitOn(s[i + |sep|..], sep)
  {
  }

  /** A text without the separator splits into itself alone. */
  lemma SplitNone(s: string, sep: string)
    requires |sep| > 0 && FindFrom(s, sep, 0) == None
    ensures SplitOn(s, sep) == [s]
  {
  }

  /** When `t` holds no separator, the first piece of `t + sep + y` is `t`. */
  lemma SplitFirstPiece(t: string, sep: string, y: string)
    requires |sep| > 0 && FindFrom(t, sep, 0) == None
    requires FindFrom(t + sep + y, sep, 0) == Some(|t|)
    ensures SplitOn(t + sep + y, sep) == SplitOn(t, sep) + SplitOn(y, sep)
  {
    var s := t + sep + y;
    SplitNone(t, sep);
    SplitAt(s, sep, |t|);
    assert s[..|t|] == t && s[|t| + |sep|..] == y;
  }

  /** Cutting `t + sep + y` inside `t`. */
  lemma ConcatSlices(t: string, sep: string, y: string, j: nat)
    requires j + |sep| <= |t|
    ensures (t + sep + y)[..j] == t[..j]
    ensures (t + sep + y)[j + |sep|..] == t[j + |sep|..] + sep + y
  {
  }

  /**
   * When `t`'s first separator is at `j`, and so is that of `t + sep + y`, the
   * split of the concatenation follows from that of what comes after `j`.
   */
  lemma SplitSharedPiece(t: string, sep: string, y: string, j: nat)
    requires |sep| > 0 && FindFrom(t, sep, 0) == Some(j)
    requires FindFrom(t + sep + y, sep, 0) == Some(j)
    requires SplitOn(t[j + |sep|..] + sep + y, sep) == SplitOn(t[j + |sep|..], sep) + SplitOn(y, sep)
    ensures SplitOn(t + sep + y, sep) == SplitOn(t, sep) + SplitOn(y, sep)
  {
    var s, rest := t + sep + y, t[j + |sep|..];
    calc {
      SplitOn(s, sep);
    == { SplitAt(s, sep, j); }
      [s[..j]] + SplitOn(s[j + |sep|..], sep);
    == { ConcatSlices(t, sep, y, j); }
      [t[..j]] + SplitOn(rest + sep + y, sep);
    ==
      [t[..j]] + (SplitOn(rest, sep) + SplitOn(y, sep));
    ==
      ([t[..j]] + SplitOn(rest, sep)) + SplitOn(y, sep);
    == { SplitAt(t, sep, j); }
      SplitOn(t, sep) + SplitOn(y, sep);
    }
  }

  /**
   * Splitting a text made of two parts joined by a separator that cannot
   * overlap itself splits each part on its own.
   */
  lemma {:induction false} SplitConcat(t: string, sep: string, y: string)
    requires |sep| > 0 && NoSelfOverlap(sep)
    ensures SplitOn(t + sep + y, sep) == SplitOn(t, sep) + SplitOn(y, sep)
    decreases |t|
  {
    FindConcat(t, sep, y);
    match FindFrom(t, sep, 0)
    case None =>
      SplitFirstPiece(t, sep, y);
    case Some(j) =>
      SplitConcat(t[j + |sep|..], sep, y);
      SplitSharedPiece(t, sep, y, j);
  }
}
