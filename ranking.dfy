/**
 * `file_stats.sort(key=lambda item: item[3])`: an in-place, stable sort of the
 * per-file entries by percentage.  Stability is stated per key: for every
 * percentage `p`, the entries with percentage `p` appear in the same order
 * before and after the sort.  Together with sortedness this fixes the result
 * completely (SortedWithSameTiesIsUnique), so any stable sort, Python's
 * included, produces the same list as the insertion sort below.
 */
module Ranking {
  import opened Stats

  /** Non-decreasing by percentage. */
  predicate SortedByPct(s: seq<FileStat>) {
    forall i, j :: 0 <= i < j < |s| ==> s[i].pct <= s[j].pct
  }

  /** The entries of `s` whose percentage is `p`, in their order in `s`. */
  function WithPct(s: seq<FileStat>, p: real): (r: seq<FileStat>)
    ensures |r| <= |s|
    ensures forall k :: 0 <= k < |r| ==> r[k].pct == p
  {
    if s == [] then []
    else WithPct(s[..|s| - 1], p) + (if s[|s| - 1].pct == p then [s[|s| - 1]] else [])
  }

  /** `s` and `t` list the entries of each percentage in the same order. */
  ghost predicate SameTies(s: seq<FileStat>, t: seq<FileStat>) {
    forall p: real :: WithPct(s, p) == WithPct(t, p)
  }

  lemma {:induction false} WithPctConcat(s: seq<FileStat>, t: seq<FileStat>, p: real)
    ensures WithPct(s + t, p) == WithPct(s, p) + WithPct(t, p)
    decreases |t|
  {
    if t != [] {
      assert (s + t)[..|s + t| - 1] == s + t[..|t| - 1];
      WithPctConcat(s, t[..|t| - 1], p);
    } else {
      assert s + t == s;
    }
  }

  /** Exchanging two neighbours whose percentages differ keeps every key's order. */
  lemma SwapKeepsTies(s: seq<FileStat>, j: nat)
    requires 0 < j < |s| && s[j - 1].pct != s[j].pct
    ensures SameTies(s[..j - 1] + [s[j], s[j - 1]] + s[j + 1..], s)
  {
    var pre, post := s[..j - 1], s[j + 1..];
    assert s == pre + [s[j - 1], s[j]] + post;
    forall p: real
      ensures WithPct(pre + [s[j], s[j - 1]] + post, p) == WithPct(s, p)
    {
      WithPctConcat(pre + [s[j], s[j - 1]], post, p);
      WithPctConcat(pre, [s[j], s[j - 1]], p);
      WithPctConcat(pre + [s[j - 1], s[j]], post, p);
      WithPctConcat(pre, [s[j - 1], s[j]], p);
      assert [s[j], s[j - 1]][..1] == [s[j]];
      assert [s[j - 1], s[j]][..1] == [s[j - 1]];
    }
  }

  /** An entry occurs in `s` as often as among the entries of its own percentage. */
  lemma {:induction false} CountWithinTies(s: seq<FileStat>, x: FileStat)
    ensures multiset(s)[x] == multiset(WithPct(s, x.pct))[x]
    decreases |s|
  {
    if s != [] {
      var init, last := s[..|s| - 1], s[|s| - 1];
      assert s == init + [last];
      CountWithinTies(init, x);
    }
  }

  /** Lists with the same entries per percentage are permutations of each other. */
  lemma SameTiesIsPermutation(s: seq<FileStat>, t: seq<FileStat>)
    requires SameTies(s, t)
    ensures multiset(s) == multiset(t)
  {
    forall x: FileStat ensures multiset(s)[x] == multiset(t)[x] {
      CountWithinTies(s, x);
      CountWithinTies(t, x);
    }
  }

  /** In a sorted list, every percentage that occurs is at most the last one. */
  lemma {:induction false} TiesAtMostLast(s: seq<FileStat>, p: real)
    requires SortedByPct(s) && WithPct(s, p) != []
    ensures s != [] && p <= s[|s| - 1].pct
    decreases |s|
  {
    var init := s[..|s| - 1];
    if s[|s| - 1].pct != p {
      TiesAtMostLast(init, p);
      assert init[|init| - 1] == s[|s| - 2];
    }
  }

  /** Every entry's own percentage has at least that entry among its ties. */
  lemma {:induction false} OwnTiesNonEmpty(s: seq<FileStat>)
    requires s != []
    ensures WithPct(s, s[|s| - 1].pct) != []
  {
  }

  /** Dropping the last entry drops the last of its ties and leaves every other percentage's ties alone. */
  lemma WithPctInit(s: seq<FileStat>, p: real)
    requires s != []
    ensures s[|s| - 1].pct == p ==> WithPct(s, p) != [] && s[|s| - 1] == WithPct(s, p)[|WithPct(s, p)| - 1]
    ensures WithPct(s[..|s| - 1], p) ==
      if s[|s| - 1].pct == p then WithPct(s, p)[..|WithPct(s, p)| - 1] else WithPct(s, p)
  {
    var w := WithPct(s[..|s| - 1], p);
    if s[|s| - 1].pct == p {
      assert (w + [s[|s| - 1]])[..|w|] == w;
    } else {
      assert w + [] == w;
    }
  }

  /** Lists with the same ties whose last entries have equal percentages keep the same ties without them. */
  lemma SameTiesInit(s: seq<FileStat>, t: seq<FileStat>)
    requires s != [] && t != [] && SameTies(s, t) && s[|s| - 1].pct == t[|t| - 1].pct
    ensures SameTies(s[..|s| - 1], t[..|t| - 1])
    ensures s[|s| - 1] == t[|t| - 1]
  {
    var s', t' := s[..|s| - 1], t[..|t| - 1];
    forall p: real ensures WithPct(s', p) == WithPct(t', p) {
      WithPctInit(s, p);
      WithPctInit(t, p);
    }
    WithPctInit(s, s[|s| - 1].pct);
    WithPctInit(t, s[|s| - 1].pct);
  }

  /**
   * A sorted list is determined by the order of the entries within each
   * percentage: two sorted lists with the same ties are equal.  So the result
   * of any stable sort by percentage is the result of SortByPct.
   */
  lemma {:induction false} SortedWithSameTiesIsUnique(s: seq<FileStat>, t: seq<FileStat>)
    requires SortedByPct(s) && SortedByPct(t) && SameTies(s, t)
    ensures s == t
    decreases |s|
  {
    if s == [] && t == [] {
    } else if s == [] {
      OwnTiesNonEmpty(t);
      assert false;
    } else if t == [] {
      OwnTiesNonEmpty(s);
      assert false;
    } else {
      var m, n := s[|s| - 1].pct, t[|t| - 1].pct;
      assert m == n by {
        OwnTiesNonEmpty(s);
        OwnTiesNonEmpty(t);
        assert WithPct(t, m) == WithPct(s, m);
        assert WithPct(s, n) == WithPct(t, n);
        TiesAtMostLast(t, m);
        TiesAtMostLast(s, n);
      }
      SameTiesInit(s, t);
      var s', t' := s[..|s| - 1], t[..|t| - 1];
      assert SortedByPct(s') && SortedByPct(t');
      SortedWithSameTiesIsUnique(s', t');
      assert s == s' + [s[|s| - 1]] && t == t' + [t[|t| - 1]];
    }
  }

  /** A swap of neighbours with different percentages, after which the ties are still those of `orig`. */
  lemma SwapStep(before: seq<FileStat>, after: seq<FileStat>, orig: seq<FileStat>, j: nat)
    requires 0 < j < |before| && before[j - 1].pct != before[j].pct
    requires after == before[j - 1 := before[j]][j := before[j - 1]]
    requires SameTies(before, orig)
    ensures SameTies(after, orig)
  {
    SwapKeepsTies(before, j);
    assert after == before[..j - 1] + [before[j], before[j - 1]] + before[j + 1..];
    SameTiesTransitive(after, before, orig);
  }

  lemma SameTiesTransitive(r: seq<FileStat>, s: seq<FileStat>, t: seq<FileStat>)
    requires SameTies(r, s) && SameTies(s, t)
    ensures SameTies(r, t)
  {
  }

  /**
   * The state of one insertion: the entry being inserted stands at `j`, the
   * entries up to `i` other than it are in order, and it is strictly below
   * every entry it has passed.
   */
  predicate Inserting(s: seq<FileStat>, i: nat, j: nat) {
    && j <= i < |s|
    && (forall k, l :: 0 <= k < l <= i && k != j && l != j ==> s[k].pct <= s[l].pct)
    && (forall l :: j < l <= i ==> s[j].pct < s[l].pct)
  }

  lemma InsertingStart(s: seq<FileStat>, i: nat)
    requires i < |s| && SortedByPct(s[..i])
    ensures Inserting(s, i, i)
  {
    forall k, l | 0 <= k < l <= i && k != i && l != i ensures s[k].pct <= s[l].pct {
      assert s[k] == s[..i][k] && s[l] == s[..i][l];
    }
  }

  /** Passing one entry of greater percentage keeps the insertion state. */
  lemma InsertingStep(s: seq<FileStat>, i: nat, j: nat)
    requires Inserting(s, i, j) && 0 < j && s[j - 1].pct > s[j].pct
    ensures Inserting(s[j - 1 := s[j]][j := s[j - 1]], i, j - 1)
  {
  }

  /** Once the entry to its left is not greater, the first `i + 1` entries are sorted. */
  lemma InsertingDone(s: seq<FileStat>, i: nat, j: nat)
    requires Inserting(s, i, j) && (j == 0 || s[j - 1].pct <= s[j].pct)
    ensures SortedByPct(s[..i + 1])
  {
    forall k, l | 0 <= k < l <= i ensures s[k].pct <= s[l].pct {
      if l == j && k < j - 1 {
        assert s[k].pct <= s[j - 1].pct;
      }
    }
  }

  /**
   * One step of the insertion sort: with `a[..i]` sorted, moves `a[i]` left
   * past the entries of strictly greater percentage, so that `a[..i + 1]` is
   * sorted and the entries after index `i` are untouched.
   */
  method InsertAt(a: array<FileStat>, i: nat)
    requires i < a.Length && SortedByPct(a[..i])
    modifies a
    ensures SortedByPct(a[..i + 1])
    ensures a[i + 1..] == old(a[i + 1..])
    ensures SameTies(a[..], old(a[..]))
  {
    InsertingStart(a[..], i);
    var j: nat := i;
    while j > 0 && a[j - 1].pct > a[j].pct
      invariant Inserting(a[..], i, j)
      invariant a[i + 1..] == old(a[i + 1..])
      invariant SameTies(a[..], old(a[..]))
    {
      ghost var before := a[..];
      a[j - 1], a[j] := a[j], a[j - 1];
      assert a[..] == before[j - 1 := before[j]][j := before[j - 1]];
      InsertingStep(before, i, j);
      SwapStep(before, a[..], old(a[..]), j);
      j := j - 1;
    }
    InsertingDone(a[..], i, j);
  }

  /**
   * Sorts `a` in place by percentage with an insertion sort that moves an
   * entry left only past entries of strictly greater percentage, so entries
   * of equal percentage keep their relative order.
   */
  method SortByPct(a: array<FileStat>)
    modifies a
    ensures SortedByPct(a[..])
    ensures SameTies(a[..], old(a[..]))
    ensures multiset(a[..]) == multiset(old(a[..]))
  {
    var i := 0;
    while i < a.Length
      invariant 0 <= i <= a.Length
      invariant SortedByPct(a[..i])
      invariant SameTies(a[..], old(a[..]))
    {
      ghost var before := a[..];
      InsertAt(a, i);
      SameTiesTransitive(a[..], before, old(a[..]));
      i := i + 1;
    }
    assert a[..a.Length] == a[..];
    SameTiesIsPermutation(a[..], old(a[..]));
  }
}
