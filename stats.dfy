/**
 * The per-file tuple `(filename, lf_value, lh_value, pct)` the summary
 * collects, and its percentage, as an exact rational.
 */
module Stats {

  /** One entry of `file_stats`: name, lines found, lines hit, percentage hit. */
  datatype FileStat = FileStat(name: string, linesFound: nat, linesHit: nat, pct: real)

  /**
   * The percentage of lines hit, `lh / lf * 100`, or `0` when no line was
   * found, so that nothing is ever divided by zero.  PercentOfFound states
   * what it is otherwise.
   */
  function Percent(lf: nat, lh: nat): (p: real)
    ensures lf == 0 ==> p == 0.0
    ensures 0.0 <= p
    ensures lh <= lf ==> p <= 100.0
    ensures 0 < lf == lh ==> p == 100.0
  {
    if lf == 0 then 0.0
    else
      var q := lh as real / lf as real;
      assert q * (lf as real) == lh as real;
      assert lh <= lf ==> q <= 1.0;
      q * 100.0
  }

  /** With some line found, Percent is the share of lines hit, in hundredths. */
  lemma PercentOfFound(lf: nat, lh: nat)
    requires lf > 0
    ensures Percent(lf, lh) * (lf as real) == (lh as real) * 100.0
  {
    var q := lh as real / lf as real;
    assert q * (lf as real) == lh as real;
  }
}
