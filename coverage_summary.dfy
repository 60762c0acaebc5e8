/**
 * The coverage summary of `tool/coverage_summary.py`: split an LCOV tracefile
 * on `end_of_record`, read the first `SF:`, `LF:` and `LH:` records of every
 * non-blank block, add up lines found and lines hit over the blocks that have
 * both counts, keep a per-file entry for those blocks that also name a source
 * file, fail when no line was found at all, and otherwise rank the entries by
 * percentage and report the fifteen lowest.
 */
module CoverageSummary {
  import opened Wrappers
  import opened PyStr
  import opened Pattern
  import opened Stats
  import opened Ranking

  /** The literal that ends every record block. */
  const Delimiter: string := "end_of_record"

  /** How many of the lowest-covered files are reported. */
  const MaxListed: nat := 15

  /** The one way the summary fails once the tracefile has been read. */
  datatype Error = NoCoverageData

  /**
   * What the program reports: the two totals, the overall percentage, the
   * whole ranked `file_stats` list and the entries it lists.
   */
  datatype Report = Report(
    totalLines: nat,
    coveredLines: nat,
    coverage: real,
    ranked: seq<FileStat>,
    listed: seq<FileStat>)

  lemma DelimiterNoSelfOverlap()
    ensures |Delimiter| > 0 && NoSelfOverlap(Delimiter)
  {
    forall d: nat | 0 < d < |Delimiter| ensures !OverlapsAt(Delimiter, d) {
      if d == 8 {
        assert Delimiter[d..][1] != Delimiter[..|Delimiter| - d][1];
      } else {
        assert Delimiter[d..][0] != Delimiter[..|Delimiter| - d][0];
      }
    }
  }

  /** The record blocks of a tracefile: `text.split('end_of_record')`. */
  function Chunks(text: string): seq<string>
  {
    SplitOn(text, Delimiter)
  }

  /** `re.search(r'SF:(.+)', chunk)`. */
  function SourceFile(chunk: string): Option<Match> {
    Search(chunk, "SF:", AnyButNewline)
  }

  /** `int(m.group(1))` for `m = re.search(r'LF:(\d+)', chunk)`, if there is a match. */
  function LinesFound(chunk: string): Option<nat> {
    match Search(chunk, "LF:", Digit)
    case None => None
    case Some(m) => Some(DecimalValue(m.group))
  }

  /** `int(m.group(1))` for `m = re.search(r'LH:(\d+)', chunk)`, if there is a match. */
  function LinesHit(chunk: string): Option<nat> {
    match Search(chunk, "LH:", Digit)
    case None => None
    case Some(m) => Some(DecimalValue(m.group))
  }

  /** A block that adds to the totals: not blank, with both an `LF:` and an `LH:` count. */
  predicate Counted(chunk: string) {
    !IsBlank(chunk) && LinesFound(chunk).Some? && LinesHit(chunk).Some?
  }

  /** What a block adds to `total_lines`. */
  function Found(chunk: string): nat {
    if Counted(chunk) then LinesFound(chunk).value else 0
  }

  /** What a block adds to `covered_lines`. */
  function Hit(chunk: string): nat {
    if Counted(chunk) then LinesHit(chunk).value else 0
  }

  /** What a block appends to `file_stats`: one entry when it is counted and names a file. */
  function Entry(chunk: string): seq<FileStat> {
    if Counted(chunk) && SourceFile(chunk).Some? then
      var lf, lh := LinesFound(chunk).value, LinesHit(chunk).value;
      [FileStat(Strip(SourceFile(chunk).value.group), lf, lh, Percent(lf, lh))]
    else []
  }

  /** The sum of `f` over the blocks `cs`, taken in order. */
  function SumOver(cs: seq<string>, f: string -> nat): nat {
    if cs == [] then 0 else SumOver(cs[..|cs| - 1], f) + f(cs[|cs| - 1])
  }

  /** The concatenation of `f` over the blocks `cs`, taken in order. */
  function ConcatOver(cs: seq<string>, f: string -> seq<FileStat>): seq<FileStat> {
    if cs == [] then [] else ConcatOver(cs[..|cs| - 1], f) + f(cs[|cs| - 1])
  }

  lemma {:induction false} SumOverConcat(a: seq<string>, b: seq<string>, f: string -> nat)
    ensures SumOver(a + b, f) == SumOver(a, f) + SumOver(b, f)
    decreases |b|
  {
    if b == [] {
      assert a + b == a;
    } else {
      assert (a + b)[..|a + b| - 1] == a + b[..|b| - 1];
      SumOverConcat(a, b[..|b| - 1], f);
    }
  }

  lemma {:induction false} ConcatOverConcat(a: seq<string>, b: seq<string>, f: string -> seq<FileStat>)
    ensures ConcatOver(a + b, f) == ConcatOver(a, f) + ConcatOver(b, f)
    decreases |b|
  {
    if b == [] {
      assert a + b == a;
    } else {
      assert (a + b)[..|a + b| - 1] == a + b[..|b| - 1];
      ConcatOverConcat(a, b[..|b| - 1], f);
    }
  }

  /** `total_lines` after the blocks `cs`. */
  function TotalLines(cs: seq<string>): nat {
    SumOver(cs, Found)
  }

  /** `covered_lines` after the blocks `cs`. */
  function CoveredLines(cs: seq<string>): nat {
    SumOver(cs, Hit)
  }

  /** `file_stats` after the blocks `cs`. */
  function FileStats(cs: seq<string>): seq<FileStat> {
    ConcatOver(cs, Entry)
  }

  lemma PrefixStep(cs: seq<string>, n: nat)
    requires n < |cs|
    ensures TotalLines(cs[..n + 1]) == TotalLines(cs[..n]) + Found(cs[n])
    ensures CoveredLines(cs[..n + 1]) == CoveredLines(cs[..n]) + Hit(cs[n])
    ensures FileStats(cs[..n + 1]) == FileStats(cs[..n]) + Entry(cs[n])
  {
    assert cs[..n + 1][..n] == cs[..n];
  }

  /**
   * The parse-and-accumulate loop: one pass over the blocks of `text` that
   * adds every counted block's `LF:` and `LH:` values to the totals and
   * appends an entry for every counted block that names a source file.
   */
  method Aggregate(text: string) returns (totalLines: nat, coveredLines: nat, fileStats: seq<FileStat>)
    ensures totalLines == TotalLines(Chunks(text))
    ensures coveredLines == CoveredLines(Chunks(text))
    ensures fileStats == FileStats(Chunks(text))
  {
    var chunks := Chunks(text);
    totalLines, coveredLines, fileStats := 0, 0, [];
    for n := 0 to |chunks|
      invariant totalLines == TotalLines(chunks[..n])
      invariant coveredLines == CoveredLines(chunks[..n])
      invariant fileStats == FileStats(chunks[..n])
    {
      var chunk := chunks[n];
      PrefixStep(chunks, n);
      if IsBlank(chunk) {
        assert !Counted(chunk);
        continue;
      }
      var fileMatch := SourceFile(chunk);
      var lfMatch := LinesFound(chunk);
      var lhMatch := LinesHit(chunk);
      if lfMatch.Some? && lhMatch.Some? {
        var lfValue, lhValue := lfMatch.value, lhMatch.value;
        assert Found(chunk) == lfValue && Hit(chunk) == lhValue;
        totalLines := totalLines + lfValue;
        coveredLines := coveredLines + lhValue;
        if fileMatch.Some? {
          var filename := Strip(fileMatch.value.group);
          var pct := Percent(lfValue, lhValue);
          fileStats := fileStats + [FileStat(filename, lfValue, lhValue, pct)];
        }
      }
    }
    assert chunks[..|chunks|] == chunks;
  }

  /**
   * The whole program after the tracefile has been read: aggregate, fail with
   * NoCoverageData when no line was found, otherwise compute the overall
   * percentage, stable-sort `file_stats` by percentage and list the first
   * fifteen entries.
   */
  method Summarize(text: string) returns (r: Result<Report, Error>)
    ensures r.Failure? <==> TotalLines(Chunks(text)) == 0
    ensures r.Failure? ==> r.error == NoCoverageData
    ensures r.Success? ==>
      && r.value.totalLines == TotalLines(Chunks(text))
      && r.value.coveredLines == CoveredLines(Chunks(text))
      && r.value.coverage == Percent(r.value.totalLines, r.value.coveredLines)
    ensures r.Success? ==>
      && SortedByPct(r.value.ranked)
      && SameTies(r.value.ranked, FileStats(Chunks(text)))
      && multiset(r.value.ranked) == multiset(FileStats(Chunks(text)))
    ensures r.Success? ==>
      && |r.value.listed| == (if |r.value.ranked| < MaxListed then |r.value.ranked| else MaxListed)
      && r.value.listed == r.value.ranked[..|r.value.listed|]
  {
    var totalLines, coveredLines, fileStats := Aggregate(text);
    if totalLines == 0 {
      return Failure(NoCoverageData);
    }
    var coverage := Percent(totalLines, coveredLines);
    var a := new FileStat[|fileStats|](i requires 0 <= i < |fileStats| => fileStats[i]);
    assert a[..] == fileStats;
    SortByPct(a);
    var ranked := a[..];
    var listed := ranked[..if |ranked| < MaxListed then |ranked| else MaxListed];
    r := Success(Report(totalLines, coveredLines, coverage, ranked, listed));
  }

  /** Totals and entries of consecutive runs of blocks add up. */
  lemma TotalsOfConcat(a: seq<string>, b: seq<string>)
    ensures TotalLines(a + b) == TotalLines(a) + TotalLines(b)
    ensures CoveredLines(a + b) == CoveredLines(a) + CoveredLines(b)
    ensures FileStats(a + b) == FileStats(a) + FileStats(b)
  {
    SumOverConcat(a, b, Found);
    SumOverConcat(a, b, Hit);
    ConcatOverConcat(a, b, Entry);
  }

  /** What a single block contributes. */
  lemma SingleBlock(c: string)
    ensures TotalLines([c]) == Found(c)
    ensures CoveredLines([c]) == Hit(c)
    ensures FileStats([c]) == Entry(c)
  {
    assert [c][..0] == [];
    assert FileStats([c]) == ConcatOver([], Entry) + Entry(c);
    assert TotalLines([c]) == SumOver([], Found) + Found(c);
    assert CoveredLines([c]) == SumOver([], Hit) + Hit(c);
  }

  /**
   * A block that is blank, or lacks an `LF:` or an `LH:` count, changes
   * neither total and adds no entry, wherever it stands.
   */
  lemma UncountedChunkIgnored(a: seq<string>, c: string, b: seq<string>)
    requires !Counted(c)
    ensures TotalLines(a + [c] + b) == TotalLines(a + b)
    ensures CoveredLines(a + [c] + b) == CoveredLines(a + b)
    ensures FileStats(a + [c] + b) == FileStats(a + b)
  {
    assert Found(c) == 0 && Hit(c) == 0 && Entry(c) == [];
    SingleBlock(c);
    TotalsOfConcat(a + [c], b);
    TotalsOfConcat(a, [c]);
    TotalsOfConcat(a, b);
    assert FileStats(a + [c]) == FileStats(a);
  }

  /**
   * A block with both counts but no `SF:` line adds its counts to the totals,
   * wherever it stands, but no entry.
   */
  lemma UnnamedChunkCountsOnly(a: seq<string>, c: string, b: seq<string>)
    requires Counted(c) && SourceFile(c).None?
    ensures TotalLines(a + [c] + b) == TotalLines(a + b) + LinesFound(c).value
    ensures CoveredLines(a + [c] + b) == CoveredLines(a + b) + LinesHit(c).value
    ensures FileStats(a + [c] + b) == FileStats(a + b)
  {
    assert Entry(c) == [];
    SingleBlock(c);
    TotalsOfConcat(a + [c], b);
    TotalsOfConcat(a, [c]);
    TotalsOfConcat(a, b);
    assert FileStats(a + [c]) == FileStats(a);
  }

  /** The number of counted blocks. */
  function NumCounted(cs: seq<string>): nat {
    SumOver(cs, CountOne)
  }

  function CountOne(chunk: string): nat {
    if Counted(chunk) then 1 else 0
  }

  /** Every counted block also names a source file. */
  predicate AllNamed(cs: seq<string>) {
    forall k :: 0 <= k < |cs| && Counted(cs[k]) ==> SourceFile(cs[k]).Some?
  }

  /** Lines found, summed over entries. */
  function EntriesFound(stats: seq<FileStat>): nat {
    if stats == [] then 0 else EntriesFound(stats[..|stats| - 1]) + stats[|stats| - 1].linesFound
  }

  /** Lines hit, summed over entries. */
  function EntriesHit(stats: seq<FileStat>): nat {
    if stats == [] then 0 else EntriesHit(stats[..|stats| - 1]) + stats[|stats| - 1].linesHit
  }

  lemma EntriesSumsAppend(stats: seq<FileStat>, more: seq<FileStat>)
    requires |more| <= 1
    ensures EntriesFound(stats + more) == EntriesFound(stats) + EntriesFound(more)
    ensures EntriesHit(stats + more) == EntriesHit(stats) + EntriesHit(more)
  {
    if more == [] {
      assert stats + more == stats;
    } else {
      assert (stats + more)[..|stats + more| - 1] == stats;
      assert more[..0] == [];
    }
  }

  /**
   * Entries come only from counted blocks, so there are at most as many
   * entries as counted blocks and their lines add up to at most the totals;
   * a block without `SF:` is the only thing that makes the difference.
   */
  lemma {:induction false} EntriesWithinTotals(cs: seq<string>)
    ensures |FileStats(cs)| <= NumCounted(cs)
    ensures EntriesFound(FileStats(cs)) <= TotalLines(cs)
    ensures EntriesHit(FileStats(cs)) <= CoveredLines(cs)
    ensures AllNamed(cs) ==>
      && |FileStats(cs)| == NumCounted(cs)
      && EntriesFound(FileStats(cs)) == TotalLines(cs)
      && EntriesHit(FileStats(cs)) == CoveredLines(cs)
  {
    if cs != [] {
      var init, c := cs[..|cs| - 1], cs[|cs| - 1];
      EntriesWithinTotals(init);
      assert FileStats(cs) == FileStats(init) + Entry(c);
      assert TotalLines(cs) == TotalLines(init) + Found(c);
      assert CoveredLines(cs) == CoveredLines(init) + Hit(c);
      assert NumCounted(cs) == NumCounted(init) + CountOne(c);
      EntriesSumsAppend(FileStats(init), Entry(c));
      EntryWithinBlock(c);
      assert AllNamed(cs) ==> AllNamed(init) && (Counted(c) ==> SourceFile(c).Some?) by {
        if AllNamed(cs) {
          forall k | 0 <= k < |init| && Counted(init[k]) ensures SourceFile(init[k]).Some? {
            assert init[k] == cs[k];
          }
          assert Counted(cs[|cs| - 1]) ==> SourceFile(cs[|cs| - 1]).Some?;
        }
      }
    }
  }

  /** A block's entry, if any, carries exactly the block's counts. */
  lemma EntryWithinBlock(c: string)
    ensures |Entry(c)| == (if Counted(c) && SourceFile(c).Some? then 1 else 0)
    ensures |Entry(c)| <= CountOne(c)
    ensures EntriesFound(Entry(c)) == (if Entry(c) == [] then 0 else Found(c))
    ensures EntriesHit(Entry(c)) == (if Entry(c) == [] then 0 else Hit(c))
  {
    if Entry(c) != [] {
      assert Entry(c)[..0] == [];
    }
  }

  /**
   * `total_lines` is zero exactly when every counted block reports `LF:0`,
   * which includes the case of no counted block at all.
   */
  lemma {:induction false} ZeroTotalIff(cs: seq<string>)
    ensures TotalLines(cs) == 0 <==>
      forall k :: 0 <= k < |cs| && Counted(cs[k]) ==> LinesFound(cs[k]) == Some(0)
  {
    if cs != [] {
      var init := cs[..|cs| - 1];
      ZeroTotalIff(init);
      forall k | 0 <= k < |init| ensures init[k] == cs[k] { }
    }
  }

  /**
   * The entry of a block holds the block's own counts, its percentage is
   * Percent of those counts, and its name is the stripped `SF:` text: free of
   * newlines and of surrounding whitespace.
   */
  lemma EntryShape(c: string)
    requires Entry(c) != []
    ensures var e := Entry(c)[0];
      && Counted(c) && SourceFile(c).Some?
      && LinesFound(c) == Some(e.linesFound) && LinesHit(c) == Some(e.linesHit)
      && e.pct == Percent(e.linesFound, e.linesHit)
      && e.name == Strip(SourceFile(c).value.group)
      && Strip(e.name) == e.name
      && forall j :: 0 <= j < |e.name| ==> e.name[j] != '\n'
  {
    var g := SourceFile(c).value.group;
    var name := Strip(g);
    StripIdempotent(g);
    forall j | 0 <= j < |name| ensures name[j] != '\n' {
      assert name[j] == g[LeadingSpaces(g) + j];
      assert Accepts(AnyButNewline, g[LeadingSpaces(g) + j]);
    }
  }

  /** Every entry of `file_stats` comes from a counted block that names a file, and has its shape. */
  lemma {:induction false} EntriesFromBlocks(cs: seq<string>, k: nat)
    requires k < |FileStats(cs)|
    ensures exists i :: 0 <= i < |cs| && Entry(cs[i]) == [FileStats(cs)[k]]
    ensures var e := FileStats(cs)[k];
      && e.pct == Percent(e.linesFound, e.linesHit)
      && Strip(e.name) == e.name
      && forall j :: 0 <= j < |e.name| ==> e.name[j] != '\n'
  {
    var init, c := cs[..|cs| - 1], cs[|cs| - 1];
    assert FileStats(cs) == FileStats(init) + Entry(c);
    var e := FileStats(cs)[k];
    if k < |FileStats(init)| {
      assert e == FileStats(init)[k];
      EntriesFromBlocks(init, k);
      var i :| 0 <= i < |init| && Entry(init[i]) == [e];
      assert cs[i] == init[i];
    } else {
      assert Entry(c) == [e] by {
        EntryWithinBlock(c);
      }
      assert Entry(cs[|cs| - 1]) == [e];
      EntryShape(c);
    }
  }

  /**
   * Two tracefiles written one after the other, the first ended by
   * `end_of_record`, summarise to the sums of their totals and the
   * concatenation of their entries.
   */
  lemma ConcatenatedTracefiles(t: string, y: string)
    ensures TotalLines(Chunks(t + Delimiter + y)) == TotalLines(Chunks(t)) + TotalLines(Chunks(y))
    ensures CoveredLines(Chunks(t + Delimiter + y)) == CoveredLines(Chunks(t)) + CoveredLines(Chunks(y))
    ensures FileStats(Chunks(t + Delimiter + y)) == FileStats(Chunks(t)) + FileStats(Chunks(y))
  {
    DelimiterNoSelfOverlap();
    SplitConcat(t, Delimiter, y);
    TotalsOfConcat(Chunks(t), Chunks(y));
  }

  /** Whitespace contains no `end_of_record`, so it is a single block. */
  lemma BlankIsOneChunk(ws: string)
    requires IsBlank(ws)
    ensures Chunks(ws) == [ws]
  {
    forall i: nat | i <= |ws| ensures !OccursAt(ws, Delimiter, i) {
      if i + |Delimiter| <= |ws| {
        assert ws[i..i + |Delimiter|][0] == ws[i];
        assert IsSpace(ws[i]) && !IsSpace(Delimiter[0]);
      }
    }
    FindFromLeftmost(ws, Delimiter, 0);
    assert FindFrom(ws, Delimiter, 0).None?;
  }

  /**
   * Whatever whitespace follows the last `end_of_record` (the trailing
   * fragment of the split) changes neither total nor the entries.
   */
  lemma TrailingFragmentIgnored(t: string, ws: string)
    requires IsBlank(ws)
    ensures TotalLines(Chunks(t + Delimiter + ws)) == TotalLines(Chunks(t))
    ensures CoveredLines(Chunks(t + Delimiter + ws)) == CoveredLines(Chunks(t))
    ensures FileStats(Chunks(t + Delimiter + ws)) == FileStats(Chunks(t))
  {
    ConcatenatedTracefiles(t, ws);
    BlankIsOneChunk(ws);
    assert !Counted(ws);
    assert Found(ws) == 0 && Hit(ws) == 0 && Entry(ws) == [];
    SingleBlock(ws);
  }

  /** The `LF:` line of a record, with the newline that ends the line before it. */
  function LfLine(lf: nat): string {
    "\n" + ("LF:" + Decimal(lf))
  }

  /** The `LH:` line of a record, with the newline before it, its own newline and whatever follows. */
  function LhLine(lh: nat, tail: string): string {
    "\n" + ("LH:" + (Decimal(lh) + ("\n" + tail)))
  }

  /**
   * One record block as `lcov` writes it: the lines before the `SF:` line
   * (`lead`, such as `TN:` and its newline), the `SF:` line naming the source
   * file, any further lines `mid` (`FN:`, `DA:`, ...), the `LF:` and `LH:`
   * lines, and whatever follows.
   */
  function RecordBlock(lead: string, name: string, mid: string, lf: nat, lh: nat, tail: string): string {
    lead + "SF:" + name + mid + LfLine(lf) + LhLine(lh, tail)
  }

  /**
   * The conditions under which the three searches find the record's own
   * fields: the `SF:` line starts a line and nothing before it holds any of
   * the three prefixes, the file name is a non-empty single line, and neither
   * it nor the further lines hold an `LF:` or `LH:`.
   */
  predicate WellFormedRecord(lead: string, name: string, mid: string) {
    && (lead == [] || lead[|lead| - 1] == '\n')
    && Free(lead, "SF:") && Free(lead, "LF:") && Free(lead, "LH:")
    && name != [] && (forall k :: 0 <= k < |name| ==> name[k] != '\n')
    && Free(name, "LF:") && Free(name, "LH:")
    && (mid == [] || mid[0] == '\n') && Free(mid, "LF:") && Free(mid, "LH:")
  }

  lemma Assoc(a: string, b: string, c: string)
    ensures a + b + c == a + (b + c)
  {
  }

  /** A tag that cannot start a count prefix at any of its positions. */
  lemma TagCannotStart(tag: string, p: string)
    requires p == "LF:" || p == "LH:"
    requires tag == "\n" || tag == "SF:" || (tag == "LF:" && p == "LH:")
    ensures |tag| <= |p| && forall i :: 0 <= i < |tag| ==> !(tag[i..] <= p)
  {
    forall i | 0 <= i < |tag| ensures !(tag[i..] <= p) {
      if tag == "LF:" && i == 0 {
        assert tag[i..][1] != p[1];
      } else {
        assert tag[i..][0] == tag[i] != p[0];
      }
    }
  }

  /** Neither count prefix occurs in the part of a record before its `LF:` line. */
  lemma HeadFree(lead: string, name: string, mid: string, p: string)
    requires p == "LF:" || p == "LH:"
    requires lead == [] || lead[|lead| - 1] == '\n'
    requires Free(lead, p) && Free(name, p) && Free(mid, p) && (mid == [] || mid[0] == '\n')
    ensures Free(lead + "SF:" + name + mid, p)
  {
    TagCannotStart("SF:", p);
    FreeJoin(name, mid, p);
    FreeAfterTag("SF:", name + mid, p);
    FreeJoin(lead, "SF:" + (name + mid), p);
    Assoc("SF:", name, mid);
    Assoc(lead, "SF:" + name, mid);
    Assoc(lead, "SF:", name);
  }

  /** Text free of a count prefix stays free of it when a newline is added at its end. */
  lemma FreeWithNewline(a: string, p: string)
    requires p == "LF:" || p == "LH:"
    requires Free(a, p)
    ensures Free(a + "\n", p) && (a + "\n")[|a + "\n"| - 1] == '\n'
  {
    FreeOfFirst("\n", p);
    FreeJoin(a, "\n", p);
  }

  /** The `SF:` search on a record block finds the record's file name. */
  lemma RecordSourceFile(lead: string, name: string, mid: string, lf: nat, lh: nat, tail: string)
    requires WellFormedRecord(lead, name, mid)
    ensures SourceFile(RecordBlock(lead, name, mid, lf, lh, tail)) == Some(Match(|lead|, name))
  {
    var line := lead + "SF:" + name;
    var rest := mid + LfLine(lf) + LhLine(lh, tail);
    assert rest[0] == '\n' by {
      if mid == [] {
        assert rest[0] == LfLine(lf)[0];
      } else {
        assert rest[0] == mid[0];
      }
    }
    FieldAfterLine(lead, "SF:", name, rest, AnyButNewline);
    Assoc(line, mid, LfLine(lf));
    Assoc(line, mid + LfLine(lf), LhLine(lh, tail));
  }

  /** The `LF:` search on a record block reads back the record's lines found. */
  lemma RecordLinesFound(lead: string, name: string, mid: string, lf: nat, lh: nat, tail: string)
    requires WellFormedRecord(lead, name, mid)
    ensures LinesFound(RecordBlock(lead, name, mid, lf, lh, tail)) == Some(lf)
  {
    var head := lead + "SF:" + name + mid;
    var ds := Decimal(lf);
    HeadFree(lead, name, mid, "LF:");
    FreeWithNewline(head, "LF:");
    FieldAfterLine(head + "\n", "LF:", ds, LhLine(lh, tail), Digit);
    Assoc(head, "\n", "LF:" + ds);
    Assoc(head + "\n", "LF:", ds);
    DecimalRoundTrip(lf);
  }

  /** The `LH:` search on a record block reads back the record's lines hit. */
  lemma RecordLinesHit(lead: string, name: string, mid: string, lf: nat, lh: nat, tail: string)
    requires WellFormedRecord(lead, name, mid)
    ensures LinesHit(RecordBlock(lead, name, mid, lf, lh, tail)) == Some(lh)
  {
    var p, ds := "LH:", Decimal(lf);
    var head := lead + "SF:" + name + mid;
    HeadFree(lead, name, mid, p);
    FreeOfFirst(ds, p);
    TagCannotStart("LF:", p);
    TagCannotStart("\n", p);
    FreeAfterTag("LF:", ds, p);
    FreeAfterTag("\n", "LF:" + ds, p);
    FreeJoin(head, LfLine(lf), p);
    var head' := head + LfLine(lf);
    var hs := Decimal(lh);
    FreeWithNewline(head', p);
    FieldAfterLine(head' + "\n", p, hs, "\n" + tail, Digit);
    Assoc(head', "\n", p + (hs + ("\n" + tail)));
    Assoc(head' + "\n", p, hs + ("\n" + tail));
    Assoc(head' + "\n" + p, hs, "\n" + tail);
    DecimalRoundTrip(lh);
  }

  /** A non-blank block whose three searches succeed is counted and gives one entry with those values. */
  lemma CountedNamed(c: string, m: Match, lf: nat, lh: nat)
    requires !IsBlank(c) && SourceFile(c) == Some(m) && LinesFound(c) == Some(lf) && LinesHit(c) == Some(lh)
    ensures Counted(c) && Found(c) == lf && Hit(c) == lh
    ensures Entry(c) == [FileStat(Strip(m.group), lf, lh, Percent(lf, lh))]
  {
  }

  /**
   * A well-formed record block is parsed back to what was written: it counts
   * towards both totals with its own `LF:` and `LH:` values, and yields one
   * entry for its stripped file name with Percent of those values.
   */
  lemma RecordRoundTrip(lead: string, name: string, mid: string, lf: nat, lh: nat, tail: string)
    requires WellFormedRecord(lead, name, mid)
    ensures var c := RecordBlock(lead, name, mid, lf, lh, tail);
      && Counted(c) && Found(c) == lf && Hit(c) == lh
      && Entry(c) == [FileStat(Strip(name), lf, lh, Percent(lf, lh))]
  {
    var c := RecordBlock(lead, name, mid, lf, lh, tail);
    assert !IsBlank(c) by {
      assert c[|lead|] == 'S';
    }
    RecordSourceFile(lead, name, mid, lf, lh, tail);
    RecordLinesFound(lead, name, mid, lf, lh, tail);
    RecordLinesHit(lead, name, mid, lf, lh, tail);
    CountedNamed(c, Match(|lead|, name), lf, lh);
  }

  /** Text without `end_of_record` in it is a single block. */
  lemma ChunkAlone(c: string)
    requires Free(c, Delimiter)
    ensures Chunks(c) == [c]
  {
    FindFromLeftmost(c, Delimiter, 0);
    SplitNone(c, Delimiter);
  }

  /**
   * A well-formed record block without `end_of_record` in it is a block of its
   * own, counted with its `LF:` and `LH:` values and giving one entry.
   */
  lemma RecordChunk(lead: string, name: string, mid: string, lf: nat, lh: nat, tail: string)
    requires WellFormedRecord(lead, name, mid)
    requires Free(RecordBlock(lead, name, mid, lf, lh, tail), Delimiter)
    ensures var c := RecordBlock(lead, name, mid, lf, lh, tail);
      && Chunks(c) == [c]
      && TotalLines(Chunks(c)) == lf
      && CoveredLines(Chunks(c)) == lh
      && FileStats(Chunks(c)) == [FileStat(Strip(name), lf, lh, Percent(lf, lh))]
  {
    var c := RecordBlock(lead, name, mid, lf, lh, tail);
    ChunkAlone(c);
    SingleBlock(c);
    RecordRoundTrip(lead, name, mid, lf, lh, tail);
  }

  /**
   * A tracefile holding one well-formed record, ended by `end_of_record` and
   * a final newline or other whitespace, summarises to that record's counts
   * and one entry for it.
   */
  lemma SingleRecordTracefile(lead: string, name: string, mid: string, lf: nat, lh: nat, tail: string, ws: string)
    requires WellFormedRecord(lead, name, mid) && IsBlank(ws)
    requires Free(RecordBlock(lead, name, mid, lf, lh, tail), Delimiter)
    ensures var text := RecordBlock(lead, name, mid, lf, lh, tail) + Delimiter + ws;
      && TotalLines(Chunks(text)) == lf
      && CoveredLines(Chunks(text)) == lh
      && FileStats(Chunks(text)) == [FileStat(Strip(name), lf, lh, Percent(lf, lh))]
  {
    TrailingFragmentIgnored(RecordBlock(lead, name, mid, lf, lh, tail), ws);
    RecordChunk(lead, name, mid, lf, lh, tail);
  }

  /**
   * Two blocks without `end_of_record` in them, each ended by `end_of_record`
   * and followed by whitespace, add up to the sum of their counts and their
   * entries in file order.
   */
  lemma TwoBlockTracefile(c1: string, c2: string, ws: string)
    requires Free(c1, Delimiter) && Free(c2, Delimiter) && IsBlank(ws)
    ensures var cs := Chunks(c1 + Delimiter + c2 + Delimiter + ws);
      && TotalLines(cs) == Found(c1) + Found(c2)
      && CoveredLines(cs) == Hit(c1) + Hit(c2)
      && FileStats(cs) == Entry(c1) + Entry(c2)
  {
    TrailingFragmentIgnored(c1 + Delimiter + c2, ws);
    ConcatenatedTracefiles(c1, c2);
    ChunkAlone(c1);
    ChunkAlone(c2);
    SingleBlock(c1);
    SingleBlock(c2);
  }

  /**
   * The ranking of two entries: the one of lower percentage comes first, and
   * on equal percentages the one that came first stays first.
   */
  lemma RankTwo(e1: FileStat, e2: FileStat, ranked: seq<FileStat>)
    requires SortedByPct(ranked) && SameTies(ranked, [e1, e2])
    ensures ranked == if e2.pct < e1.pct then [e2, e1] else [e1, e2]
  {
    if e2.pct < e1.pct {
      SwapKeepsTies([e1, e2], 1);
      assert [e1, e2][..0] + [e2, e1] + [e1, e2][2..] == [e2, e1];
      SameTiesTransitive(ranked, [e1, e2], [e2, e1]);
      SortedWithSameTiesIsUnique(ranked, [e2, e1]);
    } else {
      SortedWithSameTiesIsUnique(ranked, [e1, e2]);
    }
  }

  /** The ranking of the entries of two single-entry blocks written one after the other. */
  lemma RankTwoBlocks(c1: string, c2: string, ws: string, e1: FileStat, e2: FileStat, ranked: seq<FileStat>)
    requires Free(c1, Delimiter) && Free(c2, Delimiter) && IsBlank(ws)
    requires Entry(c1) == [e1] && Entry(c2) == [e2]
    requires SortedByPct(ranked) && SameTies(ranked, FileStats(Chunks(c1 + Delimiter + c2 + Delimiter + ws)))
    ensures ranked == if e2.pct < e1.pct then [e2, e1] else [e1, e2]
  {
    assert FileStats(Chunks(c1 + Delimiter + c2 + Delimiter + ws)) == [e1, e2] by {
      TwoBlockTracefile(c1, c2, ws);
      assert [e1] + [e2] == [e1, e2];
    }
    RankTwo(e1, e2, ranked);
  }

  /**
   * A tracefile of two well-formed records, such as a fully covered file
   * followed by an uncovered one: the totals are the sums of their counts,
   * and the ranked list holds the two files, the less covered one first.
   */
  lemma TwoRecordTracefile(
    lead1: string, name1: string, mid1: string, lf1: nat, lh1: nat, tail1: string,
    lead2: string, name2: string, mid2: string, lf2: nat, lh2: nat, tail2: string,
    ws: string, ranked: seq<FileStat>)
    requires WellFormedRecord(lead1, name1, mid1) && WellFormedRecord(lead2, name2, mid2)
    requires Free(RecordBlock(lead1, name1, mid1, lf1, lh1, tail1), Delimiter)
    requires Free(RecordBlock(lead2, name2, mid2, lf2, lh2, tail2), Delimiter)
    requires IsBlank(ws)
    requires var text := RecordBlock(lead1, name1, mid1, lf1, lh1, tail1) + Delimiter
                         + RecordBlock(lead2, name2, mid2, lf2, lh2, tail2) + Delimiter + ws;
      SortedByPct(ranked) && SameTies(ranked, FileStats(Chunks(text)))
    ensures var text := RecordBlock(lead1, name1, mid1, lf1, lh1, tail1) + Delimiter
                        + RecordBlock(lead2, name2, mid2, lf2, lh2, tail2) + Delimiter + ws;
      && TotalLines(Chunks(text)) == lf1 + lf2
      && CoveredLines(Chunks(text)) == lh1 + lh2
    ensures var e1 := FileStat(Strip(name1), lf1, lh1, Percent(lf1, lh1));
            var e2 := FileStat(Strip(name2), lf2, lh2, Percent(lf2, lh2));
      ranked == if e2.pct < e1.pct then [e2, e1] else [e1, e2]
  {
    var c1 := RecordBlock(lead1, name1, mid1, lf1, lh1, tail1);
    var c2 := RecordBlock(lead2, name2, mid2, lf2, lh2, tail2);
    var e1 := FileStat(Strip(name1), lf1, lh1, Percent(lf1, lh1));
    var e2 := FileStat(Strip(name2), lf2, lh2, Percent(lf2, lh2));
    RecordRoundTrip(lead1, name1, mid1, lf1, lh1, tail1);
    RecordRoundTrip(lead2, name2, mid2, lf2, lh2, tail2);
    TwoBlockTracefile(c1, c2, ws);
    RankTwoBlocks(c1, c2, ws, e1, e2, ranked);
  }
}
