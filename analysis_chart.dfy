/**
  The findings chart: `countFindings` buckets the findings of one record
  into the three bars of the chart (valid, warning, error), and the chart
  data holds one row of counts per record, SPF, DKIM and DMARC, in that
  order.
 */
module AnalysisChart {
  import opened Types
  import opened DnsAnalyzer

  /** The three bars of the chart. */
  datatype Bar = ValidBar | WarningBar | ErrorBar

  /** Which bar a finding of kind `k` is counted on: info counts as valid,
      and invalid counts as an error. */
  predicate OnBar(k: FindingKind, b: Bar)
  {
    match b
    case ValidBar => k == Valid || k == Info
    case WarningBar => k == Warning
    case ErrorBar => k == Error || k == Invalid
  }

  /** The number of findings counted on bar `b`. */
  function Tally(findings: seq<Finding>, b: Bar): (n: nat)
    ensures n <= |findings|
  {
    if |findings| == 0 then 0
    else Tally(findings[..|findings| - 1], b) + (if OnBar(findings[|findings| - 1].kind, b) then 1 else 0)
  }

  /** The counts of one chart row. */
  datatype Counts = Counts(valid: nat, warning: nat, error: nat)

  /** The counts of the three bars; every finding is on exactly one. */
  function Tallies(findings: seq<Finding>): (c: Counts)
    ensures c.valid + c.warning + c.error == |findings|
  {
    TalliesPartition(findings);
    Counts(Tally(findings, ValidBar), Tally(findings, WarningBar), Tally(findings, ErrorBar))
  }

  /** `countFindings`: one pass over the findings with three counters, each
      finding tested against all three bars. */
  method CountFindings(findings: seq<Finding>) returns (c: Counts)
    ensures c == Tallies(findings)
    ensures c.valid + c.warning + c.error == |findings|
    ensures findings == [] ==> c == Counts(0, 0, 0)
  {
    var valid, warning, error := 0, 0, 0;
    for i := 0 to |findings|
      invariant valid == Tally(findings[..i], ValidBar)
      invariant warning == Tally(findings[..i], WarningBar)
      invariant error == Tally(findings[..i], ErrorBar)
    {
      assert findings[..i + 1][..i] == findings[..i];
      var kind := findings[i].kind;
      if kind == Valid || kind == Info {
        valid := valid + 1;
      }
      if kind == Warning {
        warning := warning + 1;
      }
      if kind == Error || kind == Invalid {
        error := error + 1;
      }
    }
    assert findings[..|findings|] == findings;
    c := Counts(valid, warning, error);
  }

  /** Every finding is counted on exactly one bar, so the three counts add
      up to the number of findings. */
  lemma {:induction false} TalliesPartition(findings: seq<Finding>)
    ensures Tally(findings, ValidBar) + Tally(findings, WarningBar) + Tally(findings, ErrorBar) == |findings|
    decreases |findings|
  {
    if |findings| > 0 {
      TalliesPartition(findings[..|findings| - 1]);
    }
  }

  /** Counting a list put together is adding the counts of its parts. */
  lemma {:induction false} TallyConcat(xs: seq<Finding>, ys: seq<Finding>, b: Bar)
    ensures Tally(xs + ys, b) == Tally(xs, b) + Tally(ys, b)
    decreases |ys|
  {
    if |ys| == 0 {
      assert xs + ys == xs;
    } else {
      var n := |ys| - 1;
      assert (xs + ys)[..|xs + ys| - 1] == xs + ys[..n];
      TallyConcat(xs, ys[..n], b);
    }
  }

  /** One finding is counted once, on the bar of its kind. */
  lemma TallyOne(f: Finding, b: Bar)
    ensures Tally([f], b) == if OnBar(f.kind, b) then 1 else 0
  {
    assert [f][..0] == [];
  }

  /** The counts do not depend on the order of the findings. */
  lemma {:induction false} TallyPermutation(xs: seq<Finding>, ys: seq<Finding>, b: Bar)
    requires multiset(xs) == multiset(ys)
    ensures Tally(xs, b) == Tally(ys, b)
    decreases |xs|
  {
    if |xs| > 0 {
      var n := |xs| - 1;
      var last := xs[n];
      assert xs == xs[..n] + [last];
      assert last in multiset(ys);
      var j :| 0 <= j < |ys| && ys[j] == last;
      assert ys == ys[..j] + [last] + ys[j + 1..];
      var rest := ys[..j] + ys[j + 1..];
      assert multiset(xs[..n]) == multiset(rest) by {
        assert multiset(xs) == multiset(xs[..n]) + multiset{last};
        assert multiset(ys) == multiset(rest) + multiset{last} by {
          assert multiset(ys) == multiset(ys[..j]) + multiset{last} + multiset(ys[j + 1..]);
        }
        assert multiset(xs[..n]) == multiset(xs) - multiset{last};
        assert multiset(rest) == multiset(ys) - multiset{last};
      }
      TallyPermutation(xs[..n], rest, b);
      TallyConcat(xs[..n], [last], b);
      TallyConcat(ys[..j] + [last], ys[j + 1..], b);
      TallyConcat(ys[..j], [last], b);
      TallyConcat(ys[..j], ys[j + 1..], b);
      TallyOne(last, b);
    } else {
      assert |ys| == |multiset(ys)| == 0;
    }
  }

  /** A bar is non-empty exactly when some finding is counted on it. */
  lemma {:induction false} TallyPositive(findings: seq<Finding>, b: Bar)
    ensures Tally(findings, b) > 0 <==> exists i :: 0 <= i < |findings| && OnBar(findings[i].kind, b)
    decreases |findings|
  {
    if |findings| > 0 {
      var n := |findings| - 1;
      TallyPositive(findings[..n], b);
      if exists i :: 0 <= i < n && OnBar(findings[..n][i].kind, b) {
        var i :| 0 <= i < n && OnBar(findings[..n][i].kind, b);
        assert findings[i] == findings[..n][i];
      }
      if exists i :: 0 <= i < |findings| && OnBar(findings[i].kind, b) {
        var i :| 0 <= i < |findings| && OnBar(findings[i].kind, b);
        if i < n {
          assert findings[..n][i] == findings[i];
        }
      }
    }
  }

  /** The bars agree with the record status: the error bar is non-empty
      exactly when the record is invalid; otherwise the warning bar is
      non-empty exactly when it is a warning; and all bars are empty exactly
      when the status is info. */
  lemma CountsMatchStatus(findings: seq<Finding>)
    ensures Tallies(findings).error > 0 <==> DetermineStatus(findings) == Invalid
    ensures Tallies(findings).error == 0 && Tallies(findings).warning > 0 <==>
      DetermineStatus(findings) == Warning
    ensures Tallies(findings) == Counts(0, 0, 0) <==> DetermineStatus(findings) == Info
  {
    TallyPositive(findings, ErrorBar);
    TallyPositive(findings, WarningBar);
    TalliesPartition(findings);
    forall i | 0 <= i < |findings| ensures OnBar(findings[i].kind, ErrorBar) <==> IsFailureKind(findings[i].kind) {
    }
    if exists i :: 0 <= i < |findings| && IsFailureKind(findings[i].kind) {
      var i :| 0 <= i < |findings| && IsFailureKind(findings[i].kind);
      assert findings[i] in findings;
    }
    if exists i :: 0 <= i < |findings| && findings[i].kind == Warning {
      var i :| 0 <= i < |findings| && findings[i].kind == Warning;
      assert findings[i] in findings;
    }
    forall f | f in findings ensures exists i :: 0 <= i < |findings| && findings[i] == f {
      var i :| 0 <= i < |findings| && findings[i] == f;
    }
  }

  // ---------------------------------------------------------------------------
  // chart data

  /** One row of the chart: the record name and the counts of its findings. */
  datatype ChartRow = ChartRow(record: string, counts: Counts)

  /** `chartData`: the rows for SPF, DKIM and DMARC, in that order. */
  method ChartData(result: AnalysisResult) returns (rows: seq<ChartRow>)
    ensures |rows| == 3
    ensures rows[0] == ChartRow("SPF", Tallies(result.spf.findings))
    ensures rows[1] == ChartRow("DKIM", Tallies(result.dkim.findings))
    ensures rows[2] == ChartRow("DMARC", Tallies(result.dmarc.findings))
    ensures forall k :: 0 <= k < 3 ==>
      rows[k].counts.valid + rows[k].counts.warning + rows[k].counts.error == |RowFindings(result, k)|
  {
    var spf := CountFindings(result.spf.findings);
    var dkim := CountFindings(result.dkim.findings);
    var dmarc := CountFindings(result.dmarc.findings);
    rows := [ChartRow("SPF", spf), ChartRow("DKIM", dkim), ChartRow("DMARC", dmarc)];
  }

  /** The findings behind row `k` of the chart. */
  function RowFindings(result: AnalysisResult, k: nat): seq<Finding>
    requires k < 3
  {
    if k == 0 then result.spf.findings
    else if k == 1 then result.dkim.findings
    else result.dmarc.findings
  }
}
