/**
  The server action `analyzeDomain`: it checks its two inputs, runs the
  three record analyzers, asks the vulnerability detector about the three
  records, writes a plain-text report of the records and their findings,
  asks the remediation generator for guidance on that report, and returns
  either the full result or an error message, never both.

  The two AI collaborators are parameters: each either returns a value or
  throws with a message.
 */
module Actions {
  import opened Text
  import opened Types
  import opened DnsAnalyzer

  const RequiredMessage := "Domain and DKIM selector are required."
  const UnknownErrorMessage := "An unknown error occurred during analysis."

  /** A call that may throw. */
  datatype Outcome<T> = Returned(value: T) | Threw(message: string)

  /** What the vulnerability detector is told: the three records, each
      possibly absent. */
  datatype DetectorInput = DetectorInput(spfRecord: Option<string>, dkimRecord: Option<string>, dmarcRecord: Option<string>)

  /** `detectVulnerabilities`: the vulnerabilities it finds in the records. */
  type VulnerabilityDetector = DetectorInput -> Outcome<seq<string>>

  /** `generateRemediationGuidance`: guidance for a vulnerability report. */
  type RemediationGenerator = string -> Outcome<string>

  /** The action's answer: the result or an error message. */
  datatype Response = Response(data: Option<AnalysisResult>, error: Option<string>)

  // ---------------------------------------------------------------------------
  // the findings summary

  /** `findings.map(f => `${tag}: ${f.message}`)`. */
  function Labelled(tag: string, findings: seq<Finding>): (lines: seq<string>)
    ensures |lines| == |findings|
    ensures forall i :: 0 <= i < |findings| ==> lines[i] == tag + ": " + findings[i].message
  {
    if |findings| == 0 then []
    else [tag + ": " + findings[0].message] + Labelled(tag, findings[1..])
  }

  /** All SPF lines, then all DKIM lines, then all DMARC lines, each in the
      order of its record's findings and labelled with the record type. */
  function FindingsSummary(spf: RecordAnalysis, dkim: RecordAnalysis, dmarc: RecordAnalysis): (lines: seq<string>)
    ensures |lines| == |spf.findings| + |dkim.findings| + |dmarc.findings|
    ensures forall i :: 0 <= i < |spf.findings| ==>
      lines[i] == "SPF: " + spf.findings[i].message
    ensures forall i :: 0 <= i < |dkim.findings| ==>
      lines[|spf.findings| + i] == "DKIM: " + dkim.findings[i].message
    ensures forall i :: 0 <= i < |dmarc.findings| ==>
      lines[|spf.findings| + |dkim.findings| + i] == "DMARC: " + dmarc.findings[i].message
  {
    Labelled("SPF", spf.findings) + Labelled("DKIM", dkim.findings) + Labelled("DMARC", dmarc.findings)
  }

  // ---------------------------------------------------------------------------
  // the report

  /** `record || 'Not found'`: an absent or empty record reads `Not found`. */
  function RecordText(record: Option<string>): (text: string)
    ensures text != ""
    ensures record.Some? && record.value != "" ==> text == record.value
    ensures record.None? || record.value == "" ==> text == "Not found"
  {
    if record.Some? && record.value != "" then record.value else "Not found"
  }

  /** `vulnerabilities.join(', ') || 'None'`: the comma-separated list, or
      `None` when that list is empty text (no vulnerability, or a single
      empty one). */
  function VulnerabilityText(vulnerabilities: seq<string>): (text: string)
    ensures text != ""
    ensures vulnerabilities == [] || vulnerabilities == [""] ==> text == "None"
    ensures vulnerabilities != [] && vulnerabilities != [""] ==> text == Join(vulnerabilities, ", ")
  {
    JoinEmptyIff(vulnerabilities, ", ");
    var joined := Join(vulnerabilities, ", ");
    if joined != "" then joined else "None"
  }

  /** The indentation of the report template. */
  const Indent := "      "

  /** The lines of the report template; the report is these lines joined by
      newlines, the first one empty and the last one the closing indentation. */
  function ReportLines(domain: string, dkimSelector: string, spf: RecordAnalysis, dkim: RecordAnalysis,
                       dmarc: RecordAnalysis, vulnerabilities: seq<string>): seq<string>
  {
    [ "",
      Indent + ("Domain: " + domain),
      Indent,
      Indent + ("SPF Record: " + RecordText(spf.record)),
      Indent + ("DKIM Record (" + dkimSelector + "): " + RecordText(dkim.record)),
      Indent + ("DMARC Record: " + RecordText(dmarc.record)),
      Indent,
      Indent + "Summary of findings:",
      Indent + Join(FindingsSummary(spf, dkim, dmarc), "\n"),
      Indent,
      Indent + ("Additional vulnerabilities detected by AI: " + VulnerabilityText(vulnerabilities)),
      "    " ]
  }

  /** The vulnerability report handed to the remediation generator. */
  function VulnerabilityReport(domain: string, dkimSelector: string, spf: RecordAnalysis, dkim: RecordAnalysis,
                               dmarc: RecordAnalysis, vulnerabilities: seq<string>): string
  {
    Join(ReportLines(domain, dkimSelector, spf, dkim, dmarc, vulnerabilities), "\n")
  }

  /** The joined text contains the end of each of its parts. */
  lemma JoinContainsLineEnd(lines: seq<string>, sep: string, k: nat, n: nat)
    requires k < |lines| && n <= |lines[k]|
    ensures Contains(Join(lines, sep), lines[k][n..])
  {
    JoinContainsEach(lines, sep, k);
    ContainsSlice(Join(lines, sep), lines[k], n, |lines[k]|);
    assert lines[k][n..|lines[k]|] == lines[k][n..];
  }

  /** The report names the domain, shows each record (or `Not found`), the
      selector the DKIM record was looked up with, every line of the findings
      summary, and the vulnerability list (or `None`). */
  lemma ReportMentions(domain: string, dkimSelector: string, spf: RecordAnalysis, dkim: RecordAnalysis,
                       dmarc: RecordAnalysis, vulnerabilities: seq<string>)
    ensures var report := VulnerabilityReport(domain, dkimSelector, spf, dkim, dmarc, vulnerabilities);
      && Contains(report, "Domain: " + domain)
      && Contains(report, "SPF Record: " + RecordText(spf.record))
      && Contains(report, "DKIM Record (" + dkimSelector + "): " + RecordText(dkim.record))
      && Contains(report, "DMARC Record: " + RecordText(dmarc.record))
      && (forall line :: line in FindingsSummary(spf, dkim, dmarc) ==> Contains(report, line))
      && Contains(report, "Additional vulnerabilities detected by AI: " + VulnerabilityText(vulnerabilities))
  {
    var lines := ReportLines(domain, dkimSelector, spf, dkim, dmarc, vulnerabilities);
    var summary := FindingsSummary(spf, dkim, dmarc);
    LineInReport(lines, 1, "Domain: " + domain);
    LineInReport(lines, 3, "SPF Record: " + RecordText(spf.record));
    LineInReport(lines, 4, "DKIM Record (" + dkimSelector + "): " + RecordText(dkim.record));
    LineInReport(lines, 5, "DMARC Record: " + RecordText(dmarc.record));
    LineInReport(lines, 10, "Additional vulnerabilities detected by AI: " + VulnerabilityText(vulnerabilities));
    LineInReport(lines, 8, Join(summary, "\n"));
    SummaryInReport(Join(lines, "\n"), summary);
  }

  /** A line of the report template shows its text after the indentation. */
  lemma LineInReport(lines: seq<string>, k: nat, text: string)
    requires k < |lines| && lines[k] == Indent + text
    ensures Contains(Join(lines, "\n"), text)
  {
    JoinContainsLineEnd(lines, "\n", k, |Indent|);
    assert lines[k][|Indent|..] == text;
  }

  /** A text that shows the joined summary shows each of its lines. */
  lemma SummaryInReport(report: string, summary: seq<string>)
    requires Contains(report, Join(summary, "\n"))
    ensures forall line :: line in summary ==> Contains(report, line)
  {
    forall line | line in summary ensures Contains(report, line) {
      var k :| 0 <= k < |summary| && summary[k] == line;
      JoinContainsEach(summary, "\n", k);
      ContainsTrans(report, Join(summary, "\n"), line);
    }
  }

  // ---------------------------------------------------------------------------
  // analyzeDomain

  /** `err.message || 'An unknown error occurred during analysis.'`. */
  function ErrorText(message: string): (text: string)
    ensures text != ""
    ensures message != "" ==> text == message
    ensures message == "" ==> text == UnknownErrorMessage
  {
    if message != "" then message else UnknownErrorMessage
  }

  /** `analyzeDomain`: the three analyses run one after the other (they are
      independent), and an exception from either AI call becomes the error
      message. Exactly one of `data` and `error` is present. */
  method AnalyzeDomain(domain: string, dkimSelector: string, resolve: Resolver,
                       detect: VulnerabilityDetector, remediate: RemediationGenerator)
    returns (response: Response)
    ensures response.data.Some? <==> response.error.None?
    ensures response.error.Some? ==> response.error.value != ""
    ensures domain == "" || dkimSelector == "" ==> response == Response(None, Some(RequiredMessage))
    ensures domain != "" && dkimSelector != "" ==>
      var spf := SpfAnalysis(resolve(domain));
      var dkim := DkimAnalysis(dkimSelector, domain, resolve(DkimQueryName(dkimSelector, domain)));
      var dmarc := DmarcAnalysis(resolve(DmarcQueryName(domain)));
      match detect(DetectorInput(spf.record, dkim.record, dmarc.record))
      case Threw(message) => response == Response(None, Some(ErrorText(message)))
      case Returned(vulnerabilities) =>
        match remediate(VulnerabilityReport(domain, dkimSelector, spf, dkim, dmarc, vulnerabilities))
        case Threw(message) => response == Response(None, Some(ErrorText(message)))
        case Returned(guidance) =>
          response == Response(Some(AnalysisResult(domain, dkimSelector, spf, dkim, dmarc, vulnerabilities, guidance)), None)
  {
    if domain == "" || dkimSelector == "" {
      return Response(None, Some(RequiredMessage));
    }
    var spf := AnalyzeSpf(domain, resolve);
    var dkim := AnalyzeDkim(domain, dkimSelector, resolve);
    var dmarc := AnalyzeDmarc(domain, resolve);
    var detected := detect(DetectorInput(spf.record, dkim.record, dmarc.record));
    if detected.Threw? {
      return Response(None, Some(ErrorText(detected.message)));
    }
    var report := VulnerabilityReport(domain, dkimSelector, spf, dkim, dmarc, detected.value);
    var remediation := remediate(report);
    if remediation.Threw? {
      return Response(None, Some(ErrorText(remediation.message)));
    }
    var result := AnalysisResult(domain, dkimSelector, spf, dkim, dmarc, detected.value, remediation.value);
    response := Response(Some(result), None);
  }
}
