/**
  The rule-based checker for a domain's SPF, DMARC and DKIM TXT records.

  Each analyzer issues one TXT lookup, keeps the strings that start with its
  record's version tag, applies a fixed list of substring rules and reports
  the record it found, the findings, and a status reduced from the findings.
  The lookup is a `Resolver` parameter: what `resolveTxt` settles to for a
  query name, either the chunks of every TXT record or a rejection with an
  error code and message.

  Each analyzer appears twice: a specification function (`SpfAnalysis`, ...)
  that states the outcome declaratively, and a method (`AnalyzeSpf`, ...)
  that builds the findings step by step as the source does and is proved to
  produce exactly that outcome.
 */
module DnsAnalyzer {
  import opened Text
  import opened Types

  // ---------------------------------------------------------------------------
  // The lookup

  /** The `code` of a rejected TXT lookup; every code the analyzers do not
      single out is `OtherCode`. */
  datatype DnsErrorCode = ENotFound | ENoData | EServFail | OtherCode

  /** What a TXT lookup settles to: the chunks of each TXT record, or the
      error it is rejected with. */
  datatype DnsResult =
    | Answer(records: seq<seq<string>>)
    | Failure(code: DnsErrorCode, message: string)

  /** The TXT lookup, as a function from query name to result. */
  type Resolver = string -> DnsResult

  /** The codes the analyzers read as "the name or the record does not exist". */
  predicate IsAbsence(code: DnsErrorCode)
  {
    code == ENotFound || code == ENoData || code == EServFail
  }

  // ---------------------------------------------------------------------------
  // determineStatus

  predicate IsFailureKind(k: FindingKind)
  {
    k == Error || k == Invalid
  }

  /** Reduces findings to a status: a failure finding wins, then a warning;
      any other non-empty list is valid, and the empty list is info. */
  function DetermineStatus(findings: seq<Finding>): (status: RecordStatus)
    ensures status == Info <==> findings == []
  {
    if exists f :: f in findings && IsFailureKind(f.kind) then Invalid
    else if exists f :: f in findings && f.kind == Warning then Warning
    else if |findings| > 0 then Valid
    else Info
  }

  /** The record analysis built from a record and its findings. */
  function Analysis(record: Option<string>, findings: seq<Finding>): RecordAnalysis
  {
    RecordAnalysis(record, DetermineStatus(findings), findings)
  }

  /** What every analyzer output satisfies: at least one finding documents
      the outcome, and the status is the one reduced from the findings. */
  ghost predicate WellFormed(a: RecordAnalysis)
  {
    |a.findings| > 0 && a.status == DetermineStatus(a.findings) && a.status != Info
  }

  // ---------------------------------------------------------------------------
  // SPF (RFC 7208: record selection in section 4.5, qualifiers in 4.6.2, `all` in 5.1)

  const SpfPrefix := "v=spf1 "

  const NoSpfMessage := "No SPF record found."
  const MultipleSpfMessage := "Multiple SPF records found. Only one is allowed."
  const SpfFoundMessage := "SPF record found."
  const FailAllMessage := "SPF record has a \"-all\" (fail) mechanism, which is good practice."
  const SoftFailAllMessage := "SPF record uses \"~all\" (softfail). Consider using \"-all\" for a stricter policy."
  const NeutralAllMessage := "SPF record uses \"?all\" (neutral). Consider using \"-all\" for a stricter policy."
  const PassAllMessage := "SPF record uses \"+all\", which allows any server to send email from your domain. This is a major security risk."
  const NoAllMessage := "SPF record does not have an \"all\" mechanism. It is recommended to end with one (e.g., \"~all\" or \"-all\")."
  const NoTxtMessage := "No TXT records found for the domain."

  function DnsFailedMessage(message: string): string
  {
    "DNS query failed: " + message
  }

  /** The strings of the answer that carry the SPF version tag. */
  function SpfRecords(records: seq<seq<string>>): seq<string>
  {
    FilterPrefix(Flatten(records), SpfPrefix)
  }

  /** The qualifiers of RFC 7208 section 4.6.2. */
  datatype Qualifier = Fail | SoftFail | Neutral | Pass

  /** The order in which the analyzer tests the qualified `all` terms. */
  const QualifierOrder: seq<Qualifier> := [Fail, SoftFail, Neutral, Pass]

  function AllTerm(q: Qualifier): string
  {
    match q
    case Fail => "-all"
    case SoftFail => "~all"
    case Neutral => "?all"
    case Pass => "+all"
  }

  /** The first qualifier of `qs` whose `all` term occurs in the record. */
  function FirstPresent(record: string, qs: seq<Qualifier>): (r: Option<Qualifier>)
  {
    if |qs| == 0 then None
    else if Contains(record, AllTerm(qs[0])) then Some(qs[0])
    else FirstPresent(record, qs[1..])
  }

  /** Searching `QualifierOrder` tests `-all`, `~all`, `?all` and `+all` in turn. */
  lemma FirstPresentInOrder(record: string)
    ensures FirstPresent(record, QualifierOrder) ==
      if Contains(record, "-all") then Some(Fail)
      else if Contains(record, "~all") then Some(SoftFail)
      else if Contains(record, "?all") then Some(Neutral)
      else if Contains(record, "+all") then Some(Pass)
      else None
  {
    var last := if Contains(record, "+all") then Some(Pass) else None;
    assert [Pass][1..] == [];
    assert FirstPresent(record, [Pass]) == last;
    assert [Neutral, Pass][1..] == [Pass];
    assert FirstPresent(record, [Neutral, Pass]) ==
      if Contains(record, "?all") then Some(Neutral) else last;
    assert [SoftFail, Neutral, Pass][1..] == [Neutral, Pass];
    assert FirstPresent(record, [SoftFail, Neutral, Pass]) ==
      if Contains(record, "~all") then Some(SoftFail)
      else if Contains(record, "?all") then Some(Neutral) else last;
    assert QualifierOrder[1..] == [SoftFail, Neutral, Pass];
  }

  /** The verdict on each qualified `all`: only `-all` is good practice,
      `+all` lets any host send. */
  function QualifierFinding(q: Qualifier): Finding
  {
    match q
    case Fail => Finding(Valid, FailAllMessage)
    case SoftFail => Finding(Warning, SoftFailAllMessage)
    case Neutral => Finding(Warning, NeutralAllMessage)
    case Pass => Finding(Error, PassAllMessage)
  }

  /** The findings about the `all` mechanism of a single SPF record. The
      test for `all` is a plain substring test, so a record that holds the
      letters `all` anywhere but no qualified `all` gets no finding here. */
  function SpfAllFindings(record: string): (r: seq<Finding>)
    ensures |r| <= 1
  {
    if !Contains(record, "all") then [Finding(Warning, NoAllMessage)]
    else match FirstPresent(record, QualifierOrder)
      case None => []
      case Some(q) => [QualifierFinding(q)]
  }

  /** The outcome of `analyzeSpf` for the result of the lookup of the domain. */
  function SpfAnalysis(result: DnsResult): (r: RecordAnalysis)
    ensures WellFormed(r)
    ensures r.record.Some? ==> result.Answer? && |SpfRecords(result.records)| > 0
  {
    match result
    case Failure(code, message) =>
      Analysis(None, [if IsAbsence(code) then Finding(Error, NoTxtMessage)
                      else Finding(Error, DnsFailedMessage(message))])
    case Answer(records) =>
      var spf := SpfRecords(records);
      if |spf| == 0 then Analysis(None, [Finding(Error, NoSpfMessage)])
      else if |spf| > 1 then Analysis(Some(Join(spf, "\n")), [Finding(Error, MultipleSpfMessage)])
      else Analysis(Some(spf[0]), [Finding(Info, SpfFoundMessage)] + SpfAllFindings(spf[0]))
  }

  /** `analyzeSpf`: looks the domain itself up. */
  method AnalyzeSpf(domain: string, resolve: Resolver) returns (analysis: RecordAnalysis)
    ensures analysis == SpfAnalysis(resolve(domain))
  {
    var findings: seq<Finding> := [];
    var record: Option<string> := None;
    match resolve(domain) {
      case Answer(records) =>
        var txtRecords := Flatten(records);
        var spfRecords := FilterPrefix(txtRecords, SpfPrefix);
        if |spfRecords| == 0 {
          findings := findings + [Finding(Error, NoSpfMessage)];
        } else if |spfRecords| > 1 {
          findings := findings + [Finding(Error, MultipleSpfMessage)];
          record := Some(Join(spfRecords, "\n"));
        } else {
          var spf := spfRecords[0];
          record := Some(spf);
          findings := findings + [Finding(Info, SpfFoundMessage)];
          FirstPresentInOrder(spf);
          if Contains(spf, "all") {
            if Contains(spf, "-all") {
              findings := findings + [Finding(Valid, FailAllMessage)];
            } else if Contains(spf, "~all") {
              findings := findings + [Finding(Warning, SoftFailAllMessage)];
            } else if Contains(spf, "?all") {
              findings := findings + [Finding(Warning, NeutralAllMessage)];
            } else if Contains(spf, "+all") {
              findings := findings + [Finding(Error, PassAllMessage)];
            }
          } else {
            findings := findings + [Finding(Warning, NoAllMessage)];
          }
          assert findings == [Finding(Info, SpfFoundMessage)] + SpfAllFindings(spf);
        }
      case Failure(code, message) =>
        if IsAbsence(code) {
          findings := findings + [Finding(Error, NoTxtMessage)];
        } else {
          findings := findings + [Finding(Error, DnsFailedMessage(message))];
        }
    }
    analysis := RecordAnalysis(record, DetermineStatus(findings), findings);
  }

  // ---------------------------------------------------------------------------
  // DMARC (RFC 7489: the `_dmarc.` name in section 6.1, the `p=` and `rua=`
  // tags in 6.3, several records in 6.6.3)

  const DmarcPrefix := "v=DMARC1"

  const NoDmarcMessage := "No DMARC record found. It is highly recommended to have a DMARC policy."
  const MultipleDmarcMessage := "Multiple DMARC records found. Only one is allowed."
  const DmarcFoundMessage := "DMARC record found."
  const MissingPolicyMessage := "DMARC record is missing a policy (p= tag)."
  const PolicyNoneMessage := "DMARC policy is \"none\". This only monitors, it does not protect against spoofing. Consider \"quarantine\" or \"reject\"."
  const PolicyQuarantineMessage := "DMARC policy is \"quarantine\"."
  const PolicyRejectMessage := "DMARC policy is \"reject\", which provides the strongest protection."
  const MissingRuaMessage := "DMARC record is missing an aggregate reporting address (rua= tag). Reporting is highly recommended."

  function DmarcQueryName(domain: string): string
  {
    "_dmarc." + domain
  }

  /** The strings of the answer that carry the DMARC version tag. */
  function DmarcRecords(records: seq<seq<string>>): seq<string>
  {
    FilterPrefix(Flatten(records), DmarcPrefix)
  }

  /** The finding about the policy captured by `/p=([^;]+)/`, if any. A
      policy other than `none`, `quarantine` or `reject` gets no finding. */
  function DmarcPolicyFindings(capture: Option<string>): (r: seq<Finding>)
    ensures |r| <= 1
    ensures capture.None? ==> r != [] && IsFailureKind(r[0].kind)
  {
    match capture
    case None => [Finding(Error, MissingPolicyMessage)]
    case Some(p) =>
      var policy := Trim(p);
      if policy == "none" then [Finding(Warning, PolicyNoneMessage)]
      else if policy == "quarantine" then [Finding(Valid, PolicyQuarantineMessage)]
      else if policy == "reject" then [Finding(Valid, PolicyRejectMessage)]
      else []
  }

  /** The finding about aggregate reporting: a warning when `rua=` occurs nowhere. */
  function DmarcReportingFindings(record: string): seq<Finding>
  {
    if Contains(record, "rua=") then [] else [Finding(Warning, MissingRuaMessage)]
  }

  /** The findings for the one DMARC record of the answer. */
  function DmarcSingleFindings(record: string): seq<Finding>
  {
    [Finding(Info, DmarcFoundMessage)] + DmarcPolicyFindings(PolicyCapture(record)) + DmarcReportingFindings(record)
  }

  /** The outcome of `analyzeDmarc` for the result of the lookup of `_dmarc.<domain>`. */
  function DmarcAnalysis(result: DnsResult): (r: RecordAnalysis)
    ensures WellFormed(r)
    ensures r.record.Some? ==> result.Answer? && |DmarcRecords(result.records)| > 0
  {
    match result
    case Failure(code, message) =>
      Analysis(None, [if IsAbsence(code) then Finding(Warning, NoDmarcMessage)
                      else Finding(Error, DnsFailedMessage(message))])
    case Answer(records) =>
      var dmarc := DmarcRecords(records);
      if |dmarc| == 0 then Analysis(None, [Finding(Warning, NoDmarcMessage)])
      else if |dmarc| > 1 then Analysis(Some(Join(dmarc, "\n")), [Finding(Error, MultipleDmarcMessage)])
      else Analysis(Some(dmarc[0]), DmarcSingleFindings(dmarc[0]))
  }

  /** `analyzeDmarc`: looks up `_dmarc.<domain>`. */
  method AnalyzeDmarc(domain: string, resolve: Resolver) returns (analysis: RecordAnalysis)
    ensures analysis == DmarcAnalysis(resolve(DmarcQueryName(domain)))
  {
    var findings: seq<Finding> := [];
    var record: Option<string> := None;
    match resolve(DmarcQueryName(domain)) {
      case Answer(records) =>
        var txtRecords := Flatten(records);
        var dmarcRecords := FilterPrefix(txtRecords, DmarcPrefix);
        if |dmarcRecords| == 0 {
          findings := findings + [Finding(Warning, NoDmarcMessage)];
        } else if |dmarcRecords| > 1 {
          findings := findings + [Finding(Error, MultipleDmarcMessage)];
          record := Some(Join(dmarcRecords, "\n"));
        } else {
          var dmarc := dmarcRecords[0];
          record := Some(dmarc);
          findings := findings + [Finding(Info, DmarcFoundMessage)];
          var policyMatch := PolicyCapture(dmarc);
          ghost var found := findings;
          assert found == [Finding(Info, DmarcFoundMessage)];
          if policyMatch.None? {
            findings := findings + [Finding(Error, MissingPolicyMessage)];
          } else {
            var policy := Trim(policyMatch.value);
            if policy == "none" {
              findings := findings + [Finding(Warning, PolicyNoneMessage)];
            } else if policy == "quarantine" {
              findings := findings + [Finding(Valid, PolicyQuarantineMessage)];
            } else if policy == "reject" {
              findings := findings + [Finding(Valid, PolicyRejectMessage)];
            }
          }
          assert findings == found + DmarcPolicyFindings(policyMatch);
          ghost var judged := findings;
          if !Contains(dmarc, "rua=") {
            findings := findings + [Finding(Warning, MissingRuaMessage)];
          }
          assert findings == judged + DmarcReportingFindings(dmarc);
          assert findings == DmarcSingleFindings(dmarc);
        }
      case Failure(code, message) =>
        if IsAbsence(code) {
          findings := findings + [Finding(Warning, NoDmarcMessage)];
        } else {
          findings := findings + [Finding(Error, DnsFailedMessage(message))];
        }
    }
    analysis := RecordAnalysis(record, DetermineStatus(findings), findings);
  }

  // ---------------------------------------------------------------------------
  // DKIM (RFC 6376: the `v=` and `p=` tags in section 3.6.1, the
  // `<selector>._domainkey.<domain>` name in 3.6.2.1)

  const DkimPrefix := "v=DKIM1"

  const MissingKeyMessage := "DKIM record is missing the public key (p= tag)."
  const KeyPresentMessage := "DKIM record seems to have a public key."

  function DkimQueryName(selector: string, domain: string): string
  {
    selector + "._domainkey." + domain
  }

  function NoDkimMessage(selector: string): string
  {
    "No DKIM record found for selector \"" + selector + "\"."
  }

  function DkimFoundMessage(selector: string): string
  {
    "DKIM record found for selector \"" + selector + "\"."
  }

  function NoDkimAtMessage(selector: string, queryDomain: string): string
  {
    "No DKIM record found for selector \"" + selector + "\" at " + queryDomain + "."
  }

  function DkimDnsFailedMessage(message: string): string
  {
    "DNS query for DKIM failed: " + message
  }

  /** The strings of the answer that carry the DKIM version tag; chunks
      without the tag are dropped, whichever TXT record they belong to. */
  function DkimRecords(records: seq<seq<string>>): seq<string>
  {
    FilterPrefix(Flatten(records), DkimPrefix)
  }

  /** The finding about the public key: `p=` anywhere in the joined record. */
  function DkimKeyFinding(record: string): Finding
  {
    if Contains(record, "p=") then Finding(Valid, KeyPresentMessage) else Finding(Error, MissingKeyMessage)
  }

  /** The outcome of `analyzeDkim` for the result of the lookup of
      `<selector>._domainkey.<domain>`. */
  function DkimAnalysis(selector: string, domain: string, result: DnsResult): (r: RecordAnalysis)
    ensures WellFormed(r)
    ensures r.record.Some? ==> result.Answer? && |DkimRecords(result.records)| > 0
  {
    match result
    case Failure(code, message) =>
      Analysis(None, [if IsAbsence(code) then Finding(Error, NoDkimAtMessage(selector, DkimQueryName(selector, domain)))
                      else Finding(Error, DkimDnsFailedMessage(message))])
    case Answer(records) =>
      var dkim := DkimRecords(records);
      if |dkim| == 0 then Analysis(None, [Finding(Error, NoDkimMessage(selector))])
      else
        var record := Join(dkim, " ");
        Analysis(Some(record), [Finding(Info, DkimFoundMessage(selector)), DkimKeyFinding(record)])
  }

  /** `analyzeDkim`: looks up `<selector>._domainkey.<domain>`. */
  method AnalyzeDkim(domain: string, selector: string, resolve: Resolver) returns (analysis: RecordAnalysis)
    ensures analysis == DkimAnalysis(selector, domain, resolve(DkimQueryName(selector, domain)))
  {
    var findings: seq<Finding> := [];
    var record: Option<string> := None;
    var queryDomain := DkimQueryName(selector, domain);
    match resolve(queryDomain) {
      case Answer(records) =>
        var txtRecords := Flatten(records);
        var dkimRecords := FilterPrefix(txtRecords, DkimPrefix);
        if |dkimRecords| == 0 {
          findings := findings + [Finding(Error, NoDkimMessage(selector))];
        } else {
          var dkim := Join(dkimRecords, " ");
          record := Some(dkim);
          findings := findings + [Finding(Info, DkimFoundMessage(selector))];
          if !Contains(dkim, "p=") {
            findings := findings + [Finding(Error, MissingKeyMessage)];
          } else {
            findings := findings + [Finding(Valid, KeyPresentMessage)];
          }
        }
      case Failure(code, message) =>
        if IsAbsence(code) {
          findings := findings + [Finding(Error, NoDkimAtMessage(selector, queryDomain))];
        } else {
          findings := findings + [Finding(Error, DkimDnsFailedMessage(message))];
        }
    }
    analysis := RecordAnalysis(record, DetermineStatus(findings), findings);
  }
}
