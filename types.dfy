/**
  The shapes the analyzers exchange: one finding, the analysis of one record
  type, and the aggregate answer for one domain and one DKIM selector.
 */
module Types {
  import opened Text

  /** The kind of a finding: a record status, or `error`. */
  datatype FindingKind = Valid | Invalid | Warning | Info | Error

  /** The status of a record: every finding kind except `error`. */
  type RecordStatus = k: FindingKind | k != Error witness Info

  datatype Finding = Finding(kind: FindingKind, message: string)

  /** `record` is `null` in the source when no qualifying TXT string exists. */
  datatype RecordAnalysis = RecordAnalysis(record: Option<string>, status: RecordStatus, findings: seq<Finding>)

  datatype AnalysisResult = AnalysisResult(
    domain: string,
    dkimSelector: string,
    spf: RecordAnalysis,
    dkim: RecordAnalysis,
    dmarc: RecordAnalysis,
    vulnerabilities: seq<string>,
    remediationGuidance: string)
}
