# EmailSec DNS record analyzer, in Dafny

EmailSec checks the email-authentication records of a domain. For SPF,
DMARC and DKIM it reads the TXT strings published at one DNS name, keeps
the strings that carry the record's version tag, applies fixed substring
and regular-expression rules, and reports the record, a list of findings
(`valid`, `invalid`, `warning`, `info` or `error`, each with a message) and
a status reduced from the findings. A server action runs the three
analyzers, writes a plain-text vulnerability report, and returns the
result or an error message. A chart counts each record's findings on three
bars.

The model is organised by the program's own files:

- `text.dfy` (`Text`): the JavaScript built-ins the analyzers rely on,
  over `string`: `includes` (`Contains`), `startsWith` (Dafny's prefix
  `<=`), `join`, `flat`, `filter` by prefix, `trim`, and the regular
  expression `/p=([^;]+)/` (`PolicyCapture`).
- `types.dfy` (`Types`): the record types of `src/lib/types.ts`.
- `dns_analyzer.dfy` (`DnsAnalyzer`): `determineStatus` and the three
  analyzers. The DNS lookup is a parameter, `Resolver`, from query name to
  either the TXT strings or a failure with an error code and a message.
  Each analyzer is a specification function (`SpfAnalysis`, ...) and a
  method (`AnalyzeSpf`, ...) that builds the findings step by step as the
  source does and is proved equal to the function.
- `dns_analyzer_lemmas.dfy` (`DnsAnalyzerLemmas`): the severity order
  behind `determineStatus` and the outcome of each analyzer, case by case.
- `dns_analyzer_examples.dfy` (`DnsAnalyzerExamples`): worked examples of
  each analyzer, and the places where the substring rules read a record
  differently from RFC 7208 and RFC 7489.
- `analysis_chart.dfy` (`AnalysisChart`): `countFindings` as a loop over
  three counters, proved against a counting function, and the chart rows.
- `actions.dfy` (`Actions`): `analyzeDomain`, with the two AI services as
  parameters that either return a value or throw.

A DKIM key published as several strings of one TXT record, which section
3.6.2.2 of RFC 6376 concatenates, keeps only the strings that start with
`v=DKIM1`: for `["v=DKIM1; k=rsa; p=ABC", "DEF"]` the record is the first
string alone (`DnsAnalyzerExamples.DkimContinuationExample`).

## Model

| member | source | states |
|---|---|---|
| DnsAnalyzer.DetermineStatus | src/lib/dns-analyzer.ts:4-9 | definition: invalid if some finding is an error or invalid, else a warning if some finding is a warning, else valid for a non-empty list; it is info exactly for the empty list |
| DnsAnalyzerLemmas.StatusPrecedence | src/lib/dns-analyzer.ts:4-9 | any error or invalid finding makes the status invalid, and only then; otherwise any warning makes it a warning; a non-empty list of valid and info findings is valid; the status is info exactly for the empty list |
| DnsAnalyzerLemmas.StatusIsWorstFinding | src/lib/dns-analyzer.ts:4-9 | the status equals an independent fold: the worst status any single finding calls for, in the order info < valid < warning < invalid |
| DnsAnalyzerLemmas.StatusOfOne | src/lib/dns-analyzer.ts:4-9 | a single finding gives the status of its kind (info counts as valid, error as invalid) |
| DnsAnalyzerLemmas.StatusOfConcat | src/lib/dns-analyzer.ts:4-9 | the status of two finding lists put together is the worse of their two statuses |
| DnsAnalyzerLemmas.StatusMonotone | src/lib/dns-analyzer.ts:4-9 | adding findings never lowers the severity |
| DnsAnalyzer.SpfAnalysis | src/lib/dns-analyzer.ts:11-52 | every SPF outcome has at least one finding, its status is the one reduced from its findings and is never info, and a record is reported only when the answer held an SPF string |
| DnsAnalyzer.AnalyzeSpf | src/lib/dns-analyzer.ts:11-52 | the step-by-step analysis of the lookup of the domain gives exactly the SPF outcome |
| DnsAnalyzer.FirstPresentInOrder | src/lib/dns-analyzer.ts:28-37 | the qualified `all` terms are tested in the order `-all`, `~all`, `?all`, `+all` and the first one present decides |
| DnsAnalyzer.SpfAllFindings | src/lib/dns-analyzer.ts:28-40 | definition: a warning when the letters `all` occur nowhere, else the finding of the first qualified `all` present, else nothing; at most one finding |
| DnsAnalyzerLemmas.SpfSelection | src/lib/dns-analyzer.ts:16-26 | no string starting with `v=spf1 ` gives one error and no record; several give one error and the newline-joined record, which starts with the tag and contains each of them; one gives that record and an info finding first, followed by at most one more |
| DnsAnalyzerLemmas.QualifiedAllContainsAll | src/lib/dns-analyzer.ts:28-36 | each qualified `all` term contains `all`, so the outer test never hides a qualifier |
| DnsAnalyzerLemmas.SpfSingleRecordStatus | src/lib/dns-analyzer.ts:24-40 | for one SPF record: valid exactly with `-all`, or with the letters `all` and no qualified `all`; invalid exactly when `+all` is the only qualified `all`; a warning exactly with no `all` at all, or `~all`/`?all` without `-all` |
| DnsAnalyzerLemmas.FailureYieldsOneFinding | src/lib/dns-analyzer.ts:42-127 | the three `catch` blocks (lines 42-47, 89-94 and 122-127): a failed lookup gives no record and exactly one finding in each analyzer; not-found, no-data and server-failure codes are an error for SPF and DKIM and a warning for DMARC; other codes are an error whose message contains the resolver's message; the DKIM not-found message names the query name |
| DnsAnalyzer.DmarcAnalysis | src/lib/dns-analyzer.ts:55-99 | every DMARC outcome has at least one finding, its status is the one reduced from its findings and is never info, and a record is reported only when the answer held a DMARC string |
| DnsAnalyzer.AnalyzeDmarc | src/lib/dns-analyzer.ts:55-99 | the step-by-step analysis of the lookup of `_dmarc.<domain>` gives exactly the DMARC outcome |
| DnsAnalyzerLemmas.DmarcSelection | src/lib/dns-analyzer.ts:60-70 | no string starting with `v=DMARC1` gives one warning and no record; several give one error and the newline-joined record; one gives that record and an info finding first, with at most two more |
| DnsAnalyzerLemmas.DmarcSingleRecordStatus | src/lib/dns-analyzer.ts:68-88 | for one DMARC record: invalid exactly when `p=` followed by a non-`;` character occurs nowhere; valid exactly when a policy other than `none` is captured and `rua=` occurs; a warning otherwise |
| DnsAnalyzerLemmas.PolicyStatus | src/lib/dns-analyzer.ts:73-84 | no policy calls for invalid, `none` for a warning, `quarantine` and `reject` for valid, and any other policy adds no finding |
| DnsAnalyzer.DmarcPolicyFindings | src/lib/dns-analyzer.ts:72-84 | definition: an error when the regular expression does not match, else one finding for the trimmed policy `none`, `quarantine` or `reject` and none for any other; at most one finding, and a failure when there is no capture |
| DnsAnalyzer.DmarcReportingFindings | src/lib/dns-analyzer.ts:85-87 | definition: a warning when `rua=` occurs nowhere in the record, else nothing |
| DnsAnalyzerLemmas.ReportingStatus | src/lib/dns-analyzer.ts:85-87 | the reporting test adds a warning exactly when `rua=` is missing |
| DnsAnalyzerLemmas.DmarcReportingWarningIff | src/lib/dns-analyzer.ts:85-87 | the missing-`rua=` warning is among the record's findings exactly when `rua=` occurs nowhere, whatever the policy |
| DnsAnalyzerLemmas.DmarcPolicyFromLeftmostMatch | src/lib/dns-analyzer.ts:72-76 | the policy is the `;`-free run after the leftmost `p=` followed by a non-`;` character, and no match lies before it |
| Text.PolicyCaptureNone | src/lib/dns-analyzer.ts:72-73 | the regular expression fails exactly when `p=` followed by a non-`;` character occurs at no index |
| Text.PolicyCapture | src/lib/dns-analyzer.ts:72 | definition: `record.match(/p=([^;]+)/)?.[1]`, the capture at the first index where `p=` is followed by a character other than `;`; a capture is never empty and holds no `;` |
| Text.PolicyCaptureLeftmost | src/lib/dns-analyzer.ts:72-76 | a capture comes from the leftmost match and is the longest `;`-free run after its `p=` |
| Text.PolicyCaptureAt | src/lib/dns-analyzer.ts:72 | a match with no match before it gives the capture |
| Text.TakeUntilSemicolon | src/lib/dns-analyzer.ts:72 | the greedy `[^;]+` run is a prefix of the text, holds no `;`, and stops at the end or at a `;` |
| Text.TakeUntilSemicolonSplit | src/lib/dns-analyzer.ts:72 | the run ends at the first `;` |
| Text.TrimIsInnerSlice | src/lib/dns-analyzer.ts:76 | the trimmed policy is a slice of the capture that neither starts nor ends with white space, and only white space is cut off |
| Text.Trim | src/lib/dns-analyzer.ts:76 | definition: `trim()`, cutting ECMAScript white space and line terminators at both ends |
| DnsAnalyzer.DkimAnalysis | src/lib/dns-analyzer.ts:101-132 | every DKIM outcome has at least one finding, its status is the one reduced from its findings and is never info, and a record is reported only when the answer held a DKIM string |
| DnsAnalyzer.AnalyzeDkim | src/lib/dns-analyzer.ts:101-132 | the step-by-step analysis of the lookup of `<selector>._domainkey.<domain>` gives exactly the DKIM outcome |
| DnsAnalyzerLemmas.DkimOutcome | src/lib/dns-analyzer.ts:108-121 | no string starting with `v=DKIM1` is an error naming the selector; otherwise the record is the tagged strings space-joined, starts with the tag and contains each of them, and is followed by an info finding and then valid exactly when `p=` occurs, invalid otherwise |
| DnsAnalyzer.DkimKeyFinding | src/lib/dns-analyzer.ts:116-120 | definition: valid when `p=` occurs anywhere in the joined record, an error otherwise |
| Text.Flatten | src/lib/dns-analyzer.ts:16 | a string is in the flattened answer exactly when it is in one of the TXT records |
| Text.FilterPrefix | src/lib/dns-analyzer.ts:17 | the kept strings are exactly those that start with the tag, and there are no more of them than strings |
| Text.FilterPrefixConcat | src/lib/dns-analyzer.ts:17 | filtering keeps the order of the kept strings |
| Text.FlattenConcat | src/lib/dns-analyzer.ts:16 | flattening keeps the order of the TXT records and of the strings in each: it distributes over concatenation |
| Text.Contains | src/lib/dns-analyzer.ts:28 | definition: `includes`, the text occurs starting at the first character or occurs in the rest |
| Text.ContainsIff | src/lib/dns-analyzer.ts:28 | `includes` holds exactly when the text occurs at some index |
| Text.JoinContainsEach | src/lib/dns-analyzer.ts:23 | the joined record contains each of the joined strings |
| Text.Join | src/lib/dns-analyzer.ts:23 | definition: `join(sep)`, the strings in order with the separator between each two |
| Text.JoinStartsWithFirst | src/lib/dns-analyzer.ts:23 | the joined record starts with the first string |
| Text.JoinEmptyIff | src/app/actions.ts:45 | with a non-empty separator, the join is empty exactly for no strings or one empty string |
| DnsAnalyzerExamples.SpfStrictFailExample | src/lib/dns-analyzer.ts:24-30 | a lone record `v=spf1 <mechanisms>-all` is valid with an info finding and the `-all` finding |
| DnsAnalyzerExamples.SpfPassAllExample | src/lib/dns-analyzer.ts:35-36 | `v=spf1 +all` is invalid with an info finding and the `+all` error |
| DnsAnalyzerExamples.SpfTwoRecordsExample | src/lib/dns-analyzer.ts:21-23 | two SPF strings are invalid, with both newline-joined as the record |
| DnsAnalyzerExamples.SpfBareAllQuirk | src/lib/dns-analyzer.ts:28-37 | `v=spf1 a:<host>` whose host holds the letters `all` but no qualifier character gets only the info finding and is valid |
| DnsAnalyzerExamples.SmallHostHoldsAll | src/lib/dns-analyzer.ts:28 | `smallhost.example.com` holds the letters `all` |
| DnsAnalyzerExamples.DmarcAbsentExample | src/lib/dns-analyzer.ts:63-64 | an empty answer for `_dmarc.<domain>` is a warning without a record |
| DnsAnalyzerExamples.DmarcRejectExample | src/lib/dns-analyzer.ts:72-87 | `v=DMARC1; p=reject;` followed by text naming `rua=` is valid with the info and `reject` findings only |
| DnsAnalyzerExamples.DmarcSubdomainPolicyQuirk | src/lib/dns-analyzer.ts:72-78 | `v=DMARC1; sp=none;` followed by anything, `p=reject` included, is judged on policy `none`: a warning |
| DnsAnalyzerExamples.DkimContinuationExample | src/lib/dns-analyzer.ts:108-119 | for `["v=DKIM1; k=rsa; p=ABC", "DEF"]` the untagged string is dropped, the record is the first string and it is valid |
| AnalysisChart.Tally | src/components/analysis-chart.tsx:82-86 | a bar never counts more findings than there are |
| AnalysisChart.OnBar | src/components/analysis-chart.tsx:83-85 | definition: valid and info findings go on the valid bar, warnings on the warning bar, errors and invalid findings on the error bar |
| AnalysisChart.Tallies | src/components/analysis-chart.tsx:77-88 | the counts of the three bars, which add up to the number of findings |
| AnalysisChart.CountFindings | src/components/analysis-chart.tsx:75-89 | the three counters end equal to the number of findings on each bar, add up to the number of findings, and are all zero for no findings |
| AnalysisChart.TalliesPartition | src/components/analysis-chart.tsx:82-86 | every finding is counted on exactly one bar: the counts add up to the number of findings |
| AnalysisChart.TallyOne | src/components/analysis-chart.tsx:83-85 | one finding counts once, on the bar of its kind: info on the valid bar, invalid on the error bar |
| AnalysisChart.TallyConcat | src/components/analysis-chart.tsx:82-86 | the count of a list put together is the sum of the counts of its parts |
| AnalysisChart.TallyPermutation | src/components/analysis-chart.tsx:82-88 | the counts do not depend on the order of the findings |
| AnalysisChart.TallyPositive | src/components/analysis-chart.tsx:82-86 | a bar is non-zero exactly when some finding is counted on it |
| AnalysisChart.CountsMatchStatus | src/components/analysis-chart.tsx:82-86 | the error bar is non-zero exactly when the record is invalid; with no errors the warning bar is non-zero exactly when it is a warning; all bars are zero exactly when the status is info |
| AnalysisChart.ChartData | src/components/analysis-chart.tsx:31-44 | exactly three rows, SPF, DKIM and DMARC in that order, each with the counts of that record's findings, which add up to its number of findings |
| Actions.Labelled | src/app/actions.ts:30 | one line per finding, in order, each the label, `: ` and the finding's message |
| Actions.FindingsSummary | src/app/actions.ts:29-33 | all SPF lines, then all DKIM lines, then all DMARC lines, each prefixed with its record type and in its record's order; as many lines as findings |
| Actions.RecordText | src/app/actions.ts:38-40 | an absent or empty record reads `Not found`, any other record reads as itself |
| Actions.VulnerabilityText | src/app/actions.ts:45 | the comma-joined list, or `None` when the list is empty or a single empty string; never empty |
| Actions.ReportMentions | src/app/actions.ts:35-46 | the report names the domain, each record (or `Not found`), the DKIM selector, every line of the findings summary and the vulnerability text |
| Actions.ReportLines | src/app/actions.ts:35-46 | definition: the lines of the report template, with six spaces of indentation, the three records, the findings summary and the vulnerability text |
| Actions.VulnerabilityReport | src/app/actions.ts:35-46 | definition: the report template's lines joined by newlines |
| Actions.ErrorText | src/app/actions.ts:63 | a thrown message is passed on, and an empty one becomes the default message; never empty |
| Actions.AnalyzeDomain | src/app/actions.ts:8-65 | exactly one of data and error; empty domain or selector gives the required-input error; otherwise the result holds the three analyses of the lookups, the inputs, the detected vulnerabilities and the guidance for the report, unless an AI call throws, which gives its message as the error |

## Left out

- The DNS transport (`dns.resolveTxt`) is a parameter: a function from query name to the TXT strings or a failure. Error codes other than not-found, no-data and server-failure are one value; the failure message is a plain string.
- The three analyses run one after the other; `Promise.all` only runs them concurrently, and they share no state.
- The AI flows (`detectVulnerabilities` and `generateRemediationGuidance`) are parameters that return a value or throw with a message. `src/ai/flows/vulnerability-detection.ts` is not part of this model.
- `console.error` logging in the action's error path.
- Rendering: the page, the dashboard, the record cards, the remediation panel and the chart's JSX. Only the chart's rows and counts are modelled.
- The form rule in `src/components/domain-form.tsx` (domain not starting with `http`) is a client-side check; the action itself checks only that both inputs are non-empty, and so does the model.
- `src/app/page.tsx` calls the action without a selector; that is caller wiring, outside the action.
- Strings are sequences of Unicode characters, not UTF-16 code units; the tests used (`includes`, `startsWith`, `trim` and the regular expression) agree on both for the texts the rules look at.
- Actions.ErrorText: a thrown value without a `message` property is modelled as an empty message, so the default text is used; a message that is not a string is not modelled.
- DnsAnalyzer.AnalyzeSpf, DnsAnalyzer.AnalyzeDmarc, DnsAnalyzer.AnalyzeDkim: an exception other than a failed lookup inside an analyzer's `try` block is caught like a lookup failure with an unrecognised code; the model has no such exception.
