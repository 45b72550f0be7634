/**
  Properties of the DNS record analyzers: the severity order behind
  `DetermineStatus` and the outcome of each analyzer case by case.
 */
module DnsAnalyzerLemmas {
  import opened Text
  import opened Types
  import opened DnsAnalyzer

  // ---------------------------------------------------------------------------
  // determineStatus as the worst status of the findings

  /** Severity order: info < valid < warning < invalid. */
  function Rank(s: RecordStatus): nat
  {
    if s == Info then 0 else if s == Valid then 1 else if s == Warning then 2 else 3
  }

  function Worse(a: RecordStatus, b: RecordStatus): RecordStatus
  {
    if Rank(a) >= Rank(b) then a else b
  }

  /** The status one finding alone calls for. */
  function KindStatus(k: FindingKind): RecordStatus
  {
    match k
    case Error => Invalid
    case Invalid => Invalid
    case Warning => Warning
    case Valid => Valid
    case Info => Valid
  }

  /** Independent definition: fold the findings with `Worse`, starting from info. */
  function WorstStatus(findings: seq<Finding>): RecordStatus
  {
    if |findings| == 0 then Info else Worse(KindStatus(findings[0].kind), WorstStatus(findings[1..]))
  }

  /** `DetermineStatus` is the worst status any single finding calls for. */
  lemma {:induction false} StatusIsWorstFinding(findings: seq<Finding>)
    ensures DetermineStatus(findings) == WorstStatus(findings)
    decreases |findings|
  {
    if |findings| > 0 {
      var rest := findings[1..];
      StatusIsWorstFinding(rest);
      assert findings == [findings[0]] + rest;
      StatusOfConcat([findings[0]], rest);
      StatusOfOne(findings[0]);
    }
  }

  /** A single finding calls for the status of its kind. */
  lemma StatusOfOne(f: Finding)
    ensures DetermineStatus([f]) == KindStatus(f.kind)
  {
    assert f in [f];
  }

  /** The precedence, element by element: any error or invalid finding makes
      the record invalid; otherwise any warning makes it a warning; a
      non-empty list of valid and info findings is valid; only the empty
      list is info. */
  lemma StatusPrecedence(findings: seq<Finding>)
    ensures DetermineStatus(findings) == Invalid <==>
      exists i :: 0 <= i < |findings| && IsFailureKind(findings[i].kind)
    ensures DetermineStatus(findings) == Warning <==>
      (forall i :: 0 <= i < |findings| ==> !IsFailureKind(findings[i].kind)) &&
      (exists i :: 0 <= i < |findings| && findings[i].kind == Warning)
    ensures DetermineStatus(findings) == Valid <==>
      |findings| > 0 && forall i :: 0 <= i < |findings| ==> findings[i].kind in {Valid, Info}
    ensures DetermineStatus(findings) == Info <==> findings == []
  {
    if exists i :: 0 <= i < |findings| && IsFailureKind(findings[i].kind) {
      var i :| 0 <= i < |findings| && IsFailureKind(findings[i].kind);
      assert findings[i] in findings;
    }
    if exists i :: 0 <= i < |findings| && findings[i].kind == Warning {
      var i :| 0 <= i < |findings| && findings[i].kind == Warning;
      assert findings[i] in findings;
    }
  }

  /** The status of two lists put together is the worse of their statuses. */
  lemma StatusOfConcat(findings: seq<Finding>, more: seq<Finding>)
    ensures DetermineStatus(findings + more) == Worse(DetermineStatus(findings), DetermineStatus(more))
  {
    assert forall f :: f in findings + more <==> f in findings || f in more;
  }

  /** Adding findings (anywhere, in any order) never lowers the severity. */
  lemma StatusMonotone(findings: seq<Finding>, more: seq<Finding>)
    requires forall f :: f in findings ==> f in more
    ensures Rank(DetermineStatus(findings)) <= Rank(DetermineStatus(more))
  {
    if |findings| > 0 {
      assert findings[0] in more;
    }
  }

  // ---------------------------------------------------------------------------
  // SPF

  /** Record selection: no SPF string is an error without a record; several
      are an error whose record is all of them, newline-joined; exactly one
      is reported with an info finding and at most one more finding. */
  lemma SpfSelection(records: seq<seq<string>>)
    ensures var r := SpfAnalysis(Answer(records)); var spf := SpfRecords(records);
      && (|spf| == 0 ==>
            r.record == None && r.findings == [Finding(Error, NoSpfMessage)] && r.status == Invalid)
      && (|spf| > 1 ==>
            r.record == Some(Join(spf, "\n")) && r.findings == [Finding(Error, MultipleSpfMessage)] &&
            r.status == Invalid && SpfPrefix <= r.record.value &&
            forall k :: 0 <= k < |spf| ==> Contains(r.record.value, spf[k]))
      && (|spf| == 1 ==>
            r.record == Some(spf[0]) && SpfPrefix <= spf[0] && spf[0] in Flatten(records) &&
            r.findings[0] == Finding(Info, SpfFoundMessage) && 1 <= |r.findings| <= 2)
  {
    var spf := SpfRecords(records);
    if |spf| > 1 {
      assert spf[0] in spf;
      JoinStartsWithFirst(spf, "\n");
      assert SpfPrefix <= spf[0] <= Join(spf, "\n");
      forall k | 0 <= k < |spf| ensures Contains(Join(spf, "\n"), spf[k]) {
        JoinContainsEach(spf, "\n", k);
      }
    } else if |spf| == 1 {
      assert spf[0] in spf;
    }
  }

  /** Every qualified `all` term contains `all`. */
  lemma QualifiedAllContainsAll(record: string)
    ensures (Contains(record, "-all") || Contains(record, "~all") ||
             Contains(record, "?all") || Contains(record, "+all")) ==> Contains(record, "all")
  {
    var terms := ["-all", "~all", "?all", "+all"];
    forall k | 0 <= k < 4 && Contains(record, terms[k]) ensures Contains(record, "all") {
      ContainsSlice(record, terms[k], 1, 4);
      assert terms[k][1..4] == "all";
    }
    assert terms[0] == "-all" && terms[1] == "~all" && terms[2] == "?all" && terms[3] == "+all";
  }

  /** The status of a single SPF record, in terms of the `all` terms it holds:
      valid with `-all`, or with the bare letters `all` and no qualified
      `all`; invalid with `+all` as the only qualified `all`; a warning with
      `~all` or `?all` ahead of any `-all`, or with no `all` at all. */
  lemma SpfSingleRecordStatus(records: seq<seq<string>>)
    requires |SpfRecords(records)| == 1
    ensures var rec := SpfRecords(records)[0]; var st := SpfAnalysis(Answer(records)).status;
      && (st == Valid <==>
            Contains(rec, "-all") ||
            (Contains(rec, "all") && !Contains(rec, "~all") && !Contains(rec, "?all") && !Contains(rec, "+all")))
      && (st == Invalid <==>
            Contains(rec, "+all") && !Contains(rec, "-all") && !Contains(rec, "~all") && !Contains(rec, "?all"))
      && (st == Warning <==>
            !Contains(rec, "all") || (!Contains(rec, "-all") && (Contains(rec, "~all") || Contains(rec, "?all"))))
  {
    var rec := SpfRecords(records)[0];
    QualifiedAllContainsAll(rec);
    FirstPresentInOrder(rec);
    var findings := [Finding(Info, SpfFoundMessage)] + SpfAllFindings(rec);
    assert SpfAnalysis(Answer(records)).findings == findings;
    StatusOfConcat([Finding(Info, SpfFoundMessage)], SpfAllFindings(rec));
  }

  // ---------------------------------------------------------------------------
  // Lookup failures

  /** A failed lookup gives one finding and no record. The "does not exist"
      codes are an error for SPF and DKIM and only a warning for DMARC; any
      other code is an error whose message carries the resolver's message. */
  lemma FailureYieldsOneFinding(selector: string, domain: string, code: DnsErrorCode, message: string)
    ensures var result := Failure(code, message);
      var spf := SpfAnalysis(result); var dkim := DkimAnalysis(selector, domain, result);
      var dmarc := DmarcAnalysis(result);
      && spf.record == None && dkim.record == None && dmarc.record == None
      && |spf.findings| == 1 && |dkim.findings| == 1 && |dmarc.findings| == 1
      && spf.findings[0].kind == Error && dkim.findings[0].kind == Error
      && dmarc.findings[0].kind == (if IsAbsence(code) then Warning else Error)
      && spf.status == Invalid && dkim.status == Invalid
      && dmarc.status == (if IsAbsence(code) then Warning else Invalid)
      && (IsAbsence(code) ==> Contains(dkim.findings[0].message, DkimQueryName(selector, domain)))
      && (!IsAbsence(code) ==>
            Contains(spf.findings[0].message, message) && Contains(dkim.findings[0].message, message) &&
            Contains(dmarc.findings[0].message, message))
  {
    var result := Failure(code, message);
    if IsAbsence(code) {
      var q := DkimQueryName(selector, domain);
      assert q <= q;
      ContainsInMiddle("No DKIM record found for selector \"" + selector + "\" at ", q, ".", q);
    } else {
      assert message <= message;
      ContainsInMiddle("DNS query failed: ", message, "", message);
      assert DnsFailedMessage(message) == "DNS query failed: " + message + "";
      ContainsInMiddle("DNS query for DKIM failed: ", message, "", message);
      assert DkimDnsFailedMessage(message) == "DNS query for DKIM failed: " + message + "";
    }
  }

  // ---------------------------------------------------------------------------
  // DMARC

  /** Record selection: no DMARC string is only a warning; several are an
      error whose record is all of them, newline-joined; exactly one is
      reported with an info finding first. */
  lemma DmarcSelection(records: seq<seq<string>>)
    ensures var r := DmarcAnalysis(Answer(records)); var dmarc := DmarcRecords(records);
      && (|dmarc| == 0 ==>
            r.record == None && r.findings == [Finding(Warning, NoDmarcMessage)] && r.status == Warning)
      && (|dmarc| > 1 ==>
            r.record == Some(Join(dmarc, "\n")) && r.findings == [Finding(Error, MultipleDmarcMessage)] &&
            r.status == Invalid && DmarcPrefix <= r.record.value)
      && (|dmarc| == 1 ==>
            r.record == Some(dmarc[0]) && DmarcPrefix <= dmarc[0] &&
            r.findings[0] == Finding(Info, DmarcFoundMessage) && 1 <= |r.findings| <= 3)
  {
    var dmarc := DmarcRecords(records);
    if |dmarc| > 1 {
      assert dmarc[0] in dmarc;
      JoinStartsWithFirst(dmarc, "\n");
    } else if |dmarc| == 1 {
      assert dmarc[0] in dmarc;
    }
  }

  /** The status of a single DMARC record: invalid exactly when the pattern
      `p=` followed by a non-`;` character occurs nowhere; valid exactly when
      a policy is captured that is not `none` and `rua=` occurs (so an
      unrecognised policy with `rua=` is valid); a warning otherwise. */
  lemma DmarcSingleRecordStatus(record: string)
    ensures var cap := PolicyCapture(record); var st := DetermineStatus(DmarcSingleFindings(record));
      && (st == Invalid <==> forall i :: !PolicyMatchAt(record, i))
      && (st == Valid <==> cap.Some? && Trim(cap.value) != "none" && Contains(record, "rua="))
      && (st == Warning <==> cap.Some? && (Trim(cap.value) == "none" || !Contains(record, "rua=")))
  {
    PolicyCaptureNone(record);
    var cap := PolicyCapture(record);
    var head := [Finding(Info, DmarcFoundMessage)];
    assert DetermineStatus(head) == Valid by {
      assert head[0] in head;
    }
    PolicyStatus(cap);
    ReportingStatus(record);
    StatusOfConcat(head, DmarcPolicyFindings(cap));
    StatusOfConcat(head + DmarcPolicyFindings(cap), DmarcReportingFindings(record));
  }

  /** The status the policy finding alone calls for. */
  lemma PolicyStatus(cap: Option<string>)
    ensures DetermineStatus(DmarcPolicyFindings(cap)) ==
      if cap.None? then Invalid
      else if Trim(cap.value) == "none" then Warning
      else if Trim(cap.value) == "quarantine" || Trim(cap.value) == "reject" then Valid
      else Info
  {
    var policy := DmarcPolicyFindings(cap);
    if policy != [] {
      assert policy[0] in policy;
    }
  }

  /** The status the reporting finding alone calls for. */
  lemma ReportingStatus(record: string)
    ensures DetermineStatus(DmarcReportingFindings(record)) == if Contains(record, "rua=") then Info else Warning
  {
    var reporting := DmarcReportingFindings(record);
    if reporting != [] {
      assert reporting[0] in reporting;
    }
  }

  /** The reporting warning is independent of the policy: it is among the
      findings exactly when `rua=` occurs nowhere in the record. */
  lemma DmarcReportingWarningIff(record: string)
    ensures Finding(Warning, MissingRuaMessage) in DmarcSingleFindings(record) <==> !Contains(record, "rua=")
  {
    var policy := DmarcPolicyFindings(PolicyCapture(record));
    assert Finding(Warning, MissingRuaMessage) !in policy;
  }

  /** The policy is read from the leftmost `p=` followed by a non-`;`
      character, even when that `p=` ends another tag's name such as `sp=`. */
  lemma DmarcPolicyFromLeftmostMatch(record: string) returns (i: nat)
    requires PolicyCapture(record).Some?
    ensures PolicyMatchAt(record, i) && forall j :: 0 <= j < i ==> !PolicyMatchAt(record, j)
    ensures DmarcPolicyFindings(PolicyCapture(record)) ==
      DmarcPolicyFindings(Some(TakeUntilSemicolon(record[i + 2..])))
  {
    i := PolicyCaptureLeftmost(record);
  }

  // ---------------------------------------------------------------------------
  // DKIM

  /** DKIM: no tagged string is an error naming the selector; otherwise the
      record is the tagged strings joined with spaces (strings without the
      tag are left out, never treated as a duplicate), followed by an info
      finding and then valid or error by whether `p=` occurs in it. */
  lemma DkimOutcome(selector: string, domain: string, records: seq<seq<string>>)
    ensures var r := DkimAnalysis(selector, domain, Answer(records)); var dkim := DkimRecords(records);
      && (|dkim| == 0 ==>
            r.record == None && r.findings == [Finding(Error, NoDkimMessage(selector))] && r.status == Invalid)
      && (|dkim| > 0 ==>
            r.record == Some(Join(dkim, " ")) && DkimPrefix <= r.record.value &&
            (forall s :: s in Flatten(records) && DkimPrefix <= s ==> Contains(r.record.value, s)) &&
            |r.findings| == 2 && r.findings[0] == Finding(Info, DkimFoundMessage(selector)) &&
            (r.status == Valid <==> Contains(r.record.value, "p=")) &&
            (r.status == Invalid <==> !Contains(r.record.value, "p=")))
  {
    var dkim := DkimRecords(records);
    if |dkim| > 0 {
      assert dkim[0] in dkim;
      JoinStartsWithFirst(dkim, " ");
      forall s | s in Flatten(records) && DkimPrefix <= s ensures Contains(Join(dkim, " "), s) {
        var k :| 0 <= k < |dkim| && dkim[k] == s;
        JoinContainsEach(dkim, " ", k);
      }
    }
  }
}
