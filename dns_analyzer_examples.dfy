/**
  Worked examples of the analyzers on concrete DNS answers, for each
  record type, and the places where the substring rules read a record
  differently from its standard. Each record is a parameter fixed by its
  precondition, so that the verifier reasons about it through the lemmas
  rather than by unfolding the definitions on the literal text.
 */
module DnsAnalyzerExamples {
  import opened Text
  import opened Types
  import opened DnsAnalyzer
  import opened DnsAnalyzerLemmas

  /** A string that lacks a character of `sub` does not include `sub`. */
  lemma NotContainsByChar(s: string, sub: string, ch: char)
    requires ch in sub && ch !in s
    ensures !Contains(s, sub)
  {
    ContainedCharsOccur(s, sub);
  }

  /** `sub` is included in any string built around it. */
  lemma ContainsBetween(a: string, sub: string, c: string, s: string)
    requires s == a + sub + c
    ensures Contains(s, sub)
  {
    assert Contains(sub, sub) by {
      assert sub[..|sub|] == sub;
    }
    ContainsInMiddle(a, sub, c, sub);
  }

  /** The policy that follows the first `p=` of a record, when the text before
      it holds no `p`. */
  lemma PolicyAfter(head: string, policy: string, rest: string, rec: string)
    requires rec == head + "p=" + policy + ";" + rest
    requires 'p' !in head && ';' !in policy && |policy| > 0
    ensures PolicyCapture(rec) == Some(policy)
  {
    var i := |head|;
    assert rec[i..i + 2] == "p=";
    assert rec[i + 2] == policy[0];
    forall j | 0 <= j < i ensures !PolicyMatchAt(rec, j) {
      assert rec[j] == head[j];
      assert rec[j..j + 2][0] == rec[j];
    }
    PolicyCaptureAt(rec, i);
    assert rec[i + 2..] == policy + ";" + rest;
    TakeUntilSemicolonSplit(policy, rest);
  }

  /** A record that ends in `-all`, such as
      `v=spf1 include:_spf.example.com -all`, is valid whatever mechanisms
      come before: one info finding and one valid finding for `-all`. */
  lemma SpfStrictFailExample(rec: string, mechanisms: string)
    requires rec == SpfPrefix + mechanisms + "-all"
    ensures var r := SpfAnalysis(Answer([[rec]]));
      && r.record == Some(rec)
      && r.findings == [Finding(Info, SpfFoundMessage), Finding(Valid, FailAllMessage)]
      && r.status == Valid
  {
    assert SpfPrefix <= rec;
    ContainsBetween(SpfPrefix + mechanisms, "-all", "", rec);
    assert "-all" == "-" + "all";
    ContainsBetween(SpfPrefix + mechanisms + "-", "all", "", rec);
    assert Flatten([[rec]]) == [rec];
    assert SpfRecords([[rec]]) == [rec];
    FirstPresentInOrder(rec);
  }

  /** `v=spf1 +all` is invalid, with an error finding that names `+all`. */
  lemma SpfPassAllExample(rec: string)
    requires rec == SpfPrefix + "+all"
    ensures var r := SpfAnalysis(Answer([[rec]]));
      && r.findings == [Finding(Info, SpfFoundMessage), Finding(Error, PassAllMessage)]
      && r.status == Invalid
  {
    PassAllTerms(rec);
    assert Flatten([[rec]]) == [rec];
    assert SpfRecords([[rec]]) == [rec];
    FirstPresentInOrder(rec);
  }

  lemma PassAllTerms(rec: string)
    requires rec == SpfPrefix + "+all"
    ensures SpfPrefix <= rec && Contains(rec, "+all") && Contains(rec, "all")
    ensures !Contains(rec, "-all") && !Contains(rec, "~all") && !Contains(rec, "?all")
  {
    ContainsBetween(SpfPrefix, "+all", "", rec);
    assert "+all" == "+" + "all";
    ContainsBetween(SpfPrefix + "+", "all", "", rec);
    assert '-' !in SpfPrefix && '~' !in SpfPrefix && '?' !in SpfPrefix;
    NotContainsByChar(rec, "-all", '-');
    NotContainsByChar(rec, "~all", '~');
    NotContainsByChar(rec, "?all", '?');
  }

  /** Two SPF strings make the record invalid, and the record is both of
      them joined by a newline. */
  lemma SpfTwoRecordsExample(a: string, b: string)
    requires a == "v=spf1 a -all" && b == "v=spf1 mx ~all"
    ensures var r := SpfAnalysis(Answer([[a], [b]]));
      && r.record == Some(a + "\n" + b)
      && r.findings == [Finding(Error, MultipleSpfMessage)]
      && r.status == Invalid
  {
    assert SpfPrefix <= a && SpfPrefix <= b;
    assert Flatten([[a], [b]]) == [a, b] by {
      assert [[a], [b]][1..] == [[b]];
      assert Flatten([[b]]) == [b];
    }
    assert SpfRecords([[a], [b]]) == [a, b] by {
      assert [a, b][1..] == [b];
      assert FilterPrefix([b], SpfPrefix) == [b];
    }
    assert Join([a, b], "\n") == a + "\n" + b by {
      assert [a, b][1..] == [b];
    }
  }

  /** A record holding the letters `all` only inside a host name, such as
      `v=spf1 a:smallhost.example.com`, gets no finding about its `all`
      mechanism, so it is valid although it has none. */
  lemma SpfBareAllQuirk(rec: string, host: string)
    requires rec == SpfPrefix + "a:" + host
    requires Contains(host, "all") && '-' !in host && '~' !in host && '?' !in host && '+' !in host
    ensures var r := SpfAnalysis(Answer([[rec]]));
      && r.findings == [Finding(Info, SpfFoundMessage)]
      && r.status == Valid
  {
    BareAllTerms(rec, host);
    assert Flatten([[rec]]) == [rec];
    assert SpfRecords([[rec]]) == [rec];
    FirstPresentInOrder(rec);
  }

  lemma BareAllTerms(rec: string, host: string)
    requires rec == SpfPrefix + "a:" + host
    requires Contains(host, "all") && '-' !in host && '~' !in host && '?' !in host && '+' !in host
    ensures SpfPrefix <= rec && Contains(rec, "all")
    ensures !Contains(rec, "-all") && !Contains(rec, "~all") && !Contains(rec, "?all") && !Contains(rec, "+all")
  {
    ContainsInMiddle(SpfPrefix + "a:", host, "", "all");
    assert rec == SpfPrefix + "a:" + host + "";
    assert forall ch :: ch in rec <==> ch in SpfPrefix || ch in "a:" || ch in host;
    NotContainsByChar(rec, "-all", '-');
    NotContainsByChar(rec, "~all", '~');
    NotContainsByChar(rec, "?all", '?');
    NotContainsByChar(rec, "+all", '+');
  }

  /** The host name of the quirk above holds the letters `all`. */
  lemma SmallHostHoldsAll()
    ensures Contains("smallhost.example.com", "all")
  {
    OccursAtContains("smallhost.example.com", "all", 2);
  }

  /** No TXT string at `_dmarc.<domain>` is a warning without a record. */
  lemma DmarcAbsentExample()
    ensures var r := DmarcAnalysis(Answer([]));
      r.record == None && r.status == Warning && r.findings == [Finding(Warning, NoDmarcMessage)]
  {
  }

  /** The findings for a lone DMARC record whose policy tag reads `policy`. */
  lemma DmarcLoneRecord(rec: string, policy: string)
    requires DmarcPrefix <= rec && PolicyCapture(rec) == Some(policy)
    ensures DmarcAnalysis(Answer([[rec]])).findings ==
      [Finding(Info, DmarcFoundMessage)] + DmarcPolicyFindings(Some(policy)) + DmarcReportingFindings(rec)
  {
    assert Flatten([[rec]]) == [rec];
    assert DmarcRecords([[rec]]) == [rec];
  }

  /** `DmarcPrefix + "; "` holds no `p`, so a `p=` right after it is the first. */
  lemma DmarcHead(rec: string, policy: string, rest: string)
    requires rec == DmarcPrefix + "; " + "p=" + policy + ";" + rest
    requires ';' !in policy && |policy| > 0
    ensures DmarcPrefix <= rec && PolicyCapture(rec) == Some(policy)
  {
    assert 'p' !in DmarcPrefix + "; ";
    PolicyAfter(DmarcPrefix + "; ", policy, rest, rec);
  }

  /** A record that reads `v=DMARC1; p=reject;` and names an aggregate
      reporting address later on, such as `v=DMARC1; p=reject; rua=mailto:x@y.com`,
      is valid: the policy is `reject` and there is no reporting warning. */
  lemma DmarcRejectExample(rec: string, rest: string)
    requires rec == DmarcPrefix + "; " + "p=" + "reject" + ";" + rest
    requires Contains(rest, "rua=")
    ensures var r := DmarcAnalysis(Answer([[rec]]));
      && r.findings == [Finding(Info, DmarcFoundMessage), Finding(Valid, PolicyRejectMessage)]
      && r.status == Valid
  {
    DmarcHead(rec, "reject", rest);
    DmarcLoneRecord(rec, "reject");
    ContainsInMiddle(DmarcPrefix + "; " + "p=" + "reject" + ";", rest, "", "rua=");
    assert DmarcPrefix + "; " + "p=" + "reject" + ";" + rest + "" == rec;
    assert Trim("reject") == "reject";
  }

  /** The `p=` that ends the `sp=` tag is read as the policy: a record that
      reads `v=DMARC1; sp=none;` gets the warning for policy `none` whatever
      policy it states afterwards (in
      `v=DMARC1; sp=none; p=reject; rua=mailto:x@y.com`, say). */
  lemma DmarcSubdomainPolicyQuirk(rec: string, rest: string)
    requires rec == DmarcPrefix + "; s" + "p=" + "none" + ";" + rest
    ensures var r := DmarcAnalysis(Answer([[rec]]));
      && r.findings == [Finding(Info, DmarcFoundMessage), Finding(Warning, PolicyNoneMessage)]
                       + DmarcReportingFindings(rec)
      && r.status == Warning
  {
    SubdomainHead(rec, rest);
    DmarcLoneRecord(rec, "none");
    assert Trim("none") == "none";
    PolicyNoneIsWarning(DmarcReportingFindings(rec));
  }

  /** With the `none` policy finding, the status is a warning whether or not
      the reporting warning follows. */
  lemma PolicyNoneIsWarning(reporting: seq<Finding>)
    requires reporting == [] || reporting == [Finding(Warning, MissingRuaMessage)]
    ensures DetermineStatus([Finding(Info, DmarcFoundMessage), Finding(Warning, PolicyNoneMessage)] + reporting) == Warning
  {
    var head := [Finding(Info, DmarcFoundMessage), Finding(Warning, PolicyNoneMessage)];
    assert DetermineStatus(head) == Warning by {
      assert head[1] in head;
    }
    assert DetermineStatus(reporting) in {Info, Warning} by {
      if reporting != [] {
        assert reporting[0] in reporting;
      }
    }
    StatusOfConcat(head, reporting);
  }

  lemma SubdomainHead(rec: string, rest: string)
    requires rec == DmarcPrefix + "; s" + "p=" + "none" + ";" + rest
    ensures DmarcPrefix <= rec && PolicyCapture(rec) == Some("none")
  {
    assert 'p' !in DmarcPrefix + "; s";
    PolicyAfter(DmarcPrefix + "; s", "none", rest, rec);
  }

  /** A DKIM key split as `["v=DKIM1; k=rsa; p=ABC", "DEF"]`: the second
      string lacks the version tag and is dropped, so the record is the first
      string alone; it holds `p=` and is valid. */
  lemma DkimContinuationExample(selector: string, domain: string, a: string, b: string)
    requires a == "v=DKIM1; k=rsa; p=ABC" && b == "DEF"
    ensures var r := DkimAnalysis(selector, domain, Answer([[a, b]]));
      && r.record == Some(a)
      && r.findings == [Finding(Info, DkimFoundMessage(selector)), Finding(Valid, KeyPresentMessage)]
      && r.status == Valid
  {
    assert DkimPrefix <= a;
    assert !(DkimPrefix <= b) by {
      assert b[0] != DkimPrefix[0];
    }
    assert Flatten([[a, b]]) == [a, b];
    assert DkimRecords([[a, b]]) == [a] by {
      assert [a, b][1..] == [b];
      assert FilterPrefix([b], DkimPrefix) == [] by {
        assert [b][1..] == [];
      }
    }
    assert Join([a], " ") == a;
    ContainsBetween("v=DKIM1; k=rsa; ", "p=", "ABC", a);
  }
}
