/** `run_ip_analysis`: the Pipeline. Extract the unique addresses, stop early
    when there are none, look each one up, then join the reports back onto
    the original export by address. */
module Pipeline {
  import opened Wrappers
  import opened Csv
  import opened IpAddr
  import opened Extract
  import opened Reputation
  import opened ReportWriter
  import opened Analyze
  import opened Enhance

  /** `results.iter().map(|r| (r.ip_address.clone(), r)).collect()`: later
      reports replace earlier ones with the same address. */
  function ReputationMapOf(results: seq<IpReputationReport>): (m: ReputationMap)
    ensures forall ip :: ip in m <==> exists i :: 0 <= i < |results| && results[i].ipAddress == ip
  {
    if results == [] then map[]
    else
      var last := results[|results| - 1];
      var m := ReputationMapOf(results[..|results| - 1]);
      assert forall i :: 0 <= i < |results| - 1 ==> results[..|results| - 1][i] == results[i];
      m[last.ipAddress := last]
  }

  /** With distinct addresses, each address maps to its own report. */
  lemma {:induction false} MapFindsOwnReport(results: seq<IpReputationReport>, i: nat)
    requires i < |results|
    requires forall j, k :: 0 <= j < k < |results| ==> results[j].ipAddress != results[k].ipAddress
    ensures results[i].ipAddress in ReputationMapOf(results)
    ensures ReputationMapOf(results)[results[i].ipAddress] == results[i]
  {
    var init, last := results[..|results| - 1], results[|results| - 1];
    assert ReputationMapOf(results) == ReputationMapOf(init)[last.ipAddress := last];
    if i < |init| {
      assert init[i] == results[i] && results[i].ipAddress != last.ipAddress;
      forall j, k | 0 <= j < k < |init|
        ensures init[j].ipAddress != init[k].ipAddress
      {
        assert init[j] == results[j] && init[k] == results[k];
      }
      MapFindsOwnReport(init, i);
    }
  }

  /** How a run that does not fail ends. */
  datatype Outcome =
    | NoIpsFound
    | Completed(ips: seq<string>, results: seq<IpReputationReport>, summary: RiskSummary, enhancedRows: nat)

  /** `run_ip_analysis` on an already opened export. The joiner re-reads the
      same export, so `input` serves both reads. `reportFile` and
      `enhancedFile` are the rows written to the two output files, None when
      a file is not written. */
  method RunIpAnalysis(input: CsvFile, parse: DetailsParser, service: Service, clock: nat -> string)
    returns (r: Result<Outcome, ExtractError>, trace: seq<Event>,
             reportFile: Option<seq<seq<string>>>, enhancedFile: Option<seq<seq<string>>>)
    ensures (LocateColumns(input.header).Failure? || FirstUnreadable(input.records).Some?
      || (r.Success? && r.value.NoIpsFound?)) ==> trace == [] && reportFile == None && enhancedFile == None
    ensures LocateColumns(input.header).Failure? ==> r == Failure(LocateColumns(input.header).error)
    ensures LocateColumns(input.header).Success? && FirstUnreadable(input.records).Some? ==>
      r == Failure(RecordUnreadable(FirstUnreadable(input.records).value))
    ensures LocateColumns(input.header).Success? && FirstUnreadable(input.records).None? ==>
      var (mi, di) := LocateColumns(input.header).value;
      && r.Success?
      && (r.value.NoIpsFound? <==> ValidIps(input.records, mi, di, parse) == {})
      && (r.value.Completed? ==>
            var c := r.value;
            && (forall i, j :: 0 <= i < j < |c.ips| ==> c.ips[i] != c.ips[j])
            && (forall a :: a in c.ips <==> a in ValidIps(input.records, mi, di, parse))
            && trace == AnalysisTrace(c.ips)
            && c.results == ExpectedReports(c.ips, |c.ips|, service, clock)
            && reportFile == Some(ReportCsv(c.results))
            && c.summary == Summarize(c.results)
            && enhancedFile == Some([input.header.values + EnhancedColumns]
                 + EnhancedRows(input.records, di, ReputationMapOf(c.results), parse))
            && c.enhancedRows == HitCount(input.records, di, ReputationMapOf(c.results), parse))
  {
    trace, reportFile, enhancedFile := [], None, None;
    var extracted := ExtractUniqueIps(input, parse);
    if extracted.Failure? {
      return Failure(extracted.error), trace, reportFile, enhancedFile;
    }
    var ips := extracted.value.ips;
    ghost var (mi, di) := LocateColumns(input.header).value;
    ghost var valid := ValidIps(input.records, mi, di, parse);
    if |ips| == 0 {
      assert ips == [];
      assert valid == {};
      return Success(NoIpsFound), trace, reportFile, enhancedFile;
    }
    assert ips[0] in valid;
    var results, events, report, summary := AnalyzeIps(ips, service, clock);
    trace, reportFile := events, Some(report);
    var repMap := ReputationMapOf(results);
    var written, joined := CreateEnhancedCsv(input, repMap, parse);
    enhancedFile := Some(written);
    r := match joined
      case Success(n) => Success(Completed(ips, results, summary, n))
      case Failure(e) => Failure(e);
  }

  /** The reports of a completed run carry the addresses they were made for,
      so their addresses are distinct when the extracted list is. */
  lemma ReportsDistinct(ips: seq<string>, service: Service, clock: nat -> string)
    requires forall i, j :: 0 <= i < j < |ips| ==> ips[i] != ips[j]
    ensures var results := ExpectedReports(ips, |ips|, service, clock);
      forall i, j :: 0 <= i < j < |results| ==> results[i].ipAddress != results[j].ipAddress
  {
  }

  /** The join finds every extracted row: a target row whose address passed
      validation gets, in its appended cells, that address and the
      reputation looked up for it. */
  lemma {:induction false} TargetRowsGetTheirReport(recs: seq<Record>, mi: nat, di: nat, parse: DetailsParser,
      ips: seq<string>, service: Service, clock: nat -> string, k: nat, a: string)
    requires forall i, j :: 0 <= i < j < |ips| ==> ips[i] != ips[j]
    requires forall x :: x in ips <==> x in ValidIps(recs, mi, di, parse)
    requires k < |recs| && Classify(Values(recs[k]), mi, di, parse) == ValidAddress(a)
    ensures var results := ExpectedReports(ips, |ips|, service, clock);
      exists j :: 0 <= j < |ips| && ips[j] == a
        && AppendedCells(Values(recs[k]), di, ReputationMapOf(results), parse) == [a] + ReputationCells(results[j])
  {
    var results := ExpectedReports(ips, |ips|, service, clock);
    OfferedIsCollected(recs, mi, di, parse, k, a);
    var j :| 0 <= j < |ips| && ips[j] == a;
    ReportsDistinct(ips, service, clock);
    MapFindsOwnReport(results, j);
  }

  /** A row whose address failed validation is never enriched: the address
      cell holds it, the seven reputation cells stay empty. */
  lemma InvalidRowsNotEnriched(recs: seq<Record>, mi: nat, di: nat, parse: DetailsParser,
      ips: seq<string>, service: Service, clock: nat -> string, k: nat, a: string)
    requires forall x :: x in ips <==> x in ValidIps(recs, mi, di, parse)
    requires k < |recs| && Classify(Values(recs[k]), mi, di, parse) == InvalidAddress(a)
    ensures var results := ExpectedReports(ips, |ips|, service, clock);
      AppendedCells(Values(recs[k]), di, ReputationMapOf(results), parse) == [a] + NoReputation
  {
    var results := ExpectedReports(ips, |ips|, service, clock);
    if a in ReputationMapOf(results) {
      var i :| 0 <= i < |results| && results[i].ipAddress == a;
      ValidIpsAreValid(recs, mi, di, parse, ips[i]);
    }
  }

  /** The same valid address clicked and then submitted: two target rows,
      one unique address. */
  lemma SameAddressTwice(d1: string, d2: string, ip: string, parse: DetailsParser)
    requires d1 != "" && d2 != "" && IsValidIp(ip)
    requires parse(d1) == Some(ip) && parse(d2) == Some(ip)
    ensures var recs := [Fields([ClickedLink, d1]), Fields([SubmittedData, d2])];
      && ValidIps(recs, 0, 1, parse) == {ip}
      && FilteredCount(recs, 0, 1, parse) == 2
      && InvalidIps(recs, 0, 1, parse) == []
  {
    var recs := [Fields([ClickedLink, d1]), Fields([SubmittedData, d2])];
    assert Classify(Values(recs[0]), 0, 1, parse) == ValidAddress(ip) by {
      assert FieldOr(Values(recs[0]), 0) == ClickedLink && FieldOr(Values(recs[0]), 1) == d1;
    }
    assert Classify(Values(recs[1]), 0, 1, parse) == ValidAddress(ip) by {
      assert FieldOr(Values(recs[1]), 0) == SubmittedData && FieldOr(Values(recs[1]), 1) == d2;
    }
    assert recs[..0] == [] && recs[..2] == recs;
    TallyStep(recs, 0, 0, 1, parse);
    TallyStep(recs, 1, 0, 1, parse);
  }

  /** Duplicates are removed by text, not by address: "::1" and "0::1" are the
      same IPv6 address, yet both pass validation and are looked up apart. */
  lemma Ipv6DuplicatesByText()
    ensures IsValidIp("::1") && IsValidIp("0::1") && "::1" != "0::1"
  {
    Ipv6Compressed([], ["1"]);
    Ipv6Compressed(["0"], ["1"]);
    assert Text.JoinAll([], ':') + "::" + Text.JoinAll(["1"], ':') == "::1";
    assert Text.JoinAll(["0"], ':') + "::" + Text.JoinAll(["1"], ':') == "0::1";
  }

  /** The first two entries of a duplicate-free list differ. */
  lemma FirstTwoDiffer(xs: seq<string>)
    requires forall i, j :: 0 <= i < j < |xs| ==> xs[i] != xs[j]
    ensures |xs| >= 2 ==> xs[0] != xs[1]
  {
  }

  /** A duplicate-free list whose only member is `a` is `[a]`. */
  lemma SingletonList(xs: seq<string>, a: string)
    requires forall i, j :: 0 <= i < j < |xs| ==> xs[i] != xs[j]
    requires forall x :: x in xs <==> x == a
    ensures xs == [a]
  {
    assert a in xs;
    forall i | 0 <= i < |xs|
      ensures xs[i] == a
    {
      assert xs[i] in xs;
    }
    FirstTwoDiffer(xs);
  }

  /** A single valid address is looked up with exactly one query. */
  lemma OneAddressOneQuery(ip: string)
    requires IsValidIp(ip)
    ensures Requests(AnalysisTrace([ip])) == [Query(ip, MaxAgeDays)]
  {
    RunTrace([ip]);
    AllPassAllSent([ip], IsValidIp);
  }

  /** Two rows whose `details` decode to an address with a report both get
      that report's cells, and both count as enhanced. */
  lemma TwoRowsOneReport(f1: seq<string>, f2: seq<string>, ip: string, repMap: ReputationMap, parse: DetailsParser)
    requires |f1| == 2 && |f2| == 2 && f1[1] != "" && f2[1] != ""
    requires parse(f1[1]) == Some(ip) && parse(f2[1]) == Some(ip) && ip in repMap
    ensures var cells := [ip] + ReputationCells(repMap[ip]);
      && EnhancedRows([Fields(f1), Fields(f2)], 1, repMap, parse) == [f1 + cells, f2 + cells]
      && HitCount([Fields(f1), Fields(f2)], 1, repMap, parse) == 2
  {
    var recs := [Fields(f1), Fields(f2)];
    assert recs[..1] == [recs[0]] && recs[..1][..0] == [];
  }

  /** The same valid address clicked and then submitted, end to end: one
      lookup and one report row, yet both rows of the export are enriched
      with that one report. */
  lemma ClickThenSubmit(d1: string, d2: string, ip: string, parse: DetailsParser,
      ips: seq<string>, service: Service, clock: nat -> string)
    requires d1 != "" && d2 != "" && IsValidIp(ip)
    requires parse(d1) == Some(ip) && parse(d2) == Some(ip)
    requires forall i, j :: 0 <= i < j < |ips| ==> ips[i] != ips[j]
    requires forall a :: a in ips <==> a in ValidIps([Fields([ClickedLink, d1]), Fields([SubmittedData, d2])], 0, 1, parse)
    ensures ips == [ip]
    ensures Requests(AnalysisTrace(ips)) == [Query(ip, MaxAgeDays)]
    ensures var results := ExpectedReports(ips, 1, service, clock);
      var recs := [Fields([ClickedLink, d1]), Fields([SubmittedData, d2])];
      var cells := [ip] + ReputationCells(results[0]);
      && |ReportCsv(results)| == 2
      && EnhancedRows(recs, 1, ReputationMapOf(results), parse) == [[ClickedLink, d1] + cells, [SubmittedData, d2] + cells]
      && HitCount(recs, 1, ReputationMapOf(results), parse) == 2
  {
    SameAddressTwice(d1, d2, ip, parse);
    SingletonList(ips, ip);
    OneAddressOneQuery(ip);
    var results := ExpectedReports(ips, 1, service, clock);
    MapFindsOwnReport(results, 0);
    TwoRowsOneReport([ClickedLink, d1], [SubmittedData, d2], ip, ReputationMapOf(results), parse);
  }
}
