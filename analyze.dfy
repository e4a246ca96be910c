/** `analyze_ips_with_abuseipdb`: the Enrichment Orchestrator. One lookup per
    address in list order, a courtesy pause between consecutive lookups, one
    report per address whatever the lookup's outcome, the report file, and the
    high/medium/low risk buckets. */
module Analyze {
  import opened Wrappers
  import opened IpAddr
  import opened Reputation
  import opened ReportWriter

  /** What the orchestrator does that the outside world can observe: starting
      on an address ("Checking IP i/n"), sending a query, pausing. */
  datatype Event = Checking(ip: string) | Request(query: Query) | Sleep

  /** The events of iteration `i`: the check, its request if one is sent,
      and the pause, which every iteration but the last ends with. `sends`
      is the test that decides whether a query goes out; the orchestrator's
      test is `IsValidIp`, and the lemmas below hold for any test. */
  function StepEvents(ips: seq<string>, i: nat, sends: string -> bool): seq<Event>
    requires i < |ips|
  {
    [Checking(ips[i])]
    + (if sends(ips[i]) then [Request(Query(ips[i], MaxAgeDays))] else [])
    + (if i < |ips| - 1 then [Sleep] else [])
  }

  /** The events of the first `n` iterations. */
  function TraceUpTo(ips: seq<string>, n: nat, sends: string -> bool): seq<Event>
    requires n <= |ips|
  {
    if n == 0 then [] else TraceUpTo(ips, n - 1, sends) + StepEvents(ips, n - 1, sends)
  }

  /** The events of a whole run over `ips`. */
  function AnalysisTrace(ips: seq<string>): seq<Event> {
    TraceUpTo(ips, |ips|, IsValidIp)
  }

  function CountSleeps(trace: seq<Event>): nat {
    if trace == [] then 0 else CountSleeps(trace[..|trace| - 1]) + if trace[|trace| - 1].Sleep? then 1 else 0
  }

  /** The addresses checked, in order. */
  function CheckedIps(trace: seq<Event>): seq<string> {
    if trace == [] then []
    else CheckedIps(trace[..|trace| - 1]) + if trace[|trace| - 1].Checking? then [trace[|trace| - 1].ip] else []
  }

  /** The queries sent, in order. */
  function Requests(trace: seq<Event>): seq<Query> {
    if trace == [] then []
    else Requests(trace[..|trace| - 1]) + if trace[|trace| - 1].Request? then [trace[|trace| - 1].query] else []
  }

  lemma {:induction false} SleepsOfAppend(a: seq<Event>, b: seq<Event>)
    ensures CountSleeps(a + b) == CountSleeps(a) + CountSleeps(b)
  {
    if b == [] {
      assert a + b == a;
    } else {
      SleepsOfAppend(a, b[..|b| - 1]);
      assert (a + b)[..|a + b| - 1] == a + b[..|b| - 1];
    }
  }

  lemma {:induction false} ChecksOfAppend(a: seq<Event>, b: seq<Event>)
    ensures CheckedIps(a + b) == CheckedIps(a) + CheckedIps(b)
  {
    if b == [] {
      assert a + b == a;
    } else {
      ChecksOfAppend(a, b[..|b| - 1]);
      assert (a + b)[..|a + b| - 1] == a + b[..|b| - 1];
    }
  }

  lemma {:induction false} RequestsOfAppend(a: seq<Event>, b: seq<Event>)
    ensures Requests(a + b) == Requests(a) + Requests(b)
  {
    if b == [] {
      assert a + b == a;
    } else {
      RequestsOfAppend(a, b[..|b| - 1]);
      assert (a + b)[..|a + b| - 1] == a + b[..|b| - 1];
    }
  }

  /** What one iteration contributes: one check, a request exactly when the
      address passes the test, a pause unless it is the last. */
  lemma StepEventsContent(ips: seq<string>, i: nat, sends: string -> bool)
    requires i < |ips|
    ensures CountSleeps(StepEvents(ips, i, sends)) == if i < |ips| - 1 then 1 else 0
    ensures CheckedIps(StepEvents(ips, i, sends)) == [ips[i]]
    ensures Requests(StepEvents(ips, i, sends)) == if sends(ips[i]) then [Query(ips[i], MaxAgeDays)] else []
  {
    var check: seq<Event> := [Checking(ips[i])];
    var request: seq<Event> := if sends(ips[i]) then [Request(Query(ips[i], MaxAgeDays))] else [];
    var pause: seq<Event> := if i < |ips| - 1 then [Sleep] else [];
    assert StepEvents(ips, i, sends) == check + request + pause;
    SleepsOfAppend(check + request, pause);
    SleepsOfAppend(check, request);
    ChecksOfAppend(check + request, pause);
    ChecksOfAppend(check, request);
    RequestsOfAppend(check + request, pause);
    RequestsOfAppend(check, request);
  }

  /** The pauses: one after every address but the last, so `n - 1` for `n`
      addresses and none for none. */
  lemma {:induction false} SleepCount(ips: seq<string>, n: nat, sends: string -> bool)
    requires n <= |ips|
    ensures CountSleeps(TraceUpTo(ips, n, sends)) == if n == |ips| && n > 0 then n - 1 else n
  {
    if n > 0 {
      var prev, step := TraceUpTo(ips, n - 1, sends), StepEvents(ips, n - 1, sends);
      assert CountSleeps(TraceUpTo(ips, n, sends)) == CountSleeps(prev) + if n < |ips| then 1 else 0 by {
        assert TraceUpTo(ips, n, sends) == prev + step;
        SleepsOfAppend(prev, step);
        StepEventsContent(ips, n - 1, sends);
      }
      SleepCount(ips, n - 1, sends);
    }
  }

  /** Every address is checked, once, in list order. */
  lemma {:induction false} ChecksInOrder(ips: seq<string>, n: nat, sends: string -> bool)
    requires n <= |ips|
    ensures CheckedIps(TraceUpTo(ips, n, sends)) == ips[..n]
  {
    if n > 0 {
      var prev, step := TraceUpTo(ips, n - 1, sends), StepEvents(ips, n - 1, sends);
      assert CheckedIps(TraceUpTo(ips, n, sends)) == CheckedIps(prev) + [ips[n - 1]] by {
        assert TraceUpTo(ips, n, sends) == prev + step;
        ChecksOfAppend(prev, step);
        StepEventsContent(ips, n - 1, sends);
      }
      ChecksInOrder(ips, n - 1, sends);
      assert ips[..n] == ips[..n - 1] + [ips[n - 1]];
    }
  }

  /** The queries sent: one per address that passes the test, in list order,
      with the fixed age limit. */
  function SentQueries(ips: seq<string>, sends: string -> bool): seq<Query> {
    if ips == [] then []
    else
      var last := ips[|ips| - 1];
      SentQueries(ips[..|ips| - 1], sends) + (if sends(last) then [Query(last, MaxAgeDays)] else [])
  }

  lemma {:induction false} RequestsAreSentQueries(ips: seq<string>, n: nat, sends: string -> bool)
    requires n <= |ips|
    ensures Requests(TraceUpTo(ips, n, sends)) == SentQueries(ips[..n], sends)
  {
    if n > 0 {
      var last: seq<Query> := if sends(ips[n - 1]) then [Query(ips[n - 1], MaxAgeDays)] else [];
      assert Requests(TraceUpTo(ips, n, sends)) == Requests(TraceUpTo(ips, n - 1, sends)) + last by {
        var prev, step := TraceUpTo(ips, n - 1, sends), StepEvents(ips, n - 1, sends);
        assert TraceUpTo(ips, n, sends) == prev + step;
        RequestsOfAppend(prev, step);
        StepEventsContent(ips, n - 1, sends);
      }
      assert SentQueries(ips[..n], sends) == SentQueries(ips[..n - 1], sends) + last by {
        assert ips[..n][..n - 1] == ips[..n - 1];
      }
      RequestsAreSentQueries(ips, n - 1, sends);
    }
  }

  /** When every address passes, exactly one query per address is sent, in order. */
  lemma {:induction false} AllPassAllSent(ips: seq<string>, sends: string -> bool)
    requires forall i :: 0 <= i < |ips| ==> sends(ips[i])
    ensures |SentQueries(ips, sends)| == |ips|
    ensures forall i :: 0 <= i < |ips| ==> SentQueries(ips, sends)[i] == Query(ips[i], MaxAgeDays)
  {
    if ips != [] {
      AllPassAllSent(ips[..|ips| - 1], sends);
    }
  }

  /** Only addresses that pass the test are sent. */
  lemma {:induction false} OnlyPassingSent(ips: seq<string>, sends: string -> bool, q: Query)
    requires q in SentQueries(ips, sends)
    ensures sends(q.ipAddress) && q.ipAddress in ips && q.maxAgeInDays == MaxAgeDays
  {
    if ips != [] {
      var init := ips[..|ips| - 1];
      if q in SentQueries(init, sends) {
        OnlyPassingSent(init, sends, q);
        assert q.ipAddress in ips by {
          var k :| 0 <= k < |init| && init[k] == q.ipAddress;
          assert ips[k] == q.ipAddress;
        }
      }
    }
  }

  /** A run over `ips`: every address checked once, in order; a pause
      between consecutive checks and none after the last; one query per
      valid address, in order, and none for an invalid one. */
  lemma RunTrace(ips: seq<string>)
    ensures var t := AnalysisTrace(ips);
      && CheckedIps(t) == ips
      && CountSleeps(t) == (if ips == [] then 0 else |ips| - 1)
      && Requests(t) == SentQueries(ips, IsValidIp)
      && forall q :: q in Requests(t) ==> IsValidIp(q.ipAddress) && q.ipAddress in ips && q.maxAgeInDays == MaxAgeDays
  {
    var t := AnalysisTrace(ips);
    ChecksInOrder(ips, |ips|, IsValidIp);
    assert ips[..|ips|] == ips;
    SleepCount(ips, |ips|, IsValidIp);
    RequestsAreSentQueries(ips, |ips|, IsValidIp);
    forall q | q in Requests(t)
      ensures IsValidIp(q.ipAddress) && q.ipAddress in ips && q.maxAgeInDays == MaxAgeDays
    {
      OnlyPassingSent(ips, IsValidIp, q);
    }
  }

  /** A run never ends on a pause. */
  lemma NoTrailingSleep(ips: seq<string>)
    requires ips != []
    ensures var t := AnalysisTrace(ips); t != [] && !t[|t| - 1].Sleep?
  {
  }

  /** Reports that carry an abuse-confidence score. */
  predicate HasScore(r: IpReputationReport) { r.abuseConfidence.Some? }

  /** `abuse_confidence.unwrap_or(0)`. */
  function Confidence(r: IpReputationReport): nat { r.abuseConfidence.GetOr(0) }

  predicate IsHighRisk(r: IpReputationReport) { Confidence(r) > 75 }
  predicate IsMediumRisk(r: IpReputationReport) { Confidence(r) > 25 && Confidence(r) <= 75 }
  predicate IsLowRisk(r: IpReputationReport) { Confidence(r) <= 25 }

  /** The elements of `s` satisfying `p`, in order (`iter().filter(..).collect()`). */
  function Filter<T(!new)>(s: seq<T>, p: T -> bool): (r: seq<T>)
    ensures |r| <= |s|
  {
    if s == [] then [] else Filter(s[..|s| - 1], p) + if p(s[|s| - 1]) then [s[|s| - 1]] else []
  }

  /** A filter keeps exactly the elements satisfying its predicate. */
  lemma {:induction false} FilterMembers<T(!new)>(s: seq<T>, p: T -> bool, x: T)
    ensures x in Filter(s, p) <==> x in s && p(x)
  {
    if s != [] {
      FilterMembers(s[..|s| - 1], p, x);
      assert s == s[..|s| - 1] + [s[|s| - 1]];
    }
  }

  /** `valid_results`: the reports with a score. */
  function Scored(results: seq<IpReputationReport>): seq<IpReputationReport> {
    Filter(results, HasScore)
  }

  /** The risk buckets, or the note that every lookup failed when no report has a score. */
  datatype RiskSummary =
    | AllLookupsFailed
    | Buckets(high: seq<IpReputationReport>, medium: seq<IpReputationReport>, low: seq<IpReputationReport>)

  /** Every report falls in exactly one of the three buckets, so their sizes
      add up to the number of reports. */
  lemma {:induction false} BucketSizes(s: seq<IpReputationReport>)
    ensures |Filter(s, IsHighRisk)| + |Filter(s, IsMediumRisk)| + |Filter(s, IsLowRisk)| == |s|
  {
    if s != [] {
      BucketSizes(s[..|s| - 1]);
    }
  }

  function Summarize(results: seq<IpReputationReport>): (summary: RiskSummary)
    ensures summary.AllLookupsFailed? ==> Scored(results) == []
    ensures summary.Buckets? ==> |summary.high| + |summary.medium| + |summary.low| == |Scored(results)| > 0
  {
    var valid := Scored(results);
    if valid == [] then AllLookupsFailed
    else
      BucketSizes(valid);
      Buckets(Filter(valid, IsHighRisk), Filter(valid, IsMediumRisk), Filter(valid, IsLowRisk))
  }

  /** How many times `x` occurs in `s`. */
  function Occurrences<T(==)>(s: seq<T>, x: T): nat {
    if s == [] then 0 else Occurrences(s[..|s| - 1], x) + if s[|s| - 1] == x then 1 else 0
  }

  /** A filter keeps every occurrence of an element that satisfies its
      predicate and none of one that does not. */
  lemma {:induction false} FilterOccurrences<T(!new)>(s: seq<T>, p: T -> bool, x: T)
    ensures Occurrences(Filter(s, p), x) == if p(x) then Occurrences(s, x) else 0
  {
    if s != [] {
      var init, last := s[..|s| - 1], s[|s| - 1];
      var kept: seq<T> := if p(last) then [last] else [];
      assert Filter(s, p) == Filter(init, p) + kept;
      FilterOccurrences(init, p, x);
      OccurrencesOfAppend(Filter(init, p), kept, x);
    }
  }

  lemma {:induction false} OccurrencesOfAppend<T>(a: seq<T>, b: seq<T>, x: T)
    ensures Occurrences(a + b, x) == Occurrences(a, x) + Occurrences(b, x)
  {
    if b == [] {
      assert a + b == a;
    } else {
      OccurrencesOfAppend(a, b[..|b| - 1], x);
      assert (a + b)[..|a + b| - 1] == a + b[..|b| - 1];
    }
  }

  /** The buckets split the scored reports: every scored report lies in
      exactly one bucket, as often as it occurs, and unscored reports in none. */
  lemma RiskPartition(results: seq<IpReputationReport>, r: IpReputationReport)
    requires Summarize(results).Buckets?
    ensures var b := Summarize(results);
      && Occurrences(b.high, r) + Occurrences(b.medium, r) + Occurrences(b.low, r) == Occurrences(Scored(results), r)
      && (r in b.high ==> r !in b.medium && r !in b.low)
      && (r in b.medium ==> r !in b.low)
      && (r in b.high || r in b.medium || r in b.low ==> HasScore(r))
      && (r in b.high <==> r in results && HasScore(r) && Confidence(r) > 75)
      && (r in b.medium <==> r in results && HasScore(r) && 25 < Confidence(r) <= 75)
      && (r in b.low <==> r in results && HasScore(r) && Confidence(r) <= 25)
  {
    var valid := Scored(results);
    FilterOccurrences(valid, IsHighRisk, r);
    FilterOccurrences(valid, IsMediumRisk, r);
    FilterOccurrences(valid, IsLowRisk, r);
    FilterMembers(valid, IsHighRisk, r);
    FilterMembers(valid, IsMediumRisk, r);
    FilterMembers(valid, IsLowRisk, r);
    FilterMembers(results, HasScore, r);
  }

  /** Only when no lookup produced a score is there no bucket listing. */
  lemma AllFailedIff(results: seq<IpReputationReport>)
    ensures Summarize(results).AllLookupsFailed? <==> forall i :: 0 <= i < |results| ==> !HasScore(results[i])
  {
    if Summarize(results).AllLookupsFailed? {
      forall i | 0 <= i < |results|
        ensures !HasScore(results[i])
      {
        FilterMembers(results, HasScore, results[i]);
      }
    } else {
      var r := Scored(results)[0];
      FilterMembers(results, HasScore, r);
    }
  }

  /** The boundaries: 75 is medium, not high; 25 is low, not medium. */
  lemma RiskBoundaries(r: IpReputationReport)
    ensures r.abuseConfidence == Some(75) ==> IsMediumRisk(r) && !IsHighRisk(r)
    ensures r.abuseConfidence == Some(76) ==> IsHighRisk(r) && !IsMediumRisk(r)
    ensures r.abuseConfidence == Some(25) ==> IsLowRisk(r) && !IsMediumRisk(r)
    ensures r.abuseConfidence == Some(26) ==> IsMediumRisk(r) && !IsLowRisk(r)
  {
  }

  /** The loop body: the report for one address and the events of its iteration. */
  method CheckOne(ipList: seq<string>, i: nat, service: Service, checkedAt: string)
    returns (report: IpReputationReport, events: seq<Event>)
    requires i < |ipList|
    ensures report == ReportFor(ipList[i], CheckIpReputation(ipList[i], MaxAgeDays, service).outcome, checkedAt)
    ensures events == StepEvents(ipList, i, IsValidIp)
  {
    var ip := ipList[i];
    var lookup := CheckIpReputation(ip, MaxAgeDays, service);
    events := [Checking(ip)];
    if lookup.sent.Some? {
      events := events + [Request(lookup.sent.value)];
    }
    match lookup.outcome {
      case Success(data) =>
        report := IpReputationReport(ip, data.isPublic, data.ipVersion, data.isWhitelisted,
          data.abuseConfidence, data.countryCode, data.countryName, data.usageType, data.isp,
          data.domain, data.totalReports, data.numDistinctUsers, data.lastReportedAt, checkedAt);
      case Failure(_) =>
        report := IpReputationReport(ip, None, None, None, None, None, None, None, None, None,
          None, None, None, checkedAt);
    }
    if i < |ipList| - 1 {
      events := events + [Sleep];
    }
  }

  /** The report the source produces for the `i`-th address. */
  function ExpectedReport(ipList: seq<string>, i: nat, service: Service, clock: nat -> string): IpReputationReport
    requires i < |ipList|
  {
    ReportFor(ipList[i], CheckIpReputation(ipList[i], MaxAgeDays, service).outcome, clock(i))
  }

  /** The reports for the first `n` addresses. */
  function ExpectedReports(ipList: seq<string>, n: nat, service: Service, clock: nat -> string): (r: seq<IpReputationReport>)
    requires n <= |ipList|
    ensures |r| == n
    ensures forall i :: 0 <= i < n ==> r[i] == ExpectedReport(ipList, i, service, clock)
  {
    if n == 0 then [] else ExpectedReports(ipList, n - 1, service, clock) + [ExpectedReport(ipList, n - 1, service, clock)]
  }

  /** One turn of the lookup loop: the report and events of address `i`
      join those of the addresses before it. */
  method CheckNext(ipList: seq<string>, i: nat, service: Service, clock: nat -> string,
                   results: seq<IpReputationReport>, trace: seq<Event>)
    returns (results': seq<IpReputationReport>, trace': seq<Event>)
    requires i < |ipList|
    requires results == ExpectedReports(ipList, i, service, clock)
    requires trace == TraceUpTo(ipList, i, IsValidIp)
    ensures results' == ExpectedReports(ipList, i + 1, service, clock)
    ensures trace' == TraceUpTo(ipList, i + 1, IsValidIp)
  {
    var r, events := CheckOne(ipList, i, service, clock(i));
    results' := results + [r];
    trace' := trace + events;
  }

  /** The lookup loop: one report per address, in order, and the events of every iteration. */
  method CheckAll(ipList: seq<string>, service: Service, clock: nat -> string)
    returns (results: seq<IpReputationReport>, trace: seq<Event>)
    ensures results == ExpectedReports(ipList, |ipList|, service, clock)
    ensures trace == AnalysisTrace(ipList)
  {
    results, trace := [], [];
    var i := 0;
    while i < |ipList|
      invariant 0 <= i <= |ipList|
      invariant results == ExpectedReports(ipList, i, service, clock)
      invariant trace == TraceUpTo(ipList, i, IsValidIp)
    {
      results, trace := CheckNext(ipList, i, service, clock, results, trace);
      i := i + 1;
    }
  }

  /** The report file's rows: the header, then one row per report, or nothing
      at all when there are no reports. */
  method SerializeReport(results: seq<IpReputationReport>) returns (report: seq<seq<string>>)
    ensures report == ReportCsv(results)
  {
    report := [];
    var j := 0;
    while j < |results|
      invariant 0 <= j <= |results|
      invariant report == ReportCsv(results[..j])
    {
      if j == 0 {
        report := [ReportHeader];
      }
      ReportCsvStep(results, j);
      report := report + [ReportRecord(results[j])];
      j := j + 1;
    }
    assert results[..j] == results;
  }

  /** `analyze_ips_with_abuseipdb`, the file write aside: `clock(i)` is the
      time the `i`-th check finishes. */
  method AnalyzeIps(ipList: seq<string>, service: Service, clock: nat -> string)
    returns (results: seq<IpReputationReport>, trace: seq<Event>, report: seq<seq<string>>, summary: RiskSummary)
    ensures results == ExpectedReports(ipList, |ipList|, service, clock)
    ensures trace == AnalysisTrace(ipList)
    ensures report == ReportCsv(results)
    ensures summary == Summarize(results)
  {
    results, trace := CheckAll(ipList, service, clock);
    report := SerializeReport(results);
    summary := Summarize(results);
  }
}
