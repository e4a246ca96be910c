/** The records exchanged with the reputation service, and the guard of
    `check_ip_reputation`. The HTTP exchange itself is an oracle. */
module Reputation {
  import opened Wrappers
  import opened IpAddr

  type U8 = n: nat | n < 0x100
  type U32 = n: nat | n < 0x1_0000_0000

  /** The `data` object of a successful answer (`IpReputationData`): every
      field is optional and passes through as the service gave it. */
  datatype IpReputationData = IpReputationData(
    isPublic: Option<bool>,
    ipVersion: Option<U8>,
    isWhitelisted: Option<bool>,
    abuseConfidence: Option<U8>,
    countryCode: Option<string>,
    countryName: Option<string>,
    usageType: Option<string>,
    isp: Option<string>,
    domain: Option<string>,
    totalReports: Option<U32>,
    numDistinctUsers: Option<U32>,
    lastReportedAt: Option<string>)

  /** The twelve fields all absent: what a failed lookup leaves. */
  const NoData := IpReputationData(None, None, None, None, None, None, None, None, None, None, None, None)

  /** `IpReputationReport`: one per analysed address, with the time of the check. */
  datatype IpReputationReport = IpReputationReport(
    ipAddress: string,
    isPublic: Option<bool>,
    ipVersion: Option<U8>,
    isWhitelisted: Option<bool>,
    abuseConfidence: Option<U8>,
    countryCode: Option<string>,
    countryName: Option<string>,
    usageType: Option<string>,
    isp: Option<string>,
    domain: Option<string>,
    totalReports: Option<U32>,
    numDistinctUsers: Option<U32>,
    lastReportedAt: Option<string>,
    checkedAt: string)

  /** The twelve reputation fields of a report. */
  function DataOf(r: IpReputationReport): IpReputationData {
    IpReputationData(r.isPublic, r.ipVersion, r.isWhitelisted, r.abuseConfidence, r.countryCode,
      r.countryName, r.usageType, r.isp, r.domain, r.totalReports, r.numDistinctUsers, r.lastReportedAt)
  }

  /** The query parameters of one request: `ipAddress` and `maxAgeInDays`. */
  datatype Query = Query(ipAddress: string, maxAgeInDays: nat)

  /** The age limit `analyze_ips_with_abuseipdb` asks for. */
  const MaxAgeDays: nat := 90

  /** How a request that was sent can fail: no answer or a timeout, a
      non-success status with its body, or a body that does not decode. */
  datatype ServiceError = NetworkError | ApiError(status: nat, body: string) | ResponseParseError(body: string)

  /** Every error `check_ip_reputation` returns. */
  datatype LookupError = InvalidIpAddress(ip: string) | ServiceFailed(cause: ServiceError)

  /** The reputation service behind the HTTP request: what one query yields. */
  type Service = Query -> Result<IpReputationData, ServiceError>

  /** One call of `check_ip_reputation`: the request it sent, if any, and its result. */
  datatype Lookup = Lookup(sent: Option<Query>, outcome: Result<IpReputationData, LookupError>)

  /** `check_ip_reputation`: an address that does not parse fails before any
      request; otherwise exactly one query goes out and its answer is the result. */
  function CheckIpReputation(ip: string, maxAgeDays: nat, service: Service): (r: Lookup)
    ensures r.sent.Some? <==> IsValidIp(ip)
    ensures !IsValidIp(ip) ==> r.outcome == Failure(InvalidIpAddress(ip))
    ensures IsValidIp(ip) ==> r.sent == Some(Query(ip, maxAgeDays))
    ensures IsValidIp(ip) ==> match service(Query(ip, maxAgeDays))
      case Success(d) => r.outcome == Success(d)
      case Failure(e) => r.outcome == Failure(ServiceFailed(e))
  {
    if !IsValidIp(ip) then Lookup(None, Failure(InvalidIpAddress(ip)))
    else
      var q := Query(ip, maxAgeDays);
      match service(q)
      case Success(d) => Lookup(Some(q), Success(d))
      case Failure(e) => Lookup(Some(q), Failure(ServiceFailed(e)))
  }

  /** For an invalid address the service is never consulted: any two services
      give the same result. */
  lemma InvalidIpIgnoresService(ip: string, maxAgeDays: nat, s1: Service, s2: Service)
    requires !IsValidIp(ip)
    ensures CheckIpReputation(ip, maxAgeDays, s1) == CheckIpReputation(ip, maxAgeDays, s2)
  {
  }

  /** The report `analyze_ips_with_abuseipdb` builds for one address: the
      fields copied on success, all absent on failure, the time of the check either way. */
  function ReportFor(ip: string, outcome: Result<IpReputationData, LookupError>, checkedAt: string): (r: IpReputationReport)
    ensures r.ipAddress == ip && r.checkedAt == checkedAt
    ensures DataOf(r) == if outcome.Success? then outcome.value else NoData
  {
    match outcome
    case Success(d) =>
      IpReputationReport(ip, d.isPublic, d.ipVersion, d.isWhitelisted, d.abuseConfidence, d.countryCode,
        d.countryName, d.usageType, d.isp, d.domain, d.totalReports, d.numDistinctUsers, d.lastReportedAt, checkedAt)
    case Failure(_) =>
      IpReputationReport(ip, None, None, None, None, None, None, None, None, None, None, None, None, checkedAt)
  }
}
