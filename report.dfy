/** The Report Writer: how `csv::Writer::serialize` lays out an
    `IpReputationReport` as one record, and the report file as a whole. */
module ReportWriter {
  import opened Wrappers
  import opened Text
  import opened Reputation

  /** An absent value is an empty cell. */
  function NatCell(v: Option<nat>): string {
    match v
    case Some(n) => NatToDecimal(n)
    case None => ""
  }

  function BoolCell(v: Option<bool>): string {
    match v
    case Some(b) => if b then "true" else "false"
    case None => ""
  }

  function TextCell(v: Option<string>): string {
    v.GetOr("")
  }

  /** The header serde derives from the field names of `IpReputationReport`. */
  const ReportHeader: seq<string> := [
    "ip_address", "is_public", "ip_version", "is_whitelisted", "abuse_confidence",
    "country_code", "country_name", "usage_type", "isp", "domain",
    "total_reports", "num_distinct_users", "last_reported_at", "checked_at"]

  /** One report as a record, fields in declaration order. */
  function ReportRecord(r: IpReputationReport): (row: seq<string>)
    ensures |row| == |ReportHeader|
    ensures row[0] == r.ipAddress && row[13] == r.checkedAt
    ensures DataOf(r) == NoData ==> DataCellsBlank(row)
  {
    [r.ipAddress, BoolCell(r.isPublic), NatCell(r.ipVersion), BoolCell(r.isWhitelisted),
     NatCell(r.abuseConfidence), TextCell(r.countryCode), TextCell(r.countryName),
     TextCell(r.usageType), TextCell(r.isp), TextCell(r.domain), NatCell(r.totalReports),
     NatCell(r.numDistinctUsers), TextCell(r.lastReportedAt), r.checkedAt]
  }

  /** The records of the report file: the writer emits the header with the
      first serialized report, so no reports means an empty file. */
  function ReportCsv(results: seq<IpReputationReport>): (csv: seq<seq<string>>)
    ensures results == [] ==> csv == []
    ensures results != [] ==> |csv| == |results| + 1 && csv[0] == ReportHeader
  {
    if results == [] then [] else [ReportHeader] + ReportRecords(results)
  }

  function ReportRecords(results: seq<IpReputationReport>): (rows: seq<seq<string>>)
    ensures |rows| == |results|
    ensures forall i :: 0 <= i < |results| ==> rows[i] == ReportRecord(results[i])
  {
    if results == [] then [] else ReportRecords(results[..|results| - 1]) + [ReportRecord(results[|results| - 1])]
  }

  /** The report file after one more report. */
  lemma ReportCsvStep(results: seq<IpReputationReport>, j: nat)
    requires j < |results|
    ensures ReportCsv(results[..j + 1]) == (if j == 0 then [ReportHeader] else ReportCsv(results[..j])) + [ReportRecord(results[j])]
  {
    assert results[..j + 1][..j] == results[..j];
  }

  /** A numeric cell is empty exactly when the value is absent, and otherwise
      reads back as the value. */
  lemma NatCellReadsBack(v: Option<nat>)
    ensures NatCell(v) == "" <==> v.None?
    ensures v.Some? ==> AllDigits(NatCell(v)) && DecimalValue(NatCell(v)) == v.value
  {
  }

  /** Each flag and text cell of a report row sits under the header column of
      its field, written as given and empty when absent. */
  lemma ReportTextColumns(r: IpReputationReport)
    ensures var row := ReportRecord(r);
      && ReportHeader[1] == "is_public" && row[1] == BoolCell(r.isPublic)
      && ReportHeader[3] == "is_whitelisted" && row[3] == BoolCell(r.isWhitelisted)
      && ReportHeader[5] == "country_code" && row[5] == r.countryCode.GetOr("")
      && ReportHeader[6] == "country_name" && row[6] == r.countryName.GetOr("")
      && ReportHeader[7] == "usage_type" && row[7] == r.usageType.GetOr("")
      && ReportHeader[8] == "isp" && row[8] == r.isp.GetOr("")
      && ReportHeader[9] == "domain" && row[9] == r.domain.GetOr("")
      && ReportHeader[12] == "last_reported_at" && row[12] == r.lastReportedAt.GetOr("")
  {
  }

  /** Each numeric cell of a report row sits under the header column of its
      field, is empty exactly when the value is absent, and otherwise reads
      back as the value. */
  lemma ReportNumberColumns(r: IpReputationReport)
    ensures var row := ReportRecord(r);
      && ReportHeader[2] == "ip_version" && (row[2] == "" <==> r.ipVersion.None?)
      && (r.ipVersion.Some? ==> DecimalValue(row[2]) == r.ipVersion.value)
      && ReportHeader[4] == "abuse_confidence" && (row[4] == "" <==> r.abuseConfidence.None?)
      && (r.abuseConfidence.Some? ==> DecimalValue(row[4]) == r.abuseConfidence.value)
      && ReportHeader[10] == "total_reports" && (row[10] == "" <==> r.totalReports.None?)
      && (r.totalReports.Some? ==> DecimalValue(row[10]) == r.totalReports.value)
      && ReportHeader[11] == "num_distinct_users" && (row[11] == "" <==> r.numDistinctUsers.None?)
      && (r.numDistinctUsers.Some? ==> DecimalValue(row[11]) == r.numDistinctUsers.value)
  {
    var row := ReportRecord(r);
    assert row[2] == NatCell(r.ipVersion) && row[4] == NatCell(r.abuseConfidence);
    assert row[10] == NatCell(r.totalReports) && row[11] == NatCell(r.numDistinctUsers);
    NatCellReadsBack(r.ipVersion);
    NatCellReadsBack(r.abuseConfidence);
    NatCellReadsBack(r.totalReports);
    NatCellReadsBack(r.numDistinctUsers);
  }

  /** The twelve cells between the address and the check time are empty. */
  predicate DataCellsBlank(row: seq<string>)
    requires |row| == |ReportHeader|
  {
    forall c :: 1 <= c < 13 ==> row[c] == ""
  }

  /** One row per report after the header, never one dropped for a failed
      lookup; each row starts with the address and ends with the check time,
      and a failed lookup's row has only those two cells filled. */
  lemma {:induction false} ReportShape(results: seq<IpReputationReport>)
    requires results != []
    ensures var csv := ReportCsv(results);
      && |csv| == |results| + 1 && csv[0] == ReportHeader
      && forall i :: 0 <= i < |results| ==>
           && |csv[i + 1]| == |ReportHeader|
           && csv[i + 1][0] == results[i].ipAddress
           && csv[i + 1][13] == results[i].checkedAt
           && (DataOf(results[i]) == NoData ==> DataCellsBlank(csv[i + 1]))
  {
    var csv := ReportCsv(results);
    forall i | 0 <= i < |results|
      ensures |csv[i + 1]| == |ReportHeader| && csv[i + 1] == ReportRecord(results[i])
    {
    }
  }
}
