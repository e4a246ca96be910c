/** `create_enhanced_csv`: the CSV Joiner. It copies the original export row
    for row and appends eight columns holding each row's browser address and,
    when that address was analysed, its reputation. */
module Enhance {
  import opened Wrappers
  import opened Csv
  import opened Extract
  import opened Reputation
  import opened ReportWriter

  /** The eight columns appended to the original header. */
  const EnhancedColumns: seq<string> := [
    "ip_address", "abuse_confidence", "country_name", "usage_type",
    "isp", "domain", "total_reports", "num_distinct_users"]

  /** The reports by address, as `run_ip_analysis` builds them. */
  type ReputationMap = map<string, IpReputationReport>

  /** Seven empty cells: the reputation part of a row without a report. */
  const NoReputation: seq<string> := ["", "", "", "", "", "", ""]

  /** The seven reputation cells of a row whose address was analysed; absent
      values are empty cells (`unwrap_or_default`). */
  function ReputationCells(rep: IpReputationReport): seq<string> {
    [NatCell(rep.abuseConfidence), TextCell(rep.countryName), TextCell(rep.usageType),
     TextCell(rep.isp), TextCell(rep.domain), NatCell(rep.totalReports), NatCell(rep.numDistinctUsers)]
  }

  /** The eight cells appended to a record: the address its `details` decodes
      to (empty when it does not), then the reputation of that address or
      seven empty cells. The `message` column plays no part. */
  function AppendedCells(fields: seq<string>, di: nat, repMap: ReputationMap, parse: DetailsParser): (cells: seq<string>)
    ensures |cells| == |EnhancedColumns|
    ensures !IsHit(fields, di, repMap, parse) ==> cells[1..] == NoReputation
  {
    match DecodedAddress(FieldOr(fields, di), parse)
    case None => [""] + NoReputation
    case Some(ip) => [ip] + if ip in repMap then ReputationCells(repMap[ip]) else NoReputation
  }

  /** Whether a record counts among the enhanced rows. */
  predicate IsHit(fields: seq<string>, di: nat, repMap: ReputationMap, parse: DetailsParser) {
    var a := DecodedAddress(FieldOr(fields, di), parse);
    a.Some? && a.value in repMap
  }

  /** The output rows for `recs`: each record's fields followed by its eight
      appended cells, one output row per input row. */
  function EnhancedRows(recs: seq<Record>, di: nat, repMap: ReputationMap, parse: DetailsParser): (rows: seq<seq<string>>)
    ensures |rows| == |recs|
  {
    if recs == [] then []
    else
      var fields := Values(recs[|recs| - 1]);
      EnhancedRows(recs[..|recs| - 1], di, repMap, parse) + [fields + AppendedCells(fields, di, repMap, parse)]
  }

  /** Row `i` of the output is row `i` of the input, unchanged, followed by
      its eight appended cells. */
  lemma {:induction false} EnhancedRowsShape(recs: seq<Record>, di: nat, repMap: ReputationMap, parse: DetailsParser, i: nat)
    requires i < |recs|
    ensures var row := EnhancedRows(recs, di, repMap, parse)[i];
      && |row| == |Values(recs[i])| + |EnhancedColumns|
      && row[..|Values(recs[i])|] == Values(recs[i])
      && row[|Values(recs[i])|..] == AppendedCells(Values(recs[i]), di, repMap, parse)
  {
    var init := recs[..|recs| - 1];
    if i < |recs| - 1 {
      EnhancedRowsShape(init, di, repMap, parse, i);
      assert EnhancedRows(recs, di, repMap, parse)[i] == EnhancedRows(init, di, repMap, parse)[i];
    } else {
      var fields := Values(recs[i]);
      var cells := AppendedCells(fields, di, repMap, parse);
      assert EnhancedRows(recs, di, repMap, parse)[i] == fields + cells;
      assert |cells| == |EnhancedColumns|;
    }
  }

  /** How many of `recs` found their address among the reports. */
  function HitCount(recs: seq<Record>, di: nat, repMap: ReputationMap, parse: DetailsParser): (n: nat)
    ensures n <= |recs|
  {
    if recs == [] then 0
    else HitCount(recs[..|recs| - 1], di, repMap, parse) + if IsHit(Values(recs[|recs| - 1]), di, repMap, parse) then 1 else 0
  }

  lemma RowsStep(recs: seq<Record>, i: nat, di: nat, repMap: ReputationMap, parse: DetailsParser)
    requires i < |recs|
    ensures EnhancedRows(recs[..i + 1], di, repMap, parse)
      == EnhancedRows(recs[..i], di, repMap, parse) + [Values(recs[i]) + AppendedCells(Values(recs[i]), di, repMap, parse)]
    ensures HitCount(recs[..i + 1], di, repMap, parse)
      == HitCount(recs[..i], di, repMap, parse) + if IsHit(Values(recs[i]), di, repMap, parse) then 1 else 0
  {
    assert recs[..i + 1][..i] == recs[..i];
  }

  /** The loop body of the joiner for one record: the eight cells start empty
      and are filled as far as the record's `details` allows. */
  method EnhanceRecord(fields: seq<string>, di: nat, repMap: ReputationMap, parse: DetailsParser)
    returns (row: seq<string>, hit: bool)
    ensures row == fields + AppendedCells(fields, di, repMap, parse)
    ensures hit == IsHit(fields, di, repMap, parse)
  {
    var ipAddress, abuseConfidence, countryName, usageType := "", "", "", "";
    var isp, domain, totalReports, numDistinctUsers := "", "", "", "";
    hit := false;
    if di < |fields| {
      var details := fields[di];
      if details != "" {
        match parse(details) {
          case Some(address) =>
            ipAddress := address;
            if address in repMap {
              var rep := repMap[address];
              hit := true;
              abuseConfidence := NatCell(rep.abuseConfidence);
              countryName := TextCell(rep.countryName);
              usageType := TextCell(rep.usageType);
              isp := TextCell(rep.isp);
              domain := TextCell(rep.domain);
              totalReports := NatCell(rep.totalReports);
              numDistinctUsers := NatCell(rep.numDistinctUsers);
            }
          case None =>
        }
      }
    }
    row := fields + [ipAddress, abuseConfidence, countryName, usageType, isp, domain, totalReports, numDistinctUsers];
  }

  /** One turn of the joiner's loop: write the enhanced row of record `i`
      and count it if its address was analysed. */
  method EnhanceNext(recs: seq<Record>, i: nat, di: nat, repMap: ReputationMap, parse: DetailsParser,
                     rows: seq<seq<string>>, enhanced: nat)
    returns (rows': seq<seq<string>>, enhanced': nat)
    requires i < |recs| && recs[i].Fields?
    requires rows == EnhancedRows(recs[..i], di, repMap, parse)
    requires enhanced == HitCount(recs[..i], di, repMap, parse)
    ensures rows' == EnhancedRows(recs[..i + 1], di, repMap, parse)
    ensures enhanced' == HitCount(recs[..i + 1], di, repMap, parse)
  {
    var row, hit := EnhanceRecord(recs[i].values, di, repMap, parse);
    RowsStep(recs, i, di, repMap, parse);
    rows' := rows + [row];
    enhanced' := enhanced + if hit then 1 else 0;
  }

  /** The joiner's loop over the data records once the `details` column is
      known: it writes one row per record and stops at the first unreadable one. */
  method EnhanceRecords(recs: seq<Record>, di: nat, repMap: ReputationMap, parse: DetailsParser)
    returns (rows: seq<seq<string>>, enhanced: nat, failedAt: Option<nat>)
    ensures failedAt == FirstUnreadable(recs)
    ensures failedAt.Some? ==> failedAt.value < |recs| && rows == EnhancedRows(recs[..failedAt.value], di, repMap, parse)
    ensures failedAt.None? ==> rows == EnhancedRows(recs, di, repMap, parse)
    ensures failedAt.None? ==> enhanced == HitCount(recs, di, repMap, parse)
  {
    rows, enhanced := [], 0;
    var i := 0;
    while i < |recs|
      invariant 0 <= i <= |recs|
      invariant AllReadable(recs[..i])
      invariant rows == EnhancedRows(recs[..i], di, repMap, parse)
      invariant enhanced == HitCount(recs[..i], di, repMap, parse)
    {
      if recs[i].Unreadable? {
        FirstUnreadableAt(recs, i);
        return rows, enhanced, Some(i);
      }
      rows, enhanced := EnhanceNext(recs, i, di, repMap, parse, rows, enhanced);
      ReadableStep(recs, i);
      i := i + 1;
    }
    assert recs[..i] == recs;
    failedAt := None;
  }

  /** `create_enhanced_csv` on an already opened file: `written` is what
      reaches the output file, `r` the number of enhanced rows or the error.
      The widened header is written before the `details` column is looked
      up, and rows already written stay written when a later record fails. */
  method CreateEnhancedCsv(file: CsvFile, repMap: ReputationMap, parse: DetailsParser)
    returns (written: seq<seq<string>>, r: Result<nat, ExtractError>)
    ensures file.header.Unreadable? ==> written == [] && r == Failure(HeaderUnreadable)
    ensures file.header.Fields? && DetailsColumn !in file.header.values ==>
      written == [file.header.values + EnhancedColumns] && r == Failure(MissingColumn(DetailsColumn))
    ensures file.header.Fields? && DetailsColumn in file.header.values ==>
      var di := Position(file.header.values, DetailsColumn).value;
      var header := file.header.values + EnhancedColumns;
      match FirstUnreadable(file.records)
      case Some(k) =>
        r == Failure(RecordUnreadable(k)) && written == [header] + EnhancedRows(file.records[..k], di, repMap, parse)
      case None =>
        r == Success(HitCount(file.records, di, repMap, parse))
        && written == [header] + EnhancedRows(file.records, di, repMap, parse)
  {
    if file.header.Unreadable? {
      return [], Failure(HeaderUnreadable);
    }
    var header := file.header.values + EnhancedColumns;
    written := [header];
    var position := Position(file.header.values, DetailsColumn);
    if position.None? {
      return written, Failure(MissingColumn(DetailsColumn));
    }
    var rows, enhanced, failedAt := EnhanceRecords(file.records, position.value, repMap, parse);
    written := written + rows;
    if failedAt.Some? {
      return written, Failure(RecordUnreadable(failedAt.value));
    }
    r := Success(enhanced);
  }

  /** The address cell holds whatever `details` decodes to, whether or not
      that address was analysed; the reputation cells are filled from the
      report exactly when there is one, and are all empty otherwise. */
  lemma AppendedCellsMeaning(fields: seq<string>, di: nat, repMap: ReputationMap, parse: DetailsParser)
    ensures var cells := AppendedCells(fields, di, repMap, parse);
      && |cells| == |EnhancedColumns|
      && cells[0] == DecodedAddress(FieldOr(fields, di), parse).GetOr("")
      && (IsHit(fields, di, repMap, parse) ==>
            cells[1..] == ReputationCells(repMap[DecodedAddress(FieldOr(fields, di), parse).value]))
      && (!IsHit(fields, di, repMap, parse) ==> cells[1..] == NoReputation)
  {
  }

  /** The reputation cells of an analysed address: its abuse confidence is
      the second appended cell and reads back as the score, and it is empty
      only when the report has no score. */
  /** On a hit, each of the six further reputation cells sits under the
      column named for its report field: the texts as given or empty when
      absent, the counts empty exactly when absent and otherwise reading back
      as the count. */
  lemma EnhancedReputationColumns(fields: seq<string>, di: nat, repMap: ReputationMap, parse: DetailsParser)
    requires IsHit(fields, di, repMap, parse)
    ensures var rep := repMap[DecodedAddress(FieldOr(fields, di), parse).value];
      var cells := AppendedCells(fields, di, repMap, parse);
      && EnhancedColumns[2] == "country_name" && cells[2] == rep.countryName.GetOr("")
      && EnhancedColumns[3] == "usage_type" && cells[3] == rep.usageType.GetOr("")
      && EnhancedColumns[4] == "isp" && cells[4] == rep.isp.GetOr("")
      && EnhancedColumns[5] == "domain" && cells[5] == rep.domain.GetOr("")
      && EnhancedColumns[6] == "total_reports" && (cells[6] == "" <==> rep.totalReports.None?)
      && (rep.totalReports.Some? ==> Text.DecimalValue(cells[6]) == rep.totalReports.value)
      && EnhancedColumns[7] == "num_distinct_users" && (cells[7] == "" <==> rep.numDistinctUsers.None?)
      && (rep.numDistinctUsers.Some? ==> Text.DecimalValue(cells[7]) == rep.numDistinctUsers.value)
  {
    var rep := repMap[DecodedAddress(FieldOr(fields, di), parse).value];
    NatCellReadsBack(rep.totalReports);
    NatCellReadsBack(rep.numDistinctUsers);
  }

  lemma HitCarriesScore(fields: seq<string>, di: nat, repMap: ReputationMap, parse: DetailsParser)
    requires IsHit(fields, di, repMap, parse)
    ensures var rep := repMap[DecodedAddress(FieldOr(fields, di), parse).value];
      var cell := AppendedCells(fields, di, repMap, parse)[1];
      && (cell == "" <==> rep.abuseConfidence.None?)
      && (rep.abuseConfidence.Some? ==> Text.DecimalValue(cell) == rep.abuseConfidence.value)
  {
    var rep := repMap[DecodedAddress(FieldOr(fields, di), parse).value];
    NatCellReadsBack(rep.abuseConfidence);
  }

  /** Rows are enriched without regard to their `message`: a row that is not
      a "Clicked Link" or "Submitted Data" event still receives the
      reputation of the address its `details` carries. */
  lemma NonTargetRowsEnriched(fields: seq<string>, mi: nat, di: nat, repMap: ReputationMap, parse: DetailsParser, ip: string)
    requires !IsTargetMessage(FieldOr(fields, mi))
    requires DecodedAddress(FieldOr(fields, di), parse) == Some(ip) && ip in repMap
    ensures Candidate(fields, mi, di, parse) == None
    ensures AppendedCells(fields, di, repMap, parse) == [ip] + ReputationCells(repMap[ip])
  {
  }

  /** Rows whose `details` yield the same address get the same appended
      cells, so every row of one victim carries one reputation. */
  lemma SameAddressSameCells(f1: seq<string>, f2: seq<string>, di: nat, repMap: ReputationMap, parse: DetailsParser)
    requires DecodedAddress(FieldOr(f1, di), parse) == DecodedAddress(FieldOr(f2, di), parse)
    ensures AppendedCells(f1, di, repMap, parse) == AppendedCells(f2, di, repMap, parse)
  {
  }
}
