# IP reputation enrichment, modelled in Dafny

This project models the IP reputation enrichment pipeline of `src/emlrustlib.rs`. The pipeline:

- reads a phishing-campaign event export (a CSV file with `message` and `details` columns);
- extracts the browser address of every "Clicked Link" and "Submitted Data" event;
- keeps only syntactically valid IPv4/IPv6 addresses, without duplicates;
- looks up each address at a reputation service, one at a time with a pause between lookups;
- writes one report row per address, even when its lookup fails;
- sorts the scored reports into high/medium/low risk buckets;
- writes an enhanced copy of the export with eight reputation columns appended to every row.

Modules, one per component:

| module | models |
|---|---|
| `Wrappers` | `Option` and `Result` |
| `Text` | splitting and joining on a separator; decimal digits of a natural number |
| `IpAddr` | `is_valid_ip`: the text grammar of `std::net::IpAddr` as a predicate |
| `Lines` | the line pipeline of `read_values_from_file` |
| `Csv` | records as the `csv` reader yields them; header column lookup |
| `Extract` | `extract_unique_ips_from_csv` |
| `Reputation` | the data types; `check_ip_reputation`, with the network service as a parameter |
| `ReportWriter` | how `csv::Writer::serialize` lays out an `IpReputationReport` |
| `Analyze` | `analyze_ips_with_abuseipdb`: lookup loop, event trace, report file, risk buckets |
| `Enhance` | `create_enhanced_csv` |
| `Pipeline` | `run_ip_analysis` and the correlation between extraction, lookups and join |

Loops in the source become methods with `while` loops. Each loop is proved against a function over the prefix it has processed (`TallyOf`, `TraceUpTo`, `ExpectedReports`, `ReportCsv`, `EnhancedRows`, `HitCount`).

The outside world enters as parameters:

- `parse: string -> Option<string>` is the serde decoding of `details` into `browser.address`.
- `service: Query -> Result<IpReputationData, ServiceError>` is the HTTP exchange with the reputation service.
- `clock: nat -> string` gives the `checked_at` time of the i-th lookup.
- The lookups and pauses the orchestrator performs are recorded as an event trace: `Checking(ip)`, `Request(query)`, `Sleep`.

In several places the code does something other than what an operator would expect of the tool. The model follows the code:

- **Non-target rows are enriched.** The joiner does not look at `message`, so a row with any other label still gets the reputation of the address in its `details`; only "Clicked Link" and "Submitted Data" rows were ever looked up. See `Enhance.NonTargetRowsEnriched`.
- **The address cell can be filled without a match.** The joiner fills the `ip_address` cell whenever `details` decodes, even when there is no report for that address, so a row with an invalid or unanalysed address shows the address with seven empty reputation cells. See `Enhance.AppendedCellsMeaning`.
- **Header first.** The joiner writes the widened header before it looks for the `details` column. A file without that column therefore ends up holding just the header.
- **No enhanced file without addresses.** When no valid address is found the run stops before the join (`src/emlrustlib.rs:559-563`), so no enhanced copy is written at all, not even an unenriched one (`Pipeline.RunIpAnalysis`).
- **Failed lookups are reported only wholesale.** Reports without a score are left out of the risk buckets without comment. The "all lookups failed" note appears only when no lookup produced a score (`Analyze.AllFailedIff`).
- **Duplicates are removed by text.** "::1" and "0::1" are both kept and both looked up. IPv4 text accepted by the grammar is canonical, so this cannot happen for IPv4 (`IpAddr.Ipv4ParseFormat`).

## Model

| member | source | states |
|---|---|---|
| IpAddr.ParseIpv4 | src/emlrustlib.rs:112-114 | yields four octets below 256 exactly when the text is a dotted-quad IPv4 literal (1-3 digits, no leading zero) |
| IpAddr.IsValidIp | src/emlrustlib.rs:112-114 | `is_valid_ip` as the grammar the `IpAddr` parser accepts: an IPv4 dotted quad, or IPv6 hex groups with at most one "::" and an optional trailing dotted quad, eight groups in all without "::" and at most seven with it |
| IpAddr.Ipv4FormatParse | src/emlrustlib.rs:112-114 | every four octets below 256, written in dotted-quad form, pass `is_valid_ip` and parse back to the same octets |
| IpAddr.Ipv4ParseFormat | src/emlrustlib.rs:112-114 | accepted IPv4 text is canonical: formatting the parsed octets gives the same text back |
| IpAddr.Ipv6FullForm | src/emlrustlib.rs:112-114 | eight colon-separated groups of 1-4 hex digits pass `is_valid_ip` |
| IpAddr.Ipv6EmbeddedIpv4 | src/emlrustlib.rs:112-114 | six hex groups followed by a dotted quad form valid IPv6 text |
| IpAddr.Ipv6Compressed | src/emlrustlib.rs:112-114 | hex groups around one "::", seven or fewer groups in all, pass `is_valid_ip` |
| IpAddr.Ipv4HasNoColon | src/emlrustlib.rs:112-114 | IPv4 text contains no ':' |
| IpAddr.Ipv4Length | src/emlrustlib.rs:112-114 | IPv4 text is at least 7 characters long |
| IpAddr.Ipv6HasColon | src/emlrustlib.rs:112-114 | IPv6 text contains ':' |
| IpAddr.FamiliesDisjoint | src/emlrustlib.rs:112-114 | no text is both an IPv4 and an IPv6 literal |
| IpAddr.FindDoubleColonFrom | src/emlrustlib.rs:112-114 | finds the first "::" at or after an index, or reports that there is none |
| Text.Split | src/emlrustlib.rs:28 | splitting yields at least one piece and no piece holds the separator |
| Text.SplitJoin | src/emlrustlib.rs:28 | joining separator-free pieces and splitting again gives the pieces back |
| Text.JoinSplit | src/emlrustlib.rs:28 | splitting and joining again gives the text back |
| Text.NatToDecimal | src/emlrustlib.rs:504-516 | the decimal text of a number (`to_string`) is non-empty digits without a leading zero that read back as the number |
| Text.DecimalCanonical | src/emlrustlib.rs:504-516 | digit text without a leading zero is the decimal text of its value |
| Lines.Trim | src/emlrustlib.rs:29 | `trim` yields text without leading or trailing whitespace, no longer than the input |
| Lines.TrimIsSlice | src/emlrustlib.rs:29 | `trim` removes only whitespace, from both ends, and keeps the middle unchanged |
| Lines.TrimEmpty | src/emlrustlib.rs:29-30 | a line trims to empty exactly when it is all whitespace |
| Lines.TrimIdempotent | src/emlrustlib.rs:29 | trimming twice is trimming once |
| Lines.TrimOfTrimmed | src/emlrustlib.rs:29 | trimming leaves already trimmed text unchanged |
| Lines.NonEmptyTrimmed | src/emlrustlib.rs:29-31 | the kept values are non-empty and trimmed, and no more numerous than the lines |
| Lines.NonEmptyTrimmedMembers | src/emlrustlib.rs:29-31 | a value is kept exactly when it is non-empty and some line trims to it |
| Lines.ReadValuesMembers | src/emlrustlib.rs:28-31 | the file's values are exactly the non-empty trimmed lines |
| Lines.ReadValues | src/emlrustlib.rs:28-31 | the values of a file are non-empty and trimmed, and there are no more of them than lines |
| Lines.NonEmptyTrimmedOfValues | src/emlrustlib.rs:29-31 | values that are already non-empty and trimmed pass through unchanged and in order |
| Lines.ReadValuesOfLines | src/emlrustlib.rs:28-31 | writing trimmed values one per line and reading the file back gives the same values |
| Csv.Position | src/emlrustlib.rs:256-259 | the column index is the first header cell with that name, and is absent exactly when no cell has it |
| Csv.PositionFrom | src/emlrustlib.rs:256-259 | the first matching header cell at or after an index |
| Csv.FirstUnreadable | src/emlrustlib.rs:261-263 | the first record the reader fails on; absent exactly when every record is readable |
| Csv.FirstUnreadableAt | src/emlrustlib.rs:261-263 | an unreadable record after only readable ones is the first failure |
| Extract.LocateColumns | src/emlrustlib.rs:255-259 | an unreadable header, a missing `message` and a missing `details` are fatal, checked in that order; otherwise it returns both column indices |
| Extract.Classify | src/emlrustlib.rs:265-287 | a row is not a target exactly when its message is neither label; it offers a valid or an invalid address exactly when a non-empty `details` decodes to an address that passes or fails validation |
| Extract.TallyOf | src/emlrustlib.rs:261-289 | the loop's tallies over a prefix of the records: never more invalid addresses than target rows, never more target rows than rows |
| Extract.TallyRecord | src/emlrustlib.rs:265-287 | one loop turn updates the unique set, the target count and the invalid list as the row's classification says |
| Extract.ScanRecords | src/emlrustlib.rs:261-289 | the loop stops at the first unreadable record; otherwise it counts every record and its tallies are those of all records |
| Extract.SetToSequence | src/emlrustlib.rs:300 | the returned list holds each element of the set exactly once |
| Extract.ExtractUniqueIps | src/emlrustlib.rs:245-301 | column and record errors as above; on success the total and target counts, the invalid list, and a duplicate-free list of exactly the valid addresses offered |
| Extract.ValidIpsMembers | src/emlrustlib.rs:268-277 | an address is collected exactly when some target row offers it and it passes validation |
| Extract.OfferedIsCollected | src/emlrustlib.rs:276-277 | every valid address offered by any row is collected |
| Extract.CollectedWasOffered | src/emlrustlib.rs:276-277 | every collected address came from a target row |
| Extract.ValidIpsAreValid | src/emlrustlib.rs:276-277 | every collected address passes `is_valid_ip` |
| Extract.InvalidWasOffered | src/emlrustlib.rs:278-280 | every entry of the invalid list fails validation and was offered by a target row |
| Extract.InvalidIsListed | src/emlrustlib.rs:278-280 | every offered address that fails validation is listed as invalid |
| Extract.InvalidIpsInRowOrder | src/emlrustlib.rs:261-289 | the invalid list is exactly the failing offered addresses, in row order, repeats kept |
| Extract.FilteredCountIsTargetRows | src/emlrustlib.rs:268-269 | the target count is exactly the number of records whose message is "Clicked Link" or "Submitted Data", whatever their `details` |
| Extract.InvalidNeverCollected | src/emlrustlib.rs:276-280 | no address is both listed as invalid and collected |
| Extract.TallyBound | src/emlrustlib.rs:262-280 | unique plus invalid addresses never outnumber the target rows, which never outnumber the rows |
| Reputation.CheckIpReputation | src/emlrustlib.rs:303-344 | an invalid address fails with `InvalidIpAddress` and sends nothing; a valid one sends exactly one query with the given age limit and returns the service's data or its error |
| Reputation.InvalidIpIgnoresService | src/emlrustlib.rs:308-310 | for an invalid address the outcome does not depend on the service: nothing is sent |
| Reputation.ReportFor | src/emlrustlib.rs:363-399 | the report carries the address and the check time, and the looked-up data on success or all twelve fields absent on failure |
| ReportWriter.ReportRecords | src/emlrustlib.rs:411-413 | one serialized row per report, in order |
| ReportWriter.ReportRecord | src/emlrustlib.rs:411-413 | one report serializes to one cell per header column, starting with the address and ending with the check time; a failed lookup leaves the twelve cells between empty |
| ReportWriter.ReportNumberColumns | src/emlrustlib.rs:228-243 | the `ip_version`, `abuse_confidence`, `total_reports` and `num_distinct_users` cells sit under their header columns, are empty exactly when the value is absent, and otherwise read back as the value |
| ReportWriter.ReportTextColumns | src/emlrustlib.rs:228-243 | the flag and text cells sit under their header columns, each holding its field as given, or empty when absent |
| ReportWriter.ReportCsv | src/emlrustlib.rs:408-414 | no reports give an empty file; otherwise the header row followed by one row per report |
| ReportWriter.NatCellReadsBack | src/emlrustlib.rs:411-413 | a numeric cell is empty exactly when the value is absent, and otherwise reads back as the value |
| ReportWriter.ReportShape | src/emlrustlib.rs:408-414 | header plus one row per report, failed lookups included; each row starts with the address, ends with the check time, and a failed lookup leaves the twelve cells between them empty |
| Analyze.CheckOne | src/emlrustlib.rs:357-405 | one iteration produces the report for its address and the events Checking, Request (only for a valid address) and Sleep (except after the last) |
| Analyze.CheckAll | src/emlrustlib.rs:354-406 | the lookup loop yields the expected report for every address in list order, and the whole event trace |
| Analyze.ExpectedReports | src/emlrustlib.rs:357-401 | report i is the report for address i, made from its lookup outcome and clock(i) |
| Analyze.SerializeReport | src/emlrustlib.rs:408-414 | the report file is the header plus one row per report, and empty when there are no reports |
| Analyze.AnalyzeIps | src/emlrustlib.rs:346-452 | reports, event trace, report file and risk summary are those of the specification functions |
| Analyze.RunTrace | src/emlrustlib.rs:357-406 | every address is checked once, in order; n addresses get n-1 pauses; one query per valid address, in order, with age limit 90, and none for an invalid one |
| Analyze.StepEventsContent | src/emlrustlib.rs:358-405 | one iteration: one check, a request exactly when the address passes, a pause unless last |
| Analyze.SleepCount | src/emlrustlib.rs:403-405 | after n of the addresses there are n pauses, or n-1 once the last is done |
| Analyze.ChecksInOrder | src/emlrustlib.rs:357-358 | the addresses are checked in list order |
| Analyze.RequestsAreSentQueries | src/emlrustlib.rs:357-360 | the queries sent are those for the passing addresses, in order |
| Analyze.AllPassAllSent | src/emlrustlib.rs:357-360 | when all addresses pass, exactly one query per address is sent, in order |
| Analyze.OnlyPassingSent | src/emlrustlib.rs:308-310 | every query sent is for a listed address that passes, with age limit 90 |
| Analyze.NoTrailingSleep | src/emlrustlib.rs:403-405 | a run over a non-empty list never ends on a pause |
| Analyze.Filter | src/emlrustlib.rs:418-434 | a filter keeps at most as many elements as it is given |
| Analyze.FilterMembers | src/emlrustlib.rs:418-434 | a filter keeps exactly the elements that satisfy its predicate |
| Analyze.FilterOccurrences | src/emlrustlib.rs:418-434 | a filter keeps every occurrence of a satisfying element and none of the others |
| Analyze.RiskPartition | src/emlrustlib.rs:418-434 | a report is in the high bucket exactly when it is scored above 75, in the medium bucket exactly when scored 26-75, in the low bucket exactly when scored 25 or less; each scored report lies in exactly one bucket, as often as it occurs, and unscored reports in none |
| Analyze.AllFailedIff | src/emlrustlib.rs:418-449 | the "all lookups failed" note appears exactly when no report has a score |
| Analyze.Summarize | src/emlrustlib.rs:418-449 | the "all lookups failed" note only when no report is scored; otherwise the three buckets together hold exactly as many reports as are scored |
| Analyze.BucketSizes | src/emlrustlib.rs:423-434 | every report lands in exactly one of the high, medium and low filters, so their sizes add up to the number of reports |
| Analyze.RiskBoundaries | src/emlrustlib.rs:423-434 | a score of 75 is medium, 76 high, 25 low and 26 medium |
| Enhance.EnhancedRows | src/emlrustlib.rs:484-529 | one output row per input row |
| Enhance.EnhancedRowsShape | src/emlrustlib.rs:484-529 | output row i is input row i unchanged, followed by its eight appended cells |
| Enhance.HitCount | src/emlrustlib.rs:482-501 | the enhanced-row count never exceeds the row count |
| Enhance.EnhanceRecord | src/emlrustlib.rs:486-526 | one loop turn gives the record plus its appended cells, and counts it exactly when its address has a report |
| Enhance.EnhanceRecords | src/emlrustlib.rs:484-529 | the loop stops at the first unreadable record with the rows before it; otherwise it writes all rows and counts the hits |
| Enhance.CreateEnhancedCsv | src/emlrustlib.rs:454-541 | an unreadable header writes nothing; the widened header is written before a missing `details` fails; a record error keeps the rows before it; success returns the hit count |
| Enhance.AppendedCellsMeaning | src/emlrustlib.rs:496-526 | the address cell holds whatever `details` decodes to; the seven reputation cells come from the report exactly when one exists, and are empty otherwise |
| Enhance.AppendedCells | src/emlrustlib.rs:488-531 | eight cells, one per appended column; without a report for the row's address the seven reputation cells are empty |
| Enhance.EnhancedReputationColumns | src/emlrustlib.rs:467-531 | on a hit, the `country_name`, `usage_type`, `isp` and `domain` cells hold those report fields (empty when absent), and the `total_reports` and `num_distinct_users` cells are empty exactly when the count is absent and otherwise read back as the count |
| Enhance.HitCarriesScore | src/emlrustlib.rs:502-506 | a matched row's confidence cell is empty exactly when the report has no score, and otherwise reads back as the score |
| Enhance.NonTargetRowsEnriched | src/emlrustlib.rs:496-516 | a row that is neither target label offers no address to the extractor, yet is enriched by the joiner |
| Enhance.SameAddressSameCells | src/emlrustlib.rs:496-526 | rows with the same decoded address get the same appended cells |
| Pipeline.ReputationMapOf | src/emlrustlib.rs:576-579 | the map's keys are exactly the reports' addresses |
| Pipeline.MapFindsOwnReport | src/emlrustlib.rs:576-579 | with distinct addresses, each address maps to its own report |
| Pipeline.ReportsDistinct | src/emlrustlib.rs:565-579 | distinct extracted addresses give reports with distinct addresses |
| Pipeline.RunIpAnalysis | src/emlrustlib.rs:543-588 | extraction errors propagate and write nothing; a joiner error would propagate too, and cannot happen on the same export; no valid address returns early with no lookups and no files; otherwise both files and the trace are those of the component specifications over the extracted list |
| Pipeline.TargetRowsGetTheirReport | src/emlrustlib.rs:543-588 | a target row with a valid address gets that address and the reputation looked up for it |
| Pipeline.InvalidRowsNotEnriched | src/emlrustlib.rs:276-280 | a row whose address failed validation keeps its reputation cells empty |
| Pipeline.SameAddressTwice | src/emlrustlib.rs:268-277 | two target rows with the same valid address count as two target rows but yield one unique address |
| Pipeline.ClickThenSubmit | src/emlrustlib.rs:543-588 | one valid address clicked and then submitted: the list is that one address, one query with age limit 90, one report row after the header, and both export rows enhanced with the same cells from that report |
| Pipeline.TwoRowsOneReport | src/emlrustlib.rs:484-534 | two rows whose `details` decode to the same analysed address both get that report's cells and both count as enhanced |
| Pipeline.OneAddressOneQuery | src/emlrustlib.rs:357-360 | a single valid address is looked up with exactly one query, with age limit 90 |
| Pipeline.Ipv6DuplicatesByText | src/emlrustlib.rs:276-277 | "::1" and "0::1" both pass validation yet differ as text, so both are kept |

## Left out

- File opening, reading, creating, writing and flushing, and their I/O errors. Each file is given as its content: a `CsvFile`, or a string for `read_values_from_file`. The output files are the rows handed to the writer.
- The `~` expansion with `home_dir` in `read_values_from_file`. The model starts from the file's content.
- The HTTP request, its headers, its 10-second timeout and the decoding of the response. These are the `service` parameter, whose errors are the three `ServiceError` cases.
- serde decoding of `details` and of the service response. `details` decoding is the `parse` parameter.
- The delay length (a float of seconds) and the `tokio` sleep. Each sleep is a `Sleep` event in the trace.
- `chrono` timestamps. They come from the `clock` parameter.
- `println!`/`eprintln!` output: the counts, the invalid-address list, the bucket listings and the warnings. The values printed are modelled; the printing is not.
- `csv` crate parsing (quoting, UTF-8 checks, field-count checks). Each record is either its fields or `Unreadable`.
- The ordering of `HashSet::into_iter`. The extracted list is any duplicate-free order of the set.
- The failure of the flush `csv::Writer` performs when it is dropped after an error. The model assumes that flush succeeds, so every row handed to the writer before the error is in the file. The error itself is ignored silently by the source.
- `main.rs`, command-line handling and the e-mail/HTML functions of `src/emlrustlib.rs`. They are not part of this model.
- Rust's own `IpAddr` parser is not part of this source. `is_valid_ip` is modelled as the text grammar that parser accepts (IPv4 dotted quad; IPv6 groups with at most one "::" and an optional trailing dotted quad), not as its code.
- Pipeline.RunIpAnalysis: the joiner reads the same export the extractor read. The model passes one `CsvFile` to both, so it assumes the file does not change between the two reads.
- Analyze.AnalyzeIps: the reputation service is a fixed function of the query, so two lookups of the same address text would get the same answer, whereas the real service may answer differently from one request to the next. No contract depends on this, because the extracted list has no duplicates.
- Analyze.AnalyzeIps: the `Result` of the report-file write is not modelled. The method always returns its reports.
