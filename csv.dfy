/** CSV files as the `csv` crate's reader delivers them, with headers on. */
module Csv {
  import opened Wrappers

  /** One record: its fields, or the error the reader yields in its place
      (bad UTF-8, an I/O failure, a field count that differs from the header's). */
  datatype Record = Fields(values: seq<string>) | Unreadable

  /** The header record followed by the data records. */
  datatype CsvFile = CsvFile(header: Record, records: seq<Record>)

  /** The fields of a record; none for an unreadable one. */
  function Values(r: Record): seq<string> {
    if r.Fields? then r.values else []
  }

  /** `record.get(i).unwrap_or("")`. */
  function FieldOr(fields: seq<string>, i: nat): string {
    if i < |fields| then fields[i] else ""
  }

  /** `headers.iter().position(|h| h == name)`, searching from index `from`. */
  function PositionFrom(header: seq<string>, name: string, from: nat): (r: Option<nat>)
    requires from <= |header|
    ensures r.Some? ==> from <= r.value < |header| && header[r.value] == name
    ensures r.Some? ==> forall j :: from <= j < r.value ==> header[j] != name
    ensures r.None? ==> forall j :: from <= j < |header| ==> header[j] != name
    decreases |header| - from
  {
    if from == |header| then None
    else if header[from] == name then Some(from)
    else PositionFrom(header, name, from + 1)
  }

  /** The index of the first column called `name`. */
  function Position(header: seq<string>, name: string): (r: Option<nat>)
    ensures r.Some? ==> r.value < |header| && header[r.value] == name
    ensures r.Some? ==> forall j :: 0 <= j < r.value ==> header[j] != name
    ensures r.None? <==> name !in header
  {
    PositionFrom(header, name, 0)
  }

  predicate AllReadable(records: seq<Record>) {
    forall k :: 0 <= k < |records| ==> records[k].Fields?
  }

  /** The index of the first record the reader fails on. */
  function FirstUnreadable(records: seq<Record>): (r: Option<nat>)
    ensures r.None? <==> AllReadable(records)
    ensures r.Some? ==> r.value < |records| && records[r.value].Unreadable? && AllReadable(records[..r.value])
  {
    if records == [] then None
    else if records[0].Unreadable? then Some(0)
    else match FirstUnreadable(records[1..])
      case None => None
      case Some(k) =>
        assert records[..k + 1] == [records[0]] + records[1..][..k];
        Some(k + 1)
  }

  /** A readable prefix grows by a readable record. */
  lemma ReadableStep(records: seq<Record>, i: nat)
    requires i < |records| && records[i].Fields? && AllReadable(records[..i])
    ensures AllReadable(records[..i + 1])
  {
    assert records[..i + 1] == records[..i] + [records[i]];
  }

  /** The first unreadable record is the one after a readable prefix. */
  lemma {:induction false} FirstUnreadableAt(records: seq<Record>, i: nat)
    requires i < |records| && records[i].Unreadable? && AllReadable(records[..i])
    ensures FirstUnreadable(records) == Some(i)
  {
    if i > 0 {
      assert records[..i][0] == records[0];
      assert records[1..][..i - 1] == records[..i][1..];
      FirstUnreadableAt(records[1..], i - 1);
    }
  }
}
