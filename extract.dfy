/** `extract_unique_ips_from_csv`: the IP Extractor. It scans the event export,
    keeps the "Clicked Link" and "Submitted Data" rows, decodes each kept row's
    `details` payload, validates the browser address in it and collects the
    valid addresses without duplicates. */
module Extract {
  import opened Wrappers
  import opened Csv
  import opened IpAddr

  /** The two event labels whose rows can carry a victim's address. */
  const ClickedLink: string := "Clicked Link"
  const SubmittedData: string := "Submitted Data"

  /** The two columns the export must have. */
  const MessageColumn: string := "message"
  const DetailsColumn: string := "details"

  /** `target_messages.contains(&message)`. */
  predicate IsTargetMessage(message: string) {
    message == ClickedLink || message == SubmittedData
  }

  /** Fatal errors of the extractor. Row-level problems are not among them. */
  datatype ExtractError =
    | HeaderUnreadable
    | MissingColumn(name: string)
    | RecordUnreadable(index: nat)

  /** What one scan yields: the unique addresses and the counts and list it
      reports to the operator. */
  datatype Extraction = Extraction(ips: seq<string>, totalRows: nat, filteredRows: nat, invalidIps: seq<string>)

  /** Serde decoding of `details` into `{browser: {address}}`, standing in as a
      parameter: `parse(d)` is the address when `d` decodes, None when it does not. */
  type DetailsParser = string -> Option<string>

  /** The column indices of `message` and `details`, located in that order. */
  function LocateColumns(header: Record): (r: Result<(nat, nat), ExtractError>)
    ensures header.Unreadable? ==> r == Failure(HeaderUnreadable)
    ensures header.Fields? && MessageColumn !in header.values ==> r == Failure(MissingColumn(MessageColumn))
    ensures header.Fields? && MessageColumn in header.values && DetailsColumn !in header.values
      ==> r == Failure(MissingColumn(DetailsColumn))
    ensures r.Success? <==> header.Fields? && MessageColumn in header.values && DetailsColumn in header.values
    ensures r.Success? ==>
      r.value.0 == Position(header.values, MessageColumn).value && r.value.1 == Position(header.values, DetailsColumn).value
  {
    if header.Unreadable? then Failure(HeaderUnreadable)
    else match Position(header.values, MessageColumn)
      case None => Failure(MissingColumn(MessageColumn))
      case Some(mi) =>
        match Position(header.values, DetailsColumn)
        case None => Failure(MissingColumn(DetailsColumn))
        case Some(di) => Success((mi, di))
  }

  /** The address a kept row's `details` yields: nothing for an empty payload
      or one that does not decode, which are skipped without error. */
  function DecodedAddress(details: string, parse: DetailsParser): Option<string> {
    if details == "" then None else parse(details)
  }

  /** The address a record offers the extractor: only rows with a target
      message offer one. */
  function Candidate(fields: seq<string>, mi: nat, di: nat, parse: DetailsParser): Option<string> {
    if IsTargetMessage(FieldOr(fields, mi)) then DecodedAddress(FieldOr(fields, di), parse) else None
  }

  /** What the extractor makes of one record. */
  datatype RowOutcome = NotTarget | NoAddress | ValidAddress(ip: string) | InvalidAddress(ip: string)

  function Classify(fields: seq<string>, mi: nat, di: nat, parse: DetailsParser): (o: RowOutcome)
    ensures o.NotTarget? <==> !IsTargetMessage(FieldOr(fields, mi))
    ensures o.ValidAddress? <==> Candidate(fields, mi, di, parse).Some? && IsValidIp(Candidate(fields, mi, di, parse).value)
    ensures o.InvalidAddress? <==> Candidate(fields, mi, di, parse).Some? && !IsValidIp(Candidate(fields, mi, di, parse).value)
    ensures (o.ValidAddress? || o.InvalidAddress?) ==> Candidate(fields, mi, di, parse) == Some(o.ip)
  {
    if !IsTargetMessage(FieldOr(fields, mi)) then NotTarget
    else match DecodedAddress(FieldOr(fields, di), parse)
      case None => NoAddress
      case Some(a) => if IsValidIp(a) then ValidAddress(a) else InvalidAddress(a)
  }

  /** The extractor's running tallies: the valid addresses seen (the
      `HashSet`), the number of target rows, and the invalid addresses. */
  datatype Tally = Tally(uniqueIps: set<string>, filteredRows: nat, invalidIps: seq<string>)

  /** The tallies after one more record with outcome `o`. */
  function Step(t: Tally, o: RowOutcome): Tally {
    Tally(
      t.uniqueIps + (if o.ValidAddress? then {o.ip} else {}),
      t.filteredRows + (if o.NotTarget? then 0 else 1),
      t.invalidIps + (if o.InvalidAddress? then [o.ip] else []))
  }

  /** The tallies after all of `recs`, in order. */
  function TallyOf(recs: seq<Record>, mi: nat, di: nat, parse: DetailsParser): (t: Tally)
    ensures |t.invalidIps| <= t.filteredRows <= |recs|
  {
    if recs == [] then Tally({}, 0, [])
    else Step(TallyOf(recs[..|recs| - 1], mi, di, parse), Classify(Values(recs[|recs| - 1]), mi, di, parse))
  }

  /** The set of valid addresses the records offer. */
  function ValidIps(recs: seq<Record>, mi: nat, di: nat, parse: DetailsParser): set<string> {
    TallyOf(recs, mi, di, parse).uniqueIps
  }

  /** The offered addresses that fail validation, in row order, repeats kept. */
  function InvalidIps(recs: seq<Record>, mi: nat, di: nat, parse: DetailsParser): seq<string> {
    TallyOf(recs, mi, di, parse).invalidIps
  }

  /** How many records carry a target message. */
  function FilteredCount(recs: seq<Record>, mi: nat, di: nat, parse: DetailsParser): nat {
    TallyOf(recs, mi, di, parse).filteredRows
  }

  /** The tallies after one more record. */
  lemma TallyStep(recs: seq<Record>, i: nat, mi: nat, di: nat, parse: DetailsParser)
    requires i < |recs|
    ensures TallyOf(recs[..i + 1], mi, di, parse)
      == Step(TallyOf(recs[..i], mi, di, parse), Classify(Values(recs[i]), mi, di, parse))
  {
    assert recs[..i + 1][..i] == recs[..i];
  }

  /** A valid address offered by any record is collected. */
  lemma {:induction false} OfferedIsCollected(recs: seq<Record>, mi: nat, di: nat, parse: DetailsParser, k: nat, a: string)
    requires k < |recs| && Classify(Values(recs[k]), mi, di, parse) == ValidAddress(a)
    ensures a in ValidIps(recs, mi, di, parse)
  {
    var init := recs[..|recs| - 1];
    if k < |init| {
      assert init[k] == recs[k];
      OfferedIsCollected(init, mi, di, parse, k, a);
    }
  }

  /** A collected address was offered by some record. */
  lemma {:induction false} CollectedWasOffered(recs: seq<Record>, mi: nat, di: nat, parse: DetailsParser, a: string)
    returns (k: nat)
    requires a in ValidIps(recs, mi, di, parse)
    ensures k < |recs| && Classify(Values(recs[k]), mi, di, parse) == ValidAddress(a)
  {
    var init := recs[..|recs| - 1];
    if a in ValidIps(init, mi, di, parse) {
      k := CollectedWasOffered(init, mi, di, parse, a);
      assert init[k] == recs[k];
    } else {
      k := |recs| - 1;
    }
  }

  /** An address is among the valid ones exactly when some record offers it
      and it passes validation. */
  lemma ValidIpsMembers(recs: seq<Record>, mi: nat, di: nat, parse: DetailsParser, a: string)
    ensures a in ValidIps(recs, mi, di, parse) <==>
      exists k :: 0 <= k < |recs| && Classify(Values(recs[k]), mi, di, parse) == ValidAddress(a)
  {
    if a in ValidIps(recs, mi, di, parse) {
      var k := CollectedWasOffered(recs, mi, di, parse, a);
    }
    if exists k :: 0 <= k < |recs| && Classify(Values(recs[k]), mi, di, parse) == ValidAddress(a) {
      var k :| 0 <= k < |recs| && Classify(Values(recs[k]), mi, di, parse) == ValidAddress(a);
      OfferedIsCollected(recs, mi, di, parse, k, a);
    }
  }

  /** Every collected address is a valid IPv4 or IPv6 address. */
  lemma ValidIpsAreValid(recs: seq<Record>, mi: nat, di: nat, parse: DetailsParser, a: string)
    requires a in ValidIps(recs, mi, di, parse)
    ensures IsValidIp(a)
  {
    var k := CollectedWasOffered(recs, mi, di, parse, a);
  }

  /** Each entry of the invalid list is an address some record offers and
      that fails validation. */
  lemma {:induction false} InvalidWasOffered(recs: seq<Record>, mi: nat, di: nat, parse: DetailsParser, j: nat)
    returns (k: nat)
    requires j < |InvalidIps(recs, mi, di, parse)|
    ensures var x := InvalidIps(recs, mi, di, parse)[j];
      && !IsValidIp(x)
      && k < |recs| && Classify(Values(recs[k]), mi, di, parse) == InvalidAddress(x)
  {
    var init := recs[..|recs| - 1];
    var prev := InvalidIps(init, mi, di, parse);
    if j < |prev| {
      assert InvalidIps(recs, mi, di, parse)[j] == prev[j];
      k := InvalidWasOffered(init, mi, di, parse, j);
      assert recs[k] == init[k];
    } else {
      k := |recs| - 1;
    }
  }

  /** No address is listed both as invalid and among the unique valid ones. */
  lemma InvalidNeverCollected(recs: seq<Record>, mi: nat, di: nat, parse: DetailsParser, j: nat)
    requires j < |InvalidIps(recs, mi, di, parse)|
    ensures InvalidIps(recs, mi, di, parse)[j] !in ValidIps(recs, mi, di, parse)
  {
    var k := InvalidWasOffered(recs, mi, di, parse, j);
    var x := InvalidIps(recs, mi, di, parse)[j];
    if x in ValidIps(recs, mi, di, parse) {
      ValidIpsAreValid(recs, mi, di, parse, x);
    }
  }

  /** Each target row adds at most one address, valid or not, so the unique
      and invalid addresses together never outnumber the target rows, which
      never outnumber the rows. */
  lemma {:induction false} TallyBound(recs: seq<Record>, mi: nat, di: nat, parse: DetailsParser)
    ensures |ValidIps(recs, mi, di, parse)| + |InvalidIps(recs, mi, di, parse)|
      <= FilteredCount(recs, mi, di, parse) <= |recs|
  {
    if recs != [] {
      var init := recs[..|recs| - 1];
      TallyBound(init, mi, di, parse);
      var t := TallyOf(init, mi, di, parse);
      var o := Classify(Values(recs[|recs| - 1]), mi, di, parse);
      if o.ValidAddress? {
        assert |t.uniqueIps + {o.ip}| <= |t.uniqueIps| + 1;
      }
    }
  }

  /** Every offered address that fails validation is listed. */
  lemma {:induction false} InvalidIsListed(recs: seq<Record>, mi: nat, di: nat, parse: DetailsParser, k: nat, a: string)
    requires k < |recs| && Classify(Values(recs[k]), mi, di, parse) == InvalidAddress(a)
    ensures a in InvalidIps(recs, mi, di, parse)
  {
    var init := recs[..|recs| - 1];
    if k < |init| {
      assert init[k] == recs[k];
      InvalidIsListed(init, mi, di, parse, k, a);
    }
  }

  /** The invalid address a record offers, if any. */
  function InvalidOffer(r: Record, mi: nat, di: nat, parse: DetailsParser): seq<string> {
    var c := Candidate(Values(r), mi, di, parse);
    if c.Some? && !IsValidIp(c.value) then [c.value] else []
  }

  /** The invalid addresses the records offer, read front to back. */
  function InvalidOffers(recs: seq<Record>, mi: nat, di: nat, parse: DetailsParser): seq<string> {
    if recs == [] then [] else InvalidOffer(recs[0], mi, di, parse) + InvalidOffers(recs[1..], mi, di, parse)
  }

  lemma {:induction false} InvalidOffersOfAppend(recs: seq<Record>, r: Record, mi: nat, di: nat, parse: DetailsParser)
    ensures InvalidOffers(recs + [r], mi, di, parse) == InvalidOffers(recs, mi, di, parse) + InvalidOffer(r, mi, di, parse)
  {
    if recs == [] {
      assert [r][1..] == [];
    } else {
      assert (recs + [r])[1..] == recs[1..] + [r];
      InvalidOffersOfAppend(recs[1..], r, mi, di, parse);
    }
  }

  /** The invalid list is exactly the invalid offered addresses, in row order,
      repeats kept. */
  lemma {:induction false} InvalidIpsInRowOrder(recs: seq<Record>, mi: nat, di: nat, parse: DetailsParser)
    ensures InvalidIps(recs, mi, di, parse) == InvalidOffers(recs, mi, di, parse)
  {
    if recs != [] {
      var init, last := recs[..|recs| - 1], recs[|recs| - 1];
      InvalidIpsInRowOrder(init, mi, di, parse);
      InvalidOffersOfAppend(init, last, mi, di, parse);
      assert init + [last] == recs;
    }
  }

  /** How many records carry a target message; `details` plays no part. */
  function TargetRows(recs: seq<Record>, mi: nat): nat {
    if recs == [] then 0
    else TargetRows(recs[..|recs| - 1], mi) + if IsTargetMessage(FieldOr(Values(recs[|recs| - 1]), mi)) then 1 else 0
  }

  /** `filtered_rows` counts exactly the target-message records, whether or
      not their `details` yields an address. */
  lemma {:induction false} FilteredCountIsTargetRows(recs: seq<Record>, mi: nat, di: nat, parse: DetailsParser)
    ensures FilteredCount(recs, mi, di, parse) == TargetRows(recs, mi)
  {
    if recs != [] {
      FilteredCountIsTargetRows(recs[..|recs| - 1], mi, di, parse);
    }
  }

  /** `unique_ips.into_iter().collect()`: the set's elements, each once, in an
      order the model leaves open, as a `HashSet` does. */
  method SetToSequence(s: set<string>) returns (xs: seq<string>)
    ensures forall i, j :: 0 <= i < j < |xs| ==> xs[i] != xs[j]
    ensures forall a :: a in xs <==> a in s
  {
    xs := [];
    var rest := s;
    while rest != {}
      invariant forall i, j :: 0 <= i < j < |xs| ==> xs[i] != xs[j]
      invariant forall a :: a in xs ==> a in s && a !in rest
      invariant forall a :: a in s ==> a in xs || a in rest
      invariant rest <= s
      decreases rest
    {
      var a :| a in rest;
      xs := xs + [a];
      rest := rest - {a};
    }
  }

  /** The body of the extractor's loop for one readable record: count it if
      its message is a target, then file its address, if any, as valid or invalid. */
  method TallyRecord(fields: seq<string>, mi: nat, di: nat, parse: DetailsParser, t: Tally) returns (t': Tally)
    ensures t' == Step(t, Classify(fields, mi, di, parse))
  {
    var uniqueIps, filteredRows, invalidIps := t.uniqueIps, t.filteredRows, t.invalidIps;
    var message := FieldOr(fields, mi);
    var details := FieldOr(fields, di);
    if IsTargetMessage(message) {
      filteredRows := filteredRows + 1;
      if details != "" {
        match parse(details) {
          case Some(ip) =>
            if IsValidIp(ip) {
              uniqueIps := uniqueIps + {ip};
            } else {
              invalidIps := invalidIps + [ip];
            }
          case None =>
        }
      }
    }
    t' := Tally(uniqueIps, filteredRows, invalidIps);
  }

  /** The loop of `extract_unique_ips_from_csv` over the data records, given
      the located columns: it counts every record it reaches and stops at the
      first unreadable one. */
  method ScanRecords(recs: seq<Record>, mi: nat, di: nat, parse: DetailsParser)
    returns (t: Tally, totalRows: nat, failedAt: Option<nat>)
    ensures failedAt == FirstUnreadable(recs)
    ensures failedAt.None? ==> totalRows == |recs| && t == TallyOf(recs, mi, di, parse)
  {
    t, totalRows := Tally({}, 0, []), 0;
    var i := 0;
    while i < |recs|
      invariant 0 <= i <= |recs| && totalRows == i
      invariant AllReadable(recs[..i])
      invariant t == TallyOf(recs[..i], mi, di, parse)
    {
      totalRows := totalRows + 1;
      if recs[i].Unreadable? {
        FirstUnreadableAt(recs, i);
        return t, totalRows, Some(i);
      }
      TallyStep(recs, i, mi, di, parse);
      t := TallyRecord(recs[i].values, mi, di, parse, t);
      ReadableStep(recs, i);
      i := i + 1;
    }
    assert recs[..i] == recs;
    failedAt := None;
  }

  /** `extract_unique_ips_from_csv` on an already opened file. */
  method ExtractUniqueIps(file: CsvFile, parse: DetailsParser) returns (r: Result<Extraction, ExtractError>)
    ensures LocateColumns(file.header).Failure? ==> r == Failure(LocateColumns(file.header).error)
    ensures LocateColumns(file.header).Success? ==>
      match FirstUnreadable(file.records)
      case Some(k) => r == Failure(RecordUnreadable(k))
      case None => r.Success?
    ensures r.Success? ==> LocateColumns(file.header).Success? && AllReadable(file.records)
    ensures r.Success? ==>
      var (mi, di) := LocateColumns(file.header).value;
      var x := r.value;
      && x.totalRows == |file.records|
      && x.filteredRows == FilteredCount(file.records, mi, di, parse)
      && x.invalidIps == InvalidIps(file.records, mi, di, parse)
      && (forall i, j :: 0 <= i < j < |x.ips| ==> x.ips[i] != x.ips[j])
      && (forall a :: a in x.ips <==> a in ValidIps(file.records, mi, di, parse))
  {
    var columns := LocateColumns(file.header);
    if columns.Failure? {
      return Failure(columns.error);
    }
    var (mi, di) := columns.value;
    var t, totalRows, failedAt := ScanRecords(file.records, mi, di, parse);
    if failedAt.Some? {
      return Failure(RecordUnreadable(failedAt.value));
    }
    var ips := SetToSequence(t.uniqueIps);
    r := Success(Extraction(ips, totalRows, t.filteredRows, t.invalidIps));
  }
}
