/** The text forms Rust's `IpAddr` parser accepts, which is what `is_valid_ip`
    decides: an IPv4 dotted quad, or an IPv6 address in the text form of
    section 2.2 of RFC 4291, read the way Rust's standard library reads it. */
module IpAddr {
  import opened Wrappers
  import opened Text

  /** An IPv4 octet: one to three decimal digits, no leading zero unless the
      octet is "0" itself, value at most 255. */
  predicate IsOctet(p: string) {
    1 <= |p| <= 3 && AllDigits(p) && (|p| > 1 ==> p[0] != '0') && DecimalValue(p) <= 255
  }

  /** Dotted-quad IPv4 text: exactly four octets separated by '.'. */
  predicate IsIpv4(s: string) {
    var parts := Split(s, '.');
    |parts| == 4 && forall i :: 0 <= i < 4 ==> IsOctet(parts[i])
  }

  /** One 16-bit IPv6 group: one to four hexadecimal digits, either case. */
  predicate IsHexGroup(p: string) {
    1 <= |p| <= 4 && AllHexDigits(p)
  }

  /** How many 16-bit groups a ':'-separated list of groups stands for: one per
      hexadecimal group and, where `v4Tail` allows it, two for a final embedded
      IPv4 address. None when some piece is neither. */
  function GroupCount(s: string, v4Tail: bool): (r: Option<nat>)
    ensures r.Some? ==> r.value >= |Split(s, ':')|
  {
    var parts := Split(s, ':');
    var last := parts[|parts| - 1];
    if !(forall i :: 0 <= i < |parts| - 1 ==> IsHexGroup(parts[i])) then None
    else if IsHexGroup(last) then Some(|parts|)
    else if v4Tail && IsIpv4(last) then Some(|parts| + 1)
    else None
  }

  predicate DoubleColonAt(s: string, j: int) {
    0 <= j < |s| - 1 && s[j] == ':' && s[j + 1] == ':'
  }

  /** The first position from `i` on where "::" starts. */
  function FindDoubleColonFrom(s: string, i: nat): (r: Option<nat>)
    requires i <= |s|
    ensures r.Some? ==> i <= r.value && DoubleColonAt(s, r.value)
    ensures r.Some? ==> forall j :: i <= j < r.value ==> !DoubleColonAt(s, j)
    ensures r.None? ==> forall j :: i <= j < |s| ==> !DoubleColonAt(s, j)
    decreases |s| - i
  {
    if i + 1 >= |s| then None
    else if DoubleColonAt(s, i) then Some(i)
    else FindDoubleColonFrom(s, i + 1)
  }

  /** IPv6 text. Without "::" the groups must stand for exactly eight; with it,
      the part before the first "::" holds hexadecimal groups only, the part
      after it may end in an embedded IPv4 address, and together they stand
      for at most seven groups, since "::" replaces at least one zero group. */
  predicate IsIpv6(s: string) {
    match FindDoubleColonFrom(s, 0)
    case None => GroupCount(s, true) == Some(8)
    case Some(k) =>
      var head := if k == 0 then Some(0) else GroupCount(s[..k], false);
      var tail := if k + 2 == |s| then Some(0) else GroupCount(s[k + 2..], true);
      head.Some? && tail.Some? && head.value + tail.value <= 7
  }

  /** `is_valid_ip`: `IpAddr` parsing succeeds. */
  predicate IsValidIp(s: string) {
    IsIpv4(s) || IsIpv6(s)
  }

  /** The four octets of an IPv4 text, or None when it is not one. */
  function ParseIpv4(s: string): (r: Option<seq<nat>>)
    ensures r.Some? <==> IsIpv4(s)
    ensures r.Some? ==> |r.value| == 4 && forall i :: 0 <= i < 4 ==> r.value[i] < 256
  {
    if IsIpv4(s) then
      var p := Split(s, '.');
      Some([DecimalValue(p[0]), DecimalValue(p[1]), DecimalValue(p[2]), DecimalValue(p[3])])
    else None
  }

  function Ipv4Parts(octets: seq<nat>): seq<string>
    requires |octets| == 4
  {
    [NatToDecimal(octets[0]), NatToDecimal(octets[1]), NatToDecimal(octets[2]), NatToDecimal(octets[3])]
  }

  /** The dotted quad Rust's `Ipv4Addr` displays. */
  function FormatIpv4(octets: seq<nat>): string
    requires |octets| == 4
  {
    Join(Ipv4Parts(octets), '.')
  }

  lemma OctetOfByte(n: nat)
    requires n < 256
    ensures IsOctet(NatToDecimal(n))
  {
    DecimalLength(n, 3);
    assert Pow10(3) == 1000;
  }

  lemma DigitsHaveNoSeparator(p: string, sep: char)
    requires AllDigits(p) && !IsDigit(sep)
    ensures sep !in p
  {
  }

  /** Every four bytes have a valid dotted-quad text that parses back to them. */
  lemma {:induction false} Ipv4FormatParse(octets: seq<nat>)
    requires |octets| == 4 && forall i :: 0 <= i < 4 ==> octets[i] < 256
    ensures IsValidIp(FormatIpv4(octets))
    ensures ParseIpv4(FormatIpv4(octets)) == Some(octets)
  {
    var parts := Ipv4Parts(octets);
    forall i | 0 <= i < 4 ensures IsOctet(parts[i]) && '.' !in parts[i] {
      OctetOfByte(octets[i]);
      DigitsHaveNoSeparator(parts[i], '.');
    }
    SplitJoin(parts, '.');
    var o := ParseIpv4(FormatIpv4(octets)).value;
    assert o == [DecimalValue(parts[0]), DecimalValue(parts[1]), DecimalValue(parts[2]), DecimalValue(parts[3])];
    assert o == [octets[0], octets[1], octets[2], octets[3]] == octets;
  }

  /** Valid IPv4 text is canonical: it is the display form of its own octets,
      so two different valid IPv4 strings never denote the same address. */
  lemma {:induction false} Ipv4ParseFormat(s: string)
    requires IsIpv4(s)
    ensures FormatIpv4(ParseIpv4(s).value) == s
  {
    var p := Split(s, '.');
    var o := ParseIpv4(s).value;
    assert o == [DecimalValue(p[0]), DecimalValue(p[1]), DecimalValue(p[2]), DecimalValue(p[3])];
    DecimalCanonical(p[0]);
    DecimalCanonical(p[1]);
    DecimalCanonical(p[2]);
    DecimalCanonical(p[3]);
    assert Ipv4Parts(o) == [p[0], p[1], p[2], p[3]] == p;
    JoinSplit(s, '.');
  }

  /** Joining nonempty separator-free pieces never puts two separators side
      by side, nor one at either end. */
  lemma {:induction false} JoinNoDoubleSep(parts: seq<string>, sep: char)
    requires |parts| >= 1
    requires forall i :: 0 <= i < |parts| ==> |parts[i]| >= 1 && sep !in parts[i]
    ensures var s := Join(parts, sep);
      |s| >= 1 && s[0] != sep && s[|s| - 1] != sep &&
      forall j :: 0 <= j < |s| - 1 ==> !(s[j] == sep && s[j + 1] == sep)
  {
    var s := Join(parts, sep);
    if |parts| == 1 {
      forall j | 0 <= j < |s| ensures s[j] != sep {
        assert s[j] in parts[0];
      }
    } else {
      var p := parts[0];
      var rest := Join(parts[1..], sep);
      JoinNoDoubleSep(parts[1..], sep);
      assert s == p + [sep] + rest;
      forall j | 0 <= j < |p| ensures s[j] != sep {
        assert s[j] == p[j];
        assert p[j] in p;
      }
      forall j | |p| < j < |s| ensures s[j] == rest[j - |p| - 1] {
      }
    }
  }

  /** Eight hexadecimal groups joined by ':' are IPv6 text (the full form). */
  lemma {:induction false} Ipv6FullForm(groups: seq<string>)
    requires |groups| == 8 && forall i :: 0 <= i < 8 ==> IsHexGroup(groups[i]) && ':' !in groups[i]
    ensures IsValidIp(Join(groups, ':'))
  {
    var s := Join(groups, ':');
    JoinNoDoubleSep(groups, ':');
    SplitJoin(groups, ':');
    assert FindDoubleColonFrom(s, 0).None?;
    assert GroupCount(s, true) == Some(8);
  }

  /** Six hexadecimal groups followed by an embedded dotted quad are IPv6 text. */
  lemma {:induction false} Ipv6EmbeddedIpv4(groups: seq<string>, octets: seq<nat>)
    requires |groups| == 6 && forall i :: 0 <= i < 6 ==> IsHexGroup(groups[i]) && ':' !in groups[i]
    requires |octets| == 4 && forall i :: 0 <= i < 4 ==> octets[i] < 256
    ensures IsIpv6(Join(groups + [FormatIpv4(octets)], ':'))
  {
    var v4 := FormatIpv4(octets);
    Ipv4FormatParse(octets);
    Ipv4HasNoColon(v4);
    Ipv4Length(v4);
    var parts := groups + [v4];
    var s := Join(parts, ':');
    JoinNoDoubleSep(parts, ':');
    SplitJoin(parts, ':');
    assert FindDoubleColonFrom(s, 0).None?;
    assert !IsHexGroup(v4);
    assert GroupCount(s, true) == Some(8);
  }

  /** In `h + "::" + t`, where `h` is joined groups, the first "::" is the one after `h`. */
  lemma {:induction false} FirstDoubleColonAfter(head: seq<string>, t: string)
    requires forall i :: 0 <= i < |head| ==> IsHexGroup(head[i]) && ':' !in head[i]
    ensures var h := JoinAll(head, ':');
      FindDoubleColonFrom(h + "::" + t, 0) == Some(|h|)
  {
    var h := JoinAll(head, ':');
    var s := h + "::" + t;
    if |head| > 0 {
      JoinNoDoubleSep(head, ':');
      forall j | 0 <= j < |h| ensures !DoubleColonAt(s, j) {
        if j < |h| - 1 {
          assert s[j] == h[j] && s[j + 1] == h[j + 1];
        } else {
          assert s[j] == h[|h| - 1];
        }
      }
    }
    assert DoubleColonAt(s, |h|);
  }

  /** How many groups joined hexadecimal groups stand for. */
  lemma {:induction false} GroupCountOfGroups(groups: seq<string>, v4Tail: bool)
    requires |groups| >= 1
    requires forall i :: 0 <= i < |groups| ==> IsHexGroup(groups[i]) && ':' !in groups[i]
    ensures GroupCount(Join(groups, ':'), v4Tail) == Some(|groups|)
  {
    SplitJoin(groups, ':');
  }

  /** A list of hexadecimal groups, "::", and another list are IPv6 text when
      together they hold at most seven groups; either list may be empty. */
  lemma {:induction false} Ipv6Compressed(head: seq<string>, tail: seq<string>)
    requires forall i :: 0 <= i < |head| ==> IsHexGroup(head[i]) && ':' !in head[i]
    requires forall i :: 0 <= i < |tail| ==> IsHexGroup(tail[i]) && ':' !in tail[i]
    requires |head| + |tail| <= 7
    ensures IsValidIp(JoinAll(head, ':') + "::" + JoinAll(tail, ':'))
  {
    var h := JoinAll(head, ':');
    var t := JoinAll(tail, ':');
    var s := h + "::" + t;
    FirstDoubleColonAfter(head, t);
    assert s[..|h|] == h;
    assert s[|h| + 2..] == t;
    if |head| > 0 {
      GroupCountOfGroups(head, false);
    }
    if |tail| > 0 {
      GroupCountOfGroups(tail, true);
    }
    assert IsIpv6(s);
  }

  lemma {:induction false} JoinChars(parts: seq<string>, sep: char, j: nat)
    requires |parts| >= 1
    requires j < |Join(parts, sep)|
    ensures Join(parts, sep)[j] == sep || exists i :: 0 <= i < |parts| && Join(parts, sep)[j] in parts[i]
  {
    var s := Join(parts, sep);
    if |parts| > 1 {
      var p := parts[0];
      var rest := Join(parts[1..], sep);
      assert s == p + [sep] + rest;
      if j < |p| {
        assert s[j] == p[j];
        assert s[j] in parts[0];
      } else if j > |p| {
        assert s[j] == rest[j - |p| - 1];
        JoinChars(parts[1..], sep, j - |p| - 1);
        if rest[j - |p| - 1] != sep {
          var i :| 0 <= i < |parts[1..]| && rest[j - |p| - 1] in parts[1..][i];
          assert s[j] in parts[i + 1];
        }
      }
    } else {
      assert s[j] in parts[0];
    }
  }

  /** Dotted-quad text is made of digits and dots only. */
  lemma Ipv4HasNoColon(s: string)
    requires IsIpv4(s)
    ensures ':' !in s
  {
    var parts := Split(s, '.');
    JoinSplit(s, '.');
    forall j | 0 <= j < |s| ensures s[j] != ':' {
      JoinChars(parts, '.', j);
      if s[j] != '.' {
        var i :| 0 <= i < |parts| && s[j] in parts[i];
        var m :| 0 <= m < |parts[i]| && parts[i][m] == s[j];
        assert IsDigit(parts[i][m]);
      }
    }
  }

  lemma Ipv4Length(s: string)
    requires IsIpv4(s)
    ensures |s| >= 7
  {
    var parts := Split(s, '.');
    JoinSplit(s, '.');
    assert parts == parts[..1] + parts[1..];
    assert |Join(parts, '.')| == |parts[0]| + 1 + |Join(parts[1..], '.')|;
    assert |Join(parts[1..], '.')| == |parts[1]| + 1 + |Join(parts[2..], '.')|;
    assert |Join(parts[2..], '.')| == |parts[2]| + 1 + |Join(parts[3..], '.')|;
  }

  /** IPv6 text always contains a ':'. */
  lemma Ipv6HasColon(s: string)
    requires IsIpv6(s)
    ensures ':' in s
  {
    if FindDoubleColonFrom(s, 0).None? && ':' !in s {
      SplitNoSep(s, ':');
    }
  }

  /** No text is both an IPv4 and an IPv6 address, so the order in which the
      two families are tried does not matter. */
  lemma FamiliesDisjoint(s: string)
    ensures !(IsIpv4(s) && IsIpv6(s))
  {
    if IsIpv4(s) && IsIpv6(s) {
      Ipv4HasNoColon(s);
      Ipv6HasColon(s);
    }
  }
}
