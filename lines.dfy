/** The line pipeline of `read_values_from_file`: split the file's text into
    lines, trim each, drop the empty ones. */
module Lines {
  import opened Text

  /** Rust's `char::is_whitespace`, the Unicode White_Space property. */
  predicate IsWhitespace(c: char) {
    || '\t' <= c <= '\r'
    || c == ' '
    || c == '\U{0085}'
    || c == '\U{00A0}'
    || c == '\U{1680}'
    || '\U{2000}' <= c <= '\U{200A}'
    || c == '\U{2028}'
    || c == '\U{2029}'
    || c == '\U{202F}'
    || c == '\U{205F}'
    || c == '\U{3000}'
  }

  predicate IsTrimmed(s: string) {
    |s| == 0 || (!IsWhitespace(s[0]) && !IsWhitespace(s[|s| - 1]))
  }

  /** How many whitespace characters `s` starts with. */
  function LeadingSpace(s: string): (n: nat)
    ensures n <= |s|
    ensures forall j :: 0 <= j < n ==> IsWhitespace(s[j])
    ensures n < |s| ==> !IsWhitespace(s[n])
  {
    if |s| == 0 || !IsWhitespace(s[0]) then 0 else 1 + LeadingSpace(s[1..])
  }

  /** How many whitespace characters `s` ends with. */
  function TrailingSpace(s: string): (n: nat)
    ensures n <= |s|
    ensures forall j :: |s| - n <= j < |s| ==> IsWhitespace(s[j])
    ensures n < |s| ==> !IsWhitespace(s[|s| - 1 - n])
  {
    if |s| == 0 || !IsWhitespace(s[|s| - 1]) then 0 else 1 + TrailingSpace(s[..|s| - 1])
  }

  /** `str::trim`: `s` without its leading and trailing whitespace. */
  function Trim(s: string): (r: string)
    ensures IsTrimmed(r) && |r| <= |s|
  {
    var t := s[LeadingSpace(s)..];
    t[..|t| - TrailingSpace(t)]
  }

  /** What `trim` removes is whitespace at the two ends and nothing else. */
  lemma TrimIsSlice(s: string)
    ensures var a, n := LeadingSpace(s), |Trim(s)|;
      && a + n <= |s| && Trim(s) == s[a..a + n]
      && (forall j :: 0 <= j < a ==> IsWhitespace(s[j]))
      && (forall j :: a + n <= j < |s| ==> IsWhitespace(s[j]))
  {
    var a := LeadingSpace(s);
    var t := s[a..];
    var n := |t| - TrailingSpace(t);
    assert Trim(s) == t[..n] == s[a..a + n];
    TrailingOfSuffix(s, a);
  }

  lemma TrailingOfSuffix(s: string, a: nat)
    requires a <= |s|
    ensures var t := s[a..];
      forall j :: a + |t| - TrailingSpace(t) <= j < |s| ==> IsWhitespace(s[j])
  {
    var t := s[a..];
    forall j | a + |t| - TrailingSpace(t) <= j < |s| ensures IsWhitespace(s[j]) {
      assert s[j] == t[j - a];
    }
  }

  /** `trim` gives the empty string exactly for all-whitespace text. */
  lemma TrimEmpty(s: string)
    ensures Trim(s) == "" <==> forall j :: 0 <= j < |s| ==> IsWhitespace(s[j])
  {
    var a := LeadingSpace(s);
    var t := s[a..];
    if a < |s| {
      assert t[0] == s[a] && !IsWhitespace(t[0]);
      assert TrailingSpace(t) < |t|;
    }
  }

  lemma TrimOfTrimmed(s: string)
    requires IsTrimmed(s)
    ensures Trim(s) == s
  {
    assert LeadingSpace(s) == 0;
    assert s[0..] == s;
  }

  /** Trimming twice is trimming once. */
  lemma TrimIdempotent(s: string)
    ensures Trim(Trim(s)) == Trim(s)
  {
    TrimOfTrimmed(Trim(s));
  }

  /** The trimmed lines that are not empty, in order. */
  function NonEmptyTrimmed(lines: seq<string>): (r: seq<string>)
    ensures |r| <= |lines|
    ensures forall i :: 0 <= i < |r| ==> r[i] != "" && IsTrimmed(r[i])
  {
    if lines == [] then []
    else
      var t := Trim(lines[0]);
      (if t == "" then [] else [t]) + NonEmptyTrimmed(lines[1..])
  }

  /** `read_values_from_file` after the file is read: `content.lines()`, each
      line trimmed, empty ones dropped. Splitting on '\n' alone is enough:
      the '\r' that `lines` also strips is whitespace, so `trim` removes it,
      and the empty piece after a final '\n' is dropped as empty. */
  function ReadValues(content: string): (values: seq<string>)
    ensures |values| <= |Split(content, '\n')|
    ensures forall i :: 0 <= i < |values| ==> values[i] != "" && IsTrimmed(values[i])
  {
    NonEmptyTrimmed(Split(content, '\n'))
  }

  /** A value comes out exactly when it is the nonempty trim of some line. */
  lemma {:induction false} NonEmptyTrimmedMembers(lines: seq<string>, x: string)
    ensures x in NonEmptyTrimmed(lines) <==> x != "" && exists i :: 0 <= i < |lines| && Trim(lines[i]) == x
  {
    if lines != [] {
      NonEmptyTrimmedMembers(lines[1..], x);
      if x != "" && (exists i :: 0 <= i < |lines| && Trim(lines[i]) == x) {
        var i :| 0 <= i < |lines| && Trim(lines[i]) == x;
        if i > 0 {
          assert Trim(lines[1..][i - 1]) == x;
        }
      }
      if x != "" && (exists i :: 0 <= i < |lines[1..]| && Trim(lines[1..][i]) == x) {
        var i :| 0 <= i < |lines[1..]| && Trim(lines[1..][i]) == x;
        assert Trim(lines[i + 1]) == x;
      }
    }
  }

  lemma {:induction false} ReadValuesMembers(content: string, lines: seq<string>, x: string)
    requires lines == Split(content, '\n')
    ensures x in ReadValues(content) <==> x != "" && exists i :: 0 <= i < |lines| && Trim(lines[i]) == x
  {
    NonEmptyTrimmedMembers(lines, x);
  }

  lemma {:induction false} NonEmptyTrimmedOfValues(values: seq<string>)
    requires forall i :: 0 <= i < |values| ==> values[i] != "" && IsTrimmed(values[i])
    ensures NonEmptyTrimmed(values) == values
  {
    if values != [] {
      TrimOfTrimmed(values[0]);
      NonEmptyTrimmedOfValues(values[1..]);
      assert [values[0]] + values[1..] == values;
    }
  }

  /** Writing nonempty, trimmed, single-line values one per line and reading
      them back gives the same values in the same order. */
  lemma {:induction false} ReadValuesOfLines(values: seq<string>)
    requires forall i :: 0 <= i < |values| ==> values[i] != "" && IsTrimmed(values[i]) && '\n' !in values[i]
    ensures ReadValues(JoinAll(values, '\n')) == values
  {
    if values != [] {
      SplitJoin(values, '\n');
      NonEmptyTrimmedOfValues(values);
    }
  }
}
