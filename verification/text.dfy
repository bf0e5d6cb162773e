/** Character classes and string helpers shared by the text cleaner, the
    schema and the report format. Strings are sequences of Unicode scalar
    values. */
module Text {
  import opened Wrappers

  /** ECMAScript WhiteSpace and LineTerminator: the set matched by the regex
      class `\s` and removed by `String.prototype.trim`. */
  predicate IsWhiteSpace(c: char)
  {
    || c == '\t' || c == '\n' || c == '\U{000B}' || c == '\U{000C}' || c == '\r'
    || c == ' ' || c == '\U{00A0}' || c == '\U{1680}'
    || ('\U{2000}' <= c <= '\U{200A}')
    || c == '\U{2028}' || c == '\U{2029}' || c == '\U{202F}' || c == '\U{205F}'
    || c == '\U{3000}' || c == '\U{FEFF}'
  }

  predicate AllWhiteSpace(s: string)
  {
    forall i :: 0 <= i < |s| ==> IsWhiteSpace(s[i])
  }

  /** The regex class `\d`: ASCII digits only. */
  predicate IsDigit(c: char)
  {
    '0' <= c <= '9'
  }

  predicate AllDigits(s: string)
  {
    forall i :: 0 <= i < |s| ==> IsDigit(s[i])
  }

  predicate StartsWith(s: string, prefix: string)
  {
    |prefix| <= |s| && s[..|prefix|] == prefix
  }

  predicate EndsWith(s: string, suffix: string)
  {
    |suffix| <= |s| && s[|s| - |suffix|..] == suffix
  }

  /** `s` holds `p` starting at index `i`. */
  predicate OccursAt(s: string, i: nat, p: string)
  {
    i + |p| <= |s| && s[i..i + |p|] == p
  }

  /** Length of the longest all-whitespace prefix. */
  function LeadingWhiteSpace(s: string): (n: nat)
    ensures n <= |s|
    ensures AllWhiteSpace(s[..n])
    ensures n < |s| ==> !IsWhiteSpace(s[n])
  {
    if |s| == 0 || !IsWhiteSpace(s[0]) then 0
    else
      var n' := LeadingWhiteSpace(s[1..]);
      assert s[1..][..n'] == s[1..n' + 1];
      1 + n'
  }

  /** `LeadingWhiteSpace` is the only length with its two properties. */
  lemma {:induction false} LeadingWhiteSpaceUnique(s: string, n: nat)
    requires n <= |s| && AllWhiteSpace(s[..n])
    requires n < |s| ==> !IsWhiteSpace(s[n])
    ensures LeadingWhiteSpace(s) == n
  {
    if n > 0 {
      assert s[..n][0] == s[0];
      assert s[1..][..n - 1] == s[..n][1..];
      LeadingWhiteSpaceUnique(s[1..], n - 1);
    }
  }

  /** Start of the longest all-whitespace suffix. */
  function TrailingWhiteSpaceStart(s: string): (k: nat)
    ensures k <= |s|
    ensures AllWhiteSpace(s[k..])
    ensures 0 < k ==> !IsWhiteSpace(s[k - 1])
  {
    if |s| == 0 || !IsWhiteSpace(s[|s| - 1]) then |s|
    else
      var k' := TrailingWhiteSpaceStart(s[..|s| - 1]);
      assert s[k'..] == s[..|s| - 1][k'..] + [s[|s| - 1]];
      k'
  }

  /** `String.prototype.trim`: drop leading and trailing whitespace. */
  function Trim(s: string): (r: string)
    ensures |r| <= |s|
    ensures OccursAt(s, LeadingWhiteSpace(s), r)
    ensures AllWhiteSpace(s[..LeadingWhiteSpace(s)])
    ensures AllWhiteSpace(s[LeadingWhiteSpace(s) + |r|..])
    ensures 0 < |r| ==> !IsWhiteSpace(r[0]) && !IsWhiteSpace(r[|r| - 1])
    ensures r == [] <==> AllWhiteSpace(s)
  {
    var lo := LeadingWhiteSpace(s);
    var rest := s[lo..];
    var hi := TrailingWhiteSpaceStart(rest);
    assert s[lo..][hi..] == s[lo + hi..];
    assert lo < |s| ==> rest[0] == s[lo];
    assert lo == |s| ==> s[..lo] == s;
    assert AllWhiteSpace(s) ==> lo == |s|;
    rest[..hi]
  }

  /** A whitespace-free core surrounded by whitespace is exactly what
      `Trim` keeps: trimming is determined by its characterisation. */
  lemma {:induction false} TrimOfPadded(p: string, m: string, q: string)
    requires AllWhiteSpace(p) && AllWhiteSpace(q)
    requires 0 < |m| ==> !IsWhiteSpace(m[0]) && !IsWhiteSpace(m[|m| - 1])
    ensures Trim(p + m + q) == m
  {
    var s := p + m + q;
    if |m| == 0 {
      assert AllWhiteSpace(s) by {
        forall i | 0 <= i < |s| ensures IsWhiteSpace(s[i]) {
          if i < |p| { assert s[i] == p[i]; } else { assert s[i] == q[i - |p|]; }
        }
      }
    } else {
      assert s == p + (m + q);
      LeadingWhiteSpaceOfPadded(p, m + q);
      assert s[|p|..] == m + q;
      TrailingWhiteSpaceStartOfPadded(m, q);
      assert (m + q)[..|m|] == m;
    }
  }

  /** Whitespace followed by a non-whitespace character: the prefix length
      is the whitespace run. */
  lemma {:induction false} LeadingWhiteSpaceOfPadded(p: string, t: string)
    requires AllWhiteSpace(p)
    requires 0 < |t| ==> !IsWhiteSpace(t[0])
    ensures LeadingWhiteSpace(p + t) == |p|
  {
    if |p| > 0 {
      assert (p + t)[1..] == p[1..] + t;
      LeadingWhiteSpaceOfPadded(p[1..], t);
    } else {
      assert p + t == t;
    }
  }

  /** A non-whitespace character followed by whitespace: the suffix starts
      right after it. */
  lemma {:induction false} TrailingWhiteSpaceStartOfPadded(t: string, q: string)
    requires AllWhiteSpace(q)
    requires 0 < |t| ==> !IsWhiteSpace(t[|t| - 1])
    ensures TrailingWhiteSpaceStart(t + q) == |t|
  {
    if |q| > 0 {
      assert (t + q)[..|t + q| - 1] == t + q[..|q| - 1];
      TrailingWhiteSpaceStartOfPadded(t, q[..|q| - 1]);
    } else {
      assert t + q == t;
    }
  }

  /** Dropping the first character of a string that is not all whitespace
      moves the start of its whitespace suffix back by one. */
  lemma TrailingWhiteSpaceStartOfTail(s: string)
    requires !AllWhiteSpace(s)
    ensures 0 < |s| && TrailingWhiteSpaceStart(s) == 1 + TrailingWhiteSpaceStart(s[1..])
  {
    var k := TrailingWhiteSpaceStart(s[1..]);
    var i :| 0 <= i < |s| && !IsWhiteSpace(s[i]);
    HeadEndsWithNonWhiteSpace(s, i);
    SuffixOfTail(s, k);
    var t := s[..1 + k];
    assert t[k] == s[k];
    assert s == t + s[1 + k..];
    TrailingWhiteSpaceStartOfPadded(t, s[1 + k..]);
  }

  lemma HeadEndsWithNonWhiteSpace(s: string, i: nat)
    requires i < |s| && !IsWhiteSpace(s[i])
    ensures var k := TrailingWhiteSpaceStart(s[1..]); k < |s| && !IsWhiteSpace(s[k])
  {
    var k := TrailingWhiteSpaceStart(s[1..]);
    SuffixOfTail(s, k);
    forall j | 1 + k <= j < |s| ensures IsWhiteSpace(s[j]) {
      assert s[1 + k..][j - 1 - k] == s[j];
    }
    assert i <= k;
    assert 0 < k ==> s[k] == s[1..][k - 1];
  }

  lemma SuffixOfTail(s: string, k: nat)
    requires 0 < |s| && k == TrailingWhiteSpaceStart(s[1..])
    ensures 1 + k <= |s| && AllWhiteSpace(s[1 + k..])
  {
    assert s[1..][k..] == s[1 + k..];
  }

  /** Trimming twice is trimming once. */
  lemma TrimIdempotent(s: string)
    ensures Trim(Trim(s)) == Trim(s)
  {
    TrimOfPadded([], Trim(s), []);
    assert [] + Trim(s) + [] == Trim(s);
  }

  /** First index of `c`, as `String.prototype.indexOf`. */
  function IndexOf(s: string, c: char): (r: Option<nat>)
    ensures r.Some? ==> r.value < |s| && s[r.value] == c
    ensures r.Some? ==> forall k :: 0 <= k < r.value ==> s[k] != c
    ensures r.None? <==> forall k :: 0 <= k < |s| ==> s[k] != c
  {
    if |s| == 0 then None
    else if s[0] == c then Some(0)
    else
      match IndexOf(s[1..], c)
      case None => None
      case Some(k) => Some(k + 1)
  }

  /** Last index of `c`, as `String.prototype.lastIndexOf`. */
  function LastIndexOf(s: string, c: char): (r: Option<nat>)
    ensures r.Some? ==> r.value < |s| && s[r.value] == c
    ensures r.Some? ==> forall k :: r.value < k < |s| ==> s[k] != c
    ensures r.None? <==> forall k :: 0 <= k < |s| ==> s[k] != c
  {
    if |s| == 0 then None
    else if s[|s| - 1] == c then Some(|s| - 1)
    else
      var r := LastIndexOf(s[..|s| - 1], c);
      assert forall k :: 0 <= k < |s| - 1 ==> s[..|s| - 1][k] == s[k];
      r
  }

  function DigitChar(d: nat): (c: char)
    requires d < 10
    ensures IsDigit(c)
  {
    ('0' as int + d) as char
  }

  function DigitValue(c: char): (d: nat)
    requires IsDigit(c)
    ensures d < 10 && DigitChar(d) == c
  {
    c as int - '0' as int
  }

  /** Decimal rendering of a natural number, as a template literal renders
      an integral JavaScript number. */
  function Decimal(n: nat): (r: string)
    ensures 0 < |r|
    ensures AllDigits(r)
  {
    if n < 10 then [DigitChar(n)]
    else
      var r := Decimal(n / 10) + [DigitChar(n % 10)];
      assert forall i :: 0 <= i < |r| - 1 ==> r[i] == Decimal(n / 10)[i];
      r
  }

  /** Value of a string of decimal digits. */
  function DecimalValue(s: string): nat
    requires AllDigits(s)
  {
    if |s| == 0 then 0
    else DecimalValue(s[..|s| - 1]) * 10 + DigitValue(s[|s| - 1])
  }

  /** Reading a rendered number gives the number back. */
  lemma {:induction false} DecimalRoundTrip(n: nat)
    ensures DecimalValue(Decimal(n)) == n
  {
    if n >= 10 {
      var r := Decimal(n);
      assert r[..|r| - 1] == Decimal(n / 10);
      DecimalRoundTrip(n / 10);
    }
  }

  /** A character occurring once is found at that place from both ends. */
  lemma OnlyOccurrence(s: string, c: char, p: nat)
    requires p < |s| && s[p] == c
    requires forall k :: 0 <= k < |s| && k != p ==> s[k] != c
    ensures IndexOf(s, c) == Some(p) && LastIndexOf(s, c) == Some(p)
  {
  }
}
