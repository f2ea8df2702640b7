/**
 * The Python string built-ins the upload handler relies on: `str.lower()`,
 * `str.endswith()`, `str.strip()` and `str(int)` (through an f-string).
 */
module PyStr {

  /**
   * The characters for which Python's `str.isspace()` holds, by code point;
   * `str.strip()` with no argument removes exactly these.
   */
  predicate IsSpace(c: char) {
    var n := c as int;
    (9 <= n <= 13) || (28 <= n <= 32) || n == 0x85 || n == 0xa0 || n == 0x1680
    || (0x2000 <= n <= 0x200a) || n == 0x2028 || n == 0x2029 || n == 0x202f || n == 0x205f || n == 0x3000
  }

  predicate AllSpace(s: string) {
    forall i :: 0 <= i < |s| ==> IsSpace(s[i])
  }

  // ---------------------------------------------------------------- lower()

  predicate IsUpper(c: char) {
    'A' <= c <= 'Z'
  }

  function LowerChar(c: char): (d: char)
    ensures !IsUpper(d)
    ensures !IsUpper(c) ==> d == c
    ensures IsUpper(c) ==> d == (c as int + 32) as char
  {
    if IsUpper(c) then (c as int + 32) as char else c
  }

  /**
   * `s.lower()`, for the ASCII letters: the length is kept, each letter
   * `A`-`Z` becomes its lower-case partner `a`-`z`, and every other
   * character is unchanged.
   */
  function Lower(s: string): (r: string)
    ensures |r| == |s|
    ensures forall i :: 0 <= i < |s| ==> !IsUpper(r[i])
    ensures forall i :: 0 <= i < |s| && !IsUpper(s[i]) ==> r[i] == s[i]
    ensures forall i :: 0 <= i < |s| && IsUpper(s[i]) ==> r[i] == (s[i] as int + 32) as char
  {
    seq(|s|, i requires 0 <= i < |s| => LowerChar(s[i]))
  }

  /** Lower-casing twice is lower-casing once. */
  lemma LowerIdempotent(s: string)
    ensures Lower(Lower(s)) == Lower(s)
  {
  }

  /** Lower-casing works character by character, so it distributes over concatenation. */
  lemma LowerAppend(a: string, b: string)
    ensures Lower(a + b) == Lower(a) + Lower(b)
  {
  }

  // ---------------------------------------------------------------- endswith()

  /** `s.endswith(suffix)`. */
  predicate EndsWith(s: string, suffix: string) {
    |suffix| <= |s| && s[|s| - |suffix|..] == suffix
  }

  /** Any stem followed by `suffix` ends with `suffix`. */
  lemma EndsWithAppended(stem: string, suffix: string)
    ensures EndsWith(stem + suffix, suffix)
  {
    assert (stem + suffix)[|stem|..] == suffix;
  }

  /** `s.endswith(suffix)` holds exactly when `s` is some stem followed by `suffix`. */
  lemma EndsWithSplit(s: string, suffix: string)
    ensures EndsWith(s, suffix) <==> exists stem :: stem + suffix == s
  {
    if EndsWith(s, suffix) {
      assert s[..|s| - |suffix|] + suffix == s;
    }
    if exists stem :: stem + suffix == s {
      var stem :| stem + suffix == s;
      EndsWithAppended(stem, suffix);
    }
  }

  /** `s.endswith(suffixes)` for a tuple: true when any of the suffixes ends `s`. */
  function EndsWithAny(s: string, suffixes: seq<string>): (b: bool)
    ensures b <==> exists k :: 0 <= k < |suffixes| && EndsWith(s, suffixes[k])
    decreases |suffixes|
  {
    if suffixes == [] then false
    else if EndsWith(s, suffixes[0]) then true
    else
      var rest := EndsWithAny(s, suffixes[1..]);
      assert forall k :: 1 <= k < |suffixes| ==> suffixes[k] == suffixes[1..][k - 1];
      rest
  }

  // ---------------------------------------------------------------- strip()

  /** Whitespace everywhere in `s[from..to]`, stated on `s` itself. */
  predicate SpaceBetween(s: string, from: nat, to: nat)
    requires from <= to <= |s|
  {
    forall k :: from <= k < to ==> IsSpace(s[k])
  }

  /** Number of whitespace characters at the front of `s`. */
  function LeadingSpace(s: string): (n: nat)
    ensures n <= |s| && SpaceBetween(s, 0, n)
    ensures n < |s| ==> !IsSpace(s[n])
    decreases |s|
  {
    if s != [] && IsSpace(s[0]) then 1 + LeadingSpace(s[1..]) else 0
  }

  /** Number of whitespace characters at the back of `s`. */
  function TrailingSpace(s: string): (n: nat)
    ensures n <= |s| && SpaceBetween(s, |s| - n, |s|)
    ensures n < |s| ==> !IsSpace(s[|s| - n - 1])
    decreases |s|
  {
    if s != [] && IsSpace(s[|s| - 1]) then 1 + TrailingSpace(s[..|s| - 1]) else 0
  }

  /**
   * `s[i..j]` is a stripping of `s`: everything cut off is whitespace and
   * what remains neither starts nor ends with whitespace.
   */
  predicate StripsTo(s: string, i: nat, j: nat) {
    i <= j <= |s| && SpaceBetween(s, 0, i) && SpaceBetween(s, j, |s|)
    && (i < j ==> !IsSpace(s[i]) && !IsSpace(s[j - 1]))
  }

  /** Where `s.strip()` cuts `s`: after the leading and before the trailing whitespace. */
  function StripSpan(s: string): (span: (nat, nat))
    ensures StripsTo(s, span.0, span.1)
  {
    var i := LeadingSpace(s);
    if i == |s| then (i, i) else (i, |s| - TrailingSpace(s))
  }

  /**
   * `s.strip()`: a slice of `s` that neither starts nor ends with whitespace.
   * These ensures alone do not fix the result; `StripUnique` does, by showing
   * that every stripping of `s` (see `StripsTo`) is this one.
   */
  function Strip(s: string): (r: string)
    ensures |r| <= |s|
    ensures r == [] || (!IsSpace(r[0]) && !IsSpace(r[|r| - 1]))
  {
    s[StripSpan(s).0..StripSpan(s).1]
  }

  /** There is only one stripping of a string, and `Strip` computes it. */
  lemma StripUnique(s: string, i: nat, j: nat)
    requires StripsTo(s, i, j)
    ensures Strip(s) == s[i..j]
  {
    var (i', j') := StripSpan(s);
    if i < j && i' < j' {
      // both cut just before the first and just after the last non-space character
      assert i == i' && j == j';
    }
  }

  /** `Strip` gives the empty string exactly when the input is all whitespace. */
  lemma StripEmpty(s: string)
    ensures Strip(s) == [] <==> AllSpace(s)
  {
    var (i, j) := StripSpan(s);
    if i < j {
      assert !IsSpace(s[i]);
    }
  }

  /** Stripping twice is stripping once. */
  lemma StripIdempotent(s: string)
    ensures Strip(Strip(s)) == Strip(s)
  {
    var (i, j) := StripSpan(s);
    var r := s[i..j];
    assert StripsTo(r, 0, |r|);
    StripUnique(r, 0, |r|);
  }

  /** `Strip` drops a final newline from a text that is otherwise not padded. */
  lemma StripNewline(x: string)
    requires x != [] && !IsSpace(x[0]) && !IsSpace(x[|x| - 1])
    ensures Strip(x + "\n") == x
  {
    var s := x + "\n";
    assert s[0] == x[0] && s[|x| - 1] == x[|x| - 1] && s[|x|] == '\n';
    StripUnique(s, 0, |x|);
    assert s[..|x|] == x;
  }

  /** A prefix of `s` that starts and ends with non-whitespace survives `Strip`. */
  lemma StripKeepsPrefix(s: string, p: string)
    requires p != [] && p <= s
    requires !IsSpace(p[0]) && !IsSpace(p[|p| - 1])
    ensures p <= Strip(s)
  {
    var (i, j) := StripSpan(s);
    assert s[0] == p[0] && s[|p| - 1] == p[|p| - 1];
    assert i == 0 && |p| <= j;
  }

  // ---------------------------------------------------------------- str(int)

  function DigitChar(d: nat): (c: char)
    requires d < 10
  {
    ('0' as int + d) as char
  }

  predicate IsDigit(c: char) {
    '0' <= c <= '9'
  }

  function DigitValue(c: char): (d: nat)
    requires IsDigit(c)
    ensures d < 10 && DigitChar(d) == c
  {
    c as int - '0' as int
  }

  /** `str(n)` for a non-negative integer: its decimal digits, most significant first. */
  function Decimal(n: nat): (s: string)
    ensures s != [] && forall i :: 0 <= i < |s| ==> IsDigit(s[i])
    ensures n > 0 ==> s[0] != '0'
    decreases n
  {
    if n < 10 then [DigitChar(n)]
    else
      var s := Decimal(n / 10) + [DigitChar(n % 10)];
      assert s[0] == Decimal(n / 10)[0];
      s
  }

  /** `int(s)` for a string of decimal digits. */
  function DecimalValue(s: string): (n: nat)
    requires forall i :: 0 <= i < |s| ==> IsDigit(s[i])
    decreases |s|
  {
    if s == [] then 0
    else DecimalValue(s[..|s| - 1]) * 10 + DigitValue(s[|s| - 1])
  }

  /** Reading back the digits of `str(n)` gives `n`. */
  lemma {:induction false} DecimalRoundTrip(n: nat)
    ensures DecimalValue(Decimal(n)) == n
    decreases n
  {
    if n >= 10 {
      var s := Decimal(n);
      assert s[..|s| - 1] == Decimal(n / 10);
      DecimalRoundTrip(n / 10);
    }
  }

  /** Different numbers are written differently. */
  lemma DecimalInjective(m: nat, n: nat)
    ensures Decimal(m) == Decimal(n) ==> m == n
  {
    DecimalRoundTrip(m);
    DecimalRoundTrip(n);
  }
}
