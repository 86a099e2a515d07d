/**
 * Character classes, decimal numerals and the scanning primitives that the C
 * library applies to peer text: the `%d` conversion of sscanf, the numerals
 * printed by `%d` and std::to_string, the cut of a std::string at its first
 * NUL by c_str(), the truncation performed by snprintf, and the lexicographic
 * order of std::string.
 */
module Text {
  import opened Wrappers

  predicate IsDigit(c: char) { '0' <= c <= '9' }

  /** isspace in the C locale. */
  predicate IsSpace(c: char) {
    c == ' ' || c == '\t' || c == '\n' || c == '\r' || c == '\U{000B}' || c == '\U{000C}'
  }

  predicate IsColon(c: char) { c == ':' }
  predicate IsNotColon(c: char) { c != ':' }
  predicate IsNotDot(c: char) { c != '.' }
  predicate IsNotNul(c: char) { c != '\0' }

  predicate AllDigits(s: string) { forall i :: 0 <= i < |s| ==> IsDigit(s[i]) }

  /** Length of the longest prefix of `s` whose characters all satisfy `p`. */
  function Span(s: string, p: char -> bool): (n: nat)
    ensures n <= |s|
    ensures forall i :: 0 <= i < n ==> p(s[i])
    ensures n < |s| ==> !p(s[n])
  {
    if s == [] || !p(s[0]) then 0 else 1 + Span(s[1..], p)
  }

  /** A run of characters satisfying `p`, followed by one that does not, spans exactly the run. */
  lemma {:induction false} SpanStopsAfter(x: string, rest: string, p: char -> bool)
    requires forall i :: 0 <= i < |x| ==> p(x[i])
    requires rest == [] || !p(rest[0])
    ensures Span(x + rest, p) == |x|
  {
    if x != [] {
      assert (x + rest)[1..] == x[1..] + rest;
      SpanStopsAfter(x[1..], rest, p);
    }
  }

  // ---------------------------------------------------------------------------
  // Decimal numerals

  function DigitValue(c: char): nat
    requires IsDigit(c)
  {
    c as int - '0' as int
  }

  function DigitChar(d: nat): (c: char)
    requires d < 10
    ensures IsDigit(c) && DigitValue(c) == d
  {
    ('0' as int + d) as char
  }

  /** Value of a run of decimal digits, most significant digit first. */
  function DigitsValue(ds: string): nat
    requires AllDigits(ds)
    decreases |ds|
  {
    if ds == [] then 0 else 10 * DigitsValue(ds[..|ds| - 1]) + DigitValue(ds[|ds| - 1])
  }

  /** The decimal numeral of `n` without leading zeros. */
  function NatToString(n: nat): (s: string)
    ensures s != [] && AllDigits(s)
    ensures DigitsValue(s) == n
    ensures s[0] == '0' ==> s == "0"
  {
    if n < 10 then
      [DigitChar(n)]
    else
      var t := NatToString(n / 10);
      var s := t + [DigitChar(n % 10)];
      assert s[..|s| - 1] == t;
      s
  }

  /** A run of digits that starts with a non-zero digit has a non-zero value. */
  lemma {:induction false} DigitsValuePositive(ds: string)
    requires ds != [] && AllDigits(ds) && ds[0] != '0'
    ensures DigitsValue(ds) > 0
  {
    if |ds| > 1 {
      DigitsValuePositive(ds[..|ds| - 1]);
    }
  }

  /** A numeral without leading zeros is the one NatToString prints for its value. */
  lemma {:induction false} NatToStringOfDigits(ds: string)
    requires ds != [] && AllDigits(ds)
    requires ds[0] == '0' ==> ds == "0"
    ensures NatToString(DigitsValue(ds)) == ds
  {
    if |ds| > 1 {
      var t := ds[..|ds| - 1];
      DigitsValuePositive(t);
      NatToStringOfDigits(t);
      assert ds == t + [ds[|ds| - 1]];
    }
  }

  /** The text that `%d` and std::to_string print for `n`. */
  function IntToString(n: int): (s: string)
    ensures s != [] && (IsDigit(s[0]) || s[0] == '-')
    ensures forall i :: 0 <= i < |s| ==> IsDigit(s[i]) || s[i] == '-'
  {
    if n < 0 then "-" + NatToString(-n) else NatToString(n)
  }

  /**
   * The `%d` conversion of sscanf: leading white space is skipped, an optional
   * sign is read, then every following decimal digit (at least one). The
   * result is the value and the number of characters consumed; None is a
   * matching or input failure.
   */
  function ScanInt(s: string): (r: Option<(int, nat)>)
    ensures r.Some? ==> 0 < r.value.1 <= |s|
    ensures r.Some? ==> IsDigit(s[r.value.1 - 1])
    ensures r.Some? && r.value.1 < |s| ==> !IsDigit(s[r.value.1])
  {
    var ws := Span(s, IsSpace);
    var t := s[ws..];
    var signLen := if t != [] && (t[0] == '+' || t[0] == '-') then 1 else 0;
    var u := t[signLen..];
    var nd := Span(u, IsDigit);
    if nd == 0 then None
    else
      var magnitude := DigitsValue(u[..nd]);
      var value: int := if signLen == 1 && t[0] == '-' then -(magnitude as int) else magnitude;
      assert s[ws + signLen + nd - 1] == u[nd - 1];
      Some((value, ws + signLen + nd))
  }

  /** `%d` reads a run of digits that is not followed by another digit. */
  lemma {:induction false} ScanIntOfDigits(sign: string, digits: string, rest: string)
    requires sign == [] || sign == "-"
    requires digits != [] && AllDigits(digits)
    requires rest == [] || !IsDigit(rest[0])
    ensures ScanInt(sign + digits + rest)
         == Some(((if sign == [] then DigitsValue(digits) else -(DigitsValue(digits) as int)), |sign| + |digits|))
  {
    var s := sign + digits + rest;
    assert s[0] == if sign == [] then digits[0] else '-';
    assert !IsSpace(s[0]);
    assert Span(s, IsSpace) == 0;
    assert s[0..] == s;
    var u := s[|sign|..];
    assert u == digits + rest;
    SpanStopsAfter(digits, rest, IsDigit);
    assert Span(u, IsDigit) == |digits|;
    assert u[..|digits|] == digits;
  }

  /** `%d` reads back exactly what `%d` prints, when no digit follows. */
  lemma {:induction false} ScanIntOfIntToString(n: int, rest: string)
    requires rest == [] || !IsDigit(rest[0])
    ensures ScanInt(IntToString(n) + rest) == Some((n, |IntToString(n)|))
  {
    if n < 0 {
      ScanIntOfDigits("-", NatToString(-n), rest);
      assert IntToString(n) + rest == "-" + NatToString(-n) + rest;
    } else {
      ScanIntOfDigits([], NatToString(n), rest);
      assert IntToString(n) + rest == [] + NatToString(n) + rest;
    }
  }

  // ---------------------------------------------------------------------------
  // C strings and bounded buffers

  /** Text that a C routine reads whole: it holds no NUL. */
  predicate NulFree(s: string) { forall i :: 0 <= i < |s| ==> s[i] != '\0' }

  /** What c_str() hands to a C routine: the text up to its first NUL. */
  function CString(s: string): (r: string)
    ensures r <= s
    ensures NulFree(r)
    ensures |r| < |s| ==> s[|r|] == '\0'
  {
    s[..Span(s, IsNotNul)]
  }

  /** Text without a NUL is passed to C unchanged. */
  lemma CStringOfNulFree(s: string)
    requires NulFree(s)
    ensures CString(s) == s
  {
    SpanStopsAfter(s, [], IsNotNul);
    assert s + [] == s;
  }

  /** What snprintf leaves in a buffer with room for `cap` characters and the NUL. */
  function Truncate(s: string, cap: nat): (r: string)
    ensures r <= s
    ensures |r| == if |s| <= cap then |s| else cap
  {
    if |s| <= cap then s else s[..cap]
  }

  // ---------------------------------------------------------------------------
  // The order of std::string

  /** std::string's operator<: characters compared in turn, a proper prefix is smaller. */
  function StringLess(a: string, b: string): bool
    decreases |a|
  {
    if a == [] then b != []
    else if b == [] then false
    else if a[0] != b[0] then a[0] < b[0]
    else StringLess(a[1..], b[1..])
  }

  lemma {:induction false} StringLessIrreflexive(a: string)
    ensures !StringLess(a, a)
  {
    if a != [] {
      StringLessIrreflexive(a[1..]);
    }
  }

  lemma {:induction false} StringLessAsymmetric(a: string, b: string)
    ensures StringLess(a, b) ==> !StringLess(b, a)
  {
    if a != [] && b != [] && a[0] == b[0] {
      StringLessAsymmetric(a[1..], b[1..]);
    }
  }

  lemma {:induction false} StringLessTransitive(a: string, b: string, c: string)
    requires StringLess(a, b) && StringLess(b, c)
    ensures StringLess(a, c)
  {
    if a != [] && a[0] == b[0] && b[0] == c[0] {
      StringLessTransitive(a[1..], b[1..], c[1..]);
    }
  }

  lemma {:induction false} StringLessTotal(a: string, b: string)
    ensures a == b || StringLess(a, b) || StringLess(b, a)
  {
    if a != [] && b != [] && a[0] == b[0] {
      StringLessTotal(a[1..], b[1..]);
      if a[1..] == b[1..] {
        assert a == [a[0]] + a[1..] && b == [b[0]] + b[1..];
      }
    }
  }
}
