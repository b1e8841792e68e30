/** The parts of the Java platform's text handling that the calculator servlet
    relies on: `String.trim`, `Integer.parseInt`, `Integer.toString` and the
    character classes of the two regular expressions it uses. Only ASCII
    digits and ASCII word characters are modelled. */
module JavaText {
  import opened Wrappers

  const INT_MIN: int := -0x8000_0000
  const INT_MAX: int := 0x7FFF_FFFF

  /** The values of a Java `int`. */
  predicate IsInt32(n: int) {
    INT_MIN <= n <= INT_MAX
  }

  type Int32 = n: int | IsInt32(n)

  // ---------------------------------------------------------------------
  // String.trim

  /** `String.trim` removes every leading and trailing character whose code
      is at most U+0020 (spaces, tabs and all other control characters). */
  predicate IsTrimBlank(c: char) {
    c <= ' '
  }

  /** The number of leading characters that `trim` removes. */
  function LeadingBlanks(s: string): (n: nat)
    ensures n <= |s|
    ensures forall k :: 0 <= k < n ==> IsTrimBlank(s[k])
    ensures n < |s| ==> !IsTrimBlank(s[n])
  {
    if s != [] && IsTrimBlank(s[0]) then 1 + LeadingBlanks(s[1..]) else 0
  }

  /** The number of trailing characters that `trim` removes. */
  function TrailingBlanks(s: string): (n: nat)
    ensures n <= |s|
    ensures forall k :: |s| - n <= k < |s| ==> IsTrimBlank(s[k])
    ensures n < |s| ==> !IsTrimBlank(s[|s| - 1 - n])
  {
    if s != [] && IsTrimBlank(s[|s| - 1]) then 1 + TrailingBlanks(s[..|s| - 1]) else 0
  }

  /** `String.trim`: the leading blanks are skipped first, then the trailing
      blanks of what remains. */
  function Trim(s: string): (r: string)
    ensures LeadingBlanks(s) + |r| <= |s|
    ensures r == s[LeadingBlanks(s)..LeadingBlanks(s) + |r|]
    ensures forall k :: LeadingBlanks(s) + |r| <= k < |s| ==> IsTrimBlank(s[k])
    ensures r != [] ==> !IsTrimBlank(r[0]) && !IsTrimBlank(r[|r| - 1])
    ensures r == [] <==> forall k :: 0 <= k < |s| ==> IsTrimBlank(s[k])
  {
    var rest := s[LeadingBlanks(s)..];
    rest[..|rest| - TrailingBlanks(rest)]
  }

  /** Trimming a trimmed string changes nothing. */
  lemma TrimIdempotent(s: string)
    ensures Trim(Trim(s)) == Trim(s)
  {
  }

  // ---------------------------------------------------------------------
  // Regular-expression character classes

  predicate IsDigit(c: char) {
    '0' <= c <= '9'
  }

  /** `[a-zA-Z]` */
  predicate IsAsciiLetter(c: char) {
    'a' <= c <= 'z' || 'A' <= c <= 'Z'
  }

  /** `\w`, the characters on which `\b` decides: `[A-Za-z0-9_]`. */
  predicate IsWordChar(c: char) {
    IsAsciiLetter(c) || IsDigit(c) || c == '_'
  }

  /** The characters that `.` does not match when a pattern is compiled
      without flags: the line terminators of `java.util.regex.Pattern`. */
  predicate IsLineTerminator(c: char) {
    c == '\n' || c == '\r' || c == '\U{85}' || c == '\U{2028}' || c == '\U{2029}'
  }

  predicate NoLineTerminator(s: string) {
    forall k :: 0 <= k < |s| ==> !IsLineTerminator(s[k])
  }

  /** `s.matches(".*[a-zA-Z].*")` as Java evaluates it: the whole string must
      match, and neither `.*` can run over a line terminator, so a string
      holding one never matches, whatever letters it has. */
  function MatchesLetterPattern(s: string): (b: bool)
    ensures !NoLineTerminator(s) ==> !b
  {
    (exists k :: 0 <= k < |s| && IsAsciiLetter(s[k])) && NoLineTerminator(s)
  }

  /** The letter check as intended: the text contains an ASCII letter
      anywhere. It agrees with the pattern on every text without a line
      terminator, and says yes wherever the pattern matches. */
  function HasLetter(s: string): (b: bool)
    ensures MatchesLetterPattern(s) ==> b
    ensures NoLineTerminator(s) ==> (b <==> MatchesLetterPattern(s))
  {
    exists k :: 0 <= k < |s| && IsAsciiLetter(s[k])
  }

  /** A concatenation is free of line terminators exactly when both parts
      are. */
  lemma NoLineTerminatorAppend(a: string, b: string)
    ensures NoLineTerminator(a + b) <==> NoLineTerminator(a) && NoLineTerminator(b)
  {
    if NoLineTerminator(a + b) {
      forall k | 0 <= k < |b| ensures !IsLineTerminator(b[k]) {
        assert b[k] == (a + b)[|a| + k];
      }
      forall k | 0 <= k < |a| ensures !IsLineTerminator(a[k]) {
        assert a[k] == (a + b)[k];
      }
    }
  }

  /** A letter is found in a concatenation exactly when it is found in one of
      the parts. */
  lemma HasLetterAppend(a: string, b: string)
    ensures HasLetter(a + b) <==> HasLetter(a) || HasLetter(b)
  {
    if HasLetter(a + b) {
      var k :| 0 <= k < |a + b| && IsAsciiLetter((a + b)[k]);
      if k >= |a| {
        assert b[k - |a|] == (a + b)[k];
      }
    }
    if HasLetter(a) {
      var k :| 0 <= k < |a| && IsAsciiLetter(a[k]);
      assert (a + b)[k] == a[k];
    }
    if HasLetter(b) {
      var k :| 0 <= k < |b| && IsAsciiLetter(b[k]);
      assert (a + b)[|a| + k] == b[k];
    }
  }

  // ---------------------------------------------------------------------
  // Integer.toString and Integer.parseInt

  function DigitValue(c: char): (d: nat)
    requires IsDigit(c)
    ensures d < 10
  {
    (c as int) - ('0' as int)
  }

  function DigitChar(d: nat): (c: char)
    requires d < 10
    ensures IsDigit(c) && DigitValue(c) == d
  {
    (('0' as int) + d) as char
  }

  predicate AllDigits(s: string) {
    forall k :: 0 <= k < |s| ==> IsDigit(s[k])
  }

  /** The value of a run of decimal digits, most significant first. */
  function DecimalValue(ds: string): nat
    requires AllDigits(ds)
  {
    if ds == [] then 0 else DecimalValue(ds[..|ds| - 1]) * 10 + DigitValue(ds[|ds| - 1])
  }

  /** The decimal digits of `n`, without leading zeros. */
  function NatToString(n: nat): (r: string)
    ensures r != [] && AllDigits(r)
    ensures |r| > 1 ==> r[0] != '0'
  {
    if n < 10 then [DigitChar(n)] else NatToString(n / 10) + [DigitChar(n % 10)]
  }

  /** `Integer.toString`: a minus sign for a negative value, then the digits
      of its magnitude. The text never holds a letter, ends in a digit, and
      starts with `-` exactly for a negative value. */
  function IntToString(n: int): (r: string)
    ensures r != [] && IsDigit(r[|r| - 1])
    ensures forall k :: 0 <= k < |r| ==> IsDigit(r[k]) || (k == 0 && r[k] == '-')
    ensures r[0] == '-' <==> n < 0
    ensures !HasLetter(r)
  {
    if n < 0 then "-" + NatToString(-n) else NatToString(n)
  }

  /** The text after an optional leading sign. */
  function Unsigned(s: string): string
    requires s != []
  {
    if s[0] == '-' || s[0] == '+' then s[1..] else s
  }

  /** `Integer.parseInt(s)`: an optional `-` or `+`, then at least one
      decimal digit, and a value that fits in an `int`; anything else throws
      `NumberFormatException`, modelled as `None`. Leading zeros are
      accepted. `ParseIntSpells` gives the exact set of accepted texts. */
  function ParseInt(s: string): (r: Option<int>)
    ensures r.Some? ==> IsInt32(r.value)
    ensures r.Some? ==> s != [] && Unsigned(s) != [] && AllDigits(Unsigned(s))
    ensures r.Some? ==> (r.value < 0 ==> s[0] == '-')
  {
    if s == [] then None
    else
      var digits := Unsigned(s);
      if digits == [] || !AllDigits(digits) then None
      else
        var magnitude: int := DecimalValue(digits);
        var v := if s[0] == '-' then -magnitude else magnitude;
        if IsInt32(v) then Some(v) else None
  }

  lemma {:induction false} DecimalValueOfNatToString(n: nat)
    ensures DecimalValue(NatToString(n)) == n
  {
    if n >= 10 {
      var r := NatToString(n);
      assert r[..|r| - 1] == NatToString(n / 10);
      DecimalValueOfNatToString(n / 10);
    }
  }

  /** `Integer.parseInt` reads back every `int` that `Integer.toString`
      writes. */
  lemma ParseIntToString(n: int)
    requires IsInt32(n)
    ensures ParseInt(IntToString(n)) == Some(n)
  {
    if n < 0 {
      assert IntToString(n)[1..] == NatToString(-n);
      DecimalValueOfNatToString(-n);
    } else {
      DecimalValueOfNatToString(n);
    }
  }

  function Zeros(n: nat): (z: string)
    ensures |z| == n && forall k :: 0 <= k < n ==> z[k] == '0'
  {
    seq(n, _ => '0')
  }

  function Magnitude(v: int): nat {
    if v < 0 then -v else v
  }

  /** `s` writes `v` in a form `Integer.parseInt` accepts: an optional sign,
      any number of leading zeros, then the digits `Integer.toString` gives
      for the magnitude; a `-` exactly when the value is negative, or before
      a zero. */
  predicate Spells(s: string, v: int) {
    && s != []
    && (var u := Unsigned(s);
        var d := NatToString(Magnitude(v));
        |d| <= |u| && u == Zeros(|u| - |d|) + d)
    && (v < 0 ==> s[0] == '-')
    && (s[0] == '-' ==> v <= 0)
  }

  lemma {:induction false} DecimalValueZeros(k: nat, w: string)
    requires AllDigits(w)
    ensures AllDigits(Zeros(k) + w) && DecimalValue(Zeros(k) + w) == DecimalValue(w)
    decreases |w|, k
  {
    var z := Zeros(k) + w;
    if w == [] {
      assert z == Zeros(k);
      if k > 0 {
        assert z[..|z| - 1] == Zeros(k - 1) + [];
        DecimalValueZeros(k - 1, []);
      }
    } else {
      assert z[..|z| - 1] == Zeros(k) + w[..|w| - 1];
      assert z[|z| - 1] == w[|w| - 1];
      DecimalValueZeros(k, w[..|w| - 1]);
    }
  }

  lemma {:induction false} ZeroValueIsZeros(p: string)
    requires AllDigits(p) && DecimalValue(p) == 0
    ensures p == Zeros(|p|)
    decreases |p|
  {
    if p != [] {
      ZeroValueIsZeros(p[..|p| - 1]);
      assert p == p[..|p| - 1] + [p[|p| - 1]];
    }
  }

  /** Every run of digits is some leading zeros followed by the canonical
      digits of its value. */
  lemma {:induction false} DigitsCanonical(u: string)
    requires u != [] && AllDigits(u)
    ensures |NatToString(DecimalValue(u))| <= |u|
    ensures u == Zeros(|u| - |NatToString(DecimalValue(u))|) + NatToString(DecimalValue(u))
    decreases |u|
  {
    var p := u[..|u| - 1];
    var c := u[|u| - 1];
    var d := DigitValue(c);
    assert DigitChar(d) == c;
    assert u == p + [c];
    if p == [] {
      assert DecimalValue(u) == d;
    } else if DecimalValue(p) == 0 {
      ZeroValueIsZeros(p);
      assert DecimalValue(u) == d;
    } else {
      DigitsCanonical(p);
      var n := DecimalValue(u);
      assert n == DecimalValue(p) * 10 + d;
      assert n / 10 == DecimalValue(p) && n % 10 == d;
      assert NatToString(n) == NatToString(DecimalValue(p)) + [c];
    }
  }

  /** What `Integer.parseInt` accepts spells the value it returns. */
  lemma ParsedSpells(s: string, v: int)
    requires ParseInt(s) == Some(v)
    ensures Spells(s, v)
  {
    var u := Unsigned(s);
    DigitsCanonical(u);
    assert Magnitude(v) == DecimalValue(u);
  }

  /** Every spelling of an `int` is accepted with that value. */
  lemma SpelledParses(s: string, v: int)
    requires IsInt32(v) && Spells(s, v)
    ensures ParseInt(s) == Some(v)
  {
    var u := Unsigned(s);
    var d := NatToString(Magnitude(v));
    DecimalValueZeros(|u| - |d|, d);
    DecimalValueOfNatToString(Magnitude(v));
    assert AllDigits(u) && u != [] && DecimalValue(u) == Magnitude(v);
  }

  /** `Integer.parseInt` accepts `s` with the value `v` exactly when `v` is
      an `int` and `s` spells it: the converse of `ParseIntToString`. */
  lemma ParseIntSpells(s: string, v: int)
    ensures ParseInt(s) == Some(v) <==> IsInt32(v) && Spells(s, v)
  {
    if ParseInt(s) == Some(v) {
      ParsedSpells(s, v);
    }
    if IsInt32(v) && Spells(s, v) {
      SpelledParses(s, v);
    }
  }
}
