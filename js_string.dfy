/**
 * The few JavaScript built-ins the decoders lean on, with their ECMAScript
 * semantics written out: `String.prototype.substring`, `parseInt(_, 10)` and
 * `String(n).padStart(2, "0")`. A string here is a sequence of Unicode scalar
 * values; for text inside the Basic Multilingual Plane this is the JavaScript
 * sequence of UTF-16 code units, one `char` per code unit.
 */
module JsString {
  import opened Wrappers

  // ---------------------------------------------------------------------
  // substring(start, end)
  // ---------------------------------------------------------------------

  /** A substring argument, after clamping to [0, n]. */
  function Clamp(k: int, n: nat): nat
  {
    if k < 0 then 0 else if k > n then n else k
  }

  /**
   * `s.substring(start, end)`: both bounds are clamped to [0, |s|] and
   * swapped when the start lies after the end. A `NaN` argument reads as 0,
   * so callers pass 0 for it.
   */
  function Substring(s: string, start: int, end: int): (r: string)
    ensures 0 <= start <= end <= |s| ==> r == s[start..end]
    ensures 0 <= end <= start <= |s| ==> r == s[end..start]
    ensures |r| <= |s|
  {
    var a, b := Clamp(start, |s|), Clamp(end, |s|);
    if a <= b then s[a..b] else s[b..a]
  }

  /** substring never fails: out-of-range bounds give a shorter (possibly empty) slice. */
  lemma SubstringLength(s: string, start: int, end: int)
    requires 0 <= start <= end
    ensures |Substring(s, start, end)| == Min(end - start, Max(0, |s| - start))
    ensures Substring(s, start, end) == s[Min(start, |s|)..Min(end, |s|)]
  {
  }

  function Min(a: int, b: int): int { if a <= b then a else b }
  function Max(a: int, b: int): int { if a <= b then b else a }

  // ---------------------------------------------------------------------
  // parseInt(s, 10)
  // ---------------------------------------------------------------------

  predicate IsDigit(c: char) { '0' <= c <= '9' }

  const StrWhiteSpace: set<char> := {
    '\t', '\n', '\U{000B}', '\U{000C}', '\r', ' ', '\U{00A0}', '\U{1680}',
    '\U{2000}', '\U{2001}', '\U{2002}', '\U{2003}', '\U{2004}', '\U{2005}',
    '\U{2006}', '\U{2007}', '\U{2008}', '\U{2009}', '\U{200A}',
    '\U{2028}', '\U{2029}', '\U{202F}', '\U{205F}', '\U{3000}', '\U{FEFF}'
  }

  /** StrWhiteSpaceChar of ECMAScript: WhiteSpace and LineTerminator code points. */
  predicate IsStrWhiteSpace(c: char)
  {
    c in StrWhiteSpace
  }

  predicate IsSign(c: char) { c == '+' || c == '-' }

  /** The string with its leading white space removed. */
  function TrimStart(s: string): string
  {
    if s != [] && IsStrWhiteSpace(s[0]) then TrimStart(s[1..]) else s
  }

  /** Reads the run of decimal digits at the front of s onto acc, most significant digit first. */
  function ReadDigits(s: string, acc: nat): nat
  {
    if s != [] && IsDigit(s[0]) then ReadDigits(s[1..], acc * 10 + (s[0] as int - '0' as int))
    else acc
  }

  /**
   * `parseInt(s, 10)`: skip leading white space, read an optional sign, then
   * the longest run of decimal digits. No digit at all gives `NaN` (None).
   * A negative zero is the integer 0.
   */
  function ParseInt(s: string): (r: Option<int>)
    ensures s == [] ==> r == None
    ensures s != [] && IsDigit(s[0]) ==> r == Some(ReadDigits(s, 0))
  {
    var t := TrimStart(s);
    var u := if t != [] && IsSign(t[0]) then t[1..] else t;
    if u == [] || !IsDigit(u[0]) then None
    else
      var n := ReadDigits(u, 0);
      Some(if t[0] == '-' then -(n as int) else n)
  }

  /** At most one more digit: the value grows from acc to at most acc * 10 + 9. */
  lemma ReadOneDigit(s: string, acc: nat)
    requires |s| <= 1
    ensures acc <= ReadDigits(s, acc) <= acc * 10 + 9
  {
    if s != [] && IsDigit(s[0]) {
      assert ReadDigits(s[1..], acc * 10 + (s[0] as int - '0' as int)) == acc * 10 + (s[0] as int - '0' as int);
    }
  }

  /** A length field that starts with a digit parses to the value of its digit run. */
  lemma ParseIntDigitLed(s: string)
    requires s != [] && IsDigit(s[0])
    ensures ParseInt(s) == Some(ReadDigits(s, 0))
    ensures ParseInt(s).value >= 0
  {
    assert !IsStrWhiteSpace(s[0]) && !IsSign(s[0]);
    assert TrimStart(s) == s;
  }

  /** A field that is empty, or starts with anything but white space, a sign or a digit, is NaN. */
  lemma ParseIntNaN(s: string)
    requires s == [] || !(IsDigit(s[0]) || IsStrWhiteSpace(s[0]) || IsSign(s[0]))
    ensures ParseInt(s) == None
  {
  }

  /** A two-character length field reads as NaN or as a number in -9 .. 99. */
  lemma ParseIntTwoChars(s: string)
    requires |s| <= 2
    ensures ParseInt(s).Some? ==> -9 <= ParseInt(s).value <= 99
  {
    var t := TrimStart(s);
    TrimStartShortens(s);
    var u := if t != [] && IsSign(t[0]) then t[1..] else t;
    if u != [] && IsDigit(u[0]) {
      var d0 := u[0] as int - '0' as int;
      ReadOneDigit(u[1..], d0);
      if t[0] == '-' {
        assert |u| == 1 && u[1..] == [];
      }
    }
  }

  lemma {:induction false} TrimStartShortens(s: string)
    ensures |TrimStart(s)| <= |s|
  {
    if s != [] && IsStrWhiteSpace(s[0]) {
      TrimStartShortens(s[1..]);
    }
  }

  /** "5a" and "5" both read as 5: parseInt stops at the first non-digit. */
  lemma ParseIntStopsAtNonDigit()
    ensures ParseInt("5a") == Some(5) && ParseInt("5") == Some(5) && ParseInt("a5") == None
  {
    ParseIntDigitLed("5a");
    assert "5a"[1..] == "a";
  }

  // ---------------------------------------------------------------------
  // String(n).padStart(2, "0")
  // ---------------------------------------------------------------------

  function DigitChar(k: nat): (c: char)
    requires k < 10
    ensures IsDigit(c) && c as int - '0' as int == k
  {
    ('0' as int + k) as char
  }

  /** The decimal text of n < 100, left-padded with "0" to two characters. */
  function PadStart2(n: nat): (r: string)
    requires n < 100
    ensures |r| == 2 && IsDigit(r[0]) && IsDigit(r[1])
  {
    [DigitChar(n / 10), DigitChar(n % 10)]
  }

  /** parseInt reads back what padStart wrote: the two are inverse on 0..99. */
  lemma PadStart2RoundTrip(n: nat)
    requires n < 100
    ensures ParseInt(PadStart2(n)) == Some(n)
  {
    var r := PadStart2(n);
    ParseIntDigitLed(r);
    var hi, lo := n / 10, n % 10;
    assert r[0] as int - '0' as int == hi && r[1] as int - '0' as int == lo;
    assert ReadDigits(r, 0) == ReadDigits(r[1..], hi);
    assert r[1..][1..] == [];
    assert ReadDigits(r[1..], hi) == ReadDigits([], hi * 10 + lo);
    assert hi * 10 + lo == n;
  }

  /** Two different tag numbers below 100 give different tags. */
  lemma PadStart2Injective(m: nat, n: nat)
    requires m < 100 && n < 100 && PadStart2(m) == PadStart2(n)
    ensures m == n
  {
    PadStart2RoundTrip(m);
    PadStart2RoundTrip(n);
  }
}
