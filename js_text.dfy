/** The JavaScript string primitives the renderer relies on:
    `String(n)` for an integer, `toLowerCase` (ASCII letters only),
    `trim` and `includes`. */
module JsText {
  import opened Options

  // ----- String(n) and its inverse -----

  predicate IsDigit(c: char) {
    '0' <= c <= '9'
  }

  function DigitChar(d: int): (c: char)
    requires 0 <= d < 10
    ensures IsDigit(c)
  {
    (d + '0' as int) as char
  }

  function DigitValue(c: char): (d: int)
    requires IsDigit(c)
    ensures 0 <= d < 10 && DigitChar(d) == c
  {
    c as int - '0' as int
  }

  predicate AllDigits(s: string) {
    forall i :: 0 <= i < |s| ==> IsDigit(s[i])
  }

  /** Decimal digits of a natural number, without leading zeros. */
  function NatToString(n: nat): (s: string)
    ensures |s| > 0 && AllDigits(s)
    ensures s[|s| - 1] == DigitChar(n % 10)
    ensures s[0] == '0' <==> n == 0
    decreases n
  {
    if n < 10 then [DigitChar(n)] else NatToString(n / 10) + [DigitChar(n % 10)]
  }

  /** `String(n)` for an integer `n`. */
  function DecimalString(n: int): string {
    if n < 0 then "-" + NatToString(-n) else NatToString(n)
  }

  function ParseNat(s: string): nat
    requires AllDigits(s)
    decreases |s|
  {
    if s == [] then 0 else ParseNat(s[..|s| - 1]) * 10 + DigitValue(s[|s| - 1])
  }

  /** Reads an optionally signed decimal numeral back; `None` for anything else. */
  function ParseDecimal(s: string): Option<int> {
    if |s| > 1 && s[0] == '-' && AllDigits(s[1..]) then Some(0 - ParseNat(s[1..]) as int)
    else if |s| > 0 && AllDigits(s) then Some(ParseNat(s))
    else None
  }

  lemma {:induction false} ParseNatToString(n: nat)
    ensures ParseNat(NatToString(n)) == n
    decreases n
  {
    var s := NatToString(n);
    if n >= 10 {
      ParseNatToString(n / 10);
      assert s[..|s| - 1] == NatToString(n / 10);
    }
  }

  /** `String(n)` can be read back: decimal rendering is a lossless encoding. */
  lemma DecimalRoundTrip(n: int)
    ensures ParseDecimal(DecimalString(n)) == Some(n)
  {
    var s := DecimalString(n);
    if n < 0 {
      ParseNatToString(-n);
      assert s[0] == '-' && s[1..] == NatToString(-n);
    } else {
      ParseNatToString(n);
      assert IsDigit(s[0]);
    }
  }

  lemma DecimalStringInjective(a: int, b: int)
    ensures DecimalString(a) == DecimalString(b) ==> a == b
  {
    DecimalRoundTrip(a);
    DecimalRoundTrip(b);
  }

  // ----- toLowerCase (ASCII) -----

  function LowerChar(c: char): char {
    if 'A' <= c <= 'Z' then (c as int + 32) as char else c
  }

  function ToLower(s: string): string {
    seq(|s|, i requires 0 <= i < |s| => LowerChar(s[i]))
  }

  /** Two strings that differ only in the case of ASCII letters. */
  predicate SameUpToCase(a: string, b: string) {
    |a| == |b| && forall i :: 0 <= i < |a| ==> LowerChar(a[i]) == LowerChar(b[i])
  }

  // ----- trim -----

  /** The characters `String.prototype.trim` removes: white space and line
      terminators, by code point. */
  predicate IsJsSpace(c: char) {
    var x := c as int;
    x == 0x09 || x == 0x0A || x == 0x0B || x == 0x0C || x == 0x0D || x == 0x20
    || x == 0xA0 || x == 0x1680 || (0x2000 <= x <= 0x200A) || x == 0x2028
    || x == 0x2029 || x == 0x202F || x == 0x205F || x == 0x3000 || x == 0xFEFF
  }

  predicate AllSpaces(s: string) {
    forall i :: 0 <= i < |s| ==> IsJsSpace(s[i])
  }

  function TrimStart(s: string): string
    decreases |s|
  {
    if |s| > 0 && IsJsSpace(s[0]) then TrimStart(s[1..]) else s
  }

  function TrimEnd(s: string): string
    decreases |s|
  {
    if |s| > 0 && IsJsSpace(s[|s| - 1]) then TrimEnd(s[..|s| - 1]) else s
  }

  function Trim(s: string): string {
    TrimEnd(TrimStart(s))
  }

  // ----- includes -----

  /** `s.includes(q)`: `q` occurs in `s` as a contiguous substring. */
  predicate Includes(s: string, q: string)
    decreases |s|
  {
    q <= s || (|s| > 0 && Includes(s[1..], q))
  }

  /** A string ending in `c` includes the one-character string `[c]`. */
  lemma {:induction false} IncludesLastChar(s: string)
    requires |s| > 0
    ensures Includes(s, [s[|s| - 1]])
    decreases |s|
  {
    if |s| > 1 {
      IncludesLastChar(s[1..]);
    }
  }
  // ----- lemmas used by the search normalisation -----

  /** Lower-casing never turns a space into a non-space or back. */
  lemma SameCaseSameSpace(a: char, b: char)
    requires LowerChar(a) == LowerChar(b)
    ensures IsJsSpace(a) == IsJsSpace(b)
  {
  }

  lemma {:induction false} TrimStartUpToCase(a: string, b: string)
    requires SameUpToCase(a, b)
    ensures SameUpToCase(TrimStart(a), TrimStart(b))
    decreases |a|
  {
    if |a| > 0 {
      SameCaseSameSpace(a[0], b[0]);
      if IsJsSpace(a[0]) {
        TrimStartUpToCase(a[1..], b[1..]);
      }
    }
  }

  lemma {:induction false} TrimEndUpToCase(a: string, b: string)
    requires SameUpToCase(a, b)
    ensures SameUpToCase(TrimEnd(a), TrimEnd(b))
    decreases |a|
  {
    if |a| > 0 {
      SameCaseSameSpace(a[|a| - 1], b[|b| - 1]);
      if IsJsSpace(a[|a| - 1]) {
        TrimEndUpToCase(a[..|a| - 1], b[..|b| - 1]);
      }
    }
  }

  /** `trim().toLowerCase()` sends strings that differ only in ASCII case to
      the same string. */
  lemma TrimLowerUpToCase(a: string, b: string)
    requires SameUpToCase(a, b)
    ensures ToLower(Trim(a)) == ToLower(Trim(b))
  {
    TrimStartUpToCase(a, b);
    TrimEndUpToCase(TrimStart(a), TrimStart(b));
  }

  lemma {:induction false} TrimStartSkipsSpaces(p: string, s: string)
    requires AllSpaces(p)
    ensures TrimStart(p + s) == TrimStart(s)
    decreases |p|
  {
    if |p| == 0 {
      assert p + s == s;
    } else {
      assert (p + s)[1..] == p[1..] + s;
      TrimStartSkipsSpaces(p[1..], s);
    }
  }

  lemma {:induction false} TrimEndSkipsSpaces(s: string, q: string)
    requires AllSpaces(q)
    ensures TrimEnd(s + q) == TrimEnd(s)
    decreases |q|
  {
    if |q| == 0 {
      assert s + q == s;
    } else {
      assert (s + q)[..|s + q| - 1] == s + q[..|q| - 1];
      TrimEndSkipsSpaces(s, q[..|q| - 1]);
    }
  }

  /** Trimming the front of `s + q` either trims only inside `s`, or (when
      `s` is all spaces) swallows the whitespace tail `q` as well. */
  lemma {:induction false} TrimStartAppend(s: string, q: string)
    requires AllSpaces(q)
    ensures TrimStart(s + q) == TrimStart(s) + q || (TrimStart(s) == [] && TrimStart(s + q) == [])
    decreases |s|
  {
    if |s| == 0 {
      assert s + q == q + [];
      TrimStartSkipsSpaces(q, []);
      assert TrimStart(s) == [];
    } else if IsJsSpace(s[0]) {
      assert (s + q)[1..] == s[1..] + q;
      TrimStartAppend(s[1..], q);
    }
  }

  /** Surrounding white space never changes the trimmed string. */
  lemma TrimIgnoresPadding(p: string, s: string, q: string)
    requires AllSpaces(p) && AllSpaces(q)
    ensures Trim(p + s + q) == Trim(s)
  {
    assert p + s + q == p + (s + q);
    TrimStartSkipsSpaces(p, s + q);
    TrimStartAppend(s, q);
    if TrimStart(s + q) == TrimStart(s) + q {
      TrimEndSkipsSpaces(TrimStart(s), q);
    }
  }
}
