/** The handful of Python `str` operations the decoders rely on, over
    `string` (a sequence of characters). Only the ASCII behaviour is
    modelled: `upper`/`lower` change the 26 Latin letters, and `isspace` is
    the ASCII whitespace Python recognises. */
module Text {
  import opened Results

  /** `c.isspace()` for characters below 128: tab, line feed, vertical tab,
      form feed, carriage return, the four separators 0x1c..0x1f, space. */
  predicate IsSpace(c: char) {
    c == ' ' || (9 <= c as int <= 13) || (28 <= c as int <= 31)
  }

  predicate IsDigit(c: char) {
    '0' <= c <= '9'
  }

  predicate IsUpperLetter(c: char) {
    'A' <= c <= 'Z'
  }

  function UpperChar(c: char): char {
    if 'a' <= c <= 'z' then (c as int - 32) as char else c
  }

  function LowerChar(c: char): char {
    if 'A' <= c <= 'Z' then (c as int + 32) as char else c
  }

  /** `s.upper()` */
  function Upper(s: string): (r: string)
    ensures |r| == |s|
    ensures forall i :: 0 <= i < |s| ==> r[i] == UpperChar(s[i])
  {
    seq(|s|, i requires 0 <= i < |s| => UpperChar(s[i]))
  }

  /** `s.lower()` */
  function Lower(s: string): (r: string)
    ensures |r| == |s|
    ensures forall i :: 0 <= i < |s| ==> r[i] == LowerChar(s[i])
  {
    seq(|s|, i requires 0 <= i < |s| => LowerChar(s[i]))
  }

  /** Upper-casing twice is upper-casing once. */
  lemma UpperIdempotent(s: string)
    ensures Upper(Upper(s)) == Upper(s)
  {
  }

  lemma UpperAppend(a: string, b: string)
    ensures Upper(a + b) == Upper(a) + Upper(b)
  {
  }

  /** `s.startswith(p)` */
  predicate StartsWith(s: string, p: string) {
    |p| <= |s| && s[..|p|] == p
  }

  predicate OccursAt(s: string, sub: string, i: nat) {
    i + |sub| <= |s| && s[i..i + |sub|] == sub
  }

  /** `sub in s` */
  predicate Contains(s: string, sub: string) {
    exists i: nat | i <= |s| :: OccursAt(s, sub, i)
  }

  /** Index of the first occurrence of `c`, or `|s|` when there is none. */
  function Find(s: string, c: char): (i: nat)
    ensures i <= |s|
    ensures i < |s| ==> s[i] == c
    ensures forall j :: 0 <= j < i ==> s[j] != c
  {
    if |s| == 0 then 0 else if s[0] == c then 0 else 1 + Find(s[1..], c)
  }

  /** Number of leading characters of `s` that are not whitespace. */
  function TokenLength(s: string): (n: nat)
    ensures n <= |s|
    ensures forall i :: 0 <= i < n ==> !IsSpace(s[i])
    ensures n < |s| ==> IsSpace(s[n])
  {
    if |s| == 0 || IsSpace(s[0]) then 0 else 1 + TokenLength(s[1..])
  }

  predicate IsToken(t: string) {
    |t| > 0 && forall i :: 0 <= i < |t| ==> !IsSpace(t[i])
  }

  /** `s.split()`: the maximal runs of non-whitespace characters, in order. */
  function Split(s: string): (r: seq<string>)
    ensures forall i :: 0 <= i < |r| ==> IsToken(r[i])
    decreases |s|
  {
    if |s| == 0 then []
    else if IsSpace(s[0]) then Split(s[1..])
    else
      var n := TokenLength(s);
      [s[..n]] + Split(s[n..])
  }

  lemma TokenLengthAppendSpace(s: string, c: char)
    requires IsSpace(c)
    ensures TokenLength(s + [c]) == TokenLength(s)
    decreases |s|
  {
    if |s| > 0 && !IsSpace(s[0]) {
      assert (s + [c])[1..] == s[1..] + [c];
      TokenLengthAppendSpace(s[1..], c);
    }
  }

  /** Trailing whitespace does not change the tokens. */
  lemma {:induction false} SplitAppendSpace(s: string, c: char)
    requires IsSpace(c)
    ensures Split(s + [c]) == Split(s)
    decreases |s|
  {
    if |s| == 0 {
      assert Split([c]) == Split([c][1..]);
    } else if IsSpace(s[0]) {
      assert (s + [c])[1..] == s[1..] + [c];
      SplitAppendSpace(s[1..], c);
    } else {
      var n := TokenLength(s);
      TokenLengthAppendSpace(s, c);
      assert (s + [c])[..n] == s[..n];
      assert (s + [c])[n..] == s[n..] + [c];
      SplitAppendSpace(s[n..], c);
    }
  }

  /** `" ".join(ts)` */
  function Join(ts: seq<string>): string {
    if |ts| == 0 then ""
    else if |ts| == 1 then ts[0]
    else ts[0] + " " + Join(ts[1..])
  }

  lemma SplitSpacePrefix(s: string)
    requires |s| > 0 && IsSpace(s[0])
    ensures Split(s) == Split(s[1..])
  {
  }

  lemma TokenLengthOfJoin(t: string, rest: string)
    requires IsToken(t)
    requires |rest| == 0 || IsSpace(rest[0])
    ensures TokenLength(t + rest) == |t|
    decreases |t|
  {
    if |t| > 1 {
      assert (t + rest)[1..] == t[1..] + rest;
      TokenLengthOfJoin(t[1..], rest);
    } else {
      assert (t + rest)[1..] == rest;
    }
  }

  /** Splitting the space-joined tokens gives the tokens back. */
  lemma {:induction false} SplitJoin(ts: seq<string>)
    requires forall i :: 0 <= i < |ts| ==> IsToken(ts[i])
    ensures Split(Join(ts)) == ts
  {
    if |ts| == 0 {
    } else if |ts| == 1 {
      var t := ts[0];
      TokenLengthOfJoin(t, "");
      assert t + "" == t;
      assert t[|t|..] == "";
      assert Split(t) == [t[..|t|]] + Split(t[|t|..]);
    } else {
      var t := ts[0];
      var rest := " " + Join(ts[1..]);
      assert Join(ts) == t + rest;
      TokenLengthOfJoin(t, rest);
      assert (t + rest)[..|t|] == t;
      assert (t + rest)[|t|..] == rest;
      assert Split(t + rest) == [t] + Split(rest);
      SplitSpacePrefix(rest);
      assert rest[1..] == Join(ts[1..]);
      SplitJoin(ts[1..]);
    }
  }

  // ---------------------------------------------------------------------
  // Decimal numerals

  predicate AllDigits(s: string) {
    forall i :: 0 <= i < |s| ==> IsDigit(s[i])
  }

  function DigitValue(c: char): nat
    requires IsDigit(c)
  {
    c as int - '0' as int
  }

  /** Value of a string of decimal digits, most significant first. */
  function DigitsValue(s: string): nat
    requires AllDigits(s)
  {
    if |s| == 0 then 0 else 10 * DigitsValue(s[..|s| - 1]) + DigitValue(s[|s| - 1])
  }

  /** `str(n)` for a natural number. */
  function NatToString(n: nat): (s: string)
    ensures |s| > 0 && AllDigits(s)
    ensures DigitsValue(s) == n
    ensures |s| > 1 ==> s[0] != '0'
  {
    if n < 10 then ['0' + n as char]
    else
      var p := NatToString(n / 10);
      var s := p + ['0' + (n % 10) as char];
      assert s[..|s| - 1] == p;
      s
  }

  /** Distinct numbers print differently. */
  lemma NatToStringInjective(m: nat, n: nat)
    requires NatToString(m) == NatToString(n)
    ensures m == n
  {
  }

  function Pow10(n: nat): (p: nat)
    ensures p >= 1
  {
    if n == 0 then 1 else 10 * Pow10(n - 1)
  }

  /** Python's `int(s)` for the forms the grid files use: surrounding
      whitespace, an optional sign and at least one decimal digit. */
  function ParseInt(s: string): Option<int> {
    SignedDigits(Strip(s))
  }

  /** An optional sign followed by at least one decimal digit. */
  function SignedDigits(t: string): Option<int> {
    if |t| > 1 && (t[0] == '-' || t[0] == '+') && AllDigits(t[1..]) then
      var v := DigitsValue(t[1..]);
      Some(if t[0] == '-' then -(v as int) else v)
    else if |t| > 0 && AllDigits(t) then
      Some(DigitsValue(t))
    else None
  }

  function LeadingSpaces(s: string): (n: nat)
    ensures n <= |s|
    ensures forall i :: 0 <= i < n ==> IsSpace(s[i])
    ensures n < |s| ==> !IsSpace(s[n])
  {
    if |s| == 0 || !IsSpace(s[0]) then 0 else 1 + LeadingSpaces(s[1..])
  }

  /** `s.strip()` */
  function Strip(s: string): (t: string)
    ensures |t| <= |s|
  {
    if |s| > 0 && IsSpace(s[0]) then Strip(s[1..])
    else if |s| > 0 && IsSpace(s[|s| - 1]) then Strip(s[..|s| - 1])
    else s
  }

  /** `10^e` as a real, for a possibly negative exponent. */
  function Scale(e: int): (r: real)
    ensures r > 0.0
  {
    if e >= 0 then Pow10(e) as real else 1.0 / Pow10(-e) as real
  }

  /** Split point of the mantissa of a numeral: the index of its first
      character that is neither a digit nor a point. */
  function MantissaLength(s: string): (n: nat)
    ensures n <= |s|
  {
    if |s| == 0 || !(IsDigit(s[0]) || s[0] == '.') then 0 else 1 + MantissaLength(s[1..])
  }

  /** An unsigned mantissa `ddd`, `ddd.`, `.ddd` or `ddd.ddd`. */
  function ParseMantissa(m: string): Option<real> {
    if AllDigits(m) then
      if |m| == 0 then None else Some(DigitsValue(m) as real)
    else
      var p := Find(m, '.');
      if p == |m| then None
      else
        var whole := m[..p];
        var frac := m[p + 1..];
        if AllDigits(whole) && AllDigits(frac) && |whole| + |frac| > 0 then
          Some(DigitsValue(whole) as real + DigitsValue(frac) as real / Pow10(|frac|) as real)
        else None
  }

  /** Python's `float(s)` restricted to finite decimal numerals: optional
      sign, mantissa, optional exponent `e`/`E` with optional sign. */
  function ParseDecimal(s: string): Option<real> {
    var t := Strip(s);
    var neg := |t| > 0 && t[0] == '-';
    var u := if |t| > 0 && (t[0] == '-' || t[0] == '+') then t[1..] else t;
    var n := MantissaLength(u);
    var mantissa := ParseMantissa(u[..n]);
    var expo: Option<int> :=
      if n == |u| then Some(0)
      else if u[n] == 'e' || u[n] == 'E' then SignedDigits(u[n + 1..])
      else None;
    if mantissa.None? || expo.None? then None
    else
      var v := mantissa.value * Scale(expo.value);
      Some(if neg then -v else v)
  }

  /** A printed natural number reads back as the same value. */
  lemma ParseDecimalOfNat(n: nat)
    ensures ParseDecimal(NatToString(n)) == Some(n as real)
  {
    var s := NatToString(n);
    assert Strip(s) == s;
    assert IsDigit(s[0]);
    MantissaOfDigits(s);
    assert s[..|s|] == s;
    assert ParseMantissa(s) == Some(n as real);
    assert Scale(0) == 1.0;
  }

  lemma MantissaOfDigits(s: string)
    requires AllDigits(s)
    ensures MantissaLength(s) == |s|
  {
  }

  /** A printed natural number reads back with `int()`. */
  lemma ParseIntOfNat(n: nat)
    ensures ParseInt(NatToString(n)) == Some(n)
  {
    var s := NatToString(n);
    assert Strip(s) == s;
  }
}
