/** String operations the handlers and routes rely on: JavaScript's `trim`, `toLowerCase`, decimal
    rendering of a number in a template literal, and `Number.parseInt` without a radix. */
module Text {
  import opened Wrappers

  /** ECMAScript WhiteSpace and LineTerminator code points: what `String.prototype.trim` strips. */
  predicate IsSpace(c: char) {
    c == '\t' || c == '\n' || c == '\U{000B}' || c == '\U{000C}' || c == '\r' || c == ' '
    || c == '\U{00A0}' || c == '\U{1680}' || ('\U{2000}' <= c <= '\U{200A}')
    || c == '\U{2028}' || c == '\U{2029}' || c == '\U{202F}' || c == '\U{205F}'
    || c == '\U{3000}' || c == '\U{FEFF}'
  }

  /** `s` with its leading white space removed. */
  function TrimStart(s: string): (r: string)
    ensures |r| <= |s| && r == s[|s| - |r|..]
    ensures r == [] || !IsSpace(r[0])
    ensures forall i :: 0 <= i < |s| - |r| ==> IsSpace(s[i])
  {
    if s != [] && IsSpace(s[0]) then TrimStart(s[1..]) else s
  }

  /** `s` with its trailing white space removed. */
  function TrimEnd(s: string): (r: string)
    ensures |r| <= |s| && r == s[..|r|]
    ensures r == [] || !IsSpace(r[|r| - 1])
    ensures forall i :: |r| <= i < |s| ==> IsSpace(s[i])
  {
    if s != [] && IsSpace(s[|s| - 1]) then TrimEnd(s[..|s| - 1]) else s
  }

  /** JavaScript's `s.trim()`. */
  function Trim(s: string): string {
    TrimEnd(TrimStart(s))
  }

  /** A string JavaScript treats as falsy once trimmed (`!s.trim()`). */
  predicate IsBlank(s: string) {
    Trim(s) == []
  }

  /** A trimmed string is blank exactly when every character of the input is white space. */
  lemma BlankIffAllSpace(s: string)
    ensures IsBlank(s) <==> forall i :: 0 <= i < |s| ==> IsSpace(s[i])
  {
  }

  /** A trimmed string neither starts nor ends with white space. */
  lemma TrimShape(s: string)
    ensures var r := Trim(s); r == [] || (!IsSpace(r[0]) && !IsSpace(r[|r| - 1]))
  {
    var t := TrimStart(s);
    var r := TrimEnd(t);
    if r != [] {
      assert r[0] == t[0];
    }
  }

  /** Trimming twice is trimming once. */
  lemma TrimIdempotent(s: string)
    ensures Trim(Trim(s)) == Trim(s)
  {
    TrimShape(s);
    var r := Trim(s);
    if r != [] {
      assert TrimStart(r) == r;
      assert TrimEnd(r) == r;
    }
  }

  /** ASCII `toLowerCase` of one character. */
  function LowerChar(c: char): char {
    if 'A' <= c <= 'Z' then (c as int + 32) as char else c
  }

  /** JavaScript's `s.toLowerCase()` on the ASCII letters. */
  function ToLower(s: string): (r: string)
    ensures |r| == |s|
    ensures forall i :: 0 <= i < |s| ==> r[i] == LowerChar(s[i])
  {
    seq(|s|, i requires 0 <= i < |s| => LowerChar(s[i]))
  }

  /** Lower-casing twice is lower-casing once, and it never turns a character into or out of white space. */
  lemma ToLowerFacts(s: string)
    ensures ToLower(ToLower(s)) == ToLower(s)
    ensures forall i :: 0 <= i < |s| ==> (IsSpace(ToLower(s)[i]) <==> IsSpace(s[i]))
  {
  }

  lemma {:induction false} TrimStartToLower(s: string)
    ensures TrimStart(ToLower(s)) == ToLower(TrimStart(s))
  {
    ToLowerFacts(s);
    if s != [] && IsSpace(s[0]) {
      assert ToLower(s)[1..] == ToLower(s[1..]);
      TrimStartToLower(s[1..]);
    }
  }

  lemma {:induction false} TrimEndToLower(s: string)
    ensures TrimEnd(ToLower(s)) == ToLower(TrimEnd(s))
  {
    ToLowerFacts(s);
    if s != [] && IsSpace(s[|s| - 1]) {
      assert ToLower(s)[..|s| - 1] == ToLower(s[..|s| - 1]);
      TrimEndToLower(s[..|s| - 1]);
    }
  }

  /** Trimming and lower-casing commute. */
  lemma TrimToLower(s: string)
    ensures Trim(ToLower(s)) == ToLower(Trim(s))
  {
    TrimStartToLower(s);
    TrimEndToLower(TrimStart(s));
  }

  /** The e-mail normalisation `email.toLowerCase().trim()`. */
  function NormalizeEmail(e: string): string
  {
    Trim(ToLower(e))
  }

  /** Normalising an already normalised address changes nothing. */
  lemma NormalizeEmailIdempotent(e: string)
    ensures NormalizeEmail(NormalizeEmail(e)) == NormalizeEmail(e)
  {
    var l := ToLower(e);
    TrimToLower(l);
    ToLowerFacts(e);
    TrimIdempotent(l);
  }

  /** Case-insensitive comparison (MongoDB collation at strength 2, restricted to ASCII letters). */
  predicate SameIgnoringCase(a: string, b: string) {
    ToLower(a) == ToLower(b)
  }

  // ----- numbers -----

  predicate IsDigit(c: char) {
    '0' <= c <= '9'
  }

  function DigitChar(d: nat): (c: char)
    requires d < 10
    ensures IsDigit(c)
  {
    ('0' as int + d) as char
  }

  function DigitValue(c: char): (d: nat)
    requires IsDigit(c)
    ensures d < 10 && DigitChar(d) == c
  {
    c as int - '0' as int
  }

  /** The decimal digits of `n`, as `${n}` renders a non-negative integer. */
  function ShowNat(n: nat): (r: string)
    ensures r != []
    ensures forall i :: 0 <= i < |r| ==> IsDigit(r[i])
    ensures r[0] == '0' ==> n == 0 && r == "0"
  {
    if n < 10 then [DigitChar(n)] else ShowNat(n / 10) + [DigitChar(n % 10)]
  }

  /** The number a run of decimal digits denotes. */
  function DecimalValue(d: string): nat
    requires forall i :: 0 <= i < |d| ==> IsDigit(d[i])
  {
    if d == [] then 0 else DecimalValue(d[..|d| - 1]) * 10 + DigitValue(d[|d| - 1])
  }

  /** Reading back the digits `ShowNat` writes gives the number. */
  lemma {:induction false} DecimalValueShowNat(n: nat)
    ensures DecimalValue(ShowNat(n)) == n
  {
    if n >= 10 {
      var s := ShowNat(n);
      assert s[..|s| - 1] == ShowNat(n / 10);
      DecimalValueShowNat(n / 10);
    }
  }

  predicate IsHexDigit(c: char) {
    IsDigit(c) || 'a' <= c <= 'f' || 'A' <= c <= 'F'
  }

  function HexValue(c: char): nat
    requires IsHexDigit(c)
  {
    if IsDigit(c) then DigitValue(c) else if 'a' <= c <= 'f' then c as int - 'a' as int + 10 else c as int - 'A' as int + 10
  }

  /** The number a run of hexadecimal digits denotes. */
  function HexadecimalValue(d: string): nat
    requires forall i :: 0 <= i < |d| ==> IsHexDigit(d[i])
  {
    if d == [] then 0 else HexadecimalValue(d[..|d| - 1]) * 16 + HexValue(d[|d| - 1])
  }

  /** Length of the longest prefix of `s` whose characters satisfy `ok`. */
  function RunLength(s: string, ok: char -> bool): (k: nat)
    ensures k <= |s|
    ensures forall i :: 0 <= i < k ==> ok(s[i])
    ensures k < |s| ==> !ok(s[k])
  {
    if s != [] && ok(s[0]) then 1 + RunLength(s[1..], ok) else 0
  }

  /** `Number.parseInt(s)` without a radix: leading white space, an optional sign, a `0x`/`0X`
      prefix selecting base 16, then the longest run of digits; `None` stands for `NaN`. */
  function ParseInt(s: string): (r: Option<int>)
  {
    var t := TrimStart(s);
    var negative := t != [] && t[0] == '-';
    var body := if t != [] && (t[0] == '-' || t[0] == '+') then t[1..] else t;
    match Magnitude(body)
    case None => None
    case Some(m) => Some(if negative then -m else m)
  }

  /** The value of the digits after the sign: a `0x`/`0X` prefix selects base 16, otherwise the
      longest run of decimal digits; `None` when no digit follows. */
  function Magnitude(body: string): Option<int>
  {
    if |body| >= 2 && body[0] == '0' && (body[1] == 'x' || body[1] == 'X') then
      var hex := body[2..];
      var k := RunLength(hex, IsHexDigit);
      if k == 0 then None else Some(HexadecimalValue(hex[..k]))
    else
      var k := RunLength(body, IsDigit);
      if k == 0 then None else Some(DecimalValue(body[..k]))
  }

  /** `parseInt` reads back every number `${n}` writes. */
  lemma ParseShowNat(n: nat)
    ensures ParseInt(ShowNat(n)) == Some(n)
  {
    ParseDigits(ShowNat(n));
    DecimalValueShowNat(n);
  }

  /** `parseInt` of a non-empty run of decimal digits is the number they denote. */
  lemma ParseDigits(s: string)
    requires s != [] && forall i :: 0 <= i < |s| ==> IsDigit(s[i])
    ensures ParseInt(s) == Some(DecimalValue(s))
  {
    var c := s[0];
    assert IsDigit(c);
    NoLeadingSpace(s);
    UnsignedParse(s);
    MagnitudeDigits(s);
  }

  /** A string that does not start with white space is its own `trimStart`. */
  lemma NoLeadingSpace(s: string)
    requires s == [] || !IsSpace(s[0])
    ensures TrimStart(s) == s
  {
  }

  /** Without leading white space or sign, `parseInt` reads the digits as they stand. */
  lemma UnsignedParse(s: string)
    requires TrimStart(s) == s && (s == [] || (s[0] != '-' && s[0] != '+'))
    ensures ParseInt(s) == Magnitude(s)
  {
  }

  lemma MagnitudeDigits(s: string)
    requires s != [] && forall i :: 0 <= i < |s| ==> IsDigit(s[i])
    ensures Magnitude(s) == Some(DecimalValue(s))
  {
    assert !(|s| >= 2 && (s[1] == 'x' || s[1] == 'X')) by {
      if |s| >= 2 {
        assert IsDigit(s[1]);
      }
    }
    RunLengthAll(s, IsDigit);
    assert s[..|s|] == s;
  }

  /** A string whose every character passes `ok` is one run. */
  lemma {:induction false} RunLengthAll(s: string, ok: char -> bool)
    requires forall i :: 0 <= i < |s| ==> ok(s[i])
    ensures RunLength(s, ok) == |s|
  {
    if s != [] {
      RunLengthAll(s[1..], ok);
    }
  }
}
