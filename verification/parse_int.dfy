/** ECMAScript's global `parseInt(string, 10)` (section 19.2.5 of ECMA-262)
    applied to a string argument: skip leading white space, read one optional
    `+` or `-`, then read the longest run of decimal digits.  `None` stands for
    the NaN returned when that run is empty; the sign of a zero result is
    dropped, since `-0 === 0` holds in JavaScript. */
module JsParseInt {
  import opened Wrappers

  /** StrWhiteSpaceChar of ECMA-262: the WhiteSpace code points (TAB, VT, FF,
      ZWNBSP and every space separator of category Zs) and the LineTerminator
      code points (LF, CR, LS, PS). */
  predicate IsWhiteSpace(c: char) {
    c in WhiteSpaceChars
  }

  const WhiteSpaceChars: set<char> := {
    '\t', '\U{000B}', '\U{000C}', '\U{FEFF}', ' ', '\U{00A0}', '\U{1680}',
    '\U{2000}', '\U{2001}', '\U{2002}', '\U{2003}', '\U{2004}', '\U{2005}',
    '\U{2006}', '\U{2007}', '\U{2008}', '\U{2009}', '\U{200A}',
    '\U{202F}', '\U{205F}', '\U{3000}',
    '\n', '\r', '\U{2028}', '\U{2029}'
  }

  /** A digit of radix 10. */
  predicate IsDigit(c: char) {
    '0' <= c <= '9'
  }

  predicate IsSign(c: char) {
    c == '+' || c == '-'
  }

  predicate AllWhiteSpace(s: string) {
    forall i :: 0 <= i < |s| ==> IsWhiteSpace(s[i])
  }

  predicate AllDigits(s: string) {
    forall i :: 0 <= i < |s| ==> IsDigit(s[i])
  }

  /** The strings a sign may be read as: nothing, `+` or `-`. */
  predicate IsSignPart(sign: string) {
    sign == "" || sign == "+" || sign == "-"
  }

  /** Length of the longest prefix of `s` made only of white space. */
  function WhiteSpacePrefix(s: string): (n: nat)
    ensures n <= |s|
    ensures forall i :: 0 <= i < n ==> IsWhiteSpace(s[i])
    ensures n == |s| || !IsWhiteSpace(s[n])
  {
    if |s| == 0 || !IsWhiteSpace(s[0]) then 0 else 1 + WhiteSpacePrefix(s[1..])
  }

  /** Length of the longest prefix of `s` made only of decimal digits. */
  function DigitPrefix(s: string): (n: nat)
    ensures n <= |s|
    ensures forall i :: 0 <= i < n ==> IsDigit(s[i])
    ensures n == |s| || !IsDigit(s[n])
  {
    if |s| == 0 || !IsDigit(s[0]) then 0 else 1 + DigitPrefix(s[1..])
  }

  function DigitValue(c: char): (v: nat)
    requires IsDigit(c)
    ensures v < 10
    ensures v == 0 <==> c == '0'
  {
    (c as int) - ('0' as int)
  }

  /** The value of the first `n` characters of `s`, all decimal digits,
      most significant digit first. */
  function PrefixValue(s: string, n: nat): nat
    requires n <= |s|
    requires forall i :: 0 <= i < n ==> IsDigit(s[i])
  {
    if n == 0 then 0 else 10 * PrefixValue(s, n - 1) + DigitValue(s[n - 1])
  }

  /** The value of a run of decimal digits. */
  function DigitsValue(d: string): nat
    requires AllDigits(d)
  {
    PrefixValue(d, |d|)
  }

  /** `parseInt(s, 10)`; `None` is NaN.  Blank text is NaN, text that starts
      with a digit is a number that is not negative, and text that starts with
      anything other than white space, a sign or a digit is NaN. */
  function ParseInt(s: string): (r: Option<int>)
    ensures AllWhiteSpace(s) ==> r.None?
    ensures |s| > 0 && IsDigit(s[0]) ==> r.Some? && r.value >= 0
    ensures |s| > 0 && !IsWhiteSpace(s[0]) && !IsSign(s[0]) && !IsDigit(s[0]) ==> r.None?
  {
    ParseSigned(s[WhiteSpacePrefix(s)..])
  }

  /** The part of `parseInt` after the white space: one optional sign. */
  function ParseSigned(t: string): Option<int> {
    if |t| > 0 && IsSign(t[0]) then ParseDigits(t[0] == '-', t[1..]) else ParseDigits(false, t)
  }

  /** The part of `parseInt` after the sign: the longest run of digits. */
  function ParseDigits(negative: bool, u: string): Option<int> {
    var n := DigitPrefix(u);
    if n == 0 then None
    else
      var m: int := PrefixValue(u, n);
      Some(if negative then -m else m)
  }

  /** The value of a digit prefix depends on nothing after it. */
  lemma {:induction false} PrefixValueOfConcat(d: string, rest: string, n: nat)
    requires n <= |d| && AllDigits(d)
    ensures PrefixValue(d + rest, n) == PrefixValue(d, n)
  {
    if n > 0 {
      PrefixValueOfConcat(d, rest, n - 1);
      assert (d + rest)[n - 1] == d[n - 1];
    }
  }

  /** A digit prefix has value zero exactly when every digit in it is `0`. */
  lemma {:induction false} PrefixValueZeroIff(s: string, n: nat)
    requires n <= |s| && forall i :: 0 <= i < n ==> IsDigit(s[i])
    ensures PrefixValue(s, n) == 0 <==> forall k :: 0 <= k < n ==> s[k] == '0'
  {
    if n > 0 {
      PrefixValueZeroIff(s, n - 1);
    }
  }

  /** A run of digits has value zero exactly when every digit is `0`: the
      reason `"00"` and `"-0"` both read as zero. */
  lemma DigitsValueZeroIff(d: string)
    requires AllDigits(d)
    ensures DigitsValue(d) == 0 <==> forall k :: 0 <= k < |d| ==> d[k] == '0'
  {
    PrefixValueZeroIff(d, |d|);
  }

  /** The white-space prefix ends where the first non-white-space character starts. */
  lemma {:induction false} WhiteSpacePrefixOf(ws: string, t: string)
    requires AllWhiteSpace(ws)
    requires |t| == 0 || !IsWhiteSpace(t[0])
    ensures WhiteSpacePrefix(ws + t) == |ws|
  {
    if |ws| > 0 {
      assert (ws + t)[0] == ws[0];
      assert (ws + t)[1..] == ws[1..] + t;
      WhiteSpacePrefixOf(ws[1..], t);
    }
  }

  /** The digit prefix ends where the first non-digit character starts. */
  lemma {:induction false} DigitPrefixOf(d: string, rest: string)
    requires AllDigits(d)
    requires |rest| == 0 || !IsDigit(rest[0])
    ensures DigitPrefix(d + rest) == |d|
  {
    if |d| > 0 {
      assert (d + rest)[0] == d[0];
      assert (d + rest)[1..] == d[1..] + rest;
      DigitPrefixOf(d[1..], rest);
    }
  }

  lemma ConcatRightNested<T>(a: seq<T>, b: seq<T>, c: seq<T>, d: seq<T>)
    ensures a + b + c + d == a + (b + (c + d))
  {
  }

  /** Leading white space is skipped. */
  lemma ParseIntSkipsWhiteSpace(ws: string, t: string)
    requires AllWhiteSpace(ws)
    requires |t| == 0 || !IsWhiteSpace(t[0])
    ensures ParseInt(ws + t) == ParseSigned(t)
  {
    WhiteSpacePrefixOf(ws, t);
    assert (ws + t)[|ws|..] == t;
  }

  /** An explicit sign is consumed and decides the sign of the result. */
  lemma ParseSignedOfSign(sign: string, u: string)
    requires IsSignPart(sign)
    requires sign == "" && |u| > 0 ==> !IsSign(u[0])
    ensures ParseSigned(sign + u) == ParseDigits(sign == "-", u)
  {
    if sign != "" {
      assert (sign + u)[0] == sign[0];
      assert (sign + u)[1..] == u;
    } else {
      assert sign + u == u;
    }
  }

  /** The digit run is read up to the first non-digit. */
  lemma ParseDigitsOfRun(negative: bool, d: string, rest: string)
    requires |d| > 0 && AllDigits(d)
    requires |rest| == 0 || !IsDigit(rest[0])
    ensures ParseDigits(negative, d + rest) == Some(if negative then -(DigitsValue(d) as int) else DigitsValue(d))
  {
    DigitPrefixOf(d, rest);
    PrefixValueOfConcat(d, rest, |d|);
  }

  /** A string made of white space, an optional sign, a non-empty run of
      digits and anything not starting with a digit parses as the signed
      value of that run. */
  lemma ParseIntOfNumeral(s: string, ws: string, sign: string, d: string, rest: string)
    requires s == ws + sign + d + rest
    requires AllWhiteSpace(ws) && IsSignPart(sign)
    requires |d| > 0 && AllDigits(d)
    requires |rest| == 0 || !IsDigit(rest[0])
    ensures ParseInt(s) == Some(if sign == "-" then -(DigitsValue(d) as int) else DigitsValue(d))
  {
    var u := d + rest;
    var t := sign + u;
    ConcatRightNested(ws, sign, d, rest);
    assert s == ws + t;
    assert t[0] == if sign == "" then d[0] else sign[0];
    ParseIntSkipsWhiteSpace(ws, t);
    assert u[0] == d[0];
    ParseSignedOfSign(sign, u);
    ParseDigitsOfRun(sign == "-", d, rest);
  }

  /** A string whose white space and optional sign are not followed by a
      digit parses as NaN.  When no sign was read, the next character is
      neither a sign nor white space (otherwise it would have been read as
      one). */
  lemma ParseIntOfNonNumeral(s: string, ws: string, sign: string, rest: string)
    requires s == ws + sign + rest
    requires AllWhiteSpace(ws) && IsSignPart(sign)
    requires |rest| == 0 || !IsDigit(rest[0])
    requires sign == "" && |rest| > 0 ==> !IsSign(rest[0]) && !IsWhiteSpace(rest[0])
    ensures ParseInt(s) == None
  {
    var t := sign + rest;
    assert s == ws + t;
    assert |t| > 0 ==> t[0] == if sign == "" then rest[0] else sign[0];
    ParseIntSkipsWhiteSpace(ws, t);
    ParseSignedOfSign(sign, rest);
  }

  /** The longest white-space prefix and what follows it. */
  lemma WhiteSpaceSplit(s: string) returns (ws: string, t: string)
    ensures s == ws + t && AllWhiteSpace(ws)
    ensures |t| == 0 || !IsWhiteSpace(t[0])
  {
    var i := WhiteSpacePrefix(s);
    ws, t := s[..i], s[i..];
    assert forall k :: 0 <= k < |ws| ==> ws[k] == s[k];
    assert |t| > 0 ==> t[0] == s[i];
  }

  /** The optional sign at the start of `t` and what follows it. */
  lemma SignSplit(t: string) returns (sign: string, u: string)
    requires |t| == 0 || !IsWhiteSpace(t[0])
    ensures t == sign + u && IsSignPart(sign)
    ensures sign == "" && |u| > 0 ==> !IsSign(u[0]) && !IsWhiteSpace(u[0])
  {
    if |t| > 0 && IsSign(t[0]) {
      sign, u := t[..1], t[1..];
      assert sign == [t[0]];
    } else {
      sign, u := "", t;
    }
  }

  /** The longest digit prefix and what follows it. */
  lemma DigitSplit(u: string) returns (d: string, rest: string)
    ensures u == d + rest && AllDigits(d)
    ensures |rest| == 0 || !IsDigit(rest[0])
  {
    var n := DigitPrefix(u);
    d, rest := u[..n], u[n..];
    assert forall k :: 0 <= k < |d| ==> d[k] == u[k];
    assert |rest| > 0 ==> rest[0] == u[n];
  }

  /** `s` read as white space, an optional sign, a (possibly empty) run of
      digits, and a rest that does not continue the run; when both the sign
      and the run are empty, the rest does not start with a sign or white
      space either. */
  predicate IsNumeralSplit(s: string, ws: string, sign: string, d: string, rest: string) {
    && s == ws + sign + d + rest
    && AllWhiteSpace(ws) && IsSignPart(sign) && AllDigits(d)
    && (|rest| == 0 || !IsDigit(rest[0]))
    && (|d| == 0 && sign == "" && |rest| > 0 ==> !IsSign(rest[0]) && !IsWhiteSpace(rest[0]))
  }

  /** Every string has exactly the shape one of the two lemmas above
      describes, and `parseInt` yields a number exactly when its digit run is
      not empty. */
  lemma NumeralSplit(s: string) returns (ws: string, sign: string, d: string, rest: string)
    ensures IsNumeralSplit(s, ws, sign, d, rest)
    ensures ParseInt(s).Some? <==> |d| > 0
  {
    var t, u;
    ws, t := WhiteSpaceSplit(s);
    sign, u := SignSplit(t);
    d, rest := DigitSplit(u);
    assert s == ws + sign + d + rest by {
      ConcatRightNested(ws, sign, d, rest);
    }
    if |d| > 0 {
      ParseIntOfNumeral(s, ws, sign, d, rest);
    } else {
      assert s == ws + sign + rest by {
        assert d + rest == rest;
      }
      ParseIntOfNonNumeral(s, ws, sign, rest);
    }
  }

  /** An all-white-space prefix not followed by white space is the longest one. */
  lemma WhiteSpaceIsLongest(s: string, ws: string, t: string)
    requires s == ws + t && AllWhiteSpace(ws)
    requires |t| == 0 || !IsWhiteSpace(t[0])
    ensures ws == s[..WhiteSpacePrefix(s)]
  {
    var n := WhiteSpacePrefix(s);
    assert forall i :: 0 <= i < |ws| ==> s[i] == ws[i];
    assert |t| > 0 ==> s[|ws|] == t[0];
    assert |ws| == n;
  }

  /** A digit run not followed by a digit is the longest one. */
  lemma DigitRunIsLongest(u: string, d: string, rest: string)
    requires u == d + rest && AllDigits(d)
    requires |rest| == 0 || !IsDigit(rest[0])
    ensures d == u[..DigitPrefix(u)]
  {
    var n := DigitPrefix(u);
    assert forall i :: 0 <= i < |d| ==> u[i] == d[i];
    assert |rest| > 0 ==> u[|d|] == rest[0];
    assert |d| == n;
  }

  /** The sign `parseInt` reads at the start of `t`. */
  function SignOf(t: string): (sign: string)
    ensures IsSignPart(sign) && sign <= t
  {
    if |t| > 0 && IsSign(t[0]) then [t[0]] else ""
  }

  /** After the white space of a numeral split comes the sign `parseInt`
      reads, then a digit run and a rest that does not start with white
      space, a sign or a digit when the run is empty. */
  lemma SignIsCanonical(t: string, sign: string, u: string, d: string, rest: string)
    requires t == sign + u && u == d + rest
    requires IsSignPart(sign) && AllDigits(d)
    requires |d| == 0 && sign == "" && |rest| > 0 ==> !IsSign(rest[0]) && !IsWhiteSpace(rest[0])
    ensures sign == SignOf(t)
    ensures |t| > 0 ==> !IsWhiteSpace(t[0])
  {
    if |sign| > 0 {
      assert t[0] == sign[0];
    } else if |d| > 0 {
      assert t[0] == d[0];
    } else {
      assert t == rest;
    }
  }

  /** The white space of a numeral split is the longest one, and the other
      three parts make up what follows it. */
  lemma SplitIsCanonical(s: string, ws: string, sign: string, d: string, rest: string)
    requires IsNumeralSplit(s, ws, sign, d, rest)
    ensures ws == s[..WhiteSpacePrefix(s)]
    ensures sign + (d + rest) == s[|ws|..]
    ensures sign == SignOf(s[|ws|..])
  {
    var t := sign + (d + rest);
    assert s == ws + t by {
      ConcatRightNested(ws, sign, d, rest);
    }
    SignIsCanonical(t, sign, d + rest, d, rest);
    WhiteSpaceIsLongest(s, ws, t);
  }

  /** A string has only one numeral split. */
  lemma NumeralSplitUnique(s: string, ws: string, sign: string, d: string, rest: string,
                           ws': string, sign': string, d': string, rest': string)
    requires IsNumeralSplit(s, ws, sign, d, rest)
    requires IsNumeralSplit(s, ws', sign', d', rest')
    ensures ws == ws' && sign == sign' && d == d' && rest == rest'
  {
    SplitIsCanonical(s, ws, sign, d, rest);
    SplitIsCanonical(s, ws', sign', d', rest');
    var t := s[|ws|..];
    assert t[|sign|..] == d + rest && t[|sign|..] == d' + rest';
    DigitRunIsLongest(t[|sign|..], d, rest);
    DigitRunIsLongest(t[|sign|..], d', rest');
    assert rest == t[|sign|..][|d|..];
  }
}
